/**
 GEMDOS relocation streams: tools/elf2mnx.py writes them, tools/build.py
 relocates programs with them.
 */
module Reloc {
  import opened Common

  const JUMP := 254

  // ----- longs in a buffer -----

  /** Store a long at p. */
  function PutLong(b: seq<byte>, p: nat, v: nat): (r: seq<byte>)
    requires p + 4 <= |b| && v < WORD32
    ensures |r| == |b| && Long(r, p) == v
    ensures forall i :: 0 <= i < |b| && !(p <= i < p + 4) ==> r[i] == b[i]
  {
    b[..p] + PackLong(v) + b[p + 4..]
  }

  // ----- the relocation set -----

  /** elf2mnx accepts this reference to be relocated in size bytes of text and data. */
  predicate Relocatable(offset: nat, size: nat) {
    offset % 2 == 0 && offset != 0 && offset + 4 <= size
  }

  /** The offsets of a list of 32-bit references; None when one cannot be expressed. */
  method Collect(refs: seq<nat>, size: nat) returns (r: Option<set<nat>>)
    ensures r.Some? <==> (forall i :: 0 <= i < |refs| ==> Relocatable(refs[i], size))
                         && (forall i, j :: 0 <= i < j < |refs| ==> refs[i] != refs[j])
    ensures r.Some? ==> forall x :: x in r.value <==> x in refs
  {
    var relocs: set<nat> := {};
    var i := 0;
    while i < |refs|
      invariant 0 <= i <= |refs|
      invariant forall x :: x in relocs <==> x in refs[..i]
      invariant forall k :: 0 <= k < i ==> Relocatable(refs[k], size)
      invariant forall j, k :: 0 <= j < k < i ==> refs[j] != refs[k]
    {
      if refs[i] % 2 != 0 || refs[i] == 0 || refs[i] + 4 > size || refs[i] in relocs {
        return None;
      }
      relocs := relocs + {refs[i]};
      i := i + 1;
    }
    return Some(relocs);
  }

  /** Increasing offsets that can be expressed: what sorted() makes of a relocation set. */
  ghost predicate Offsets(offs: seq<nat>, size: nat) {
    && size <= WORD32
    && (forall i :: 0 <= i < |offs| ==> Relocatable(offs[i], size))
    && (forall i, j :: 0 <= i < j < |offs| ==> offs[i] < offs[j])
  }

  // ----- the stream -----

  /** A distance: as many jumps of 254 as it takes, then the rest. */
  function Steps(d: nat): (s: seq<byte>)
    requires d > 0
  {
    if d > JUMP then [1] + Steps(d - JUMP) else [d]
  }

  /** The distances from one offset to the next. */
  function Distances(offs: seq<nat>): seq<byte>
    requires forall i, j :: 0 <= i < j < |offs| ==> offs[i] < offs[j]
  {
    if |offs| <= 1 then []
    else Distances(offs[..|offs| - 1]) + Steps(offs[|offs| - 1] - offs[|offs| - 2])
  }

  function Stream(offs: seq<nat>): seq<byte>
    requires forall i, j :: 0 <= i < j < |offs| ==> offs[i] < offs[j]
    requires |offs| > 0 ==> offs[0] < WORD32
  {
    if offs == [] then PackLong(0) else PackLong(offs[0]) + Distances(offs) + [0]
  }

  /** The jumps from one offset to the next. */
  method PutSteps(rel0: seq<byte>, last0: nat, curr: nat) returns (rel: seq<byte>)
    requires last0 < curr
    ensures rel == rel0 + Steps(curr - last0)
  {
    rel := rel0;
    var last := last0;
    while curr - last > JUMP
      invariant last < curr
      invariant rel + Steps(curr - last) == rel0 + Steps(curr - last0)
    {
      rel := rel + [1];
      last := last + JUMP;
    }
    rel := rel + [curr - last];
  }

  /** The encoder of elf2mnx; offs are the sorted relocations. */
  method Encode(offs: seq<nat>, ghost size: nat) returns (rel: seq<byte>)
    requires Offsets(offs, size)
    ensures rel == Stream(offs)
  {
    hide Steps;
    rel := [];
    var last := 0;
    var i := 0;
    while i < |offs|
      invariant 0 <= i <= |offs|
      invariant last == if i == 0 then 0 else offs[i - 1]
      invariant rel == if i == 0 then [] else PackLong(offs[0]) + Distances(offs[..i])
    {
      var curr := offs[i];
      assert offs[..i + 1][..i] == offs[..i];
      if last == 0 {
        rel := rel + PackLong(curr);
      } else {
        rel := PutSteps(rel, last, curr);
      }
      last := curr;
      i := i + 1;
    }
    assert offs[..i] == offs;
    if last == 0 {
      rel := rel + PackLong(0);
    } else {
      rel := rel + [0];
    }
  }

  /** The first offset as a long, distances as bytes, a 1 for every 254 left out, and a 0. */
  lemma StreamExample()
    ensures Stream([4, 10, 600]) == [0, 0, 0, 4, 6, 1, 1, 82, 0] && Stream([]) == [0, 0, 0, 0]
  {
    var one: seq<nat>, two: seq<nat>, three: seq<nat> := [4], [4, 10], [4, 10, 600];
    assert three[..2] == two && two[..1] == one;
    assert Steps(6) == [6];
    assert Steps(590) == [1] + Steps(336) && Steps(336) == [1] + Steps(82) && Steps(82) == [82];
    assert Distances(one) == [] && Distances(two) == [6];
    assert Distances(three) == [6] + Steps(590);
    assert PackLong(4) == [0, 0, 0, 4];
  }

  // ----- relocation -----

  /** Add the shift to the long at p. */
  function Shifted(b: seq<byte>, p: nat, shift: nat): (r: seq<byte>)
    requires p + 4 <= |b|
    ensures |r| == |b|
  {
    PutLong(b, p, (Long(b, p) + shift) % WORD32)
  }

  /** Relocate at each offset in turn. */
  function Relocated(b: seq<byte>, offs: seq<nat>, shift: nat): (r: seq<byte>)
    requires forall i :: 0 <= i < |offs| ==> offs[i] + 4 <= |b|
    ensures |r| == |b|
  {
    if offs == [] then b
    else Shifted(Relocated(b, offs[..|offs| - 1], shift), offs[|offs| - 1], shift)
  }

  /** The next offset to relocate: behind p2, from p1.  None: an error. */
  datatype Next = Bad | End | At(p1: nat, p2: nat)

  function Advance(rel: seq<byte>, p1: nat, p2: nat): (n: Next)
    ensures n.At? ==> p2 < n.p2 <= |rel|
    decreases |rel| - p2
  {
    if p2 >= |rel| then Bad
    else if rel[p2] == 1 then Advance(rel, p1 + JUMP, p2 + 1)
    else if rel[p2] == 0 then End
    else if rel[p2] % 2 == 1 then Bad
    else At(p1 + rel[p2], p2 + 1)
  }

  /** All offsets the stream visits from p1 on, in a buffer of the given size; None: an error. */
  function Visits(rel: seq<byte>, size: nat, p1: nat, p2: nat): Option<seq<nat>>
    decreases |rel| - p2
  {
    if p1 + 4 > size then None
    else
      match Advance(rel, p1, p2)
      case Bad => None
      case End => Some([p1])
      case At(q1, q2) =>
        match Visits(rel, size, q1, q2)
        case None => None
        case Some(rest) => Some([p1] + rest)
  }

  function AllVisits(rel: seq<byte>, size: nat): Option<seq<nat>> {
    if |rel| < 4 then None
    else if Long(rel, 0) == 0 then Some([])
    else Visits(rel, size, Long(rel, 0), 4)
  }

  /** Add the shift to the long at p of a buffer. */
  method ShiftLong(buf: array<byte>, p: nat, shift: nat)
    requires p + 4 <= buf.Length
    modifies buf
    ensures buf[..] == Shifted(old(buf[..]), p, shift)
  {
    var x0: nat, x1: nat, x2: nat, x3: nat := buf[p], buf[p + 1], buf[p + 2], buf[p + 3];
    var v := (0x1_0000 * (256 * x0 + x1) + (256 * x2 + x3) + shift) % WORD32;
    assert v == (Long(buf[..], p) + shift) % WORD32;
    var b4 := PackLong(v);
    buf[p], buf[p + 1], buf[p + 2], buf[p + 3] := b4[0], b4[1], b4[2], b4[3];
  }

  /** The bytes of the stream up to the next offset or the end. */
  method NextStop(rel: seq<byte>, p: nat, at: nat) returns (n: Next)
    ensures n == Advance(rel, p, at)
  {
    var p1: nat, p2: nat := p, at;
    while p2 < |rel|
      invariant at <= p2 && Advance(rel, p1, p2) == Advance(rel, p, at)
      decreases |rel| - p2
    {
      var c := rel[p2];
      p2 := p2 + 1;
      if c != 1 {
        return if c == 0 then End else if c % 2 == 1 then Bad else At(p1 + c, p2);
      }
      p1 := p1 + JUMP;
    }
    n := Bad;
  }

  /** relocate(): the text and data with the shift added where the stream says; None: pexit
      or an exception. */
  method Relocate(text: seq<byte>, rel: seq<byte>, shift: nat) returns (r: Option<seq<byte>>)
    ensures r.Some? <==> AllVisits(rel, |text|).Some?
    ensures r.Some? ==> var v := AllVisits(rel, |text|).value;
                        && (forall i :: 0 <= i < |v| ==> v[i] + 4 <= |text|)
                        && r.value == Relocated(text, v, shift)
  {
    hide Advance, Shifted, Long, Relocated, Visits, Remaining;
    if |rel| < 4 {
      return None;
    }
    NothingDone(text, rel, shift);
    var p1: nat := Long(rel, 0);
    if p1 == 0 {
      return Some(text);
    }
    var buf := new byte[|text|](i requires 0 <= i < |text| => text[i]);
    assert buf[..] == text;
    var p2 := 4;
    ghost var done: seq<nat> := [];
    while true
      invariant 4 <= p2 <= |rel|
      invariant forall i :: 0 <= i < |done| ==> done[i] + 4 <= |text|
      invariant buf[..] == Relocated(text, done, shift)
      invariant Remaining(rel, |text|, done, p1, p2)
      decreases |rel| - p2
    {
      OneMore(rel, |text|, done, p1, p2);
      if p1 >= |text| || p1 + 4 > |text| {
        return None;
      }
      RelocatedSnoc(text, done, p1, shift);
      ShiftLong(buf, p1, shift);
      done := done + [p1];
      var next := NextStop(rel, p1, p2);
      match next
      case Bad =>
        return None;
      case End =>
        return Some(buf[..]);
      case At(q1, q2) =>
        p1, p2 := q1, q2;
    }
  }

  /** What is left to visit from p1 on completes what is done. */
  ghost predicate Remaining(rel: seq<byte>, size: nat, done: seq<nat>, p1: nat, p2: nat) {
    AllVisits(rel, size) == match Visits(rel, size, p1, p2)
                            case None => None
                            case Some(rest) => Some(done + rest)
  }

  lemma NothingDone(text: seq<byte>, rel: seq<byte>, shift: nat)
    requires |rel| >= 4
    ensures Relocated(text, [], shift) == text
    ensures Long(rel, 0) != 0 ==> Remaining(rel, |text|, [], Long(rel, 0), 4)
  {
    hide Visits;
    if Visits(rel, |text|, Long(rel, 0), 4).Some? {
      var v := Visits(rel, |text|, Long(rel, 0), 4).value;
      assert [] + v == v;
    }
  }

  lemma OneMore(rel: seq<byte>, size: nat, done: seq<nat>, p1: nat, p2: nat)
    requires Remaining(rel, size, done, p1, p2)
    ensures p1 + 4 > size ==> AllVisits(rel, size).None?
    ensures p1 + 4 <= size ==>
              match Advance(rel, p1, p2)
              case Bad => AllVisits(rel, size).None?
              case End => AllVisits(rel, size) == Some(done + [p1])
              case At(q1, q2) => Remaining(rel, size, done + [p1], q1, q2)
  {
    hide AllVisits;
    var n := Advance(rel, p1, p2);
    if p1 + 4 <= size && n.At? && Visits(rel, size, n.p1, n.p2).Some? {
      var rest := Visits(rel, size, n.p1, n.p2).value;
      assert done + ([p1] + rest) == done + [p1] + rest;
    }
  }

  lemma RelocatedSnoc(b: seq<byte>, offs: seq<nat>, p: nat, shift: nat)
    requires p + 4 <= |b| && forall i :: 0 <= i < |offs| ==> offs[i] + 4 <= |b|
    ensures Relocated(b, offs + [p], shift) == Shifted(Relocated(b, offs, shift), p, shift)
  {
    assert (offs + [p])[..|offs|] == offs;
  }

  // ----- which streams are accepted -----

  /** How many bytes from p on are 1. */
  function Ones(rel: seq<byte>, p: nat): (k: nat)
    requires p <= |rel|
    ensures p + k <= |rel| && (forall i :: p <= i < p + k ==> rel[i] == 1) && (p + k < |rel| ==> rel[p + k] != 1)
    decreases |rel| - p
  {
    if p < |rel| && rel[p] == 1 then 1 + Ones(rel, p + 1) else 0
  }

  lemma {:induction false} AdvanceMeans(rel: seq<byte>, p1: nat, p2: nat)
    requires p2 <= |rel|
    ensures var k := Ones(rel, p2);
            Advance(rel, p1, p2) ==
              if p2 + k == |rel| then Bad
              else if rel[p2 + k] == 0 then End
              else if rel[p2 + k] % 2 == 1 then Bad
              else At(p1 + (254 * k + rel[p2 + k]), p2 + k + 1)
    decreases |rel| - p2
  {
    if p2 < |rel| && rel[p2] == 1 {
      AdvanceMeans(rel, p1 + 254, p2 + 1);
    }
  }

  /** From p on the stream has the distances between the offsets, each as some bytes 1, which stand
      for 254, and an even one; after the last offset a 0 comes behind the bytes 1. */
  ghost predicate Describes(rel: seq<byte>, p: nat, offs: seq<nat>)
    requires p <= |rel|
    decreases |offs|
  {
    var k := Ones(rel, p);
    && p + k < |rel| && offs != []
    && if |offs| == 1 then rel[p + k] == 0
       else && rel[p + k] != 0 && rel[p + k] % 2 == 0 && offs[1] == offs[0] + (254 * k + rel[p + k])
            && Describes(rel, p + k + 1, offs[1..])
  }

  ghost predicate AllInside(offs: seq<nat>, size: nat) {
    forall i :: 0 <= i < |offs| ==> offs[i] + 4 <= size
  }

  lemma {:induction false} VisitsExactly(rel: seq<byte>, size: nat, p1: nat, p2: nat, offs: seq<nat>)
    requires p2 <= |rel|
    ensures Visits(rel, size, p1, p2) == Some(offs) <==>
              offs != [] && offs[0] == p1 && AllInside(offs, size) && Describes(rel, p2, offs)
    decreases |rel| - p2
  {
    hide Ones, Advance;
    AdvanceMeans(rel, p1, p2);
    var n := Advance(rel, p1, p2);
    if p1 + 4 <= size {
      if n.At? {
        if offs != [] {
          VisitsExactly(rel, size, n.p1, n.p2, offs[1..]);
          FirstVisit(rel, size, p1, n, p2, offs);
        }
      } else {
        assert |offs| == 1 && offs[0] == p1 ==> offs == [p1];
      }
    }
  }

  lemma FirstVisit(rel: seq<byte>, size: nat, p1: nat, n: Next, p2: nat, offs: seq<nat>)
    requires p2 <= |rel| && n == Advance(rel, p1, p2) && n.At? && p1 + 4 <= size && offs != []
    ensures Visits(rel, size, p1, p2) == Some(offs) <==>
              offs[0] == p1 && Visits(rel, size, n.p1, n.p2) == Some(offs[1..])
    ensures AllInside(offs, size) <==> offs[0] + 4 <= size && AllInside(offs[1..], size)
  {
    hide Advance;
    var v := Visits(rel, size, n.p1, n.p2);
    if v.Some? {
      assert ([p1] + v.value)[1..] == v.value;
    }
    assert [offs[0]] + offs[1..] == offs;
  }

  /** relocate accepts these streams and no others. */
  lemma AcceptsExactly(rel: seq<byte>, size: nat, offs: seq<nat>)
    ensures AllVisits(rel, size) == Some(offs) <==>
              && |rel| >= 4
              && if Long(rel, 0) == 0 then offs == []
                 else offs != [] && offs[0] == Long(rel, 0) && AllInside(offs, size) && Describes(rel, 4, offs)
  {
    hide Visits, Describes, Long;
    if |rel| >= 4 {
      VisitsExactly(rel, size, Long(rel, 0), 4, offs);
    }
  }

  // ----- the round trip -----

  /** Reading a distance comes out at the next offset. */
  lemma {:induction false} AdvanceSteps(rel: seq<byte>, p1: nat, p2: nat, d: nat)
    requires d > 0 && d % 2 == 0 && p2 + |Steps(d)| <= |rel| && rel[p2..p2 + |Steps(d)|] == Steps(d)
    ensures Advance(rel, p1, p2) == At(p1 + d, p2 + |Steps(d)|)
    decreases d
  {
    assert rel[p2] == Steps(d)[0];
    if d > JUMP {
      var n := |Steps(d)|;
      assert rel[p2 + 1..p2 + n] == rel[p2..p2 + n][1..];
      AdvanceSteps(rel, p1 + JUMP, p2 + 1, d - JUMP);
    }
  }

  lemma {:induction false} DistancesPrefix(offs: seq<nat>, k: nat)
    requires forall i, j :: 0 <= i < j < |offs| ==> offs[i] < offs[j]
    requires k <= |offs|
    ensures Distances(offs[..k]) <= Distances(offs)
    decreases |offs|
  {
    hide Steps;
    if k == |offs| {
      assert offs[..k] == offs;
    } else {
      DistancesPrefix(offs[..|offs| - 1], k);
      assert offs[..|offs| - 1][..k] == offs[..k];
    }
  }

  lemma DistancesSnoc(offs: seq<nat>, k: nat)
    requires forall i, j :: 0 <= i < j < |offs| ==> offs[i] < offs[j]
    requires k + 1 < |offs|
    ensures Distances(offs[..k + 2]) == Distances(offs[..k + 1]) + Steps(offs[k + 1] - offs[k])
  {
    assert offs[..k + 2][..k + 1] == offs[..k + 1];
  }

  lemma {:induction false} VisitsFrom(offs: seq<nat>, size: nat, rel: seq<byte>, k: nat)
    requires Offsets(offs, size) && k < |offs| && Stream(offs) <= rel
    ensures Visits(rel, size, offs[k], 4 + |Distances(offs[..k + 1])|) == Some(offs[k..])
    decreases |offs| - k
  {
    hide Distances, Visits, Stream, Steps, Advance;
    var p2 := 4 + |Distances(offs[..k + 1])|;
    if k + 1 < |offs| {
      StepsAt(offs, size, rel, k);
      VisitsFrom(offs, size, rel, k + 1);
      assert [offs[k]] + offs[k + 1..] == offs[k..];
    } else {
      LastStep(offs, size, rel);
      assert offs[k..] == [offs[k]];
    }
    VisitsStep(rel, size, offs[k], p2);
  }

  /** From one offset the bytes lead to the next. */
  lemma StepsAt(offs: seq<nat>, size: nat, rel: seq<byte>, k: nat)
    requires Offsets(offs, size) && k + 1 < |offs| && Stream(offs) <= rel
    ensures Advance(rel, offs[k], 4 + |Distances(offs[..k + 1])|) == At(offs[k + 1], 4 + |Distances(offs[..k + 2])|)
  {
    hide Distances, Advance;
    var all, st := Distances(offs), Steps(offs[k + 1] - offs[k]);
    var p2 := 4 + |Distances(offs[..k + 1])|;
    DistancesSnoc(offs, k);
    assert rel[p2..p2 + |st|] == st by {
      assert Stream(offs)[4..4 + |all|] == all;
      DistancesPrefix(offs, k + 2);
      SliceOf(all, Distances(offs[..k + 1]), st);
      SliceIn(rel, all, 4, |Distances(offs[..k + 1])|, |st|);
    }
    AdvanceSteps(rel, offs[k], p2, offs[k + 1] - offs[k]);
  }

  /** Behind the last offset the stream ends. */
  lemma LastStep(offs: seq<nat>, size: nat, rel: seq<byte>)
    requires Offsets(offs, size) && offs != [] && Stream(offs) <= rel
    ensures var k := |offs| - 1;
            Advance(rel, offs[k], 4 + |Distances(offs[..k + 1])|) == End
  {
    hide Distances;
    assert offs[..|offs|] == offs;
    assert Stream(offs)[4 + |Distances(offs)|] == 0;
  }

  lemma VisitsStep(rel: seq<byte>, size: nat, p1: nat, p2: nat)
    requires p1 + 4 <= size
    ensures Advance(rel, p1, p2) == End ==> Visits(rel, size, p1, p2) == Some([p1])
    ensures var n := Advance(rel, p1, p2);
            n.At? && Visits(rel, size, n.p1, n.p2).Some? ==>
              Visits(rel, size, p1, p2) == Some([p1] + Visits(rel, size, n.p1, n.p2).value)
  {
  }

  lemma SliceOf(all: seq<byte>, a: seq<byte>, b: seq<byte>)
    requires a + b <= all
    ensures all[|a|..|a| + |b|] == b
  {
  }

  lemma SliceIn(rel: seq<byte>, all: seq<byte>, at: nat, from: nat, n: nat)
    requires at + |all| <= |rel| && rel[at..at + |all|] == all && from + n <= |all|
    ensures rel[at + from..at + from + n] == all[from..from + n]
  {
    forall i | at + from <= i < at + from + n
      ensures rel[i] == all[i - at]
    {
      assert rel[i] == rel[at..at + |all|][i - at];
    }
  }

  /** Decoding what was encoded visits exactly the offsets, once each and in order, whatever
      follows the stream in the file. */
  lemma StreamVisits(offs: seq<nat>, size: nat, rel: seq<byte>)
    requires Offsets(offs, size) && Stream(offs) <= rel
    ensures AllVisits(rel, size) == Some(offs)
  {
    hide Distances, Visits;
    if offs == [] {
      LongAt(rel, 0);
    } else {
      assert PackLong(offs[0]) == Stream(offs)[..4];
      LongAt(rel, offs[0]);
      VisitsFrom(offs, size, rel, 0);
      assert offs[..1] == [offs[0]] && offs[0..] == offs;
      assert Distances([offs[0]]) == [] by {
        NoDistance(offs[0]);
      }
    }
  }

  lemma NoDistance(x: nat)
    ensures Distances([x]) == []
  {
  }

  lemma LongAt(rel: seq<byte>, v: nat)
    requires v < WORD32 && PackLong(v) <= rel
    ensures Long(rel, 0) == v
  {
    var p := PackLong(v);
    assert rel[0] == p[0] && rel[1] == p[1] && rel[2] == p[2] && rel[3] == p[3];
  }

  // ----- what relocation does to the bytes -----

  ghost predicate Apart(offs: seq<nat>) {
    forall i, j :: 0 <= i < j < |offs| ==> offs[i] + 4 <= offs[j]
  }

  /** Byte i belongs to none of the relocated longs. */
  ghost predicate Untouched(offs: seq<nat>, i: nat) {
    forall k :: 0 <= k < |offs| ==> !(offs[k] <= i < offs[k] + 4)
  }

  lemma LongFrame(a: seq<byte>, b: seq<byte>, p: nat)
    requires p + 4 <= |a| && p + 4 <= |b| && forall i :: p <= i < p + 4 ==> a[i] == b[i]
    ensures Long(a, p) == Long(b, p)
  {
  }

  /** Every long at these offsets has gained the shift modulo 2^32. */
  ghost predicate Gained(b: seq<byte>, r: seq<byte>, offs: seq<nat>, shift: nat)
    requires forall i :: 0 <= i < |offs| ==> offs[i] + 4 <= |b| == |r|
  {
    forall k :: 0 <= k < |offs| ==> Long(r, offs[k]) == (Long(b, offs[k]) + shift) % WORD32
  }

  lemma ShiftedOne(b: seq<byte>, p: nat, shift: nat)
    requires p + 4 <= |b|
    ensures Long(Shifted(b, p, shift), p) == (Long(b, p) + shift) % WORD32
    ensures forall i :: 0 <= i < |b| && !(p <= i < p + 4) ==> Shifted(b, p, shift)[i] == b[i]
  {
    hide Long;
  }

  /** Bytes outside the relocated longs never change. */
  lemma {:induction false} RelocatedFrame(b: seq<byte>, offs: seq<nat>, shift: nat)
    requires forall i :: 0 <= i < |offs| ==> offs[i] + 4 <= |b|
    ensures forall i :: 0 <= i < |b| && Untouched(offs, i) ==> Relocated(b, offs, shift)[i] == b[i]
    decreases |offs|
  {
    hide Long, Shifted;
    if offs != [] {
      var n := |offs| - 1;
      var before := offs[..n];
      RelocatedFrame(b, before, shift);
      ShiftedOne(Relocated(b, before, shift), offs[n], shift);
      forall i | 0 <= i < |b| && Untouched(offs, i)
        ensures Relocated(b, offs, shift)[i] == b[i]
      {
        assert Untouched(before, i) && !(offs[n] <= i < offs[n] + 4);
      }
    }
  }

  /** With offsets at least 4 apart each long gains the shift modulo 2^32. */
  lemma {:induction false} RelocatedLongs(b: seq<byte>, offs: seq<nat>, shift: nat)
    requires Apart(offs) && forall i :: 0 <= i < |offs| ==> offs[i] + 4 <= |b|
    ensures Gained(b, Relocated(b, offs, shift), offs, shift)
    decreases |offs|
  {
    hide Long, Shifted;
    if offs != [] {
      var n := |offs| - 1;
      var before := offs[..n];
      RelocatedLongs(b, before, shift);
      RelocatedFrame(b, before, shift);
      var r0, r := Relocated(b, before, shift), Relocated(b, offs, shift);
      assert r == Shifted(r0, offs[n], shift);
      ShiftedOne(r0, offs[n], shift);
      forall k | 0 <= k < |offs|
        ensures Long(r, offs[k]) == (Long(b, offs[k]) + shift) % WORD32
      {
        if k < n {
          assert before[k] == offs[k];
          LongFrame(r, r0, offs[k]);
        } else {
          assert forall i :: offs[n] <= i < offs[n] + 4 ==> Untouched(before, i);
          LongFrame(r0, b, offs[n]);
        }
      }
    }
  }

  // ----- overlapping longs -----

  function Half(b: seq<byte>, p: nat): (v: nat)
    requires p + 2 <= |b|
    ensures v < 0x1_0000
  {
    var x: nat, y: nat := b[p], b[p + 1];
    256 * x + y
  }

  lemma Halves(b: seq<byte>, p: nat)
    requires p + 4 <= |b|
    ensures Long(b, p) == 0x1_0000 * Half(b, p) + Half(b, p + 2)
  {
  }

  lemma {:induction false} RelocatedCat(b: seq<byte>, x: seq<nat>, y: seq<nat>, shift: nat)
    requires forall i :: 0 <= i < |x| ==> x[i] + 4 <= |b|
    requires forall i :: 0 <= i < |y| ==> y[i] + 4 <= |b|
    ensures Relocated(b, x + y, shift) == Relocated(Relocated(b, x, shift), y, shift)
    decreases |y|
  {
    if y == [] {
      assert x + y == x;
    } else {
      var n := |y| - 1;
      RelocatedCat(b, x, y[..n], shift);
      assert (x + y)[..|x + y| - 1] == x + y[..n];
    }
  }

  /** The second of two longs that share a word gains the shift only if its low half is 0: mid
      and low are its words before, m1 is its first word after the first long was shifted. */
  lemma SharedLow(hi: nat, mid: nat, low: nat, s: nat, first: nat, m1: nat)
    requires mid < 0x1_0000 && first == (0x1_0000 * hi + mid + s) % WORD32 && m1 == first % 0x1_0000
    requires (0x1_0000 * m1 + low + s) % WORD32 == (0x1_0000 * mid + low + s) % WORD32
    ensures s % 0x1_0000 == 0
  {
    LowHalf(0x1_0000 * hi + mid + s, hi, mid, s);
    SameTop(m1, mid, low + s);
    DivModUnique(mid + s, 0x1_0000, (mid + s) / 0x1_0000, mid);
  }

  /** And then the first only if the other half is 0 too. */
  lemma SharedHigh(w: nat, mid: nat, low: nat, s: nat, first: nat, second: nat)
    requires w < 0x1_0000 && mid < 0x1_0000 && low < 0x1_0000 && s < WORD32 && s % 0x1_0000 == 0
    requires second == (0x1_0000 * mid + low + s) % WORD32
    requires (0x1_0000 * first + second / 0x1_0000) == (0x1_0000 * w + mid + s) % WORD32
    ensures s == 0
  {
    var t := s / 0x1_0000;
    SharedSecond(mid, low, s, second);
    LowHalf(0x1_0000 * w + mid + s, w, mid, s);
    var m2 := second / 0x1_0000;
    DivModUnique(0x1_0000 * first + m2, 0x1_0000, first, m2);
    WordSum(mid, t);
  }

  lemma SharedSecond(mid: nat, low: nat, s: nat, second: nat)
    requires mid < 0x1_0000 && low < 0x1_0000 && s % 0x1_0000 == 0
    requires second == (0x1_0000 * mid + low + s) % WORD32
    ensures second / 0x1_0000 == (mid + s / 0x1_0000) % 0x1_0000
  {
    assert 0x1_0000 * mid + low + s == 0x1_0000 * (mid + s / 0x1_0000) + low;
    TopHalf(mid + s / 0x1_0000, low);
  }

  lemma WordSum(mid: nat, t: nat)
    requires mid < 0x1_0000 && t < 0x1_0000
    ensures (mid + 0x1_0000 * t) % 0x1_0000 == mid
    ensures (mid + t) % 0x1_0000 == mid ==> t == 0
  {
  }

  /** The low word of a sum. */
  lemma LowHalf(v: nat, hi: nat, mid: nat, s: nat)
    requires v == 0x1_0000 * hi + mid + s
    ensures v % WORD32 % 0x1_0000 == (mid + s) % 0x1_0000
  {
  }

  /** The high word. */
  lemma TopHalf(top: nat, low: nat)
    requires low < 0x1_0000
    ensures (0x1_0000 * top + low) % WORD32 / 0x1_0000 == top % 0x1_0000
  {
    var q, r := top / 0x1_0000, top % 0x1_0000;
    DivModUnique(0x1_0000 * top + low, WORD32, q, 0x1_0000 * r + low);
  }

  lemma SameTop(a: nat, b: nat, s: nat)
    requires a < 0x1_0000 && b < 0x1_0000 && (0x1_0000 * a + s) % WORD32 == (0x1_0000 * b + s) % WORD32
    ensures a == b
  {
    var x, y := 0x1_0000 * a + s, 0x1_0000 * b + s;
    assert x - y == WORD32 * (x / WORD32 - y / WORD32);
    SmallMultiple(WORD32, x / WORD32 - y / WORD32);
  }

  lemma ApartFront(offs: seq<nat>)
    requires |offs| >= 2 && Apart(offs[1..]) && offs[0] < offs[1]
    ensures offs[0] + 4 <= offs[1] ==> Apart(offs)
  {
    forall i, j | 0 <= i < j < |offs| && offs[0] + 4 <= offs[1]
      ensures offs[i] + 4 <= offs[j]
    {
      assert i > 0 ==> offs[1..][i - 1] + 4 <= offs[1..][j - 1];
      assert j > 1 ==> offs[1..][0] + 4 <= offs[1..][j - 1];
    }
  }

  /** The last two offsets that overlap. */
  lemma {:induction false} LastOverlap(offs: seq<nat>, size: nat) returns (k: nat)
    requires Offsets(offs, size) && !Apart(offs)
    ensures k + 1 < |offs| && offs[k + 1] == offs[k] + 2 && Apart(offs[k + 1..])
    decreases |offs|
  {
    var rest := offs[1..];
    if Apart(rest) {
      ApartFront(offs);
      assert Relocatable(offs[0], size) && Relocatable(offs[1], size);
      return 0;
    }
    k := LastOverlap(rest, size);
    assert rest[k + 1..] == offs[k + 2..];
    k := k + 1;
  }

  /** No shift, no change. */
  lemma {:induction false} NoShift(b: seq<byte>, offs: seq<nat>, shift: nat)
    requires shift % WORD32 == 0 && forall i :: 0 <= i < |offs| ==> offs[i] + 4 <= |b|
    ensures Relocated(b, offs, shift) == b
    decreases |offs|
  {
    hide Shifted;
    if offs != [] {
      var n := |offs| - 1;
      NoShift(b, offs[..n], shift);
      ShiftNone(b, offs[n], shift);
    }
  }

  lemma ShiftNone(b: seq<byte>, p: nat, shift: nat)
    requires p + 4 <= |b| && shift % WORD32 == 0
    ensures Shifted(b, p, shift) == b
  {
    hide Long, PutLong;
    SameLong(b, p);
    var v := Long(b, p);
    DivModUnique(v + shift, WORD32, shift / WORD32, v);
  }

  lemma SameLong(b: seq<byte>, p: nat)
    requires p + 4 <= |b|
    ensures PutLong(b, p, Long(b, p)) == b
  {
    var x0: nat, x1: nat, x2: nat, x3: nat := b[p], b[p + 1], b[p + 2], b[p + 3];
    var hi, lo := 256 * x0 + x1, 256 * x2 + x3;
    DivModUnique(Long(b, p), 0x1_0000, hi, lo);
    DivModUnique(hi, 256, x0, x1);
    DivModUnique(lo, 256, x2, x3);
    assert PackLong(Long(b, p)) == b[p..p + 4];
  }

  lemma RelocatedPair(b: seq<byte>, x: nat, shift: nat)
    requires x + 6 <= |b|
    ensures Relocated(b, [x, x + 2], shift) == Shifted(Shifted(b, x, shift), x + 2, shift)
  {
    hide Shifted;
    RelocatedSnoc(b, [], x, shift);
    RelocatedSnoc(b, [] + [x], x + 2, shift);
    assert [] + [x] + [x + 2] == [x, x + 2];
  }

  /** The longs of two offsets 2 apart, with none overlapping behind them, come from what their
      turn makes of them. */
  lemma {:induction false} AroundPair(b: seq<byte>, pre: seq<nat>, x: nat, post: seq<nat>, shift: nat)
    requires Offsets(pre + [x, x + 2] + post, |b|) && Apart([x + 2] + post)
    requires forall i :: 0 <= i < |pre| ==> pre[i] + 4 <= |b|
    requires forall i :: 0 <= i < |post| ==> post[i] + 4 <= |b|
    requires x + 6 <= |b|
    ensures var b1 := Relocated(b, pre, shift);
            var b3 := Shifted(Shifted(b1, x, shift), x + 2, shift);
            var r := Relocated(b, pre + [x, x + 2] + post, shift);
            && (forall i :: x + 2 <= i < x + 6 ==> b1[i] == b[i])
            && |r| == |b| && Long(r, x) == Long(b3, x) && Long(r, x + 2) == Long(b3, x + 2)
  {
    hide Relocated, Long, Shifted;
    var pair, offs := [x, x + 2], pre + [x, x + 2] + post;
    var b1 := Relocated(b, pre, shift);
    var b3 := Relocated(b1, pair, shift);
    RelocatedCat(b, pre + pair, post, shift);
    RelocatedCat(b, pre, pair, shift);
    RelocatedPair(b1, x, shift);
    RelocatedFrame(b, pre, shift);
    RelocatedFrame(b3, post, shift);
    assert forall i :: 0 <= i < |pre| ==> offs[i] == pre[i] && offs[|pre|] == x;
    forall i: nat | x + 2 <= i < x + 6
      ensures Untouched(pre, i)
    {
      PairFrame(pre, x, post, |b|, i);
    }
    forall i: nat | x <= i < x + 6
      ensures Untouched(post, i)
    {
      PostFrame(x, post, i);
    }
    LongFrame(Relocated(b, offs, shift), b3, x);
    LongFrame(Relocated(b, offs, shift), b3, x + 2);
  }

  lemma PairFrame(pre: seq<nat>, x: nat, post: seq<nat>, size: nat, i: nat)
    requires Offsets(pre + [x, x + 2] + post, size) && x + 2 <= i
    ensures Untouched(pre, i)
  {
    var offs := pre + [x, x + 2] + post;
    forall k | 0 <= k < |pre|
      ensures pre[k] + 4 <= i
    {
      assert offs[k] == pre[k] && offs[|pre|] == x;
      assert Relocatable(offs[k], size) && Relocatable(offs[|pre|], size);
    }
  }

  lemma PostFrame(x: nat, post: seq<nat>, i: nat)
    requires Apart([x + 2] + post) && i < x + 6
    ensures Untouched(post, i)
  {
    var offs := [x + 2] + post;
    forall k | 0 <= k < |post|
      ensures post[k] >= x + 6
    {
      assert offs[0] + 4 <= offs[k + 1];
    }
  }

  /** With two offsets 2 apart the longs do not all gain a shift that is not 0. */
  lemma {:induction false} OverlapFails(b: seq<byte>, offs: seq<nat>, shift: nat)
    requires Offsets(offs, |b|) && !Apart(offs)
    requires Gained(b, Relocated(b, offs, shift), offs, shift)
    ensures shift % WORD32 == 0
  {
    hide Relocated, Long, Shifted, Apart, Offsets;
    var k := LastOverlap(offs, |b|);
    var x := offs[k];
    var pre, post := offs[..k], offs[k + 2..];
    CutAtPair(offs, |b|, k);
    AroundPair(b, pre, x, post, shift);
    assert offs[k + 1] == x + 2;
    PairShifted(b, Relocated(b, pre, shift), x, shift);
  }

  lemma CutAtPair(offs: seq<nat>, size: nat, k: nat)
    requires Offsets(offs, size) && k + 1 < |offs| && offs[k + 1] == offs[k] + 2
    ensures var x, pre, post := offs[k], offs[..k], offs[k + 2..];
            && offs == pre + [x, x + 2] + post && offs[k + 1..] == [x + 2] + post && x + 6 <= size
            && (forall i :: 0 <= i < |pre| ==> pre[i] + 4 <= size)
            && (forall i :: 0 <= i < |post| ==> post[i] + 4 <= size)
  {
    var pre, post := offs[..k], offs[k + 2..];
    assert forall i :: 0 <= i < |pre| ==> pre[i] == offs[i];
    assert forall i :: 0 <= i < |post| ==> post[i] == offs[k + 2 + i];
  }

  lemma PairShifted(b: seq<byte>, b1: seq<byte>, x: nat, shift: nat)
    requires |b| == |b1| && x + 6 <= |b| && (forall i :: x + 2 <= i < x + 6 ==> b1[i] == b[i])
    requires var b3 := Shifted(Shifted(b1, x, shift), x + 2, shift);
             Long(b3, x) == (Long(b, x) + shift) % WORD32 && Long(b3, x + 2) == (Long(b, x + 2) + shift) % WORD32
    ensures shift % WORD32 == 0
  {
    hide Long, Half, Shifted;
    var b2 := Shifted(b1, x, shift);
    var b3 := Shifted(b2, x + 2, shift);
    TwoShifts(b, b1, b2, b3, x, shift);
    SharedWord(Half(b, x), Half(b1, x), Half(b, x + 2), Half(b, x + 4), Long(b2, x), Long(b3, x + 2), shift);
  }

  /** Two longs that share the word mid both gain the shift only if there is none.  hi is the first
      word when their turn comes, w the one the program had. */
  lemma SharedWord(w: nat, hi: nat, mid: nat, low: nat, first: nat, second: nat, shift: nat)
    requires w < 0x1_0000 && mid < 0x1_0000 && low < 0x1_0000
    requires first == (0x1_0000 * hi + mid + shift) % WORD32
    requires second == (0x1_0000 * (first % 0x1_0000) + low + shift) % WORD32
    requires second == (0x1_0000 * mid + low + shift) % WORD32
    requires 0x1_0000 * (first / 0x1_0000) + second / 0x1_0000 == (0x1_0000 * w + mid + shift) % WORD32
    ensures shift % WORD32 == 0
  {
    var s, m1, f1 := shift % WORD32, first % 0x1_0000, first / 0x1_0000;
    SumMod(0x1_0000 * hi + mid, shift);
    SumMod(0x1_0000 * mid + low, shift);
    SumMod(0x1_0000 * m1 + low, shift);
    SumMod(0x1_0000 * w + mid, shift);
    SharedLow(hi, mid, low, s, first, m1);
    SharedHigh(w, mid, low, s, f1, second);
  }

  lemma SumMod(a: nat, s: nat)
    ensures (a + s) % WORD32 == (a + s % WORD32) % WORD32
  {
    var q, r := (a + s % WORD32) / WORD32, (a + s % WORD32) % WORD32;
    DivModUnique(a + s, WORD32, q + s / WORD32, r);
  }

  /** Words and longs around x before, between and after the two shifts. */
  lemma TwoShifts(b: seq<byte>, b1: seq<byte>, b2: seq<byte>, b3: seq<byte>, x: nat, shift: nat)
    requires |b| == |b1| && x + 6 <= |b| && (forall i :: x + 2 <= i < x + 6 ==> b1[i] == b[i])
    requires b2 == Shifted(b1, x, shift) && b3 == Shifted(b2, x + 2, shift)
    ensures Long(b, x) == 0x1_0000 * Half(b, x) + Half(b, x + 2)
            && Long(b, x + 2) == 0x1_0000 * Half(b, x + 2) + Half(b, x + 4)
    ensures Long(b2, x) == (0x1_0000 * Half(b1, x) + Half(b, x + 2) + shift) % WORD32
    ensures Long(b3, x + 2) == (0x1_0000 * (Long(b2, x) % 0x1_0000) + Half(b, x + 4) + shift) % WORD32
    ensures Long(b3, x) == 0x1_0000 * (Long(b2, x) / 0x1_0000) + Long(b3, x + 2) / 0x1_0000
  {
    hide Long, Half, Shifted;
    ShiftedOne(b1, x, shift);
    ShiftedOne(b2, x + 2, shift);
    Halves(b, x);
    Halves(b, x + 2);
    Halves(b1, x);
    Halves(b2, x);
    Halves(b2, x + 2);
    Halves(b3, x);
    Halves(b3, x + 2);
    HalfFrame(b1, b, x + 2);
    HalfFrame(b1, b, x + 4);
    HalfFrame(b2, b1, x + 4);
    HalfFrame(b3, b2, x);
  }

  lemma HalfFrame(a: seq<byte>, b: seq<byte>, p: nat)
    requires p + 2 <= |a| == |b| && a[p] == b[p] && a[p + 1] == b[p + 1]
    ensures Half(a, p) == Half(b, p)
  {
  }

  /** Every long gains the shift if and only if the offsets are at least 4 apart or there is no
      shift, whatever the program is. */
  lemma RelocatedExactly(b: seq<byte>, offs: seq<nat>, shift: nat)
    requires Offsets(offs, |b|)
    ensures Gained(b, Relocated(b, offs, shift), offs, shift) <==> Apart(offs) || shift % WORD32 == 0
    ensures forall i :: 0 <= i < |b| && Untouched(offs, i) ==> Relocated(b, offs, shift)[i] == b[i]
  {
    hide Relocated, Long;
    RelocatedFrame(b, offs, shift);
    if Apart(offs) {
      RelocatedLongs(b, offs, shift);
    } else if shift % WORD32 == 0 {
      NoShift(b, offs, shift);
      NoGain(b, offs, shift);
    } else if Gained(b, Relocated(b, offs, shift), offs, shift) {
      OverlapFails(b, offs, shift);
    }
  }

  lemma NoGain(b: seq<byte>, offs: seq<nat>, shift: nat)
    requires shift % WORD32 == 0 && forall i :: 0 <= i < |offs| ==> offs[i] + 4 <= |b|
    ensures Gained(b, b, offs, shift)
  {
    hide Long;
  }

  /** Two references 2 apart share a word, and then the first does not just gain the shift. */
  lemma OverlapExample()
    ensures var b: seq<byte> := Zeroes();
            Long(Relocated(b, [2, 4], 0x1_0000), 2) == 0x1_0001 && Long(b, 2) == 0
  {
    var b: seq<byte> := Zeroes();
    assert [2, 4][..1] == [2];
    var r1 := Relocated(b, [2], 0x1_0000);
    assert r1 == Shifted(b, 2, 0x1_0000);
    assert r1 == [0, 0, 0, 1, 0, 0, 0, 0, 0, 0];
    var r2 := Relocated(b, [2, 4], 0x1_0000);
    assert r2 == Shifted(r1, 4, 0x1_0000);
  }

  function Zeroes(): seq<byte> {
    [0, 0, 0, 0, 0, 0, 0, 0, 0, 0]
  }

  lemma {:induction false} Least(s: set<nat>) returns (x: nat)
    requires s != {}
    ensures x in s && forall y :: y in s ==> x <= y
    decreases s
  {
    var a :| a in s;
    var rest := s - {a};
    if rest == {} {
      assert forall y :: y in s ==> y == a || y in rest;
      return a;
    }
    var b := Least(rest);
    x := if a < b then a else b;
    assert forall y :: y in s ==> y == a || y in rest;
  }

  /** sorted() */
  method Sorted(s: set<nat>) returns (r: seq<nat>)
    ensures forall i, j :: 0 <= i < j < |r| ==> r[i] < r[j]
    ensures forall x :: x in r <==> x in s
  {
    r := [];
    var rest := s;
    while rest != {}
      invariant rest <= s && (forall x :: x in s <==> x in rest || x in r)
      invariant forall i, j :: 0 <= i < j < |r| ==> r[i] < r[j]
      invariant forall x, y :: x in r && y in rest ==> x < y
      decreases rest
    {
      ghost var least := Least(rest);
      var x :| x in rest && forall y :: y in rest ==> x <= y;
      rest := rest - {x};
      assert forall i :: 0 <= i < |r| ==> r[i] in r;
      r := r + [x];
    }
  }

  /** elf2mnx and then build: every program whose references can be expressed is relocated at
      each of them. */
  method EncodeAndRelocate(text: seq<byte>, refs: seq<nat>, trailer: seq<byte>, shift: nat)
    returns (r: Option<seq<byte>>)
    requires |text| <= WORD32
    ensures r.Some? <==> (forall i :: 0 <= i < |refs| ==> Relocatable(refs[i], |text|))
                         && (forall i, j :: 0 <= i < j < |refs| ==> refs[i] != refs[j])
    ensures r.Some? ==> |r.value| == |text|
    ensures r.Some? ==> (Gained(text, r.value, refs, shift) <==> FarApart(refs) || shift % WORD32 == 0)
    ensures r.Some? ==> forall i :: 0 <= i < |text| && Untouched(refs, i) ==> r.value[i] == text[i]
  {
    hide Untouched, FarApart, Relocated, AllVisits, Stream, Gained;
    var relocs := Collect(refs, |text|);
    if relocs.None? {
      return None;
    }
    var offs := Sorted(relocs.value);
    SortedOffsets(refs, offs, |text|);
    var rel := Encode(offs, |text|);
    StreamVisits(offs, |text|, rel + trailer);
    r := Relocate(text, rel + trailer, shift);
    RelocatedRefs(text, refs, offs, shift);
  }

  lemma SortedOffsets(refs: seq<nat>, offs: seq<nat>, size: nat)
    requires size <= WORD32 && (forall x :: x in offs <==> x in refs)
    requires forall i :: 0 <= i < |refs| ==> Relocatable(refs[i], size)
    requires forall i, j :: 0 <= i < j < |offs| ==> offs[i] < offs[j]
    ensures Offsets(offs, size)
  {
    forall i | 0 <= i < |offs|
      ensures Relocatable(offs[i], size)
    {
      assert offs[i] in offs && offs[i] in refs;
    }
  }

  /** The same for references in any order. */
  lemma RelocatedRefs(text: seq<byte>, refs: seq<nat>, offs: seq<nat>, shift: nat)
    requires (forall x :: x in offs <==> x in refs) && Offsets(offs, |text|)
    requires forall i :: 0 <= i < |refs| ==> refs[i] + 4 <= |text|
    ensures |Relocated(text, offs, shift)| == |text|
    ensures Gained(text, Relocated(text, offs, shift), refs, shift) <==> FarApart(refs) || shift % WORD32 == 0
    ensures forall i :: 0 <= i < |text| && Untouched(refs, i) ==> Relocated(text, offs, shift)[i] == text[i]
  {
    hide Relocated, Untouched, Gained, Apart, FarApart;
    RelocatedExactly(text, offs, shift);
    SortedApart(refs, offs);
    SameGain(text, Relocated(text, offs, shift), refs, offs, shift);
    forall i: nat | i < |text| && Untouched(refs, i)
      ensures Relocated(text, offs, shift)[i] == text[i]
    {
      SortedUntouched(refs, offs, i);
    }
  }

  lemma SameGain(b: seq<byte>, r: seq<byte>, refs: seq<nat>, offs: seq<nat>, shift: nat)
    requires (forall x :: x in offs <==> x in refs) && |r| == |b|
    requires forall i :: 0 <= i < |refs| ==> refs[i] + 4 <= |b|
    requires forall i :: 0 <= i < |offs| ==> offs[i] + 4 <= |b|
    ensures Gained(b, r, refs, shift) <==> Gained(b, r, offs, shift)
  {
    hide Long;
    if Gained(b, r, offs, shift) {
      forall k | 0 <= k < |refs|
        ensures Long(r, refs[k]) == (Long(b, refs[k]) + shift) % WORD32
      {
        assert refs[k] in offs;
      }
    }
    if Gained(b, r, refs, shift) {
      forall k | 0 <= k < |offs|
        ensures Long(r, offs[k]) == (Long(b, offs[k]) + shift) % WORD32
      {
        assert offs[k] in refs;
      }
    }
  }

  /** References at least 4 apart, in any order. */
  ghost predicate FarApart(refs: seq<nat>) {
    forall i, j :: 0 <= i < |refs| && 0 <= j < |refs| && refs[i] < refs[j] ==> refs[i] + 4 <= refs[j]
  }

  lemma SortedApart(refs: seq<nat>, offs: seq<nat>)
    requires forall x :: x in offs <==> x in refs
    requires forall i, j :: 0 <= i < j < |offs| ==> offs[i] < offs[j]
    ensures FarApart(refs) <==> Apart(offs)
  {
    if FarApart(refs) {
      forall i, j | 0 <= i < j < |offs|
        ensures offs[i] + 4 <= offs[j]
      {
        assert offs[i] in refs && offs[j] in refs;
      }
    }
    if Apart(offs) {
      forall i, j | 0 <= i < |refs| && 0 <= j < |refs| && refs[i] < refs[j]
        ensures refs[i] + 4 <= refs[j]
      {
        assert refs[i] in offs && refs[j] in offs;
      }
    }
  }

  lemma SortedUntouched(refs: seq<nat>, offs: seq<nat>, i: nat)
    requires Untouched(refs, i) && (forall x :: x in offs <==> x in refs)
    ensures Untouched(offs, i)
  {
    forall k | 0 <= k < |offs|
      ensures !(offs[k] <= i < offs[k] + 4)
    {
      assert offs[k] in refs;
    }
  }
}
