/** src/commands/ed.c: the lines of the text as a ring of linked nodes. */
module EdBuffer {
  import opened Common

  const NL := '\n'

  class Line {
    var prev: Line
    var next: Line
    const text: string

    constructor (text: string)
      ensures this.text == text && prev == this && next == this
    {
      this.text := text;
      prev, next := this, this;
    }
  }

  /** a and b follow each other, in both directions. */
  ghost predicate Edge(a: Line, b: Line)
    reads a, b
  {
    a.next == b && b.prev == a
  }

  ghost predicate Chain(s: seq<Line>)
    reads s
  {
    forall i :: 0 <= i < |s| - 1 ==> Edge(s[i], s[i + 1])
  }

  ghost predicate Distinct(s: seq<Line>) {
    forall i, j :: 0 <= i < j < |s| ==> s[i] != s[j]
  }

  /** The nodes form a ring: forward and backward links are each other's inverse. */
  ghost predicate Ring(s: seq<Line>)
    reads s
  {
    s != [] && Distinct(s) && Chain(s) && Edge(s[|s| - 1], s[0])
  }

  ghost predicate Disjoint(a: seq<Line>, b: seq<Line>) {
    forall i, j :: 0 <= i < |a| && 0 <= j < |b| ==> a[i] != b[j]
  }

  function Texts(s: seq<Line>): (t: seq<string>)
    ensures |t| == |s| && forall i :: 0 <= i < |s| ==> t[i] == s[i].text
  {
    seq(|s|, i requires 0 <= i < |s| => s[i].text)
  }

  /** Lines as ins() takes them: each with a newline. */
  function Joined(lines: seq<string>): string {
    if lines == [] then "" else lines[0] + [NL] + Joined(lines[1..])
  }

  ghost predicate NoNewline(lines: seq<string>) {
    forall i :: 0 <= i < |lines| ==> NL !in lines[i]
  }

  // ----- what the commands do to a text -----

  function Inserted(text: seq<string>, at: nat, lines: seq<string>): seq<string>
    requires at <= |text|
  {
    text[..at] + lines + text[at..]
  }

  /** Lines from..to, counted from 1, taken out. */
  function Deleted(text: seq<string>, from: nat, to: nat): seq<string>
    requires 1 <= from <= to + 1 <= |text| + 1
  {
    text[..from - 1] + text[to..]
  }

  /** Lines from..to put behind line num, which is not one of them. */
  function Moved(text: seq<string>, from: nat, to: nat, num: nat): seq<string>
    requires 1 <= from <= to <= |text| && num <= |text| && !(from <= num <= to)
  {
    if num < from
    then text[..num] + text[from - 1..to] + text[num..from - 1] + text[to..]
    else text[..from - 1] + text[to..num] + text[from - 1..to] + text[num..]
  }

  // ----- chains -----

  lemma ChainCat(a: seq<Line>, b: seq<Line>)
    requires Chain(a) && Chain(b) && (a != [] && b != [] ==> Edge(a[|a| - 1], b[0]))
    ensures Chain(a + b)
  {
    var s := a + b;
    forall k | 0 <= k < |s| - 1
      ensures Edge(s[k], s[k + 1])
    {
      if k < |a| - 1 {
        assert Edge(a[k], a[k + 1]);
      } else if k >= |a| {
        assert Edge(b[k - |a|], b[k - |a| + 1]);
      }
    }
  }

  /** The links inside part j..k of a chain are as they were. */
  twostate predicate SameInside(s: seq<Line>, j: nat, k: nat)
    requires j <= k <= |s|
    reads s
  {
    && (forall i :: j < i < k ==> s[i].prev == old(s[i].prev))
    && (forall i :: j <= i < k - 1 ==> s[i].next == old(s[i].next))
  }

  /** The parts of a chain that stay chains. */
  twostate lemma ChainParts(s: seq<Line>)
    requires old(Chain(s))
    ensures forall j, k :: 0 <= j <= k <= |s| && SameInside(s, j, k) ==> Chain(s[j..k])
  {
    forall j, k | 0 <= j <= k <= |s| && SameInside(s, j, k)
      ensures Chain(s[j..k])
    {
      forall i | 0 <= i < k - j - 1
        ensures Edge(s[j..k][i], s[j..k][i + 1])
      {
        assert old(Edge(s[j + i], s[j + i + 1]));
      }
    }
  }

  /** Two parts of a sequence of distinct nodes. */
  lemma DistinctPart(s: seq<Line>, i: nat, j: nat, k: nat, l: nat)
    requires Distinct(s) && i <= j <= k <= l <= |s|
    ensures Distinct(s[i..j] + s[k..l]) && Distinct(s[i..j]) && Distinct(s[k..l]) && Disjoint(s[i..j], s[k..l])
  {
  }

  lemma DistinctThree(a: seq<Line>, b: seq<Line>, c: seq<Line>)
    requires Distinct(a + c) && Distinct(b) && Disjoint(a + c, b)
    ensures Distinct(a + b + c)
  {
    var s, ac := a + b + c, a + c;
    forall i, j | 0 <= i < j < |s|
      ensures s[i] != s[j]
    {
      var i1 := if i < |a| then i else i - |b|;
      var j1 := if j < |a| then j else j - |b|;
      assert i < |a| || i >= |a| + |b| ==> s[i] == ac[i1];
      assert j < |a| || j >= |a| + |b| ==> s[j] == ac[j1];
    }
  }

  lemma DeletedTexts(ring: seq<Line>, from: nat, to: nat)
    requires 1 <= from <= to + 1 <= |ring|
    ensures Texts((ring[..from] + ring[to + 1..])[1..]) == Deleted(Texts(ring[1..]), from, to)
  {
  }

  lemma InsertedTexts(ring: seq<Line>, at: nat, seg: seq<Line>)
    requires at < |ring|
    ensures Texts((ring[..at + 1] + seg + ring[at + 1..])[1..]) == Inserted(Texts(ring[1..]), at, Texts(seg))
  {
  }

  method Relink(a: Line, x: Line, y: Line, b: Line)
    modifies x`prev, y`next
    ensures x.prev == a && y.next == b
  {
    x.prev := a;
    y.next := b;
  }

  lemma RingOf(a: seq<Line>, c: seq<Line>)
    requires a != [] && Chain(a) && Chain(c) && Distinct(a + c)
    requires if c == [] then Edge(a[|a| - 1], a[0]) else Edge(a[|a| - 1], c[0]) && Edge(c[|c| - 1], a[0])
    ensures Ring(a + c)
  {
    hide Chain, Distinct;
    ChainCat(a, c);
  }

  /** Take nodes from..to out of a ring: first and last are the nodes around them. */
  method Bridge(ghost s: seq<Line>, first: Line, last: Line, ghost from: nat, ghost to: nat)
    requires Ring(s) && 1 <= from <= to + 1 <= |s|
    requires first == s[from - 1] && last == s[if to + 1 < |s| then to + 1 else 0]
    modifies last`prev, first`next
    ensures Ring(s[..from] + s[to + 1..]) && Chain(s[from..to + 1])
  {
    hide Chain;
    ghost var n := |s|;
    DistinctPart(s, 0, from, to + 1, n);
    Relink(first, last, first, last);
    ChainParts(s);
    assert SameInside(s, 0, from) && SameInside(s, from, to + 1) && SameInside(s, to + 1, n);
    ghost var a, b, c := s[0..from], s[from..to + 1], s[to + 1..n];
    assert Chain(a) && Chain(b) && Chain(c);
    RingOf(a, c);
    assert a + c == s[..from] + s[to + 1..];
  }

  /** Put a chain of nodes into a ring behind node at: k0 and k3 are the nodes around it. */
  method Weave(ghost s: seq<Line>, k0: Line, k1: Line, k2: Line, k3: Line, ghost at: nat, ghost seg: seq<Line>)
    requires Ring(s) && at < |s| && seg != [] && Chain(seg) && Distinct(seg) && Disjoint(s, seg)
    requires k0 == s[at] && k3 == s[if at + 1 < |s| then at + 1 else 0] && k1 == seg[0] && k2 == seg[|seg| - 1]
    modifies k1`prev, k2`next, k3`prev, k0`next
    ensures Ring(s[..at + 1] + seg + s[at + 1..])
  {
    hide Chain;
    ghost var n := |s|;
    Relink(k0, k1, k2, k3);
    Relink(k2, k3, k0, k1);
    ghost var a, c := s[0..at + 1], s[at + 1..n];
    ChainParts(s);
    assert SameInside(s, 0, at + 1) && SameInside(s, at + 1, n);
    assert Chain(a) && Chain(c);
    ChainParts(seg);
    assert SameInside(seg, 0, |seg|);
    assert seg == seg[0..|seg|];
    ChainCat(a, seg);
    assert s == a + c;
    DistinctThree(a, seg, c);
    RingOf(a + seg, c);
  }

  // ----- rings -----

  lemma RingNext(s: seq<Line>, i: nat)
    requires Ring(s) && i < |s|
    ensures s[i].next == if i + 1 < |s| then s[i + 1] else s[0]
  {
    if i + 1 < |s| {
      assert Edge(s[i], s[i + 1]);
    }
  }

  /** The place in a ring of m nodes after n steps. */
  function Around(n: nat, m: nat): (k: nat)
    requires m > 0
    ensures k < m && (n < m ==> k == n)
  {
    n % m
  }

  lemma NextAround(n: nat, m: nat)
    requires n > 0 && m > 0
    ensures var k := Around(n - 1, m);
            Around(n, m) == if k + 1 < m then k + 1 else 0
  {
    var q, k := (n - 1) / m, (n - 1) % m;
    if k + 1 < m {
      DivModUnique(n, m, q, k + 1);
    } else {
      DivModUnique(n, m, q + 1, 0);
    }
  }

  lemma RingDistinct(s: seq<Line>, from: nat, to: nat)
    requires Ring(s) && 1 <= from <= to + 1 <= |s|
    ensures forall j :: from <= j <= to ==> s[j] != s[0] && (to + 1 < |s| ==> s[j] != s[to + 1])
  {
  }

  lemma RingApart(s: seq<Line>, from: nat, to: nat)
    requires Ring(s) && 1 <= from <= to + 1 <= |s|
    ensures Disjoint(s[..from] + s[to + 1..], s[from..to + 1]) && Distinct(s[from..to + 1])
  {
    var a, b := s[..from] + s[to + 1..], s[from..to + 1];
    forall i, j | 0 <= i < |a| && 0 <= j < |b|
      ensures a[i] != b[j]
    {
      assert a[i] == s[if i < from then i else i - from + to + 1];
    }
  }

  lemma SingleChain(node: Line, s: seq<Line>)
    requires node !in s
    ensures Chain([node]) && Distinct([node]) && Disjoint(s, [node])
  {
  }

  // ----- texts -----

  /** From i on str has the lines from k on. */
  ghost predicate Left(str: string, i: nat, lines: seq<string>, k: nat) {
    i <= |str| && k <= |lines| && str[i..] == Joined(lines[k..]) && NoNewline(lines)
  }

  lemma AllLeft(lines: seq<string>)
    requires NoNewline(lines)
    ensures Left(Joined(lines), 0, lines, 0)
  {
    assert lines[0..] == lines && Joined(lines)[0..] == Joined(lines);
  }

  /** The first of the lines left to insert. */
  lemma FirstLine(str: string, i: nat, lines: seq<string>, k: nat)
    requires Left(str, i, lines, k) && k < |lines|
    ensures i + |lines[k]| < |str| && str[i..i + |lines[k]|] == lines[k] && str[i + |lines[k]|] == NL
    ensures NL !in lines[k]
    ensures Left(str, i + |lines[k]| + 1, lines, k + 1)
    ensures i + |lines[k]| + 1 == |str| <==> k + 1 == |lines|
    ensures lines[..k + 1] == lines[..k] + [lines[k]]
  {
    var rest := lines[k..];
    assert rest[0] == lines[k] && rest[1..] == lines[k + 1..];
    var j := Joined(rest);
    assert j == lines[k] + [NL] + Joined(lines[k + 1..]);
    assert forall x :: 0 <= x < |j| ==> str[i + x] == str[i..][x];
    assert str[i + |lines[k]| + 1..] == str[i..][|lines[k]| + 1..];
    if k + 1 < |lines| {
      assert lines[k + 1..] != [];
    }
  }

  lemma InsertedNone(t: seq<string>, at: nat)
    requires at <= |t|
    ensures Inserted(t, at, []) == t
  {
  }

  lemma InsertedTwice(t: seq<string>, at: nat, lines: seq<string>, line: string)
    requires at <= |t|
    ensures Inserted(Inserted(t, at, lines), at + |lines|, [line]) == Inserted(t, at, lines + [line])
  {
    var u := Inserted(t, at, lines);
    assert u[..at + |lines|] == t[..at] + lines && u[at + |lines|..] == t[at..];
  }

  lemma PartText(ring: seq<Line>, from: nat, to: nat)
    requires 1 <= from <= to < |ring|
    ensures Texts(ring[from..to + 1]) == Texts(ring[1..])[from - 1..to]
  {
  }

  lemma MovedText(t: seq<string>, from: nat, to: nat, num: nat)
    requires 1 <= from <= to <= |t| && num <= |t| && !(from <= num <= to)
    ensures var num1 := if num > from then num - (to - from + 1) else num;
            Inserted(Deleted(t, from, to), num1, t[from - 1..to]) == Moved(t, from, to, num)
  {
    var d := Deleted(t, from, to);
    if num < from {
      assert d[..num] == t[..num] && d[num..] == t[num..from - 1] + t[to..];
    } else {
      var num1 := num - (to - from + 1);
      assert d[..num1] == t[..from - 1] + t[to..num] && d[num1..] == t[num..];
    }
  }

  /** Moving up and moving down exchange two neighbouring blocks, so one undoes the other. */
  lemma MovedBack(a: seq<string>, b: seq<string>, c: seq<string>, d: seq<string>)
    requires b != [] && c != []
    ensures Moved(a + b + c + d, |a| + 1, |a| + |b|, |a| + |b| + |c|) == a + c + b + d
    ensures Moved(a + c + b + d, |a| + |c| + 1, |a| + |c| + |b|, |a|) == a + b + c + d
  {
    Blocks(a, b, c, d);
    Blocks(a, c, b, d);
  }

  lemma Blocks(a: seq<string>, b: seq<string>, c: seq<string>, d: seq<string>)
    ensures var t, i, j, k := a + b + c + d, |a|, |a| + |b|, |a| + |b| + |c|;
            t[..i] == a && t[i..j] == b && t[j..k] == c && t[k..] == d
  {
  }

  /** Copying line o, found at lin among the lines copied already. */
  lemma CopyLine(t: seq<string>, num: nat, from: nat, o: nat, lin: nat)
    requires 1 <= from <= o <= |t| && num <= |t| && NoNewline(t)
    requires (o <= num && lin == o) || (num < o && lin == o + (o - from))
    ensures lin <= |t| + (o - from) && Inserted(t, num, t[from - 1..o - 1])[lin - 1] == t[o - 1]
    ensures Inserted(Inserted(t, num, t[from - 1..o - 1]), num + (o - from), [t[o - 1]])
              == Inserted(t, num, t[from - 1..o])
    ensures NoNewline([t[o - 1]]) && t[o - 1] + [NL] == Joined([t[o - 1]])
  {
    InsertedTwice(t, num, t[from - 1..o - 1], t[o - 1]);
    assert t[from - 1..o] == t[from - 1..o - 1] + [t[o - 1]];
    assert [t[o - 1]][1..] == [];
  }

  /** The characters of str from i on up to a newline. */
  method UpToNewline(str: string, i: nat, ghost line: string) returns (buf: string)
    requires i + |line| < |str| && str[i..i + |line|] == line && str[i + |line|] == NL && NL !in line
    ensures buf == line
  {
    buf := "";
    assert forall j :: i <= j < i + |line| ==> str[j] == str[i..i + |line|][j - i];
    while str[i + |buf|] != NL
      invariant |buf| <= |line| && buf == line[..|buf|]
      decreases |line| - |buf|
    {
      buf := buf + [str[i + |buf|]];
    }
  }

  ghost predicate Owned(s: seq<Line>, repr: set<Line>) {
    forall i :: 0 <= i < |s| ==> s[i] in repr
  }

  lemma OwnedPart(s: seq<Line>, repr: set<Line>, i: nat, j: nat)
    requires Owned(s, repr) && i <= j <= |s|
    ensures Owned(s[i..j], repr)
  {
  }

  class Buffer {
    const line0: Line
    var curln: nat
    var lastln: nat
    var line1: nat
    var line2: nat

    /** The nodes in order; the first is line0. */
    ghost var ring: seq<Line>

    /** These and nodes that were cut out. */
    ghost var repr: set<Line>

    ghost predicate Valid()
      reads this`lastln, this`ring, this`repr, repr
    {
      && |ring| == lastln + 1 && ring[0] == line0 && line0.text == ""
      && Owned(ring, repr)
      && Ring(ring)
    }

    /** The text of the buffer. */
    ghost function Contents(): (t: seq<string>)
      requires Valid()
      reads this`lastln, this`ring, this`repr, repr
      ensures |t| == lastln
    {
      Texts(ring[1..])
    }

    /** set_buf() */
    constructor ()
      ensures Valid() && Contents() == [] && curln == 0 && fresh(repr) && ring == [line0]
    {
      line0 := new Line("");
      curln, lastln, line1, line2 := 0, 0, 0, 0;
      ring := [line0];
      repr := {line0};
    }

    function NextLn(l: nat): nat
      reads this
    {
      if l + 1 > lastln then 0 else l + 1
    }

    function PrevLn(l: nat): nat
      reads this
    {
      if l < 1 then lastln else l - 1
    }

    /** Forward counting: n steps from line0. */
    ghost function Step(n: nat): (p: Line)
      requires Valid()
      reads this`lastln, this`ring, this`repr, repr
      ensures p in ring
    {
      if n == 0 then line0 else
        var p := Step(n - 1);
        var i :| 0 <= i < |ring| && ring[i] == p;
        assert p.next == if i < lastln then ring[i + 1] else line0;
        p.next
    }

    lemma {:induction false} StepAt(n: nat)
      requires Valid() && n <= lastln
      ensures Step(n) == ring[n]
    {
      if n > 0 {
        StepAt(n - 1);
        assert Edge(ring[n - 1], ring[n - 1 + 1]);
      }
    }

    /** Counting on, it goes round the ring. */
    lemma {:induction false} StepAround(n: nat)
      requires Valid()
      ensures Step(n) == ring[Around(n, lastln + 1)]
    {
      hide Ring, Buffer.Step, Owned, Around;
      StepNext(n);
      if n > 0 {
        StepAround(n - 1);
        NextAround(n, lastln + 1);
        RingNext(ring, Around(n - 1, lastln + 1));
      }
    }

    lemma StepNext(n: nat)
      requires Valid()
      ensures Step(n) == if n == 0 then line0 else Step(n - 1).next
    {
      hide Ring, Owned;
    }

    /** getptr(): from whichever end is nearer. */
    method GetPtr(num: nat) returns (ptr: Line)
      requires Valid()
      ensures ptr == Step(num)
      ensures num <= lastln ==> ptr == ring[num]
    {
      if Int16(2 * num) > lastln && num <= lastln {
        ptr := line0.prev;
        var j := lastln;
        while j > num
          invariant num <= j <= lastln && ptr == ring[j]
        {
          assert Edge(ring[j - 1], ring[j - 1 + 1]);
          ptr := ptr.prev;
          j := j - 1;
        }
      } else {
        ptr := line0;
        var j := 0;
        while j < num
          invariant 0 <= j <= num && ptr == Step(j)
        {
          ptr := ptr.next;
          j := j + 1;
        }
      }
      if num <= lastln {
        StepAt(num);
      }
    }

    /** Bridge over lines from..to: first and last are the nodes around them. */
    method Cut(first: Line, last: Line, ghost from: nat, ghost to: nat, count: nat)
      requires Valid() && 1 <= from <= to + 1 <= lastln + 1 && count == to + 1 - from
      requires first == ring[from - 1] && last == if to < lastln then ring[to + 1] else line0
      modifies this`lastln, this`ring, repr
      ensures Valid() && ring == old(ring[..from] + ring[to + 1..])
      ensures Contents() == Deleted(old(Contents()), from, to)
      ensures Chain(old(ring[from..to + 1]))
    {
      hide Texts, Ring, Chain;
      ghost var ring0 := ring;
      DeletedTexts(ring0, from, to);
      Bridge(ring0, first, last, from, to);
      lastln := lastln - count;
      ring := ring0[..from] + ring0[to + 1..];
    }

    /** Put a chain of nodes behind line at: k0 and k3 are the nodes around it. */
    method Splice(k0: Line, k1: Line, k2: Line, k3: Line, ghost at: nat, ghost seg: seq<Line>, count: nat)
      requires Valid() && at <= lastln && |seg| == count > 0
      requires k0 == ring[at] && k3 == if at < lastln then ring[at + 1] else line0
      requires Owned(seg, repr) && k1 == seg[0] && k2 == seg[count - 1] && Chain(seg) && Distinct(seg)
               && Disjoint(ring, seg)
      modifies this`lastln, this`ring, repr
      ensures Valid() && ring == old(ring[..at + 1]) + seg + old(ring[at + 1..])
      ensures Contents() == Inserted(old(Contents()), at, Texts(seg))
    {
      hide Texts, Ring, Chain, Distinct, Disjoint;
      ghost var ring0 := ring;
      InsertedTexts(ring0, at, seg);
      Weave(ring0, k0, k1, k2, k3, at, seg);
      lastln := lastln + count;
      ring := ring0[..at + 1] + seg + ring0[at + 1..];
    }

    /** One new line behind the current one, which becomes the current one. */
    method InsLine(text: string)
      requires Valid() && curln <= lastln
      modifies this`lastln, this`ring, this`curln, this`repr, repr
      ensures Valid() && lastln == old(lastln) + 1 && curln == old(curln) + 1
      ensures Contents() == Inserted(old(Contents()), old(curln), [text])
      ensures fresh(repr - old(repr))
    {
      hide Ring;
      var node := new Line(text);
      var cur := GetPtr(curln);
      RingNext(ring, curln);
      var nxt := cur.next;
      SingleChain(node, ring);
      repr := repr + {node};
      Splice(cur, node, node, nxt, curln, [node], 1);
      curln := curln + 1;
      assert Texts([node]) == [text];
    }

    /** The buffer is text t with some lines inserted behind line at, the last of them current. */
    ghost predicate Put(t: seq<string>, at: nat, lines: seq<string>)
      reads this`curln, this`lastln, this`ring, this`repr, repr
    {
      && Valid() && at <= |t| && lastln == |t| + |lines| && curln == at + |lines|
      && Contents() == Inserted(t, at, lines)
    }

    method InsNext(text: string, ghost t: seq<string>, ghost at: nat, ghost lines: seq<string>)
      requires Put(t, at, lines)
      modifies this`lastln, this`ring, this`curln, this`repr, repr
      ensures Put(t, at, lines + [text]) && fresh(repr - old(repr))
    {
      hide Buffer.Valid, Buffer.Contents, Inserted;
      InsLine(text);
      InsertedTwice(t, at, lines, text);
    }

    /** ins(): lines, each ended by a newline, behind the current line. */
    method Ins(str: string, ghost lines: seq<string>)
      requires Valid() && curln <= lastln && lines != [] && str == Joined(lines) && NoNewline(lines)
      modifies this`lastln, this`ring, this`curln, this`repr, repr
      ensures Put(old(Contents()), old(curln), lines) && fresh(repr - old(repr))
    {
      hide Buffer.Valid, Buffer.Contents, Joined, Inserted, NoNewline, Left;
      ghost var t, at := Contents(), curln;
      InsertedNone(t, at);
      AllLeft(lines);
      assert Put(t, at, lines[..0]) by {
        assert lines[..0] == [];
      }
      hide Buffer.Put;
      var i := 0;
      ghost var k := 0;
      while true
        invariant 0 <= i && 0 <= k < |lines| && Left(str, i, lines, k)
        invariant Put(t, at, lines[..k]) && fresh(repr - old(repr))
        decreases |lines| - k
      {
        FirstLine(str, i, lines, k);
        var buf := UpToNewline(str, i, lines[k]);
        i := i + |buf| + 1;
        InsNext(buf, t, at, lines[..k]);
        k := k + 1;
        if i == |str| {
          assert lines[..k] == lines;
          return;
        }
      }
    }

    /** gettxt() */
    method GetTxt(num: nat) returns (text: string)
      requires Valid()
      ensures var n := Around(num, lastln + 1); text == (if n == 0 then "" else Contents()[n - 1]) + [NL]
      ensures 1 <= num <= lastln ==> text == Contents()[num - 1] + [NL]
    {
      hide Ring, Buffer.Step;
      var lin := GetPtr(num);
      StepAround(num);
      text := lin.text + [NL];
    }

    /** The loop of del(): free the nodes between first and last. */
    method FreeLines(first: Line, last: Line, ghost from: nat, ghost to: nat) returns (ghost freed: seq<Line>)
      requires Valid() && 1 <= from <= to + 1 <= lastln + 1
      requires first == ring[from - 1] && last == if to < lastln then ring[to + 1] else line0
      ensures freed == ring[from..to + 1]
    {
      hide Ring, Owned;
      RingNext(ring, from - 1);
      var next := first.next;
      freed := [];
      ghost var j := from;
      RingDistinct(ring, from, to);
      while next != last && next != line0
        invariant from <= j <= to + 1 && freed == ring[from..j]
        invariant next == if j <= lastln then ring[j] else line0
        decreases |ring| - j
      {
        RingNext(ring, j);
        var tmp := next.next;
        freed := freed + [next];
        next := tmp;
        j := j + 1;
      }
    }

    /** del(): the freed nodes are exactly those of the deleted lines. */
    method Del(from0: nat, to: nat) returns (ghost freed: seq<Line>)
      requires Valid() && to <= lastln && from0 <= to + 1
      modifies this`lastln, this`ring, this`curln, repr
      ensures Valid()
      ensures var from := if from0 < 1 then 1 else from0;
              && Contents() == Deleted(old(Contents()), from, to) && curln == from - 1
              && freed == old(ring[from..to + 1]) && Disjoint(ring, freed)
    {
      hide Ring, Owned, Texts, Deleted, Distinct, Disjoint, Chain, Buffer.Step;
      var from := if from0 < 1 then 1 else from0;
      var first := GetPtr(PrevLn(from));
      var last := GetPtr(NextLn(to));
      freed := FreeLines(first, last, from, to);
      RingApart(ring, from, to);
      Cut(first, last, from, to, to + 1 - from);
      curln := PrevLn(from);
    }

    /** clrbuf() */
    method Clear()
      requires Valid()
      modifies this`lastln, this`ring, this`curln, repr
      ensures Valid() && Contents() == [] && curln == 0 && lastln == 0
    {
      ghost var freed := Del(1, lastln);
    }

    /** move(): lines line1..line2 behind line num. */
    method Move(num0: nat) returns (ok: bool)
      requires Valid() && line2 <= lastln && num0 <= lastln
      modifies this`lastln, this`ring, this`curln, repr
      ensures Valid() && (ok <==> 1 <= line1 <= line2 && !(line1 <= num0 <= line2))
      ensures ok ==> Contents() == Moved(old(Contents()), line1, line2, num0)
      ensures ok ==> curln == if num0 < line1 then num0 + (line2 - line1 + 1) else num0
      ensures !ok ==> Contents() == old(Contents()) && curln == old(curln)
    {
      if line1 <= 0 || line2 < line1 || (line1 <= num0 && num0 <= line2) {
        return false;
      }
      MoveBlock(num0);
      ok := true;
    }

    method MoveBlock(num0: nat)
      requires Valid() && 1 <= line1 <= line2 <= lastln && num0 <= lastln && !(line1 <= num0 <= line2)
      modifies this`lastln, this`ring, this`curln, repr
      ensures Valid() && lastln == old(lastln) && Contents() == Moved(old(Contents()), line1, line2, num0)
      ensures curln == if num0 < line1 then num0 + (line2 - line1 + 1) else num0
    {
      hide Buffer.Valid, Buffer.Contents, Texts, Inserted, Deleted, Moved, Buffer.Loose;
      MovedText(Contents(), line1, line2, num0);
      var count := line2 - line1 + 1;
      ghost var seg;
      var k1, k2;
      k1, k2, seg := TakeOut();
      var num := if num0 > line1 then num0 - count else num0;
      curln := num + count;
      PutBack(num, k1, k2, seg, count);
    }

    /** What can be said of some lines before they are taken out. */
    lemma Segment(from: nat, to: nat)
      requires Valid() && 1 <= from <= to <= lastln
      ensures Owned(ring[from..to + 1], repr) && Distinct(ring[from..to + 1])
      ensures Disjoint(ring[..from] + ring[to + 1..], ring[from..to + 1])
      ensures Texts(ring[from..to + 1]) == Contents()[from - 1..to]
    {
      hide Ring, Owned, Distinct, Disjoint, Texts;
      OwnedPart(ring, repr, from, to + 1);
      RingApart(ring, from, to);
      PartText(ring, from, to);
    }

    /** The first half of move(): lines line1..line2 leave the ring. */
    method TakeOut() returns (k1: Line, k2: Line, ghost seg: seq<Line>)
      requires Valid() && 1 <= line1 <= line2 <= lastln
      modifies this`lastln, this`ring, repr
      ensures Valid() && Contents() == Deleted(old(Contents()), line1, line2)
              && lastln == old(lastln) - (line2 - line1 + 1)
      ensures Loose(seg, line2 - line1 + 1, k1, k2) && Texts(seg) == old(Contents())[line1 - 1..line2]
    {
      hide Ring, Chain, Distinct, Disjoint, Texts, Deleted, Buffer.Step, Buffer.Contents, Owned;
      var k0 := GetPtr(PrevLn(line1));
      k1 := GetPtr(line1);
      k2 := GetPtr(line2);
      var k3 := GetPtr(NextLn(line2));
      assert k0 == ring[line1 - 1] && k3 == if line2 < lastln then ring[line2 + 1] else line0;
      seg := ring[line1..line2 + 1];
      Segment(line1, line2);
      Cut(k0, k3, line1, line2, line2 - line1 + 1);
    }

    /** A chain of n nodes from k1 to k2 that is not in the ring. */
    ghost predicate Loose(seg: seq<Line>, n: nat, k1: Line, k2: Line)
      reads this`lastln, this`ring, this`repr, repr
    {
      && |seg| == n > 0 && Owned(seg, repr) && k1 == seg[0] && k2 == seg[n - 1]
      && Chain(seg) && Distinct(seg) && Disjoint(ring, seg)
    }

    /** The second half of move(): the lines taken out go behind line num. */
    method PutBack(num: nat, k1: Line, k2: Line, ghost seg: seq<Line>, count: nat)
      requires Valid() && num <= lastln && Loose(seg, count, k1, k2)
      modifies this`lastln, this`ring, repr
      ensures Valid() && Contents() == Inserted(old(Contents()), num, Texts(seg)) && lastln == old(lastln) + count
    {
      hide Ring, Chain, Distinct, Disjoint, Texts, Inserted, Buffer.Step, Owned;
      var k0 := GetPtr(num);
      var k3 := GetPtr(NextLn(num));
      Splice(k0, k1, k2, k3, num, seg, count);
    }

    /** ins(gettxt(lin)): copy line o of the text t, some of whose lines from line1 on have been
        copied behind line num already. */
    method CopyOne(lin: nat, ghost t: seq<string>, ghost num: nat, ghost from: nat, ghost o: nat)
      requires Copied(t, num, from, o) && 1 <= from <= o <= |t| && NoNewline(t)
      requires (o <= num && lin == o) || (num < o && lin == o + (o - from))
      modifies this`lastln, this`ring, this`curln, this`repr, repr
      ensures Copied(t, num, from, o + 1) && fresh(repr - old(repr))
    {
      hide Ring, Texts, Inserted, Joined, NoNewline, Owned;
      CopyLine(t, num, from, o, lin);
      var text := GetTxt(lin);
      Ins(text, [t[o - 1]]);
    }

    /** Lines from..o - 1 of text t have been copied behind line num. */
    ghost predicate Copied(t: seq<string>, num: nat, from: nat, o: nat)
      reads this`curln, this`lastln, this`ring, this`repr, repr
    {
      1 <= from <= o <= |t| + 1 && Put(t, num, t[from - 1..o - 1])
    }

    /** transfer(): a copy of lines line1..line2 behind line num. */
    method Transfer(num: nat) returns (ok: bool)
      requires Valid() && line2 <= lastln && num <= lastln && NoNewline(Contents())
      modifies this`lastln, this`ring, this`curln, this`line2, this`repr, repr
      ensures Valid() && (ok <==> 1 <= line1 <= old(line2))
      ensures ok ==> Contents() == Inserted(old(Contents()), num, old(Contents())[line1 - 1..old(line2)])
      ensures ok ==> curln == num + (old(line2) - line1 + 1) && line2 == old(line2) + (old(line2) - line1 + 1)
      ensures !ok ==> Contents() == old(Contents()) && curln == old(curln)
    {
      if line1 <= 0 || line1 > line2 {
        return false;
      }
      TransferBlock(num);
      ok := true;
    }

    method TransferBlock(num: nat)
      requires Valid() && 1 <= line1 <= line2 <= lastln && num <= lastln && NoNewline(Contents())
      modifies this`lastln, this`ring, this`curln, this`line2, this`repr, repr
      ensures Copied(old(Contents()), num, line1, old(line2) + 1) && line2 == old(line2) + (old(line2) - line1 + 1)
    {
      hide Buffer.Valid, Buffer.Contents, Inserted, NoNewline;
      ghost var t, end := Contents(), line2;
      var mid := Min(num, line2);
      curln := num;
      InsertedNone(t, num);
      assert t[line1 - 1..line1 - 1] == [];
      var ntrans := CopyBefore(mid, t, num);
      var lin := if mid < line1 then line1 else mid + 1;
      CopyBehind(lin, ntrans, t, num);
    }

    /** The first loop of transfer(): lines that are not behind the target. */
    method CopyBefore(mid: nat, ghost t: seq<string>, ghost num: nat) returns (ntrans: nat)
      requires Copied(t, num, line1, line1) && line1 <= line2 <= |t| && NoNewline(t) && mid == Min(num, line2)
      modifies this`lastln, this`ring, this`curln, this`repr, repr
      ensures var lin := if mid < line1 then line1 else mid + 1;
              ntrans == lin - line1 && Copied(t, num, line1, lin)
      ensures fresh(repr - old(repr))
    {
      hide Buffer.Valid, Buffer.Contents, Inserted, NoNewline;
      ntrans := 0;
      var lin := line1;
      while lin <= mid
        invariant line1 <= lin && (lin <= mid + 1 || lin == line1) && ntrans == lin - line1
        invariant Copied(t, num, line1, lin) && fresh(repr - old(repr))
      {
        CopyOne(lin, t, num, line1, lin);
        ntrans := ntrans + 1;
        lin := lin + 1;
      }
    }

    /** The second loop: every copy moves the lines behind it on by one. */
    method CopyBehind(lin0: nat, ntrans: nat, ghost t: seq<string>, ghost num: nat)
      requires Copied(t, num, line1, lin0) && ntrans == lin0 - line1 && lin0 <= line2 + 1 && NoNewline(t)
               && line2 <= |t|
      requires num < lin0 || lin0 == line2 + 1
      modifies this`lastln, this`ring, this`curln, this`line2, this`repr, repr
      ensures Copied(t, num, line1, old(line2) + 1) && line2 == old(line2) + (old(line2) - line1 + 1)
    {
      hide Buffer.Valid, Buffer.Contents, Inserted, NoNewline;
      ghost var end, o := line2, lin0;
      var lin := lin0 + ntrans;
      line2 := line2 + ntrans;
      while lin <= line2
        invariant line1 <= o <= end + 1 && lin == o + (o - line1) && line2 == end + (o - line1)
                  && (num < o || o == end + 1)
        invariant Copied(t, num, line1, o) && fresh(repr - old(repr))
        decreases end - o
      {
        CopyOne(lin, t, num, line1, o);
        line2 := line2 + 1;
        lin := lin + 2;
        o := o + 1;
      }
    }
  }
}
