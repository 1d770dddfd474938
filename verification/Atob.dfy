/** src/commands/btoa.c: decoding an archive, and that it restores what was encoded. */
module Atob {
  import opened Common
  import opened Btoa

  const BUFSIZE := 100

  /** The static variables of decode_line(), the output and the checksums.  codeword is the
      bit pattern of a 32-bit word; quad holds ch1..ch4, which are written late. */
  datatype Dec = Dec(bytecount: nat, codeword: nat, quad: seq<byte>, out: seq<byte>, sums: Sums)

  const START := Dec(0, 0, [0, 0, 0, 0], [], NO_SUMS)

  ghost predicate Sound(d: Dec) {
    d.bytecount <= 5 && d.codeword < WORD32 && |d.quad| == 4
  }

  predicate Digit(ch: byte) {
    BASE <= ch < BASE + 85
  }

  // ----- one character -----

  /** Delayed output, and the checksum of the new format. */
  function Begin(newVersion: bool, d: Dec, ch: byte): Dec {
    var d1 := if d.bytecount == 5 then d.(out := d.out + d.quad, bytecount := 0) else d;
    if newVersion then d1.(sums := Sum1(d1.sums, ch)) else d1
  }

  /** The value of one more digit; the multiplication keeps 32 bits. */
  function Shift(d: Dec, ch: byte): nat {
    (if d.bytecount == 0 then ch - BASE else 85 * d.codeword + (ch - BASE)) % WORD32
  }

  /** A complete group becomes four bytes. */
  function Group(newVersion: bool, d: Dec): Dec
    requires d.codeword < WORD32
  {
    var quad := PackLong(d.codeword);
    d.(quad := quad, sums := if newVersion then d.sums else SumAll(d.sums, quad))
  }

  function Push(newVersion: bool, d: Dec, ch: byte): Dec {
    var d1 := d.(codeword := Shift(d, ch), bytecount := d.bytecount + 1);
    if d1.bytecount == 5 then Group(newVersion, d1) else d1
  }

  function Repeated(newVersion: bool, d: Dec, b: byte): Dec {
    d.(quad := [b, b, b, b], bytecount := 5, sums := if newVersion then d.sums else SumAll(d.sums, [b, b, b, b]))
  }

  /** One character, checked; None: an error. */
  function Feed(newVersion: bool, d: Dec, ch: byte): Option<Dec> {
    var d1 := Begin(newVersion, d, ch);
    if Digit(ch) then Some(Push(newVersion, d1, ch))
    else if d1.bytecount == 0 && ch == FOUR_ZEROS then Some(Repeated(newVersion, d1, 0))
    else if d1.bytecount == 0 && newVersion && ch == FOUR_SPACES then Some(Repeated(newVersion, d1, 32))
    else None
  }

  function FeedAll(newVersion: bool, d: Dec, chars: seq<byte>): Option<Dec>
    decreases |chars|
  {
    if chars == [] then Some(d)
    else
      match Feed(newVersion, d, chars[0])
      case None => None
      case Some(d1) => FeedAll(newVersion, d1, chars[1..])
  }

  lemma {:induction false} FeedCat(newVersion: bool, d: Dec, a: seq<byte>, b: seq<byte>)
    ensures FeedAll(newVersion, d, a + b) == match FeedAll(newVersion, d, a)
                                             case None => None
                                             case Some(d1) => FeedAll(newVersion, d1, b)
    decreases |a|
  {
    if a == [] {
      assert a + b == b;
    } else {
      assert (a + b)[1..] == a[1..] + b;
      match Feed(newVersion, d, a[0])
      case None =>
      case Some(d1) => FeedCat(newVersion, d1, a[1..], b);
    }
  }

  // ----- one line -----

  /** The rest of a group that ends on this line: these characters are not checked. */
  function PushAll(newVersion: bool, d: Dec, chars: seq<byte>): Dec
    decreases |chars|
  {
    if chars == [] then d
    else
      var d1 := if newVersion then d.(sums := Sum1(d.sums, chars[0])) else d;
      PushAll(newVersion, Push(newVersion, d1, chars[0]), chars[1..])
  }

  /** decode_line(): the new state, and whether there was an error. */
  function Line(newVersion: bool, d: Dec, line: seq<byte>): (Dec, bool)
    decreases |line|
  {
    if line == [] then (d, false)
    else
      var ch, rest := line[0], line[1..];
      var d1 := Begin(newVersion, d, ch);
      if Digit(ch) then
        var need := if d1.bytecount <= 4 && |rest| >= 4 - d1.bytecount then 4 - d1.bytecount else 0;
        Line(newVersion, PushAll(newVersion, Push(newVersion, d1, ch), rest[..need]), rest[need..])
      else if (ch == FOUR_ZEROS || (newVersion && ch == FOUR_SPACES)) && d1.bytecount == 0 then
        Line(newVersion, Repeated(newVersion, d1, if ch == FOUR_ZEROS then 0 else 32), rest)
      else (Line(newVersion, d1, rest).0, true)
  }

  /** Inside a group only digits are accepted, so checking makes no difference. */
  lemma {:induction false} PushFeeds(newVersion: bool, d: Dec, chars: seq<byte>)
    requires 1 <= d.bytecount && d.bytecount + |chars| <= 5 && FeedAll(newVersion, d, chars).Some?
    ensures PushAll(newVersion, d, chars) == FeedAll(newVersion, d, chars).value
    decreases |chars|
  {
    hide Sum1, SumAll, PackLong;
    if chars != [] {
      PushFeeds(newVersion, Feed(newVersion, d, chars[0]).value, chars[1..]);
    }
  }

  /** What is accepted character by character is decoded the same line by line. */
  lemma {:induction false} LineFeeds(newVersion: bool, d: Dec, line: seq<byte>)
    requires d.bytecount <= 5 && FeedAll(newVersion, d, line).Some?
    ensures Line(newVersion, d, line) == (FeedAll(newVersion, d, line).value, false)
    ensures FeedAll(newVersion, d, line).value.bytecount <= 5
    decreases |line|
  {
    hide Sum1, SumAll, PackLong;
    if line != [] {
      var ch, rest := line[0], line[1..];
      var d1 := Begin(newVersion, d, ch);
      var d2 := Feed(newVersion, d, ch).value;
      if Digit(ch) && |rest| >= 4 - d1.bytecount {
        var need := 4 - d1.bytecount;
        assert rest == rest[..need] + rest[need..];
        FeedCat(newVersion, d2, rest[..need], rest[need..]);
        PushFeeds(newVersion, d2, rest[..need]);
        FeedBounded(newVersion, d2, rest[..need]);
        LineFeeds(newVersion, PushAll(newVersion, d2, rest[..need]), rest[need..]);
      } else {
        assert rest[..0] == [] && rest[0..] == rest;
        LineFeeds(newVersion, d2, rest);
      }
    }
  }

  lemma {:induction false} FeedBounded(newVersion: bool, d: Dec, chars: seq<byte>)
    requires d.bytecount <= 5 && FeedAll(newVersion, d, chars).Some?
    ensures FeedAll(newVersion, d, chars).value.bytecount <= 5
    decreases |chars|
  {
    hide Sum1, SumAll, PackLong;
    if chars != [] {
      FeedBounded(newVersion, Feed(newVersion, d, chars[0]).value, chars[1..]);
    }
  }

  // ----- decoding words -----

  lemma FeedSnoc(newVersion: bool, d: Dec, s: seq<byte>, ch: byte)
    ensures FeedAll(newVersion, d, s + [ch]) == match FeedAll(newVersion, d, s)
                                                case None => None
                                                case Some(d1) => Feed(newVersion, d1, ch)
  {
    hide Feed;
    FeedCat(newVersion, d, s, [ch]);
    match FeedAll(newVersion, d, s)
    case None =>
    case Some(d1) =>
      assert [ch][1..] == [];
  }

  /** In the new format the checksums are those of the characters. */
  lemma {:induction false} FeedSums(d: Dec, s: seq<byte>)
    requires FeedAll(true, d, s).Some?
    ensures FeedAll(true, d, s).value.sums == SumAll(d.sums, s)
    decreases |s|
  {
    hide Sum1;
    if s != [] {
      var n := |s| - 1;
      FeedSnoc(true, d, s[..n], s[n]);
      assert s == s[..n] + [s[n]];
      FeedSums(d, s[..n]);
    }
  }

  /** j digits of a word after state d. */
  ghost predicate Reading(newVersion: bool, d: Dec, digits: seq<byte>, j: nat, r: Dec)
    requires j <= |digits|
  {
    && r.bytecount == j && r.codeword == Value(digits[..j])
    && r.out == d.out + (if d.bytecount == 5 then d.quad else [])
    && (!newVersion && j < 5 ==> r.sums == d.sums)
    && (j == 5 ==> r.codeword < WORD32 && r.quad == PackLong(r.codeword))
    && (!newVersion && j == 5 ==> r.sums == SumAll(d.sums, r.quad))
  }

  lemma {:induction false} ValueBound(digits: seq<byte>, j: nat)
    requires |digits| == 5 && 1 <= j <= 5 && Value(digits) < WORD32
    ensures Value(digits[..j]) < WORD32
    decreases 5 - j
  {
    if j < 5 {
      ValueBound(digits, j + 1);
      ValueSnoc(digits[..j], digits[j]);
      assert digits[..j + 1] == digits[..j] + [digits[j]];
    } else {
      assert digits[..j] == digits;
    }
  }

  lemma {:induction false} FeedDigits(newVersion: bool, d: Dec, digits: seq<byte>, j: nat)
    requires d.bytecount == 0 || d.bytecount == 5
    requires |digits| == 5 && (forall i :: 0 <= i < 5 ==> digits[i] < 85) && 1 <= j <= 5 && Value(digits) < WORD32
    ensures var r := FeedAll(newVersion, d, Shown(digits[..j]));
            r.Some? && Reading(newVersion, d, digits, j, r.value)
    decreases j
  {
    hide Sum1, SumAll, PackLong, FeedAll, Value;
    var ch := BASE + digits[j - 1];
    var before := Shown(digits[..j - 1]);
    assert Shown(digits[..j]) == before + [ch];
    FeedSnoc(newVersion, d, before, ch);
    ValueSnoc(digits[..j - 1], digits[j - 1]);
    assert digits[..j] == digits[..j - 1] + [digits[j - 1]];
    ValueBound(digits, j);
    if j == 1 {
      assert before == [] && digits[..0] == [];
      NothingFed(newVersion, d);
    } else {
      FeedDigits(newVersion, d, digits, j - 1);
    }
  }

  lemma NothingFed(newVersion: bool, d: Dec)
    ensures FeedAll(newVersion, d, []) == Some(d)
  {
  }

  /** One word comes back as its four bytes. */
  lemma FeedWord(newVersion: bool, d: Dec, u: nat)
    requires u < WORD32 && (d.bytecount == 0 || d.bytecount == 5)
    ensures var r := FeedAll(newVersion, d, Chars(newVersion, u));
            && r.Some? && r.value.bytecount == 5 && r.value.quad == PackLong(u)
            && r.value.out == d.out + (if d.bytecount == 5 then d.quad else [])
            && (!newVersion ==> r.value.sums == SumAll(d.sums, PackLong(u)))
  {
    hide Sum1, SumAll, FeedAll, Value;
    if u == 0 || (newVersion && u == SPACES) {
      var c := Chars(newVersion, u)[0];
      assert Chars(newVersion, u) == [] + [c];
      FeedSnoc(newVersion, d, [], c);
      NothingFed(newVersion, d);
    } else {
      var digits := Digits(u);
      FeedDigits(newVersion, d, digits, 5);
      assert digits[..5] == digits;
    }
  }

  /** The state after the first k words of some data. */
  ghost predicate Done(newVersion: bool, data: seq<byte>, k: nat, d: Dec)
    requires k <= Quads(|data|)
  {
    && (if k == 0 then d.bytecount == 0 && d.out == []
        else d.bytecount == 5 && d.out == Padded(data, k - 1) && d.quad == Quad(data, k - 1))
    && (!newVersion ==> d.sums == SumAll(NO_SUMS, Padded(data, k)))
  }

  lemma PackUnpack(q: seq<byte>)
    requires |q| == 4
    ensures PackLong(Long(q, 0)) == q
  {
    var x0: nat, x1: nat, x2: nat, x3: nat := q[0], q[1], q[2], q[3];
    var hi, lo := 256 * x0 + x1, 256 * x2 + x3;
    DivModUnique(Long(q, 0), 0x1_0000, hi, lo);
    DivModUnique(hi, 256, x0, x1);
    DivModUnique(lo, 256, x2, x3);
    assert q == [q[0], q[1], q[2], q[3]];
  }

  lemma {:induction false} FeedStream(newVersion: bool, data: seq<byte>, k: nat)
    requires k <= Quads(|data|)
    ensures var r := FeedAll(newVersion, START, Stream(newVersion, data, k));
            r.Some? && Done(newVersion, data, k, r.value)
    decreases k
  {
    hide Sum1, SumAll, FeedAll, Chars, Quad, Long;
    if k == 0 {
      NothingFed(newVersion, START);
      EmptySums();
    } else {
      FeedStream(newVersion, data, k - 1);
      OneEncoded(newVersion, data, k - 1);
      var before := Stream(newVersion, data, k - 1);
      var u := Long(Quad(data, k - 1), 0);
      FeedCat(newVersion, START, before, Chars(newVersion, u));
      FeedWord(newVersion, FeedAll(newVersion, START, before).value, u);
      PackUnpack(Quad(data, k - 1));
      assert k > 1 ==> Padded(data, k - 1) == Padded(data, k - 2) + Quad(data, k - 2);
    }
  }

  // ----- the lines of an archive -----

  predicate EndsHere(line: seq<byte>) {
    |line| > 0 && line[0] == END_MARK
  }

  /** A line of the new format has the full length, or is the last one and shorter. */
  predicate LengthOk(lines: seq<seq<byte>>, i: nat, maxPerLine: nat)
    requires i < |lines|
  {
    && 1 <= |lines[i]| <= BUFSIZE - 2
    && (|lines[i]| == maxPerLine
        || (|lines[i]| < maxPerLine && (i + 1 == |lines| || EndsHere(lines[i + 1]))))
  }

  /** new_decodefile() from line i on; None: an error. */
  function NewLines(d: Dec, lines: seq<seq<byte>>, i: nat, maxPerLine: nat): Option<Dec>
    requires i <= |lines|
    decreases |lines| - i
  {
    if i == |lines| then Some(d)
    else if EndsHere(lines[i]) || !LengthOk(lines, i, maxPerLine) then None
    else
      var n := |lines[i]| - 1;
      var (d1, error) := Line(true, d, lines[i][..n]);
      if error || lines[i][n] != CheckChar(d1.sums) then None
      else NewLines(d1, lines, i + 1, maxPerLine)
  }

  /** old_decodefile() from line i on; None: an error. */
  function OldLines(d: Dec, lines: seq<seq<byte>>, i: nat): Option<Dec>
    requires i <= |lines|
    decreases |lines| - i
  {
    if i == |lines| then Some(d)
    else if EndsHere(lines[i]) || |lines[i]| > BUFSIZE - 2 then None
    else
      var (d1, error) := Line(false, d, lines[i]);
      if error then None else OldLines(d1, lines, i + 1)
  }

  /** The characters before line i. */
  function Before(newVersion: bool, s: seq<byte>, i: nat): (r: seq<byte>) {
    s[..Min(Start(newVersion, i), |s|)]
  }

  /** One line of an archive, read after the lines before it. */
  lemma OneLine(newVersion: bool, s: seq<byte>, i: nat)
    requires i < LineCount(newVersion, s) && FeedAll(newVersion, START, s).Some?
    ensures FeedAll(newVersion, START, Before(newVersion, s, i)).Some?
    ensures FeedAll(newVersion, START, Before(newVersion, s, i + 1)).Some?
    ensures var d := FeedAll(newVersion, START, Before(newVersion, s, i)).value;
            var d1 := FeedAll(newVersion, START, Before(newVersion, s, i + 1)).value;
            var chars := s[Start(newVersion, i)..Min(Start(newVersion, i + 1), |s|)];
            && Line(newVersion, d, chars) == (d1, false)
            && (newVersion ==> d1.sums == SumAll(NO_SUMS, Before(newVersion, s, i + 1)))
  {
    hide FeedAll, Line, SumAll;
    var a, b := Before(newVersion, s, i), Before(newVersion, s, i + 1);
    var chars := s[Start(newVersion, i)..Min(Start(newVersion, i + 1), |s|)];
    assert b == a + chars && s == b + s[|b|..];
    FeedCat(newVersion, START, b, s[|b|..]);
    FeedCat(newVersion, START, a, chars);
    var d := FeedAll(newVersion, START, a).value;
    FeedBounded(newVersion, START, a);
    LineFeeds(newVersion, d, chars);
    if newVersion {
      FeedSums(START, b);
    }
  }

  lemma {:induction false} NewLinesDecode(s: seq<byte>, lines: seq<seq<byte>>, i: nat)
    requires IsArchive(true, s, lines) && i <= |lines| && FeedAll(true, START, s).Some?
    requires forall k :: 0 <= k < |s| ==> Printable(true, s[k])
    requires FeedAll(true, START, Before(true, s, i)).Some?
    ensures NewLines(FeedAll(true, START, Before(true, s, i)).value, lines, i, MAXPERLINE) == FeedAll(true, START, s)
    decreases |lines| - i
  {
    hide FeedAll, Line, SumAll;
    if i == |lines| {
      assert Before(true, s, i) == s;
    } else {
      NoEndMark(true, s, i);
      OneLine(true, s, i);
      var n := |lines[i]| - 1;
      assert lines[i] == LineOf(true, s, i);
      assert lines[i][..n] == s[Start(true, i)..Min(Start(true, i + 1), |s|)];
      assert i + 1 < |lines| ==> |lines[i]| == MAXPERLINE;
      NewLinesDecode(s, lines, i + 1);
    }
  }

  lemma {:induction false} OldLinesDecode(s: seq<byte>, lines: seq<seq<byte>>, i: nat)
    requires IsArchive(false, s, lines) && i <= |lines| && FeedAll(false, START, s).Some?
    requires forall k :: 0 <= k < |s| ==> Printable(false, s[k])
    requires FeedAll(false, START, Before(false, s, i)).Some?
    ensures OldLines(FeedAll(false, START, Before(false, s, i)).value, lines, i) == FeedAll(false, START, s)
    decreases |lines| - i
  {
    hide FeedAll, Line, SumAll;
    if i == |lines| {
      assert Before(false, s, i) == s;
    } else {
      NoEndMark(false, s, i);
      OneLine(false, s, i);
      assert lines[i] == LineOf(false, s, i);
      assert lines[i] == s[Start(false, i)..Min(Start(false, i + 1), |s|)];
      OldLinesDecode(s, lines, i + 1);
    }
  }

  // ----- the decoder -----

  class Decoder {
    const newVersion: bool
    var bytecount: nat
    var codeword: nat
    var quad: seq<byte>
    var out: seq<byte>
    var sums: Sums

    ghost function State(): Dec
      reads this
    {
      Dec(bytecount, codeword, quad, out, sums)
    }

    ghost predicate Valid()
      reads this
    {
      Sound(State())
    }

    constructor (newVersion: bool)
      ensures Valid() && State() == START && this.newVersion == newVersion
    {
      this.newVersion := newVersion;
      bytecount, codeword, quad, out, sums := 0, 0, [0, 0, 0, 0], [], NO_SUMS;
    }

    /** One digit, which may complete a group. */
    method TakeDigit(ch: byte)
      requires Valid() && bytecount < 5
      modifies this
      ensures Valid() && State() == Push(newVersion, old(State()), ch)
    {
      hide SumAll;
      codeword := (if bytecount == 0 then ch - BASE else 85 * codeword + (ch - BASE)) % WORD32;
      bytecount := bytecount + 1;
      if bytecount == 5 {
        quad := PackLong(codeword);
        if !newVersion {
          sums := SumAll(sums, quad);
        }
      }
    }

    /** The inner loop of decode_line(): the rest of a group. */
    method TakeGroup(chars: seq<byte>)
      requires Valid() && bytecount + |chars| == 5
      modifies this
      ensures Valid() && State() == PushAll(newVersion, old(State()), chars)
    {
      hide SumAll, Sum1, Push;
      var i := 0;
      assert chars[0..] == chars;
      while i < |chars|
        invariant 0 <= i <= |chars| && Valid() && bytecount + (|chars| - i) == 5
        invariant PushAll(newVersion, State(), chars[i..]) == PushAll(newVersion, old(State()), chars)
      {
        assert chars[i..][0] == chars[i] && chars[i..][1..] == chars[i + 1..];
        if newVersion {
          sums := Sum1(sums, chars[i]);
        }
        PushCounts(newVersion, State(), chars[i]);
        TakeDigit(chars[i]);
        i := i + 1;
      }
    }

    /** Delayed output and checksum before character ch. */
    method Prepare(ch: byte)
      requires Valid()
      modifies this
      ensures Valid() && State() == Begin(newVersion, old(State()), ch)
    {
      hide Sum1;
      if bytecount == 5 {
        out := out + quad;
        bytecount := 0;
      }
      if newVersion {
        sums := Sum1(sums, ch);
      }
    }

    /** 'z' or 'y': four bytes alike. */
    method TakeRepeated(b: byte)
      requires Valid()
      modifies this
      ensures Valid() && State() == Repeated(newVersion, old(State()), b)
    {
      hide SumAll;
      quad := [b, b, b, b];
      if !newVersion {
        sums := SumAll(sums, quad);
      }
      bytecount := 5;
    }

    /** decode_line() */
    method DecodeLine(line: seq<byte>) returns (error: bool)
      requires Valid()
      modifies this
      ensures Valid() && (State(), error) == Line(newVersion, old(State()), line)
    {
      hide Line, PushAll, Push, Repeated, Begin;
      error := false;
      var i := 0;
      assert line[0..] == line;
      while i < |line|
        invariant 0 <= i <= |line| && Valid()
        invariant Line(newVersion, old(State()), line).0 == Line(newVersion, State(), line[i..]).0
        invariant Line(newVersion, old(State()), line).1 == (error || Line(newVersion, State(), line[i..]).1)
        decreases |line| - i
      {
        var ch := line[i];
        LineStep(newVersion, State(), line, i);
        BeginCounts(newVersion, State(), ch);
        Prepare(ch);
        i := i + 1;
        if Digit(ch) {
          PushCounts(newVersion, State(), ch);
          TakeDigit(ch);
          var need := if |line| - i >= 5 - bytecount then 5 - bytecount else 0;
          if need > 0 {
            TakeGroup(line[i..i + need]);
          } else {
            NoPush(newVersion, State(), line[i..i + need]);
          }
          i := i + need;
        } else if (ch == FOUR_ZEROS || (newVersion && ch == FOUR_SPACES)) && bytecount == 0 {
          TakeRepeated(if ch == FOUR_ZEROS then 0 else 32);
        } else {
          error := true;
        }
      }
      NoLine(newVersion, State(), line[i..]);
    }

    /** new_decodefile(), up to the first error. */
    method DecodeNew(lines: seq<seq<byte>>, maxPerLine: nat) returns (ok: bool)
      requires Valid() && newVersion
      modifies this
      ensures Valid() && (ok <==> NewLines(old(State()), lines, 0, maxPerLine).Some?)
      ensures ok ==> NewLines(old(State()), lines, 0, maxPerLine) == Some(State())
    {
      hide Line, SumAll;
      var i := 0;
      while i < |lines|
        invariant 0 <= i <= |lines| && Valid()
        invariant NewLines(old(State()), lines, 0, maxPerLine) == NewLines(State(), lines, i, maxPerLine)
      {
        if EndsHere(lines[i]) || !LengthOk(lines, i, maxPerLine) {
          return false;
        }
        var n := |lines[i]| - 1;
        var error := DecodeLine(lines[i][..n]);
        if error || lines[i][n] != CheckChar(sums) {
          return false;
        }
        i := i + 1;
      }
      ok := true;
    }

    /** old_decodefile() */
    method DecodeOld(lines: seq<seq<byte>>) returns (ok: bool)
      requires Valid() && !newVersion
      modifies this
      ensures Valid() && (ok <==> OldLines(old(State()), lines, 0).Some?)
      ensures ok ==> OldLines(old(State()), lines, 0) == Some(State())
    {
      hide Line, SumAll;
      var i := 0;
      while i < |lines|
        invariant 0 <= i <= |lines| && Valid()
        invariant OldLines(old(State()), lines, 0) == OldLines(State(), lines, i)
      {
        if EndsHere(lines[i]) || |lines[i]| > BUFSIZE - 2 {
          return false;
        }
        var error := DecodeLine(lines[i]);
        if error {
          return false;
        }
        i := i + 1;
      }
      ok := true;
    }
  }

  lemma BeginCounts(newVersion: bool, d: Dec, ch: byte)
    requires d.bytecount <= 5
    ensures Begin(newVersion, d, ch).bytecount == d.bytecount % 5
  {
    hide Sum1;
  }

  lemma NoPush(newVersion: bool, d: Dec, chars: seq<byte>)
    requires chars == []
    ensures PushAll(newVersion, d, chars) == d
  {
  }

  lemma NoLine(newVersion: bool, d: Dec, line: seq<byte>)
    requires line == []
    ensures Line(newVersion, d, line) == (d, false)
  {
  }

  /** The first character of a line, with the rest of its group. */
  lemma LineHead(newVersion: bool, d: Dec, line: seq<byte>)
    requires line != [] && d.bytecount <= 5
    ensures var ch, rest := line[0], line[1..];
            var d1 := Begin(newVersion, d, ch);
            var (d2, error) := Line(newVersion, d, line);
            if Digit(ch) then
              var need := if d1.bytecount <= 4 && |rest| >= 4 - d1.bytecount then 4 - d1.bytecount else 0;
              (d2, error) == Line(newVersion, PushAll(newVersion, Push(newVersion, d1, ch), rest[..need]), rest[need..])
            else if (ch == FOUR_ZEROS || (newVersion && ch == FOUR_SPACES)) && d1.bytecount == 0 then
              (d2, error) == Line(newVersion, Repeated(newVersion, d1, if ch == FOUR_ZEROS then 0 else 32), rest)
            else
              error && d2 == Line(newVersion, d1, rest).0
  {
    hide PushAll, Push, Repeated, Sum1;
  }

  lemma LineStep(newVersion: bool, d: Dec, line: seq<byte>, i: nat)
    requires i < |line| && d.bytecount <= 5
    ensures var ch := line[i];
            var d1 := Begin(newVersion, d, ch);
            var (d2, error) := Line(newVersion, d, line[i..]);
            if Digit(ch) then
              var left := |line| - i - 1;
              var need := if left >= 4 - d1.bytecount then 4 - d1.bytecount else 0;
              (d2, error) == Line(newVersion, PushAll(newVersion, Push(newVersion, d1, ch), line[i + 1..i + 1 + need]),
                line[i + 1 + need..])
            else if (ch == FOUR_ZEROS || (newVersion && ch == FOUR_SPACES)) && d1.bytecount == 0 then
              (d2, error) == Line(newVersion, Repeated(newVersion, d1, if ch == FOUR_ZEROS then 0 else 32),
                line[i + 1..])
            else
              error && d2 == Line(newVersion, d1, line[i + 1..]).0
  {
    hide PushAll, Push, Repeated, Sum1, Begin, Line;
    var rest := line[i..];
    assert rest[0] == line[i] && rest[1..] == line[i + 1..];
    LineHead(newVersion, d, rest);
    BeginCounts(newVersion, d, line[i]);
    var d1 := Begin(newVersion, d, line[i]);
    if Digit(line[i]) {
      var need := if |line| - i - 1 >= 4 - d1.bytecount then 4 - d1.bytecount else 0;
      assert line[i + 1..][..need] == line[i + 1..i + 1 + need] && line[i + 1..][need..] == line[i + 1 + need..];
    }
  }

  lemma PushCounts(newVersion: bool, d: Dec, ch: byte)
    ensures Push(newVersion, d, ch).bytecount == d.bytecount + 1
  {
    hide SumAll;
  }

  // ----- the whole archive -----

  /** The state after all lines. */
  function DecodedLines(a: Archive): Option<Dec> {
    if a.newVersion then NewLines(START, a.lines, 0, a.maxPerLine) else OldLines(START, a.lines, 0)
  }

  /** What is written in the end: the last word only as far as the file size says. */
  function Flushed(d: Dec, n: nat): seq<byte>
    requires Sound(d)
  {
    if d.bytecount > 0 then d.out + d.quad[..(n - 1) % 4 + 1] else d.out
  }

  /** atob(): the decoded file; None: an error. */
  method Decode(a: Archive) returns (r: Option<seq<byte>>)
    ensures r.Some? <==> DecodedLines(a).Some? && a.trailer.n1 == a.trailer.n2
                         && a.trailer.sums == DecodedLines(a).value.sums
    ensures r.Some? ==> Sound(DecodedLines(a).value) && r.value == Flushed(DecodedLines(a).value, a.trailer.n1)
  {
    hide NewLines, OldLines;
    var dec := new Decoder(a.newVersion);
    var ok;
    if a.newVersion {
      ok := dec.DecodeNew(a.lines, a.maxPerLine);
    } else {
      ok := dec.DecodeOld(a.lines);
    }
    if !ok || a.trailer.n1 != a.trailer.n2 || a.trailer.sums != dec.sums {
      return None;
    }
    var out := dec.out;
    if dec.bytecount > 0 {
      var length := (a.trailer.n1 - 1) % 4;
      out := out + [dec.quad[0]];
      if length > 0 {
        out := out + [dec.quad[1]];
      }
      if length > 1 {
        out := out + [dec.quad[2]];
      }
      if length > 2 {
        out := out + [dec.quad[3]];
      }
      assert dec.quad[..length + 1] == [dec.quad[0]] + (if length > 0 then [dec.quad[1]] else [])
        + (if length > 1 then [dec.quad[2]] else []) + (if length > 2 then [dec.quad[3]] else []);
    }
    r := Some(out);
  }

  /** The words give back the data once the padding is cut off. */
  lemma {:induction false} PaddedData(data: seq<byte>, k: nat)
    requires k <= Quads(|data|) && 4 * k <= |data|
    ensures Padded(data, k) == data[..4 * k]
  {
    if k > 0 {
      PaddedData(data, k - 1);
    }
  }

  lemma FlushedData(newVersion: bool, data: seq<byte>, d: Dec)
    requires Sound(d) && Done(newVersion, data, Quads(|data|), d)
    ensures Flushed(d, |data|) == data
  {
    hide SumAll, Quad, Padded;
    var k := Quads(|data|);
    if k > 0 {
      PaddedData(data, k - 1);
      LastQuad(data);
      assert data[..4 * (k - 1)] + data[4 * (k - 1)..] == data;
    }
  }

  /** The last word, cut to the bytes it really has. */
  lemma LastQuad(data: seq<byte>)
    requires data != []
    ensures var k := Quads(|data|);
            4 * (k - 1) < |data| && Quad(data, k - 1)[..(|data| - 1) % 4 + 1] == data[4 * (k - 1)..]
  {
  }

  lemma {:induction false} FeedSound(newVersion: bool, d: Dec, s: seq<byte>)
    requires Sound(d) && FeedAll(newVersion, d, s).Some?
    ensures Sound(FeedAll(newVersion, d, s).value)
    decreases |s|
  {
    hide Sum1, SumAll;
    if s != [] {
      FeedSound(newVersion, Feed(newVersion, d, s[0]).value, s[1..]);
    }
  }

  /** Every archive btoa makes decodes without an error to exactly what was encoded. */
  lemma ArchiveDecodes(a: Archive, data: seq<byte>)
    requires a.maxPerLine == MAXPERLINE && IsArchive(a.newVersion, Stream(a.newVersion, data, Quads(|data|)), a.lines)
    requires a.trailer == Trailer(|data|, |data|, SumAll(NO_SUMS, if a.newVersion then Stream(true, data, Quads(|data|))
                                                                 else Padded(data, Quads(|data|))))
    ensures var d := DecodedLines(a);
            d.Some? && Sound(d.value) && d.value.sums == a.trailer.sums && Flushed(d.value, |data|) == data
  {
    hide SumAll, FeedAll, Stream, Padded, NewLines, OldLines, IsArchive, Done, Flushed, Printable;
    var nv, k := a.newVersion, Quads(|data|);
    var s := Stream(nv, data, k);
    FeedStream(nv, data, k);
    var d := FeedAll(nv, START, s).value;
    StreamPrintable(nv, data, k);
    FeedSound(nv, START, s);
    FlushedData(nv, data, d);
    assert Before(nv, s, 0) == [];
    NothingFed(nv, START);
    if nv {
      NewLinesDecode(s, a.lines, 0);
      FeedSums(START, s);
    } else {
      OldLinesDecode(s, a.lines, 0);
      DoneSums(data, k, d);
    }
  }

  lemma DoneSums(data: seq<byte>, k: nat, d: Dec)
    requires k <= Quads(|data|) && Done(false, data, k, d)
    ensures d.sums == SumAll(NO_SUMS, Padded(data, k))
  {
  }

  /** btoa and then atob. */
  method RoundTrip(newVersion: bool, data: seq<byte>) returns (a: Archive, r: Option<seq<byte>>)
    ensures r == Some(data)
    ensures forall i :: 0 <= i < |a.lines| ==> 1 <= |a.lines[i]| <= 78 && a.lines[i][0] as char != 'x'
  {
    hide SumAll, Stream, Padded, DecodedLines, Flushed, Printable;
    a := Encode(newVersion, data);
    ArchiveDecodes(a, data);
    r := Decode(a);
    ghost var s := Stream(newVersion, data, Quads(|data|));
    StreamPrintable(newVersion, data, Quads(|data|));
    forall i | 0 <= i < |a.lines|
      ensures 1 <= |a.lines[i]| <= 78 && a.lines[i][0] as char != 'x'
    {
      NoEndMark(newVersion, s, i);
    }
  }
}
