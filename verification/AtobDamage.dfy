/** src/commands/btoa.c: what the checksums are, and that they show a damaged character. */
module AtobDamage {
  import opened Common
  import opened Btoa
  import opened Atob

  // ----- the characters of a word -----

  /** What five characters from '!' on stand for to the base 85. */
  function Five(c0: int, c1: int, c2: int, c3: int, c4: int): int {
    52200625 * (c0 - 33) + 614125 * (c1 - 33) + 7225 * (c2 - 33) + 85 * (c3 - 33) + (c4 - 33)
  }

  function Four(b0: int, b1: int, b2: int, b3: int): int {
    16777216 * b0 + 65536 * b1 + 256 * b2 + b3
  }

  /** 'z' for four zeros, 'y' for four blanks in the new format, and otherwise five digits. */
  lemma WordShown(newVersion: bool, q: seq<byte>)
    requires |q| == 4
    ensures var c := Chars(newVersion, Long(q, 0));
            if q == [0, 0, 0, 0] then c == [122]
            else if newVersion && q == [32, 32, 32, 32] then c == [121]
            else && |c| == 5 && (forall i :: 0 <= i < 5 ==> 33 <= c[i] <= 117)
                 && Five(c[0], c[1], c[2], c[3], c[4]) == Four(q[0], q[1], q[2], q[3])
  {
    hide Long, PackLong, Shown, Digits, Value, Four, Five;
    PackUnpack(q);
    PackUnpack([0, 0, 0, 0]);
    PackUnpack([32, 32, 32, 32]);
    SmallLongs();
    LongIs(q);
    DigitsShown(Long(q, 0));
  }

  lemma SmallLongs()
    ensures Long([0, 0, 0, 0], 0) == 0 && Long([32, 32, 32, 32], 0) == SPACES
  {
  }

  lemma DigitsShown(u: nat)
    requires u < WORD32
    ensures var c := Shown(Digits(u));
            && |c| == 5 && (forall i :: 0 <= i < 5 ==> 33 <= c[i] <= 117)
            && Five(c[0], c[1], c[2], c[3], c[4]) == u
  {
    hide Digits, Value;
    var d := Digits(u);
    assert d == [d[0], d[1], d[2], d[3], d[4]];
    Value5(d[0], d[1], d[2], d[3], d[4]);
  }

  lemma LongIs(q: seq<byte>)
    requires |q| == 4
    ensures Long(q, 0) == Four(q[0], q[1], q[2], q[3])
  {
  }

  // ----- the sums -----

  /** Every character counts one more than its code. */
  function Total(s: seq<byte>): nat {
    if s == [] then 0 else s[0] + 1 + Total(s[1..])
  }

  lemma {:induction false} TotalCat(a: seq<byte>, b: seq<byte>)
    ensures Total(a + b) == Total(a) + Total(b)
    decreases |a|
  {
    if a == [] {
      assert a + b == b;
    } else {
      assert (a + b)[1..] == a[1..] + b;
      TotalCat(a[1..], b);
    }
  }

  /** Csum */
  lemma {:induction false} SumIsTotal(s: Sums, chars: seq<byte>)
    ensures SumAll(s, chars).sum == s.sum + Total(chars)
    decreases |chars|
  {
    if chars != [] {
      var n := |chars| - 1;
      SumIsTotal(s, chars[..n]);
      TotalCat(chars[..n], [chars[n]]);
      assert chars == chars[..n] + [chars[n]] && [chars[n]][1..] == [];
    }
  }

  lemma TotalChange(s: seq<byte>, k: nat, ch: byte)
    requires k < |s|
    ensures Total(s[k := ch]) == Total(s) + ch - s[k]
  {
    var rest := s[k + 1..];
    assert s == s[..k] + ([s[k]] + rest) && s[k := ch] == s[..k] + ([ch] + rest);
    TotalCat(s[..k], [s[k]] + rest);
    TotalCat(s[..k], [ch] + rest);
    assert ([s[k]] + rest)[1..] == rest && ([ch] + rest)[1..] == rest;
  }

  // ----- what the decoder adds up -----

  lemma SumFront(s: Sums, a: byte, b: seq<byte>)
    ensures SumAll(s, [a] + b) == SumAll(Sum1(s, a), b)
  {
    hide Sum1;
    SumSnoc(s, [], a);
    assert [] + [a] == [a];
    SumCat(s, [a], b);
  }

  lemma {:induction false} PushAllSums(d: Dec, chars: seq<byte>)
    ensures PushAll(true, d, chars).sums == SumAll(d.sums, chars)
    decreases |chars|
  {
    hide Sum1, PackLong, Shift;
    if chars == [] {
      NoSums(d.sums);
    } else {
      var d1 := d.(sums := Sum1(d.sums, chars[0]));
      PushAllSums(Push(true, d1, chars[0]), chars[1..]);
      SumFront(d.sums, chars[0], chars[1..]);
      assert [chars[0]] + chars[1..] == chars;
    }
  }

  lemma NoSums(s: Sums)
    ensures SumAll(s, []) == s
  {
  }

  /** Every character of a line counts, whether it is accepted or not. */
  lemma {:induction false} LineSums(d: Dec, line: seq<byte>)
    ensures Line(true, d, line).0.sums == SumAll(d.sums, line)
    decreases |line|
  {
    hide Sum1, PackLong, Shift, SumAll, PushAll;
    if line == [] {
      NoSums(d.sums);
    } else {
      var ch, rest := line[0], line[1..];
      var d1 := Begin(true, d, ch);
      SumFront(d.sums, ch, rest);
      assert [ch] + rest == line;
      if Digit(ch) {
        var need := if d1.bytecount <= 4 && |rest| >= 4 - d1.bytecount then 4 - d1.bytecount else 0;
        var d2 := Push(true, d1, ch);
        PushAllSums(d2, rest[..need]);
        LineSums(PushAll(true, d2, rest[..need]), rest[need..]);
        SumCat(d2.sums, rest[..need], rest[need..]);
        assert rest[..need] + rest[need..] == rest;
      } else if (ch == FOUR_ZEROS || ch == FOUR_SPACES) && d1.bytecount == 0 {
        LineSums(Repeated(true, d1, if ch == FOUR_ZEROS then 0 else 32), rest);
      } else {
        LineSums(d1, rest);
      }
    }
  }

  /** The total of lines i and on, without their check characters. */
  function TotalFrom(lines: seq<seq<byte>>, i: nat): nat
    requires i <= |lines|
    decreases |lines| - i
  {
    if i == |lines| then 0
    else (if lines[i] == [] then 0 else Total(lines[i][..|lines[i]| - 1])) + TotalFrom(lines, i + 1)
  }

  lemma {:induction false} NewLinesTotal(d: Dec, lines: seq<seq<byte>>, i: nat, maxPerLine: nat)
    requires i <= |lines| && NewLines(d, lines, i, maxPerLine).Some?
    ensures NewLines(d, lines, i, maxPerLine).value.sums.sum == d.sums.sum + TotalFrom(lines, i)
    decreases |lines| - i
  {
    hide Line, SumAll, Total;
    if i < |lines| {
      var n := |lines[i]| - 1;
      LineSums(d, lines[i][..n]);
      SumIsTotal(d.sums, lines[i][..n]);
      NewLinesTotal(Line(true, d, lines[i][..n]).0, lines, i + 1, maxPerLine);
    }
  }

  /** A line may have nothing but its check character. */
  lemma ShortestLine()
    ensures NewLines(START, [[33]], 0, MAXPERLINE) == Some(START)
  {
    var lines: seq<seq<byte>> := [[33]];
    assert lines[0][..0] == [];
    assert NewLines(START, lines, 1, MAXPERLINE) == Some(START);
  }

  /** Accepted lines are no trailers and fit the buffer; all have the length of the header but for
      the last, which may be shorter. */
  lemma {:induction false} LinesOk(d: Dec, lines: seq<seq<byte>>, i: nat, maxPerLine: nat, j: nat)
    requires i <= j < |lines| && NewLines(d, lines, i, maxPerLine).Some?
    ensures 1 <= |lines[j]| <= 98 && lines[j][0] as char != 'x'
    ensures |lines[j]| == maxPerLine || (|lines[j]| < maxPerLine && j + 1 == |lines|)
    decreases j - i
  {
    hide Line, SumAll;
    var d1 := Line(true, d, lines[i][..|lines[i]| - 1]).0;
    if i < j {
      LinesOk(d1, lines, i + 1, maxPerLine, j);
    } else if j + 1 < |lines| {
      assert NewLines(d1, lines, j + 1, maxPerLine).Some?;
    }
  }

  // ----- damage -----

  /** What atob accepts; see Decode. */
  ghost predicate Accepted(a: Archive) {
    DecodedLines(a).Some? && a.trailer.n1 == a.trailer.n2 && a.trailer.sums == DecodedLines(a).value.sums
  }

  /** One character of line i is another one. */
  function Damaged(lines: seq<seq<byte>>, i: nat, k: nat, ch: byte): (r: seq<seq<byte>>)
    requires i < |lines| && k < |lines[i]|
    ensures |r| == |lines|
  {
    var line: seq<byte> := lines[i][k := ch];
    lines[i := line]
  }

  lemma {:induction false} TotalFromSame(a: seq<seq<byte>>, b: seq<seq<byte>>, i: nat)
    requires |a| == |b| && i <= |a| && forall j :: i <= j < |a| ==> a[j] == b[j]
    ensures TotalFrom(a, i) == TotalFrom(b, i)
    decreases |a| - i
  {
    if i < |a| {
      TotalFromSame(a, b, i + 1);
    }
  }

  lemma {:induction false} TotalFromDamaged(lines: seq<seq<byte>>, i: nat, k: nat, ch: byte, p: nat)
    requires p <= i < |lines| && k + 1 < |lines[i]|
    ensures TotalFrom(Damaged(lines, i, k, ch), p) == TotalFrom(lines, p) + ch - lines[i][k]
    decreases i - p
  {
    hide Total;
    var b := Damaged(lines, i, k, ch);
    if p < i {
      TotalFromDamaged(lines, i, k, ch, p + 1);
    } else {
      var n := |lines[i]| - 1;
      TotalChange(lines[i][..n], k, ch);
      assert b[i][..n] == lines[i][..n][k := ch];
      TotalFromSame(b, lines, i + 1);
    }
  }

  /** A wrong check character is an error on its line. */
  lemma {:induction false} CheckCharDamaged(d: Dec, lines: seq<seq<byte>>, i: nat, ch: byte, maxPerLine: nat, p: nat)
    requires p <= i < |lines| && 1 <= |lines[i]| && ch != lines[i][|lines[i]| - 1]
    requires NewLines(d, lines, p, maxPerLine).Some?
    ensures NewLines(d, Damaged(lines, i, |lines[i]| - 1, ch), p, maxPerLine) == None
    decreases i - p
  {
    hide Line, SumAll;
    var k := |lines[i]| - 1;
    var b := Damaged(lines, i, k, ch);
    if p < i {
      var n := |lines[p]| - 1;
      CheckCharDamaged(Line(true, d, lines[p][..n]).0, lines, i, ch, maxPerLine, p + 1);
    } else {
      assert b[i][..k] == lines[i][..k];
    }
  }

  /** An archive of the new format in which one character of one line was changed is refused,
      whatever the character and the line. */
  lemma DamageRefused(a: Archive, i: nat, k: nat, ch: byte)
    requires a.newVersion && Accepted(a) && i < |a.lines| && k < |a.lines[i]| && ch != a.lines[i][k]
    ensures !Accepted(a.(lines := Damaged(a.lines, i, k, ch)))
  {
    hide NewLines, Damaged, TotalFrom;
    var lines, m := a.lines, a.maxPerLine;
    var b := Damaged(lines, i, k, ch);
    if k + 1 == |lines[i]| {
      CheckCharDamaged(START, lines, i, ch, m, 0);
    } else if NewLines(START, b, 0, m).Some? {
      NewLinesTotal(START, lines, 0, m);
      NewLinesTotal(START, b, 0, m);
      TotalFromDamaged(lines, i, k, ch, 0);
    }
  }
}
