/** src/commands/btoa.c: encoding bytes as lines of printable characters. */
module Btoa {
  import opened Common

  const MAXPERLINE := 78
  const BASE := 33          // '!'
  const FOUR_ZEROS := 122   // 'z'
  const FOUR_SPACES := 121  // 'y'
  const END_MARK := 120     // 'x'
  const SPACES := 0x2020_2020
  const P1 := 85
  const P2 := 7225
  const P3 := 614125
  const P4 := 52200625

  // ----- checksums -----

  /** Ceor, Csum and Crot; Crot is a 32-bit word. */
  datatype Sums = Sums(eor: bv8, sum: nat, rot: nat)

  const NO_SUMS := Sums(0, 0, 0)

  /** The bits of a word move up by one, and the highest comes round. */
  function RotateLeft(x: nat): (r: nat)
    requires x < WORD32
    ensures r < WORD32 && r / 2 == x % 0x8000_0000 && r % 2 == x / 0x8000_0000
  {
    if x >= 0x8000_0000 then (2 * x) % WORD32 + 1 else 2 * x
  }

  /** calcchecksum() */
  function Sum1(s: Sums, ch: byte): Sums {
    Sums(s.eor ^ (ch as bv8), s.sum + ch + 1, (RotateLeft(s.rot % WORD32) + ch) % WORD32)
  }

  function SumAll(s: Sums, chars: seq<byte>): Sums {
    if chars == [] then s else Sum1(SumAll(s, chars[..|chars| - 1]), chars[|chars| - 1])
  }

  lemma {:induction false} SumCat(s: Sums, a: seq<byte>, b: seq<byte>)
    ensures SumAll(s, a + b) == SumAll(SumAll(s, a), b)
    decreases |b|
  {
    if b == [] {
      assert a + b == a;
    } else {
      var n := |b| - 1;
      SumCat(s, a, b[..n]);
      assert (a + b)[..|a + b| - 1] == a + b[..n];
    }
  }

  lemma SumSnoc(s: Sums, a: seq<byte>, x: byte)
    ensures SumAll(s, []) == s && SumAll(s, a + [x]) == Sum1(SumAll(s, a), x)
  {
    assert (a + [x])[..|a|] == a;
  }

  function CheckChar(s: Sums): (c: byte)
    ensures BASE <= c < BASE + 85
  {
    BASE + s.sum % 85
  }

  // ----- words and characters -----

  /** Four bytes from 4 * i on, padded with zeros. */
  function Quad(data: seq<byte>, i: nat): (q: seq<byte>)
    requires 4 * i < |data|
    ensures |q| == 4
  {
    if 4 * i + 4 <= |data| then data[4 * i..4 * i + 4] else data[4 * i..] + seq(4 * i + 4 - |data|, _ => 0)
  }

  function Quads(n: nat): nat {
    (n + 3) / 4
  }

  /** The five base-85 digits of a word. */
  function Digits(u: nat): (d: seq<byte>)
    requires u < WORD32
    ensures |d| == 5 && forall i :: 0 <= i < 5 ==> d[i] < 85
    ensures Value(d) == u
  {
    var d0, r0 := u / P4, u % P4;
    var d1, r1 := r0 / P3, r0 % P3;
    var d2, r2 := r1 / P2, r1 % P2;
    Value5(d0, d1, d2, r2 / P1, r2 % P1);
    [d0, d1, d2, r2 / P1, r2 % P1]
  }

  /** The number some base-85 digits stand for. */
  function Value(d: seq<byte>): nat {
    if d == [] then 0 else 85 * Value(d[..|d| - 1]) + d[|d| - 1]
  }

  lemma Value5(a: byte, b: byte, c: byte, d: byte, e: byte)
    ensures Value([a, b, c, d, e]) == P4 * a + P3 * b + P2 * c + P1 * d + e
  {
    hide Value;
    ValueSnoc([], a);
    ValueSnoc([] + [a], b);
    ValueSnoc([] + [a] + [b], c);
    ValueSnoc([] + [a] + [b] + [c], d);
    ValueSnoc([] + [a] + [b] + [c] + [d], e);
    assert [a, b, c, d, e] == [] + [a] + [b] + [c] + [d] + [e];
  }

  lemma ValueSnoc(s: seq<byte>, x: byte)
    ensures Value([]) == 0 && Value(s + [x]) == 85 * Value(s) + x
  {
    assert (s + [x])[..|s|] == s;
  }

  /** What a word is written as. */
  function Chars(newVersion: bool, u: nat): (c: seq<byte>)
    requires u < WORD32
    ensures 1 <= |c| <= 5
  {
    if u == 0 then [FOUR_ZEROS]
    else if newVersion && u == SPACES then [FOUR_SPACES]
    else Shown(Digits(u))
  }

  function Shown(d: seq<byte>): (c: seq<byte>)
    requires forall i :: 0 <= i < |d| ==> d[i] < 85
    ensures |c| == |d| && forall i :: 0 <= i < |d| ==> c[i] == BASE + d[i]
  {
    seq(|d|, i requires 0 <= i < |d| => BASE + d[i])
  }

  /** The characters of the first n words of the data. */
  function Stream(newVersion: bool, data: seq<byte>, n: nat): seq<byte>
    requires n <= Quads(|data|)
  {
    if n == 0 then [] else Stream(newVersion, data, n - 1) + Chars(newVersion, Long(Quad(data, n - 1), 0))
  }

  /** The bytes of the first n words, padding included. */
  function Padded(data: seq<byte>, n: nat): seq<byte>
    requires n <= Quads(|data|)
  {
    if n == 0 then [] else Padded(data, n - 1) + Quad(data, n - 1)
  }

  /** A character that data lines are made of. */
  predicate Printable(newVersion: bool, c: byte) {
    BASE <= c < BASE + 85 || c == FOUR_ZEROS || (newVersion && c == FOUR_SPACES)
  }

  lemma {:induction false} StreamPrintable(newVersion: bool, data: seq<byte>, n: nat)
    requires n <= Quads(|data|)
    ensures forall i :: 0 <= i < |Stream(newVersion, data, n)| ==> Printable(newVersion, Stream(newVersion, data, n)[i])
  {
    if n > 0 {
      hide Chars, Printable, Quad, Long;
      StreamPrintable(newVersion, data, n - 1);
      CharsPrintable(newVersion, Long(Quad(data, n - 1), 0));
    }
  }

  lemma CharsPrintable(newVersion: bool, u: nat)
    requires u < WORD32
    ensures forall i :: 0 <= i < |Chars(newVersion, u)| ==> Printable(newVersion, Chars(newVersion, u)[i])
  {
    hide Digits;
  }

  // ----- lines -----

  function PerLine(newVersion: bool): nat {
    if newVersion then MAXPERLINE - 1 else MAXPERLINE
  }

  /** Where line i begins in a stream of characters. */
  function Start(newVersion: bool, i: nat): nat {
    if newVersion then (MAXPERLINE - 1) * i else MAXPERLINE * i
  }

  /** Line i of a stream of characters; in the new format it ends in a check character. */
  function LineOf(newVersion: bool, s: seq<byte>, i: nat): (line: seq<byte>)
    requires Start(newVersion, i) <= |s|
  {
    var end := Min(Start(newVersion, i + 1), |s|);
    s[Start(newVersion, i)..end] + if newVersion then [CheckChar(SumAll(NO_SUMS, s[..end]))] else []
  }

  function LineCount(newVersion: bool, s: seq<byte>): (k: nat)
    ensures |s| <= Start(newVersion, k) < |s| + PerLine(newVersion)
  {
    var n := PerLine(newVersion);
    (|s| + n - 1) / n
  }

  ghost predicate IsArchive(newVersion: bool, s: seq<byte>, lines: seq<seq<byte>>) {
    && |lines| == LineCount(newVersion, s)
    && forall i :: 0 <= i < |lines| ==> lines[i] == LineOf(newVersion, s, i)
  }

  /** No line of the data looks like the end of the archive. */
  lemma NoEndMark(newVersion: bool, s: seq<byte>, i: nat)
    requires i < LineCount(newVersion, s)
    requires forall k :: 0 <= k < |s| ==> Printable(newVersion, s[k])
    ensures var line := LineOf(newVersion, s, i);
            1 <= |line| <= MAXPERLINE && line[0] != END_MARK
  {
    hide SumAll;
    assert LineOf(newVersion, s, i)[0] == s[Start(newVersion, i)];
  }

  datatype Trailer = Trailer(n1: nat, n2: nat, sums: Sums)
  datatype Archive = Archive(newVersion: bool, maxPerLine: nat, lines: seq<seq<byte>>, trailer: Trailer)

  /** A 32-bit machine word as a signed number. */
  function Wrap(x: int): (r: int)
    ensures -0x8000_0000 <= r < 0x8000_0000 && (r - x) % WORD32 == 0
  {
    (x + 0x8000_0000) % WORD32 - 0x8000_0000
  }

  lemma WrapBack(x: nat)
    requires x < WORD32
    ensures Wrap(x) % WORD32 == x
  {
  }

  lemma QuadBytes(data: seq<byte>, k: nat, ch1: byte, ch2: byte, ch3: byte, ch4: byte)
    requires 4 * k < |data| && ch1 == data[4 * k]
    requires ch2 == (if 4 * k + 1 < |data| then data[4 * k + 1] else 0)
    requires ch3 == (if 4 * k + 2 < |data| then data[4 * k + 2] else 0)
    requires ch4 == (if 4 * k + 3 < |data| then data[4 * k + 3] else 0)
    ensures Quad(data, k) == [ch1, ch2, ch3, ch4]
    ensures Long(Quad(data, k), 0) == 0x1_0000 * (256 * ch1 + ch2) + (256 * ch3 + ch4) < WORD32
  {
  }

  class Encoder {
    const newVersion: bool
    var sums: Sums
    var line: seq<byte>
    var lines: seq<seq<byte>>

    /** Every character written so far. */
    ghost var stream: seq<byte>

    ghost predicate Valid()
      reads this
    {
      && Start(newVersion, |lines|) <= |stream| < Start(newVersion, |lines| + 1)
      && (forall i :: 0 <= i < |lines| ==> lines[i] == LineOf(newVersion, stream, i))
      && line == stream[Start(newVersion, |lines|)..]
      && (newVersion ==> sums == SumAll(NO_SUMS, stream))
    }

    constructor (newVersion: bool)
      ensures Valid() && stream == [] && this.newVersion == newVersion && sums == NO_SUMS
    {
      hide Sum1, SumAll, LineOf;
      EmptySums();
      this.newVersion := newVersion;
      sums, line, lines, stream := NO_SUMS, [], [], [];
    }

    /** asciiout() of one character. */
    method AsciiOut(ch: byte)
      requires Valid()
      modifies this
      ensures Valid() && stream == old(stream) + [ch]
      ensures !newVersion ==> sums == old(sums)
    {
      hide Sum1, SumAll;
      LinesStay(newVersion, stream, ch, |lines|);
      SumSnoc(NO_SUMS, stream, ch);
      line := line + [ch];
      stream := stream + [ch];
      if newVersion {
        sums := Sum1(sums, ch);
        if |line| >= MAXPERLINE - 1 {
          lines := lines + [line + [CheckChar(sums)]];
          assert stream[..|stream|] == stream;
          line := [];
        }
      } else if |line| >= MAXPERLINE {
        lines := lines + [line];
        line := [];
      }
    }

    /** wordout(): codeword is a signed 32-bit number. */
    method WordOut(codeword0: int)
      requires Valid() && -0x8000_0000 <= codeword0 < 0x8000_0000
      modifies this
      ensures Valid() && stream == old(stream) + Chars(newVersion, codeword0 % WORD32)
      ensures !newVersion ==> sums == old(sums)
    {
      hide Encoder.Valid;
      if codeword0 == 0 {
        AsciiOut(FOUR_ZEROS);
      } else if newVersion && codeword0 == SPACES {
        AsciiOut(FOUR_SPACES);
      } else {
        var codeword, tmp := codeword0, 0;
        if codeword < 0 {
          tmp := 32;
          codeword := Wrap(codeword - P4 * 32);
        }
        if codeword < 0 {
          tmp := 64;
          codeword := Wrap(codeword - P4 * 32);
        }
        FirstDigit(codeword0, codeword, tmp);
        FiveOut(tmp, codeword, codeword0 % WORD32);
      }
    }

    /** The five characters of wordout(). */
    method FiveOut(tmp: nat, codeword0: nat, ghost u: nat)
      requires Valid() && u < WORD32 && codeword0 + P4 * tmp == u
      modifies this
      ensures Valid() && stream == old(stream) + Shown(Digits(u))
      ensures !newVersion ==> sums == old(sums)
    {
      hide Encoder.Valid;
      var codeword := codeword0;
      ghost var d := Digits(u);
      var quote := codeword / P4;
      codeword := codeword - quote * P4;
      assert quote + tmp == d[0] && codeword == u % P4;
      AsciiOut(BASE + quote + tmp);
      quote := codeword / P3;
      codeword := codeword - quote * P3;
      AsciiOut(BASE + quote);
      quote := codeword / P2;
      codeword := codeword - quote * P2;
      AsciiOut(BASE + quote);
      quote := codeword / P1;
      codeword := codeword - quote * P1;
      AsciiOut(BASE + quote);
      AsciiOut(BASE + codeword);
    }

    /** The checksums of the old format are those of the bytes. */
    method SumFour(ch1: byte, ch2: byte, ch3: byte, ch4: byte)
      requires Valid() && !newVersion
      modifies this`sums
      ensures Valid() && sums == SumAll(old(sums), [ch1, ch2, ch3, ch4])
    {
      hide SumAll, Sum1;
      QuadSum(sums, ch1, ch2, ch3, ch4);
      sums := Sum1(Sum1(Sum1(Sum1(sums, ch1), ch2), ch3), ch4);
    }

    /** The first k words of the data are done. */
    ghost predicate Encoded(data: seq<byte>, k: nat)
      requires k <= Quads(|data|)
      reads this
    {
      Valid() && stream == Stream(newVersion, data, k) && (!newVersion ==> sums == SumAll(NO_SUMS, Padded(data, k)))
    }

    /** One turn of the loop in btoa(). */
    method QuadOut(data: seq<byte>, at: nat, readbytes: nat, ghost k: nat)
      requires at == 4 * k && readbytes == Min(4, |data| - at) && readbytes > 0 && Encoded(data, k)
      modifies this
      ensures Encoded(data, k + 1)
    {
      hide SumAll, Sum1, Encoder.Valid, Stream, Padded, Chars;
      OneEncoded(newVersion, data, k);
      var ch1: nat := data[at];
      var ch2: nat := if readbytes > 1 then data[at + 1] else 0;
      var ch3: nat := if readbytes > 2 then data[at + 2] else 0;
      var ch4: nat := if readbytes > 3 then data[at + 3] else 0;
      QuadBytes(data, k, ch1, ch2, ch3, ch4);
      hide Quad, Wrap;
      if !newVersion {
        SumFour(ch1, ch2, ch3, ch4);
      }
      var word := 0x1_0000 * (256 * ch1 + ch2) + (256 * ch3 + ch4);
      WrapBack(word);
      WordOut(Wrap(word));
    }

    /** asciiout(EOF) */
    method Flush()
      requires Valid()
      modifies this`lines
      ensures IsArchive(newVersion, stream, lines)
      ensures newVersion ==> sums == SumAll(NO_SUMS, stream)
    {
      hide SumAll;
      assert stream[..|stream|] == stream;
      if |line| != 0 {
        lines := lines + [if newVersion then line + [CheckChar(sums)] else line];
      }
    }
  }

  /** The two corrections turn a negative number into the rest of the unsigned word. */
  lemma FirstDigit(c0: int, c: int, tmp: int)
    requires -0x8000_0000 <= c0 < 0x8000_0000
    requires var c1 := if c0 < 0 then Wrap(c0 - P4 * 32) else c0;
             && c == (if c1 < 0 then Wrap(c1 - P4 * 32) else c1)
             && tmp == if c1 < 0 then 64 else if c0 < 0 then 32 else 0
    ensures c >= 0 && c + P4 * tmp == c0 % WORD32
  {
  }

  /** Finished lines do not change. */
  lemma LinesStay(newVersion: bool, s: seq<byte>, ch: byte, k: nat)
    requires Start(newVersion, k) <= |s|
    ensures forall i :: 0 <= i < k ==> LineOf(newVersion, s + [ch], i) == LineOf(newVersion, s, i)
  {
    hide SumAll;
    forall i | 0 <= i < k
      ensures LineOf(newVersion, s + [ch], i) == LineOf(newVersion, s, i)
    {
      var a, b := Start(newVersion, i), Start(newVersion, i + 1);
      assert b <= |s|;
      assert (s + [ch])[..b] == s[..b] && (s + [ch])[a..b] == s[a..b];
    }
  }

  /** btoa(): the whole archive of some data. */
  method Encode(newVersion: bool, data: seq<byte>) returns (a: Archive)
    ensures a.newVersion == newVersion && a.maxPerLine == 78
    ensures IsArchive(newVersion, Stream(newVersion, data, Quads(|data|)), a.lines)
    ensures a.trailer == Trailer(|data|, |data|,
            SumAll(NO_SUMS, if newVersion then Stream(newVersion, data, Quads(|data|))
                                                                else Padded(data, Quads(|data|))))
  {
    hide IsArchive, SumAll, Sum1, Encoder.Valid, Stream, Padded;
    var enc := new Encoder(newVersion);
    var filesize := 0;
    var readbytes := 4;
    ghost var k := 0;
    NothingEncoded(newVersion, data);
    while readbytes == 4
      invariant fresh(enc) && enc.newVersion == newVersion && k <= Quads(|data|) && enc.Encoded(data, k)
      invariant if readbytes == 4 then filesize == 4 * k <= |data| else filesize == |data| && k == Quads(|data|)
      decreases readbytes == 4, |data| - filesize
    {
      readbytes := Min(4, |data| - filesize);
      if readbytes > 0 {
        enc.QuadOut(data, filesize, readbytes, k);
        k := k + 1;
        filesize := filesize + readbytes;
      }
    }
    enc.Flush();
    a := Archive(newVersion, MAXPERLINE, enc.lines, Trailer(filesize, filesize, enc.sums));
  }

  lemma NothingEncoded(newVersion: bool, data: seq<byte>)
    ensures Stream(newVersion, data, 0) == [] && Padded(data, 0) == [] && SumAll(NO_SUMS, []) == NO_SUMS
  {
  }

  lemma OneEncoded(newVersion: bool, data: seq<byte>, k: nat)
    requires k < Quads(|data|)
    ensures Stream(newVersion, data, k + 1) == Stream(newVersion, data, k) + Chars(newVersion, Long(Quad(data, k), 0))
    ensures Padded(data, k + 1) == Padded(data, k) + Quad(data, k)
    ensures SumAll(NO_SUMS, Padded(data, k + 1)) == SumAll(SumAll(NO_SUMS, Padded(data, k)), Quad(data, k))
  {
    hide Chars, SumAll, Quad;
    SumCat(NO_SUMS, Padded(data, k), Quad(data, k));
  }

  lemma EmptySums()
    ensures SumAll(NO_SUMS, []) == NO_SUMS
  {
  }

  lemma QuadSum(s: Sums, a: byte, b: byte, c: byte, d: byte)
    ensures SumAll(s, [a, b, c, d]) == Sum1(Sum1(Sum1(Sum1(s, a), b), c), d)
  {
    hide SumAll, Sum1;
    SumSnoc(s, [], a);
    SumSnoc(s, [] + [a], b);
    SumSnoc(s, [] + [a] + [b], c);
    SumSnoc(s, [] + [a] + [b] + [c], d);
    assert [a, b, c, d] == [] + [a] + [b] + [c] + [d];
  }
}
