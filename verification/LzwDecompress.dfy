/** decompress(): the decompressor with its prefix and suffix tables and its stack. */
module LzwDecompress {
  import opened Common
  import opened LzwCodes
  import opened LzwStream
  import opened LzwBits
  import opened LzwCompress

  /** The suffix table and the output stack share the memory of htab: HSIZE longs. */
  const HTABSIZE := 36004
  const STACK := 8192
  const CODETABSIZE := 9001

  /** No string of code c is longer. */
  function MaxLength(p: Params, c: int): int {
    if c < 256 then 1 else c + 2 - p.FirstFree()
  }

  /** Entry c of the tables: its string is the string of a smaller code and one more byte,
      and is no longer than the codes below it allow. */
  ghost predicate EntryOk(p: Params, prefix: seq<int>, tab: seq<byte>, strs: seq<seq<byte>>, c: nat)
    requires |prefix| == CODETABSIZE && |tab| == HTABSIZE && c < |strs| <= STACK
  {
    && 0 <= prefix[c] < c && !p.Reserved(prefix[c])
    && strs[c] == strs[prefix[c]] + [tab[c]]
    && 1 <= |strs[c]| <= MaxLength(p, c)
  }

  ghost predicate TabOk(p: Params, prefix: seq<int>, tab: seq<byte>, strs: seq<seq<byte>>) {
    && |prefix| == CODETABSIZE && |tab| == HTABSIZE && 256 <= |strs| <= STACK
    && (forall c :: 0 <= c < 256 ==> tab[c] == c && strs[c] == [c])
    && (forall c :: 256 <= c < |strs| && !p.Reserved(c) ==> EntryOk(p, prefix, tab, strs, c))
  }

  /** The stack may change freely. */
  lemma StackFree(p: Params, prefix: seq<int>, tab: seq<byte>, tab': seq<byte>, strs: seq<seq<byte>>)
    requires TabOk(p, prefix, tab, strs) && |tab'| == HTABSIZE && tab'[..STACK] == tab[..STACK]
    ensures TabOk(p, prefix, tab', strs)
  {
    assert forall c :: 0 <= c < STACK ==> tab'[c] == tab'[..STACK][c] && tab[c] == tab[..STACK][c];
    forall c | 256 <= c < |strs| && !p.Reserved(c)
      ensures EntryOk(p, prefix, tab', strs, c)
    {
      assert EntryOk(p, prefix, tab, strs, c);
    }
  }

  /** A new entry. */
  lemma NewEntry(p: Params, prefix: seq<int>, tab: seq<byte>, strs: seq<seq<byte>>, oldcode: int, x: byte,
                 str: seq<byte>)
    requires TabOk(p, prefix, tab, strs) && |strs| < STACK
    requires !p.Reserved(|strs|) ==>
               && 0 <= oldcode < |strs| && !p.Reserved(oldcode)
               && str == strs[oldcode] + [x]
    ensures TabOk(p, prefix[|strs| := oldcode], tab[|strs| := x], strs + [str])
  {
    var n := |strs|;
    var prefix', tab', strs' := prefix[n := oldcode], tab[n := x], strs + [str];
    forall c | 256 <= c < |strs'| && !p.Reserved(c)
      ensures EntryOk(p, prefix', tab', strs', c)
    {
      if c < n {
        assert EntryOk(p, prefix, tab, strs, c);
      } else if oldcode >= 256 {
        assert EntryOk(p, prefix, tab, strs, oldcode);
      }
    }
  }

  /** A string is no longer than the codes from FIRST up to its own allow, so that the longest
      one and the byte of the KwKwK case fit into the stack. */
  lemma StringBound(p: Params, prefix: seq<int>, tab: seq<byte>, strs: seq<seq<byte>>, code: int)
    requires TabOk(p, prefix, tab, strs) && 0 <= code < |strs| && !p.Reserved(code)
    ensures 1 <= |strs[code]| <= MaxLength(p, code)
    ensures STACK + |strs[code]| + 1 <= HTABSIZE
  {
    if code >= 256 {
      assert EntryOk(p, prefix, tab, strs, code);
    }
  }

  /** "At most code - 255 bytes" is right for every entry exactly in block mode: without it the
      first entry, code 256, has 2 bytes. */
  lemma BlockBound(p: Params, prefix: seq<int>, tab: seq<byte>, strs: seq<seq<byte>>)
    requires TabOk(p, prefix, tab, strs)
    ensures (forall c :: 256 <= c < |strs| && !p.Reserved(c) ==> |strs[c]| <= c - 255) <==> p.block || |strs| == 256
    ensures !p.block && |strs| > 256 ==> |strs[256]| == 2
  {
    if !p.block && |strs| > 256 {
      assert EntryOk(p, prefix, tab, strs, 256);
    }
    forall c | 256 <= c < |strs| && !p.Reserved(c)
      ensures |strs[c]| <= MaxLength(p, c)
    {
      assert EntryOk(p, prefix, tab, strs, c);
    }
  }

  // ----- the bound on every stream -----

  ghost predicate Bounded(p: Params, d: Dec) {
    && |d.strs| >= 256
    && (forall c :: 0 <= c < |d.strs| && !p.Reserved(c) ==> 1 <= |d.strs[c]| <= MaxLength(p, c))
    && (d.prev != [] && !(p.block && |d.strs| == 256) ==> |d.prev| <= MaxLength(p, |d.strs|) - 1)
  }

  lemma AbsorbBounded(p: Params, d: Dec, code: nat)
    requires Bounded(p, d) && Accepts(p, d, code)
    requires d.prev == [] ==> d.strs == InitTable(p)
    ensures Bounded(p, Absorb(p, d, code))
  {
    if !IsClear(p, d, code) {
      assert code < |d.strs| ==> |d.strs[code]| <= MaxLength(p, code);
    }
  }

  /** On every stream that is accepted, not only on those a compressor writes. */
  lemma {:induction false} RunBounded(p: Params, codes: seq<nat>)
    requires DecRun(p, codes).At?
    ensures Bounded(p, DecRun(p, codes).d)
    ensures DecRun(p, codes).d.prev == [] ==> DecRun(p, codes).d.strs == InitTable(p)
    decreases |codes|
  {
    if codes != [] {
      var k := |codes| - 1;
      RunBounded(p, codes[..k]);
      var d := DecRun(p, codes[..k]).d;
      AbsorbBounded(p, PreRead(p, d), codes[k]);
    }
  }

  /** Two codes without block mode: code 256 stands for 2 bytes. */
  lemma TwoByteExample()
    ensures var r := DecRun(Params(9, false), [97, 98]);
            r.At? && |r.d.strs| == 257 && |r.d.strs[256]| == 2
  {
    var p := Params(9, false);
    assert [] + [97] == [97] && [97] + [98] == [97, 98];
    assert DecRun(p, []) == At(InitDec(p), []);
    DecRunStep(p, [], 97);
    DecRunStep(p, [97], 98);
    assert Pow2(9) == 512 by {
      Pow2Table();
    }
  }

  /** Unwinding a code by one table entry. */
  lemma StringStep(p: Params, prefix: seq<int>, tab: seq<byte>, strs: seq<seq<byte>>, code: int)
    requires TabOk(p, prefix, tab, strs) && 0 <= code < |strs| && !p.Reserved(code)
    ensures |prefix| == CODETABSIZE && |tab| == HTABSIZE && |strs| <= STACK
    ensures code >= 256 ==> 0 <= prefix[code] < code && !p.Reserved(prefix[code])
    ensures code >= 256 ==> strs[code] == strs[prefix[code]] + [tab[code]]
    ensures code < 256 ==> strs[code] == [tab[code]]
  {
    if code >= 256 {
      assert EntryOk(p, prefix, tab, strs, code);
    }
  }

  function Rev(s: seq<byte>): (r: seq<byte>)
    ensures |r| == |s|
  {
    if s == [] then [] else [s[|s| - 1]] + Rev(s[..|s| - 1])
  }

  lemma RevSnoc(s: seq<byte>, x: byte)
    ensures Rev(s + [x]) == [x] + Rev(s)
  {
    assert (s + [x])[..|s|] == s;
  }

  class Decompressor {
    const p: Params
    const prefix: array<int>
    const tab: array<byte>
    const buf: array<byte>
    const input: seq<byte>
    var pos: nat
    var freeEnt: nat
    var nBits: nat
    var maxcode: int
    var clearFlg: bool
    var offset: nat
    var size: int
    ghost var got: nat
    ghost var d: Dec

    /** The reader's variables and the abstract state. */
    ghost predicate ReaderOk()
      reads this
    {
      && p.Valid()
      && buf.Length == BITS && prefix.Length == CODETABSIZE && tab.Length == HTABSIZE && tab != buf
      && pos <= |input|
      && freeEnt == |d.strs| && 256 <= freeEnt <= STACK
      && nBits == d.w.nbits && maxcode == d.w.maxcode && clearFlg == d.clr
      && WidthBound(p, d)
    }

    /** The bit buffer. */
    ghost predicate BufOk()
      reads this
    {
      && ReaderOk()
      && got <= BITS && offset <= 8 * got
      && (size == 8 * got - (nBits - 1) || (got == 0 && size == 0))
    }

    ghost function BitsLeft(): nat
      requires BufOk()
      reads this
    {
      8 * (|input| - pos) + (8 * got - offset)
    }

    /** What is still to come. */
    ghost function Rest(): Option<seq<byte>>
      requires BufOk()
      reads this, buf
    {
      DecodeBytes(p, d, buf[..got], offset, input[pos..])
    }

    /** getcode()'s change of width before it reads a new buffer. */
    method ChangeWidth()
      requires ReaderOk()
      modifies `nBits, `maxcode, `clearFlg, `d
      ensures ReaderOk() && d == PreRead(p, old(d))
    {
      hide Pow2;
      PreReadBound(p, d);
      d := PreRead(p, d);
      if freeEnt > maxcode {
        nBits := nBits + 1;
        maxcode := if nBits == p.maxbits then p.MaxMax() else Pow2(nBits) - 1;
      }
      if clearFlg {
        nBits := INIT_BITS;
        maxcode := 511;
        clearFlg := false;
      }
    }

    /** fread() of up to n_bits bytes. */
    method ReadBuffer() returns (n: nat)
      requires buf.Length == BITS && nBits <= BITS && pos <= |input|
      modifies buf, `pos
      ensures pos <= |input|
      ensures n == Min(nBits, |input[old(pos)..]|) && pos == old(pos) + n
      ensures buf[..n] == input[old(pos)..][..n] && input[pos..] == input[old(pos)..][n..]
    {
      n := Min(nBits, |input| - pos);
      var i := 0;
      while i < n
        modifies buf
        invariant i <= n
        invariant buf[..i] == input[pos..pos + i]
      {
        buf[i] := input[pos + i];
        i := i + 1;
      }
      assert input[pos..][..n] == input[pos..pos + n];
      assert input[pos..][n..] == input[pos + n..];
      pos := pos + n;
    }

    /** getcode()'s new buffer: change the width if need be, and read. */
    method NewBuffer() returns (n: nat)
      requires ReaderOk()
      modifies buf, `pos, `nBits, `maxcode, `clearFlg, `offset, `size, `got, `d
      ensures ReaderOk() && d == PreRead(p, old(d))
      ensures n == Min(nBits, |input[old(pos)..]|) && pos == old(pos) + n
      ensures n > 0 ==> BufOk() && got == n && offset == 0
      ensures buf[..n] == input[old(pos)..][..n] && input[pos..] == input[old(pos)..][n..]
    {
      hide WidthBound;
      ChangeWidth();
      WidthsOk(p, d);
      n := ReadBuffer();
      if n > 0 {
        offset, got := 0, n;
        size := 8 * n - (nBits - 1);
      }
    }

    /** getcode(): the next code, or -1 at end of file. */
    method GetCode() returns (code: int)
      requires BufOk() && Rest().Some?
      modifies buf, `pos, `nBits, `maxcode, `clearFlg, `offset, `size, `got, `d
      ensures ReaderOk() && d.strs == old(d.strs) && d.prev == old(d.prev)
      ensures code >= 0 ==> BufOk() && BitsLeft() < old(BitsLeft())
      ensures code < 0 ==> code == -1 && old(Rest()) == Some([])
      ensures code >= 0 ==>
                && d == PreRead(p, old(d)) && !d.clr
                && Accepts(p, d, code)
                && old(Rest()) == After(code)
    {
      hide CodeAt, Accepts, Pow2, DecodeBytes, AfterCode, WidthBound;
      ghost var d0, buf0, off0, rest0 := d, buf[..got], offset, input[pos..];
      WidthsOk(p, d);
      if clearFlg || offset >= size || freeEnt > maxcode {
        var n := NewBuffer();
        if n <= 0 {
          AtEnd(p, d0, buf0, off0, rest0);
          return -1;
        }
      }
      WidthsOk(p, d);
      ReadStep(p, d0, buf0, off0, rest0, buf[..got], offset, input[pos..]);
      code := GetBits(buf, offset, nBits);
      CodeAtPrefix(buf[..], got, offset, nBits);
      offset := offset + nBits;
    }

    /** What is still to come once code has been absorbed. */
    ghost function After(code: nat): Option<seq<byte>>
      requires BufOk() && Accepts(p, d, code)
      reads this, buf
    {
      AfterCode(p, d, code, buf[..got], offset, input[pos..])
    }

    ghost predicate TablesOk()
      requires ReaderOk()
      reads this, prefix, tab
    {
      TabOk(p, prefix[..], tab[..], d.strs)
    }

    /** oldcode and finchar agree with the string decoded last.  After a CLEAR only finchar does. */
    ghost predicate OldOk(oldcode: int, finchar: byte)
      reads this
    {
      && d.prev != [] && d.prev[0] == finchar
      && (!(p.block && |d.strs| == 256) ==>
            0 <= oldcode < |d.strs| && !p.Reserved(oldcode) && d.strs[oldcode] == d.prev)
    }

    /** Push the string of a code on the stack, last byte first. */
    method Unwind(code0: int, stack0: nat) returns (finchar: byte, stackp: nat)
      requires ReaderOk() && TablesOk() && STACK <= stack0 <= STACK + 1
      requires 0 <= code0 < |d.strs| && !p.Reserved(code0)
      modifies tab
      ensures TablesOk() && STACK < stackp <= HTABSIZE
      ensures Rev(tab[STACK..stackp]) == d.strs[code0] + Rev(old(tab[STACK..stack0]))
      ensures d.strs[code0] != [] && finchar == d.strs[code0][0]
    {
      hide TabOk, EntryOk, Rev;
      var code := code0;
      stackp := stack0;
      ghost var was := tab[..];
      ghost var goal := d.strs[code0] + Rev(tab[STACK..stack0]);
      StringBound(p, prefix[..], was, d.strs, code);
      while code >= 256
        invariant 0 <= code < |d.strs| && !p.Reserved(code)
        invariant STACK <= stackp && |d.strs[code]| + stackp <= STACK + 8000
        invariant tab[..STACK] == was[..STACK]
        invariant d.strs[code] + Rev(tab[STACK..stackp]) == goal
        invariant d.strs[code] != [] && d.strs[code][0] == d.strs[code0][0]
        decreases code
      {
        StringStep(p, prefix[..], was, d.strs, code);
        StringBound(p, prefix[..], was, d.strs, prefix[code]);
        Push(code, stackp, was);
        Regroup(d.strs[prefix[code]], was[code], Rev(tab[STACK..stackp]));
        stackp := stackp + 1;
        code := prefix[code];
      }
      StringStep(p, prefix[..], was, d.strs, code);
      Push(code, stackp, was);
      finchar := tab[code];
      stackp := stackp + 1;
      StackFree(p, prefix[..], was, tab[..], d.strs);
    }

    /** *stackp++ = tab_suffixof(code) */
    method Push(code: int, stackp: nat, ghost was: seq<byte>)
      requires tab.Length == HTABSIZE == |was| && 0 <= code < STACK <= stackp < HTABSIZE
      requires tab[..STACK] == was[..STACK]
      modifies tab
      ensures tab[..STACK] == was[..STACK] && tab[..][..STACK] == was[..STACK] && tab[code] == was[code]
      ensures tab[STACK..stackp] == old(tab[STACK..stackp])
      ensures Rev(tab[STACK..stackp + 1]) == [was[code]] + Rev(old(tab[STACK..stackp]))
    {
      hide Rev;
      assert tab[code] == tab[..STACK][code] == was[..STACK][code];
      ghost var stack := tab[STACK..stackp];
      tab[stackp] := tab[code];
      assert tab[STACK..stackp + 1] == stack + [was[code]];
      RevSnoc(stack, was[code]);
      assert tab[..STACK] == was[..STACK];
    }

    /** Write the stack out. */
    method Pop(stack0: nat) returns (out: seq<byte>)
      requires tab.Length == HTABSIZE && STACK <= stack0 <= HTABSIZE
      ensures out == Rev(tab[STACK..stack0])
    {
      out := [];
      var stackp := stack0;
      while stackp > STACK
        invariant STACK <= stackp <= stack0
        invariant out + Rev(tab[STACK..stackp]) == Rev(tab[STACK..stack0])
      {
        stackp := stackp - 1;
        assert tab[STACK..stackp + 1] == tab[STACK..stackp] + [tab[stackp]];
        RevSnoc(tab[STACK..stackp], tab[stackp]);
        Regroup(out, tab[stackp], Rev(tab[STACK..stackp]));
        out := out + [tab[stackp]];
      }
    }

    /** Write the string of a code, which may be the one about to be entered. */
    method PutString(code: nat, oldcode: int, finchar0: byte) returns (out: seq<byte>, finchar: byte)
      requires ReaderOk() && TablesOk() && OldOk(oldcode, finchar0)
      requires Accepts(p, d, code) && !IsClear(p, d, code)
      modifies tab
      ensures TablesOk()
      ensures out == Meaning(d, code) && out != [] && finchar == out[0]
    {
      hide TabOk, EntryOk;
      var stackp := STACK;
      var code1: int := code;
      if code >= freeEnt {
        ghost var was := tab[..];
        tab[stackp] := finchar0;
        assert tab[..][..STACK] == was[..STACK];
        StackFree(p, prefix[..], was, tab[..], d.strs);
        stackp := stackp + 1;
        code1 := oldcode;
        assert tab[STACK..stackp] == [finchar0];
      } else {
        assert tab[STACK..stackp] == [];
      }
      ghost var tail := Rev(tab[STACK..stackp]);
      finchar, stackp := Unwind(code1, stackp);
      out := Pop(stackp);
      assert out == d.strs[code1] + tail;
    }

    /** Enter the previous string and one more byte under the next free code. */
    method Enter(oldcode: int, finchar: byte, ghost code: nat)
      requires ReaderOk() && TablesOk() && !d.clr && d.prev != [] && OldOk(oldcode, d.prev[0])
      requires Accepts(p, d, code) && !IsClear(p, d, code)
      requires Meaning(d, code) != [] && finchar == Meaning(d, code)[0]
      modifies prefix, tab, `freeEnt, `d
      ensures ReaderOk() && TablesOk() && d == Absorb(p, old(d), code)
      ensures OldOk(code, finchar) && !(p.block && |d.strs| == 256) && !d.clr
    {
      hide TabOk, EntryOk;
      MaxMaxBound(p);
      ghost var s := Meaning(d, code);
      if freeEnt < p.MaxMax() {
        NewEntry(p, prefix[..], tab[..], d.strs, oldcode, finchar, d.prev + [s[0]]);
        prefix[freeEnt] := oldcode;
        tab[freeEnt] := finchar;
        freeEnt := freeEnt + 1;
      }
      d := Absorb(p, d, code);
    }

    constructor (p: Params, input: seq<byte>)
      requires p.Valid()
      ensures this.p == p && this.input == input && fresh(prefix) && fresh(tab) && fresh(buf)
      ensures BufOk() && TablesOk() && d == InitDec(p)
      ensures pos == 0 && got == 0 && offset == 0
    {
      this.p, this.input := p, input;
      prefix := new int[CODETABSIZE](_ => 0);
      tab := new byte[HTABSIZE](_ => 0);
      buf := new byte[BITS](_ => 0);
      pos, offset, size, got := 0, 0, 0, 0;
      nBits, maxcode, clearFlg := INIT_BITS, 511, false;
      freeEnt := p.FirstFree();
      d := InitDec(p);
      new;
      InitBound(p);
      var code := 255;
      while code >= 0
        modifies prefix, tab
        invariant -1 <= code <= 255
        invariant forall c :: code < c < 256 ==> tab[c] == c
      {
        prefix[code] := 0;
        tab[code] := code;
        code := code - 1;
      }
    }

    /** The table reset of a CLEAR code. */
    method ClearTable()
      requires ReaderOk() && TablesOk() && IsClear(p, d, CLEAR)
      modifies prefix, `freeEnt, `clearFlg, `d
      ensures ReaderOk() && TablesOk() && d == Absorb(p, old(d), CLEAR)
      ensures |d.strs| == 256 && d.prev == old(d.prev) && d.clr
    {
      var code := 255;
      while code >= 0
        modifies prefix
        invariant -1 <= code <= 255
      {
        prefix[code] := 0;
        code := code - 1;
      }
      clearFlg := true;
      freeEnt := FIRST - 1;
      d := Absorb(p, d, CLEAR);
    }

    /** One data code: write its string and enter the new one. */
    method DataCode(code: nat, oldcode: int, finchar0: byte)
      returns (s: seq<byte>, finchar: byte, ghost todo: seq<byte>)
      requires BufOk() && TablesOk() && OldOk(oldcode, finchar0) && !d.clr
      requires Accepts(p, d, code) && After(code).Some?
      requires p.Reserved(code) ==> |d.strs| <= 256
      modifies prefix, tab, `freeEnt, `d
      ensures BufOk() && TablesOk() && OldOk(code, finchar) && !(p.block && |d.strs| == 256)
      ensures Rest() == Some(todo) && old(After(code)) == Some(s + todo)
      ensures BitsLeft() == old(BitsLeft())
    {
      hide TabOk, EntryOk, DecodeBytes, Meaning, Absorb, Emits, Accepts, Pow2, WidthBound, IsClear, AfterCode;
      DataOut(p, d, code);
      todo := TailOf(p, d, code, buf[..got], offset, input[pos..]);
      s, finchar := PutString(code, oldcode, finchar0);
      Enter(oldcode, finchar, code);
    }

    /** decompress(): the whole program, for a stream that is not corrupt. */
    method Decompress() returns (out: seq<byte>)
      requires BufOk() && TablesOk() && d == InitDec(p)
      requires pos == 0 && got == 0 && offset == 0
      requires DecodeBytes(p, InitDec(p), [], 0, input).Some?
      modifies this, prefix, tab, buf
      ensures DecodeBytes(p, InitDec(p), [], 0, input) == Some(out)
    {
      hide TabOk, EntryOk, DecodeBytes, Meaning, Absorb, Emits, Accepts, Pow2, WidthBound, InitTable, IsClear,
           InitWidth, AfterCode;
      ghost var goal := DecodeBytes(p, InitDec(p), [], 0, input).value;
      assert input[0..] == input && buf[..0] == [];
      out := [];
      var code := GetCode();
      if code == -1 {
        return;
      }
      FirstCode(p, d, code);
      ghost var todo := TailOf(p, d, code, buf[..got], offset, input[pos..]);
      var finchar: byte, oldcode := code, code;
      out := [finchar];
      SameBound(p, d, [code]);
      d := Absorb(p, d, code);
      code := GetCode();
      assert [] + todo == todo && out + [] == out;
      while code > -1
        invariant ReaderOk() && TablesOk() && OldOk(oldcode, finchar) && !(p.block && |d.strs| == 256)
        invariant out + todo == goal
        invariant code < 0 ==> todo == []
        invariant code >= 0 ==> BufOk() && !d.clr && Accepts(p, d, code) && After(code) == Some(todo)
        decreases if code >= 0 then 1 + BitsLeft() else 0
      {
        if code == CLEAR && p.block {
          NothingOut(p, d, code);
          ghost var tail := TailOf(p, d, code, buf[..got], offset, input[pos..]);
          assert [] + tail == tail;
          ClearTable();
          code := GetCode();
          if code == -1 {
            break;
          }
        }
        var s;
        s, finchar, todo := DataCode(code, oldcode, finchar);
        assert out + (s + todo) == out + s + todo;
        out := out + s;
        oldcode := code;
        code := GetCode();
      }
      assert out + [] == out;
    }
  }

  lemma TailOf(p: Params, d: Dec, code: nat, buf: seq<byte>, off: nat, rest: seq<byte>) returns (tail: seq<byte>)
    requires |d.strs| >= 256 && Accepts(p, d, code) && AfterCode(p, d, code, buf, off, rest).Some?
    ensures DecodeBytes(p, Absorb(p, d, code), buf, off, rest) == Some(tail)
    ensures AfterCode(p, d, code, buf, off, rest) == Some(Emits(p, d, code) + tail)
  {
    tail := DecodeBytes(p, Absorb(p, d, code), buf, off, rest).value;
  }

  /** The first code is a character. */
  lemma FirstCode(p: Params, d: Dec, code: nat)
    requires d.prev == [] && d.strs == InitTable(p) && Accepts(p, d, code)
    ensures code < 256 && Emits(p, d, code) == [code]
    ensures Absorb(p, d, code) == d.(prev := [code])
  {
  }

  lemma SameBound(p: Params, d: Dec, s: seq<byte>)
    requires WidthBound(p, d)
    ensures WidthBound(p, d.(prev := s))
  {
  }

  lemma InitBound(p: Params)
    requires p.Valid()
    ensures WidthBound(p, InitDec(p))
  {
    Pow2Table();
    assert p.maxbits in {9, 10, 11, 12, 13};
  }

  lemma NothingOut(p: Params, d: Dec, code: nat)
    requires d.prev != [] && |d.strs| > 256 && p.Reserved(code)
    ensures IsClear(p, d, code) && Emits(p, d, code) == []
  {
  }

  lemma DataOut(p: Params, d: Dec, code: nat)
    requires Accepts(p, d, code) && d.prev != []
    requires p.Reserved(code) ==> |d.strs| <= 256
    ensures !IsClear(p, d, code) && Emits(p, d, code) == Meaning(d, code)
  {
  }

  lemma Regroup(a: seq<byte>, x: byte, b: seq<byte>)
    ensures a + [x] + b == a + ([x] + b)
  {
  }

  /** The rest of the output once code has been read and off moved behind it. */
  ghost function AfterCode(p: Params, d: Dec, code: nat, buf: seq<byte>, off: nat, rest: seq<byte>): Option<seq<byte>>
    requires |d.strs| >= 256 && Accepts(p, d, code)
  {
    match DecodeBytes(p, Absorb(p, d, code), buf, off, rest)
    case None => None
    case Some(tail) => Some(Emits(p, d, code) + tail)
  }

  lemma AtEnd(p: Params, d: Dec, buf: seq<byte>, off: nat, rest: seq<byte>)
    requires |d.strs| >= 256 && Refill(p, d, buf, off) && rest == []
    ensures DecodeBytes(p, d, buf, off, rest) == Some([])
  {
  }

  /** One step of an uncorrupted stream. */
  lemma ReadStep(p: Params, d: Dec, buf: seq<byte>, off: nat, rest: seq<byte>,
                 buf1: seq<byte>, off1: nat, rest1: seq<byte>)
    requires |d.strs| >= 256 && DecodeBytes(p, d, buf, off, rest).Some?
    requires var nbits := PreRead(p, d).w.nbits;
             var n := Min(nbits, |rest|);
             if Refill(p, d, buf, off)
             then n > 0 && buf1 == rest[..n] && off1 == 0 && rest1 == rest[n..]
             else buf1 == buf && off1 == off && rest1 == rest
    ensures var d1 := PreRead(p, d);
            && off1 + d1.w.nbits <= 8 * |buf1|
            && var code := CodeAt(buf1, off1, d1.w.nbits);
            && Accepts(p, d1, code)
            && DecodeBytes(p, d, buf, off, rest) == AfterCode(p, d1, code, buf1, off1 + d1.w.nbits, rest1)
  {
    hide CodeAt, Accepts, Absorb, Emits, Force;
  }

  lemma WidthsOk(p: Params, d: Dec)
    requires WidthBound(p, d)
    ensures INIT_BITS <= d.w.nbits <= BITS
    ensures !Force(d) ==> PreRead(p, d) == d
  {
  }

  /** The decompressor never needs more than 13 bits. */
  ghost predicate WidthBound(p: Params, d: Dec) {
    && INIT_BITS <= d.w.nbits <= BITS
    && |d.strs| <= STACK
    && (d.w == InitWidth() || (p.maxbits == 9 && d.w == Width(10, 1023)) ||
        (d.w.nbits <= p.maxbits && d.w.maxcode == if d.w.nbits == p.maxbits then p.MaxMax() else Pow2(d.w.nbits) - 1))
    && |d.strs| <= p.MaxMax()
  }

  lemma PreReadBound(p: Params, d: Dec)
    requires WidthBound(p, d) && p.Valid()
    ensures WidthBound(p, PreRead(p, d))
  {
    Pow2Table();
    assert d.w.nbits in {9, 10, 11, 12, 13};
    assert p.maxbits in {9, 10, 11, 12, 13};
  }
}
