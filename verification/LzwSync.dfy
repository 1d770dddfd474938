/**
 The two ends of compress(1) stay in step.  They share no table: the invariant
 InStep says how the decompressor, which knows one entry less, follows the
 compressor through every run.
 */
module LzwSync {
  import opened Common
  import opened LzwCodes

  /** Two tables hold the same strings, except for the reserved code. */
  ghost predicate Agree(p: Params, a: seq<seq<byte>>, b: seq<seq<byte>>) {
    forall i :: 0 <= i < |a| && i < |b| && !p.Reserved(i) ==> a[i] == b[i]
  }

  ghost predicate TableOk(p: Params, t: seq<seq<byte>>) {
    && p.FirstFree() <= |t| <= p.MaxMax()
    && (forall i :: 0 <= i < |t| && !p.Reserved(i) ==> t[i] != [])
    && (forall i :: 0 <= i < 256 ==> t[i] == [i])
  }

  /** What the decompressor knows when the compressor has pending input e.ent: the
      compressor's table without its newest entry, whose first part is the string of the
      last code and whose last byte is the first byte of the pending string. */
  ghost predicate Lags(p: Params, e: Enc, d: Dec)
    requires e.ent < |e.table|
  {
    && Agree(p, d.strs, e.table)
    && (d.prev == [] ==> |d.strs| == |e.table| == p.FirstFree())
    && (d.prev != [] ==> |d.strs| <= |e.table| <= |d.strs| + 1)
    && (d.prev != [] && |d.strs| == |e.table| ==> |e.table| == p.MaxMax())
    && (|d.strs| < |e.table| && !p.Reserved(|d.strs|) ==>
          e.table[e.ent] != [] && e.table[|d.strs|] == d.prev + [e.table[e.ent][0]])
  }

  /** The decompressor, reading its next code, uses the compressor's current width. */
  ghost predicate SameWidth(p: Params, e: Enc, d: Dec) {
    && PreRead(p, d).w == e.w
    && GoodWidth(p, e.w)
    && |d.strs| <= e.w.maxcode
    && GoodWidth(p, d.w)
  }

  /** The decompressor, having read pre, reads code at the given width without
      asking for a new buffer, unless the code opens one. */
  ghost predicate Reads(p: Params, pre: seq<nat>, width: nat, code: nat, opens: bool) {
    var r := DecRun(p, pre);
    && r.At?
    && PreRead(p, r.d).w.nbits == width
    && INIT_BITS <= width <= BITS
    && code < Pow2(width)
    && Accepts(p, PreRead(p, r.d), code)
    && (!opens ==> !Force(r.d))
  }

  ghost predicate ReadsAll(p: Params, pre: seq<nat>, ch: Chunk) {
    forall j :: 0 <= j < |ch.codes| ==> Reads(p, pre + ch.codes[..j], ch.width, ch.codes[j], j == 0)
  }

  /** A written buffer: the decompressor asks for the next one exactly after its last code. */
  ghost predicate Closed(p: Params, pre: seq<nat>, ch: Chunk) {
    && 1 <= |ch.codes| <= 8
    && ReadsAll(p, pre, ch)
    && (|ch.codes| == 8 || (DecRun(p, pre + ch.codes).At? && Force(DecRun(p, pre + ch.codes).d)))
  }

  ghost predicate Buffered(p: Params, closed: seq<Chunk>, w: Width, open: seq<nat>) {
    && (forall q :: 0 <= q < |closed| ==> Closed(p, Flat(closed[..q]), closed[q]))
    && |open| < 8
    && ReadsAll(p, Flat(closed), Chunk(w.nbits, open))
  }

  /** The simulation invariant: consumed is the input read so far. */
  ghost predicate InStep(p: Params, e: Enc, consumed: seq<byte>) {
    && TableOk(p, e.table)
    && e.ent < |e.table|
    && !p.Reserved(e.ent)
    && Buffered(p, e.closed, e.w, e.open)
    && var r := DecRun(p, Emitted(e));
    && r.At?
    && r.out + e.table[e.ent] == consumed
    && Lags(p, e, r.d)
    && SameWidth(p, e, r.d)
    && (e.open != [] ==> !Force(r.d))
  }

  lemma InStepInit(p: Params, first: byte)
    requires p.Valid()
    ensures InStep(p, InitEnc(p, first), [first])
  {
    Pow2Table();
    var e := InitEnc(p, first);
    assert Emitted(e) == [];
    assert p.MaxMax() >= 512;
  }

  /** Flat grows with the list. */
  lemma FlatSnoc(closed: seq<Chunk>, ch: Chunk)
    ensures Flat(closed + [ch]) == Flat(closed) + ch.codes
  {
    assert (closed + [ch])[..|closed|] == closed;
  }

  /** Adding a code the decompressor can read to the buffer ... */
  lemma ReadsAllSnoc(p: Params, pre: seq<nat>, width: BitCount, open: seq<nat>, code: nat)
    requires ReadsAll(p, pre, Chunk(width, open))
    requires Reads(p, pre + open, width, code, open == [])
    ensures ReadsAll(p, pre, Chunk(width, open + [code]))
  {
    var ch := Chunk(width, open);
    var ch' := Chunk(width, open + [code]);
    forall j | 0 <= j < |ch'.codes|
      ensures Reads(p, pre + ch'.codes[..j], width, ch'.codes[j], j == 0)
    {
      if j < |open| {
        assert ch'.codes[..j] == open[..j] && ch'.codes[j] == ch.codes[j];
        assert Reads(p, pre + ch.codes[..j], ch.width, ch.codes[j], j == 0);
      } else {
        assert ch'.codes[..j] == open;
      }
    }
  }

  /** ... and closing the buffer. */
  lemma CloseBuffer(p: Params, closed: seq<Chunk>, ch: Chunk, w: Width)
    requires forall q :: 0 <= q < |closed| ==> Closed(p, Flat(closed[..q]), closed[q])
    requires Closed(p, Flat(closed), ch)
    ensures Buffered(p, closed + [ch], w, [])
  {
    hide Closed, Reads, DecRun, Flat;
    var closed' := closed + [ch];
    forall q | 0 <= q < |closed'|
      ensures Closed(p, Flat(closed'[..q]), closed'[q])
    {
      if q < |closed| {
        assert closed'[..q] == closed[..q];
      } else {
        assert closed'[..q] == closed;
      }
    }
  }

  /** The width is large enough for the pending code. */
  lemma EntFits(p: Params, e: Enc, d: Dec)
    requires p.Valid() && TableOk(p, e.table) && e.ent < |e.table| && Lags(p, e, d) && SameWidth(p, e, d)
    ensures INIT_BITS <= e.w.nbits <= BITS && e.ent < Pow2(e.w.nbits) && CLEAR < Pow2(e.w.nbits)
  {
    Pow2Table();
    assert e.w.nbits in {9, 10, 11, 12, 13};
  }

  /** Widening keeps the widths sound, and lets the table size fit again. */
  lemma WidenGood(p: Params, w: Width, free: nat)
    requires p.Valid() && GoodWidth(p, w)
    requires free <= p.MaxMax() && free <= w.maxcode + 1
    ensures free > w.maxcode ==> GoodWidth(p, Widen(p, w)) && free <= Widen(p, w).maxcode
  {
    Pow2Table();
    assert w.nbits in {9, 10, 11, 12, 13};
    assert p.maxbits in {9, 10, 11, 12, 13};
  }

  /** What the decompressor knows right after a data code: the compressor's table as it
      was when output() tested the width.  This is the lockstep of free_ent. */
  ghost predicate CaughtUp(p: Params, table: seq<seq<byte>>, d: Dec) {
    && |d.strs| == |table|
    && Agree(p, d.strs, table)
    && !d.clr
  }

  /** The decompressor reads the pending code, be it known or the KwKwK case, as the
      compressor meant it. */
  lemma DataCode(p: Params, e: Enc, d: Dec)
    requires p.Valid() && TableOk(p, e.table) && e.ent < |e.table| && !p.Reserved(e.ent)
    requires Lags(p, e, d) && |d.strs| >= 256
    ensures var d1 := PreRead(p, d);
            && Accepts(p, d1, e.ent)
            && Emits(p, d1, e.ent) == e.table[e.ent]
            && Absorb(p, d1, e.ent).prev == e.table[e.ent]
            && Absorb(p, d1, e.ent).w == d1.w
            && CaughtUp(p, e.table, Absorb(p, d1, e.ent))
  {
    var d1 := PreRead(p, d);
    assert !IsClear(p, d1, e.ent);
    if e.ent < |d.strs| {
      assert Meaning(d1, e.ent) == e.table[e.ent];
    } else {
      assert e.ent == |d.strs|;
      assert e.table[e.ent][0] == d.prev[0];
    }
  }

  /** output() of the pending code keeps the decompressor in step and the widths equal. */
  lemma EmitData(p: Params, e: Enc, consumed: seq<byte>)
    requires p.Valid() && InStep(p, e, consumed)
    ensures var e1 := Output(p, e, e.ent, false);
            var r1 := DecRun(p, Emitted(e1));
            && Emitted(e1) == Emitted(e) + [e.ent]
            && Buffered(p, e1.closed, e1.w, e1.open)
            && r1.At? && r1.out == consumed
            && r1.d.prev == e.table[e.ent]
            && CaughtUp(p, e.table, r1.d)
            && SameWidth(p, e1, r1.d)
            && (e1.open != [] ==> !Force(r1.d))
  {
    var r := DecRun(p, Emitted(e));
    DataCode(p, e, r.d);
    EntFits(p, e, r.d);
    DecRunStep(p, Emitted(e), e.ent);
    var d := Absorb(p, PreRead(p, r.d), e.ent);
    WidenGood(p, e.w, |e.table|);
    BufferCode(p, e, e.ent, false, d);
  }

  /** The buffers stay sound when output() adds a code the decompressor can read and
      both ends decide alike whether the buffer ends here. */
  lemma BufferCode(p: Params, e: Enc, code: nat, clear: bool, d: Dec)
    requires Buffered(p, e.closed, e.w, e.open)
    requires Reads(p, Emitted(e), e.w.nbits, code, e.open == [])
    requires DecRun(p, Emitted(e) + [code]).At? && DecRun(p, Emitted(e) + [code]).d == d
    requires Force(d) <==> (clear || |e.table| > e.w.maxcode)
    ensures var e1 := Output(p, e, code, clear);
            && Emitted(e1) == Emitted(e) + [code]
            && Buffered(p, e1.closed, e1.w, e1.open)
            && (e1.open != [] ==> !Force(d) && e1.w == e.w)
  {
    hide Reads, DecRun, Flat, Force;
    var pre := Flat(e.closed);
    var codes := e.open + [code];
    var e1 := Output(p, e, code, clear);
    ReadsAllSnoc(p, pre, e.w.nbits, e.open, code);
    assert pre + codes == Emitted(e) + [code];
    if |codes| == 8 || Force(d) {
      var ch := Chunk(e.w.nbits, codes);
      CloseBuffer(p, e.closed, ch, e1.w);
      FlatSnoc(e.closed, ch);
    }
  }

  /** One input byte, whatever the compressor decides, keeps both ends in step. */
  lemma StepInStep(p: Params, e: Enc, consumed: seq<byte>, c: byte, ch: Choice)
    requires p.Valid() && InStep(p, e, consumed)
    requires Allowed(p, e, c, ch)
    ensures InStep(p, EncStep(p, e, c, ch), consumed + [c])
  {
    hide Buffered, DecRun, Flat;
    match ch
    case Hit(k) =>
      HitInStep(p, e, consumed, c, k);
    case Miss(clear) =>
      EmitData(p, e, consumed);
      var e1 := Output(p, e, e.ent, false).(ent := c);
      if |e.table| < p.MaxMax() {
        GrowInStep(p, e, e1, consumed, c);
      } else if clear {
        ClearInStep(p, e1, consumed, c);
      } else {
        assert e1.table == e.table;
      }
  }

  lemma HitInStep(p: Params, e: Enc, consumed: seq<byte>, c: byte, k: nat)
    requires p.Valid() && InStep(p, e, consumed)
    requires Allowed(p, e, c, Hit(k))
    ensures InStep(p, e.(ent := k), consumed + [c])
  {
    var e1 := e.(ent := k);
    assert Emitted(e1) == Emitted(e);
    assert e1.table[k][0] == e.table[e.ent][0];
  }

  /** The new entry is the one the decompressor makes from its next code. */
  lemma GrowInStep(p: Params, e: Enc, e1: Enc, consumed: seq<byte>, c: byte)
    requires p.Valid() && InStep(p, e, consumed)
    requires |e.table| < p.MaxMax()
    requires e1 == Output(p, e, e.ent, false).(ent := c)
    ensures InStep(p, e1.(table := e.table + [e.table[e.ent] + [c]]), consumed + [c])
  {
    hide Buffered, DecRun, Flat;
    EmitData(p, e, consumed);
    var e2 := e1.(table := e.table + [e.table[e.ent] + [c]]);
    assert Emitted(e2) == Emitted(Output(p, e, e.ent, false));
    assert e2.table[c] == [c];
  }

  /** A CLEAR code: the decompressor falls back to the 256 characters, and its dummy
      entry 256 brings it level again. */
  lemma ClearInStep(p: Params, e1: Enc, consumed: seq<byte>, c: byte)
    requires p.Valid() && p.block && TableOk(p, e1.table)
    requires Buffered(p, e1.closed, e1.w, e1.open)
    requires var r := DecRun(p, Emitted(e1));
             && r.At? && r.out == consumed && r.d.prev != []
             && CaughtUp(p, e1.table, r.d) && SameWidth(p, e1, r.d)
             && (e1.open != [] ==> !Force(r.d))
    requires e1.ent == c
    ensures InStep(p, Output(p, e1.(table := InitTable(p)), CLEAR, true), consumed + [c])
  {
    hide Buffered, DecRun, Flat;
    var r := DecRun(p, Emitted(e1));
    var e2 := e1.(table := InitTable(p));
    assert Emitted(e2) == Emitted(e1);
    var d := PreRead(p, r.d);
    assert IsClear(p, d, CLEAR);
    DecRunStep(p, Emitted(e1), CLEAR);
    Pow2Table();
    assert e1.w.nbits in {9, 10, 11, 12, 13};
    BufferCode(p, e2, CLEAR, true, Absorb(p, d, CLEAR));
  }

  /** Every run of the compressor keeps the decompressor in step. */
  lemma {:induction false} RunInStep(p: Params, input: seq<byte>, choices: seq<Choice>)
    requires p.Valid() && |input| == |choices| + 1
    requires EncRunOf(p, input, choices).Going?
    ensures InStep(p, EncRunOf(p, input, choices).e, input)
  {
    hide InStep, EncStep, Allowed;
    if choices == [] {
      InStepInit(p, input[0]);
      assert input == [input[0]];
    } else {
      var k := |choices| - 1;
      RunInStep(p, input[..k + 1], choices[..k]);
      var e := EncRunOf(p, input[..k + 1], choices[..k]).e;
      StepInStep(p, e, input[..k + 1], input[k + 1], choices[k]);
      assert input == input[..k + 1] + [input[k + 1]];
    }
  }
}
