/** compress(1) as a whole. */
module LzwRoundTrip {
  import opened Common
  import opened LzwCodes
  import opened LzwSync
  import opened LzwStream
  import opened LzwCompress
  import opened LzwDecompress

  /** After every code the compressor emits, the decompressor that has read it has the
      free_ent the compressor tested, and so reads the next code at the compressor's
      new width, starting a new buffer exactly when the compressor did. */
  lemma Lockstep(p: Params, input: seq<byte>, choices: seq<Choice>)
    requires p.Valid() && |input| == |choices| + 1
    requires EncRunOf(p, input, choices).Going?
    ensures var e := EncRunOf(p, input, choices).e;
            var after := Output(p, e, e.ent, false);
            var r := DecRun(p, Emitted(after));
            && r.At? && r.out == input
            && |r.d.strs| == |e.table|
            && PreRead(p, r.d).w == after.w
            && (Force(r.d) <==> |e.table| > e.w.maxcode)
  {
    RunInStep(p, input, choices);
    var e := EncRunOf(p, input, choices).e;
    EmitKeepsWidth(p, e, input);
  }

  /** After a CLEAR the decompressor's free_ent is FIRST - 1, one less than the compressor's, and
      both read and write the next code at 9 bits in a new buffer. */
  lemma LockstepClear(p: Params, input: seq<byte>, choices: seq<Choice>)
    requires p.Valid() && |input| == |choices| + 1 && choices != []
    requires EncRunOf(p, input, choices).Going?
    requires var k := |choices| - 1;
             var r := EncRunOf(p, input[..k + 1], choices[..k]);
             choices[k] == Miss(true) && r.Going? && |r.e.table| == p.MaxMax()
    ensures var e := EncRunOf(p, input, choices).e;
            var r := DecRun(p, Emitted(e));
            && Emitted(e) != [] && Emitted(e)[|Emitted(e)| - 1] == CLEAR
            && r.At? && r.out == input[..|input| - 1]
            && |r.d.strs| == FIRST - 1 == |e.table| - 1
            && PreRead(p, r.d).w == e.w == InitWidth()
            && Force(r.d) && e.open == []
  {
    var k := |choices| - 1;
    var before, e0 := input[..k + 1], EncRunOf(p, input[..k + 1], choices[..k]).e;
    RunInStep(p, before, choices[..k]);
    ClearKeepsWidth(p, e0, before, input[k + 1]);
  }

  lemma ClearKeepsWidth(p: Params, e: Enc, consumed: seq<byte>, c: byte)
    requires p.Valid() && p.block && InStep(p, e, consumed) && |e.table| == p.MaxMax()
    ensures var e' := EncStep(p, e, c, Miss(true));
            var r := DecRun(p, Emitted(e'));
            && Emitted(e') == Emitted(e) + [e.ent, CLEAR]
            && r.At? && r.out == consumed && |r.d.strs| == FIRST - 1 == |e'.table| - 1
            && PreRead(p, r.d).w == e'.w == InitWidth() && Force(r.d) && e'.open == []
  {
    hide Buffered, DecRun, Flat, InStep, Output, GoodWidth, Emitted, InitTable, EncStep, Agree;
    NonemptyEnt(p, e, consumed);
    EmitData(p, e, consumed);
    ClearOutput(p, e, c);
    var e1 := Output(p, e, e.ent, false);
    ClearRead(p, Emitted(e1), DecRun(p, Emitted(e1)), e.table[e.ent]);
    assert Emitted(e) + [e.ent] + [CLEAR] == Emitted(e) + [e.ent, CLEAR];
  }

  lemma NonemptyEnt(p: Params, e: Enc, consumed: seq<byte>)
    requires InStep(p, e, consumed)
    ensures e.ent < |e.table| && e.table[e.ent] != []
  {
    hide Buffered, DecRun;
  }

  lemma ClearOutput(p: Params, e: Enc, c: byte)
    requires p.Valid() && p.block && e.ent < |e.table| == p.MaxMax()
    ensures var e', e1 := EncStep(p, e, c, Miss(true)), Output(p, e, e.ent, false);
            && Emitted(e') == Emitted(e1) + [CLEAR] && e'.w == InitWidth() && e'.open == [] && |e'.table| == FIRST
  {
    hide Flat;
    var e1 := Output(p, e, e.ent, false);
    FlatSnoc(e1.closed, Chunk(e1.w.nbits, e1.open + [CLEAR]));
    assert Flat(e1.closed) + (e1.open + [CLEAR]) == Emitted(e1) + [CLEAR];
  }

  lemma ClearRead(p: Params, codes: seq<nat>, r: Run, prev: seq<byte>)
    requires p.Valid() && p.block && r == DecRun(p, codes) && r.At? && r.d.prev == prev != []
             && |r.d.strs| == p.MaxMax()
    ensures var r' := DecRun(p, codes + [CLEAR]);
            r'.At? && r'.out == r.out && |r'.d.strs| == FIRST - 1 && PreRead(p, r'.d).w == InitWidth() && Force(r'.d)
  {
    hide DecRun;
    Pow2Table();
    assert IsClear(p, PreRead(p, r.d), CLEAR);
    DecRunStep(p, codes, CLEAR);
  }

  lemma EmitKeepsWidth(p: Params, e: Enc, consumed: seq<byte>)
    requires p.Valid() && InStep(p, e, consumed)
    ensures var after := Output(p, e, e.ent, false);
            var r := DecRun(p, Emitted(after));
            && r.At? && r.out == consumed
            && |r.d.strs| == |e.table|
            && PreRead(p, r.d).w == after.w
            && (Force(r.d) <==> |e.table| > e.w.maxcode)
  {
    hide Buffered, Flat;
    EmitData(p, e, consumed);
    var r := DecRun(p, Emitted(e));
    DataCode(p, e, r.d);
    DecRunStep(p, Emitted(e), e.ent);
  }

  /** The standard input path of decompression. */
  method Uncompress(file: seq<byte>) returns (r: Unpacked)
    requires Unpack(file) != Corrupt
    ensures r == Unpack(file)
  {
    if |file| < 2 || file[0] != 0x1f || file[1] != 0x9d {
      return NotCompressed;
    }
    if |file| == 2 || ParamsOf(file[2]).maxbits > BITS {
      return TooManyBits;
    }
    var p := ParamsOf(file[2]);
    var dec := new Decompressor(p, file[3..]);
    var out := dec.Decompress();
    return Data(out);
  }

  /** Compressing and decompressing gives back the input. */
  method RoundTrip(input: seq<byte>, maxbits: nat, block: bool) returns (file: seq<byte>, r: Unpacked)
    requires INIT_BITS <= maxbits <= BITS
    ensures r == Data(input)
  {
    var comp := new Compressor(maxbits, block);
    ghost var choices := comp.Compress(input);
    file := comp.stdout;
    UnpackPacked(comp.p, input, choices, file);
    r := Uncompress(file);
  }
}
