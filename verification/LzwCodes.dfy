/**
 The code level of compress(1): what a stream of LZW codes means to the
 decompressor, and which code streams the compressor may produce.

 Tables hold the string of every code.  For the round trip the compressor may
 report a table hit or not, and clear a full table or not, as it likes; Greedy
 and RareClears say how it decides.
 */
module LzwCodes {
  import opened Common

  const INIT_BITS := 9
  const BITS := 13
  const FIRST := 257
  const CLEAR := 256

  /** The two things both ends agree on through the header byte. */
  datatype Params = Params(maxbits: nat, block: bool) {
    predicate Valid() {
      INIT_BITS <= maxbits <= BITS
    }

    /** maxmaxcode: no code ever reaches it. */
    function MaxMax(): nat {
      Pow2(maxbits)
    }

    /** Code 256 is reserved in block mode and an ordinary entry otherwise. */
    predicate Reserved(code: int) {
      block && code == CLEAR
    }

    /** The first code an entry can get. */
    function FirstFree(): nat {
      if block then FIRST else 256
    }
  }

  function Chars(): (cs: seq<seq<byte>>)
    ensures |cs| == 256
    ensures forall i :: 0 <= i < 256 ==> cs[i] == [i]
  {
    seq(256, i requires 0 <= i < 256 => [i])
  }

  /** The table both ends start with; entry 256 of block mode stands for nothing. */
  function InitTable(p: Params): (t: seq<seq<byte>>)
    ensures |t| == p.FirstFree()
    ensures forall i :: 0 <= i < 256 ==> t[i] == [i]
  {
    if p.block then Chars() + [[]] else Chars()
  }

  // ----- code widths, changed by the same rule at both ends -----

  type BitCount = n: nat | 1 <= n witness 1

  datatype Width = Width(nbits: BitCount, maxcode: int)

  function InitWidth(): Width {
    Width(INIT_BITS, 511)
  }

  function Widen(p: Params, w: Width): Width {
    var n := w.nbits + 1;
    Width(n, if n == p.maxbits then p.MaxMax() else Pow2(n) - 1)
  }

  /** The widths a run goes through.  With maxbits 9 the first widening steps over
      the limit, so ten-bit codes appear although no code needs them. */
  ghost predicate GoodWidth(p: Params, w: Width) {
    || w == InitWidth()
    || (INIT_BITS < w.nbits < p.maxbits && w.maxcode == Pow2(w.nbits) - 1)
    || (INIT_BITS < w.nbits == p.maxbits && w.maxcode == p.MaxMax())
    || (p.maxbits == INIT_BITS && w == Width(10, 1023))
  }

  // ----- the decompressor, one code at a time -----

  /** strs[c] is the string of code c, so |strs| is free_ent; prev is the string of
      oldcode, empty before the first code; clr is clear_flg. */
  datatype Dec = Dec(strs: seq<seq<byte>>, prev: seq<byte>, w: Width, clr: bool)

  function InitDec(p: Params): Dec {
    Dec(InitTable(p), [], InitWidth(), false)
  }

  /** getcode must start a new buffer. */
  predicate Force(d: Dec) {
    d.clr || |d.strs| > d.w.maxcode
  }

  /** The width changes getcode makes before it reads. */
  function PreRead(p: Params, d: Dec): Dec {
    var w1 := if |d.strs| > d.w.maxcode then Widen(p, d.w) else d.w;
    d.(w := if d.clr then InitWidth() else w1, clr := false)
  }

  /** A CLEAR code.  A code read directly after a CLEAR is never taken as one. */
  predicate IsClear(p: Params, d: Dec, code: nat) {
    p.Reserved(code) && d.prev != [] && |d.strs| > 256
  }

  /** The codes that do not send the C program into table entries it never wrote. */
  predicate Accepts(p: Params, d: Dec, code: nat) {
    || IsClear(p, d, code)
    || (if d.prev == [] then code < 256
        else (code < |d.strs| || code == |d.strs| < p.MaxMax()) && !p.Reserved(code))
  }

  /** The string a data code stands for; an unknown code is the KwKwK case. */
  function Meaning(d: Dec, code: nat): seq<byte>
    requires d.prev == [] ==> code < |d.strs|
  {
    if code < |d.strs| then d.strs[code] else d.prev + [d.prev[0]]
  }

  function Emits(p: Params, d: Dec, code: nat): seq<byte>
    requires d.prev == [] ==> code < |d.strs|
  {
    if IsClear(p, d, code) then [] else Meaning(d, code)
  }

  function Absorb(p: Params, d: Dec, code: nat): Dec
    requires |d.strs| >= 256
    requires Accepts(p, d, code)
  {
    if IsClear(p, d, code) then d.(strs := Chars(), clr := true)
    else
      var s := Meaning(d, code);
      var grown := if d.prev != [] && s != [] && |d.strs| < p.MaxMax()
                   then d.strs + [d.prev + [s[0]]] else d.strs;
      d.(strs := grown, prev := s)
  }

  datatype Run = Stuck | At(d: Dec, out: seq<byte>)

  /** The decompressor after it has read codes. */
  function DecRun(p: Params, codes: seq<nat>): (r: Run)
    ensures r.At? ==> |r.d.strs| >= 256
  {
    if codes == [] then At(InitDec(p), [])
    else
      var k := |codes| - 1;
      var r := DecRun(p, codes[..k]);
      if r.Stuck? then Stuck
      else
        var d := PreRead(p, r.d);
        if !Accepts(p, d, codes[k]) then Stuck
        else At(Absorb(p, d, codes[k]), r.out + Emits(p, d, codes[k]))
  }

  /** One more code. */
  lemma DecRunStep(p: Params, codes: seq<nat>, c: nat)
    requires DecRun(p, codes).At?
    requires Accepts(p, PreRead(p, DecRun(p, codes).d), c)
    ensures var r := DecRun(p, codes);
            var d := PreRead(p, r.d);
            DecRun(p, codes + [c]) == At(Absorb(p, d, c), r.out + Emits(p, d, c))
  {
    assert (codes + [c])[..|codes|] == codes;
  }

  // ----- the compressor, one input byte at a time -----

  /** Codes that go out in one buffer, all of one width. */
  datatype Chunk = Chunk(width: BitCount, codes: seq<nat>)

  /** table[c] is the string of code c, so |table| is free_ent; ent is the code of the
      input read but not yet emitted; closed holds the written buffers, open the
      codes in the current one. */
  datatype Enc = Enc(table: seq<seq<byte>>, ent: nat, w: Width, closed: seq<Chunk>, open: seq<nat>)

  function InitEnc(p: Params, first: byte): Enc {
    Enc(InitTable(p), first, InitWidth(), [], [])
  }

  /** output(): buffer the code; start a new buffer after eight codes, and also
      when the width is about to change. */
  function Output(p: Params, e: Enc, code: nat, clear: bool): Enc {
    var codes := e.open + [code];
    var full := |codes| == 8;
    var change := clear || |e.table| > e.w.maxcode;
    var w := if clear then InitWidth() else if change then Widen(p, e.w) else e.w;
    if full || change
    then e.(w := w, closed := e.closed + [Chunk(e.w.nbits, codes)], open := [])
    else e.(w := w, open := codes)
  }

  /** What the compressor decides at an input byte: it found the extended string under
      a code, or it emits, and may then clear the table. */
  datatype Choice = Hit(code: nat) | Miss(clear: bool)

  predicate Allowed(p: Params, e: Enc, c: byte, ch: Choice)
    requires e.ent < |e.table|
  {
    match ch
    case Hit(k) => p.FirstFree() <= k < |e.table| && e.table[k] == e.table[e.ent] + [c]
    case Miss(clear) => clear ==> p.block && |e.table| >= p.MaxMax()
  }

  function EncStep(p: Params, e: Enc, c: byte, ch: Choice): Enc
    requires e.ent < |e.table|
  {
    match ch
    case Hit(k) => e.(ent := k)
    case Miss(clear) =>
      var e1 := Output(p, e, e.ent, false).(ent := c);
      if |e.table| < p.MaxMax() then e1.(table := e.table + [e.table[e.ent] + [c]])
      else if clear then Output(p, e1.(table := InitTable(p)), CLEAR, true)
      else e1
  }

  datatype EncRun = NoRun | Going(e: Enc)

  /** The compressor after it has read input and decided choices, one for every byte but the first. */
  function EncRunOf(p: Params, input: seq<byte>, choices: seq<Choice>): (r: EncRun)
    requires |input| == |choices| + 1
    ensures r.Going? ==> r.e.ent < |r.e.table| && |r.e.table| >= 256
  {
    if choices == [] then Going(InitEnc(p, input[0]))
    else
      var k := |choices| - 1;
      var r := EncRunOf(p, input[..k + 1], choices[..k]);
      if r.NoRun? || !Allowed(p, r.e, input[k + 1], choices[k]) then NoRun
      else
        Going(EncStep(p, r.e, input[k + 1], choices[k]))
  }

  /** The strings entered since the table was last cleared, each as the code of all but its last
      byte and that byte. */
  ghost function Entered(p: Params, input: seq<byte>, choices: seq<Choice>): set<(nat, byte)>
    requires |input| == |choices| + 1 && EncRunOf(p, input, choices).Going?
  {
    if choices == [] then {}
    else
      var k := |choices| - 1;
      AfterEntry(p, EncRunOf(p, input[..k + 1], choices[..k]).e, input[k + 1], choices[k],
        Entered(p, input[..k + 1], choices[..k]))
  }

  function AfterEntry(p: Params, e: Enc, c: byte, ch: Choice, entered: set<(nat, byte)>): set<(nat, byte)> {
    match ch
    case Hit(_) => entered
    case Miss(clear) => if |e.table| < p.MaxMax() then entered + {(e.ent, c)} else if clear then {} else entered
  }

  /** The decision at byte k + 1 of a run. */
  ghost predicate GreedyAt(p: Params, input: seq<byte>, choices: seq<Choice>, k: nat)
    requires |input| == |choices| + 1 && k < |choices|
  {
    var r := EncRunOf(p, input[..k + 1], choices[..k]);
    r.Going? && (choices[k].Miss? && (r.e.ent, input[k + 1]) in Entered(p, input[..k + 1], choices[..k]) ==>
                   r.e.ent == 0 && input[k + 1] == 0)
  }

  /** A string that was entered is used when it comes up again; only the one of two zero bytes can
      get lost. */
  ghost predicate Greedy(p: Params, input: seq<byte>, choices: seq<Choice>)
    requires |input| == |choices| + 1
  {
    forall k :: 0 <= k < |choices| ==> GreedyAt(p, input, choices, k)
  }

  /** The table is cleared no sooner than gap bytes after the start or after another clearing. */
  ghost predicate RareClears(choices: seq<Choice>, gap: nat) {
    && (forall k :: 0 <= k < |choices| && choices[k] == Miss(true) ==> k + 2 >= gap)
    && (forall j, k :: 0 <= j < k < |choices| && choices[j] == Miss(true) == choices[k] ==> k - j >= gap)
  }

  /** All codes of a list of buffers. */
  function Flat(chunks: seq<Chunk>): seq<nat> {
    if chunks == [] then [] else Flat(chunks[..|chunks| - 1]) + chunks[|chunks| - 1].codes
  }

  function Emitted(e: Enc): seq<nat> {
    Flat(e.closed) + e.open
  }
}
