/**
 The byte stream of compress(1): codes packed low bit first into buffers of
 n_bits bytes, and what the decompressor makes of such a stream.
 */
module LzwStream {
  import opened Common
  import opened LzwCodes
  import opened LzwSync

  /** Bit k of a buffer, counting from the low end of its first byte. */
  function BitAt(bs: seq<byte>, k: nat): nat
    requires k < 8 * |bs|
  {
    (bs[k / 8] / Pow2Small(k % 8)) % 2
  }

  /** Powers of two up to the bits of a byte, as plain numbers. */
  function Pow2Small(n: nat): (r: nat)
    ensures r >= 1
  {
    if n == 0 then 1 else if n == 1 then 2 else if n == 2 then 4 else if n == 3 then 8
    else if n == 4 then 16 else if n == 5 then 32 else if n == 6 then 64 else if n == 7 then 128 else 256
  }

  /** The n-bit number that starts at bit off of a buffer. */
  function CodeAt(bs: seq<byte>, off: nat, n: nat): nat
    requires off + n <= 8 * |bs|
    decreases n
  {
    if n == 0 then 0 else BitAt(bs, off) + 2 * CodeAt(bs, off + 1, n - 1)
  }

  /** Where code j of a buffer starts. */
  function Start(j: nat, width: nat): nat {
    j * width
  }

  lemma StartNext(j: nat, width: nat)
    ensures Start(j + 1, width) == Start(j, width) + width
  {
  }

  /** img holds the codes of ch one after the other; what follows them is left open. */
  ghost predicate Holds(ch: Chunk, img: seq<byte>) {
    && Start(|ch.codes|, ch.width) <= 8 * |img|
    && forall j :: 0 <= j < |ch.codes| ==> HoldsAt(ch, img, j)
  }

  ghost predicate HoldsAt(ch: Chunk, img: seq<byte>, j: nat)
    requires j < |ch.codes|
  {
    && Start(j, ch.width) + ch.width <= 8 * |img|
    && CodeAt(img, Start(j, ch.width), ch.width) == ch.codes[j]
  }

  /** Bytes needed for the codes of a buffer that end of file cuts short. */
  function TailBytes(ch: Chunk): nat {
    (Start(|ch.codes|, ch.width) + 7) / 8
  }

  /** bs is a stream of the given buffers: n_bits bytes for each of the n written ones;
      the current one, if there is one, is cut to the bytes its codes need. */
  ghost predicate Wire(chunks: seq<Chunk>, n: nat, bs: seq<byte>) {
    if chunks == [] then bs == []
    else if n == 0 then |bs| == TailBytes(chunks[0]) && Holds(chunks[0], bs)
    else
      var w := chunks[0].width;
      |bs| >= w && Holds(chunks[0], bs[..w]) && Wire(chunks[1..], n - 1, bs[w..])
  }

  /** getcode and the decompressor's loop on what is left of the stream: the buffer, the
      bit offset in it, and the bytes not read yet.  None: the stream is corrupt and the
      C program would use table entries or buffer bytes it never wrote. */
  function DecodeBytes(p: Params, d: Dec, buf: seq<byte>, off: nat, rest: seq<byte>): Option<seq<byte>>
    requires |d.strs| >= 256
    decreases |rest|, 8 * |buf| - off
  {
    var d1 := PreRead(p, d);
    var nbits := d1.w.nbits;
    var refill := Force(d) || off >= 8 * |buf| - (nbits - 1);
    var n := Min(nbits, |rest|);
    if refill && n == 0 then Some([])
    else
      var (buf1, off1, rest1) := if refill then (rest[..n], 0, rest[n..]) else (buf, off, rest);
      if off1 + nbits > 8 * |buf1| then None
      else
        var code := CodeAt(buf1, off1, nbits);
        if !Accepts(p, d1, code) then None
        else
          match DecodeBytes(p, Absorb(p, d1, code), buf1, off1 + nbits, rest1)
          case None => None
          case Some(tail) => Some(Emits(p, d1, code) + tail)
  }

  /** The buffers a finished run leaves, the current one included. */
  function FinalChunks(e: Enc): seq<Chunk> {
    if e.open == [] then e.closed else e.closed + [Chunk(e.w.nbits, e.open)]
  }

  /** The decompressor reads the buffers one by one: each of the n written ones has eight
      codes or ends where the decompressor wants a new one. */
  ghost predicate Readable(p: Params, chunks: seq<Chunk>, n: nat) {
    && n <= |chunks| <= n + 1
    && (forall q :: 0 <= q < n ==> Closed(p, Flat(chunks[..q]), chunks[q]))
    && (n < |chunks| ==> 1 <= |chunks[n].codes| <= 7 && ReadsAll(p, Flat(chunks[..n]), chunks[n]))
    && DecRun(p, Flat(chunks)).At?
  }

  /** The bytes that hold buffer q. */
  function ImageSize(chunks: seq<Chunk>, n: nat, q: nat): nat
    requires q < |chunks|
  {
    if q < n then chunks[q].width else TailBytes(chunks[q])
  }

  lemma FlatTake(chunks: seq<Chunk>, q: nat)
    requires q < |chunks|
    ensures Flat(chunks[..q + 1]) == Flat(chunks[..q]) + chunks[q].codes
  {
    assert chunks[..q + 1][..q] == chunks[..q];
  }

  /** The rest of the stream, read from the state after the codes pre, gives the rest of goal. */
  ghost predicate Yields(p: Params, pre: seq<nat>, buf: seq<byte>, off: nat, rest: seq<byte>, goal: seq<byte>) {
    var r := DecRun(p, pre);
    && r.At?
    && var t := DecodeBytes(p, r.d, buf, off, rest);
    t.Some? && r.out + t.value == goal
  }

  /** getcode fetches a new buffer. */
  predicate Refill(p: Params, d: Dec, buf: seq<byte>, off: nat) {
    Force(d) || off >= 8 * |buf| - (PreRead(p, d).w.nbits - 1)
  }

  /** getcode fetches a new buffer once the codes pre are read. */
  ghost predicate Refills(p: Params, pre: seq<nat>, buf: seq<byte>, off: nat) {
    DecRun(p, pre).At? && Refill(p, DecRun(p, pre).d, buf, off)
  }

  /** One code read from the current buffer. */
  lemma ReadHere(p: Params, pre: seq<nat>, buf: seq<byte>, off: nat, rest: seq<byte>,
                 width: nat, code: nat, goal: seq<byte>)
    requires Reads(p, pre, width, code, false)
    requires off + width <= 8 * |buf| && CodeAt(buf, off, width) == code
    requires Yields(p, pre + [code], buf, off + width, rest, goal)
    ensures Yields(p, pre, buf, off, rest, goal)
  {
    hide CodeAt, DecRun, Absorb, Emits, Accepts, PreRead, Force;
    DecRunStep(p, pre, code);
  }

  /** One code read from a new buffer. */
  lemma ReadNew(p: Params, pre: seq<nat>, buf: seq<byte>, off: nat, rest: seq<byte>,
                img: seq<byte>, width: nat, code: nat, goal: seq<byte>)
    requires Reads(p, pre, width, code, true)
    requires Refills(p, pre, buf, off)
    requires 1 <= |rest| && img == rest[..Min(width, |rest|)]
    requires width <= 8 * |img| && CodeAt(img, 0, width) == code
    requires Yields(p, pre + [code], img, width, rest[|img|..], goal)
    ensures Yields(p, pre, buf, off, rest, goal)
  {
    hide CodeAt, DecRun, Absorb, Emits, Accepts, PreRead, Force;
    DecRunStep(p, pre, code);
  }

  /** A buffer cut short by end of file is not longer than a whole one. */
  lemma ShortImage(ch: Chunk, img: seq<byte>)
    requires |img| == TailBytes(ch) || |img| == ch.width
    requires 1 <= |ch.codes| <= 8
    ensures 1 <= |img| <= ch.width
  {
    assert ch.width <= Start(|ch.codes|, ch.width) <= 8 * ch.width;
  }

  /** The state before buffer q, with the reader about to fetch it. */
  lemma {:induction false} WalkNext(p: Params, chunks: seq<Chunk>, n: nat, q: nat, buf: seq<byte>, off: nat,
                                    rest: seq<byte>)
    requires Readable(p, chunks, n) && q <= |chunks|
    requires Wire(chunks[q..], if q <= n then n - q else 0, rest)
    requires Refills(p, Flat(chunks[..q]), buf, off)
    ensures Yields(p, Flat(chunks[..q]), buf, off, rest, DecRun(p, Flat(chunks)).out)
    decreases |chunks| - q, 9
  {
    hide CodeAt, DecRun, Reads, Flat, DecodeBytes, Readable, Closed;
    if q == |chunks| {
      assert chunks[..q] == chunks;
      EndOfStream(p, Flat(chunks), buf, off);
    } else {
      var ch := chunks[q];
      var pre := Flat(chunks[..q]);
      BufferOk(p, chunks, n, q);
      assert chunks[q..][0] == ch && chunks[q..][1..] == chunks[q + 1..];
      var img := rest[..ImageSize(chunks, n, q)];
      ShortImage(ch, img);
      assert rest[..|rest|] == rest;
      assert Holds(ch, img) && HoldsAt(ch, img, 0);
      assert Reads(p, pre, ch.width, ch.codes[0], true) by {
        assert pre + ch.codes[..0] == pre;
        assert Reads(p, pre + ch.codes[..0], ch.width, ch.codes[0], true);
      }
      WalkIn(p, chunks, n, q, 1, img, rest[|img|..]);
      assert pre + ch.codes[..1] == pre + [ch.codes[0]];
      ReadNew(p, pre, buf, off, rest, img, ch.width, ch.codes[0], DecRun(p, Flat(chunks)).out);
    }
  }

  lemma EndOfStream(p: Params, pre: seq<nat>, buf: seq<byte>, off: nat)
    requires Refills(p, pre, buf, off)
    ensures Yields(p, pre, buf, off, [], DecRun(p, pre).out)
  {
  }

  /** The state after j codes of buffer q. */
  lemma {:induction false} WalkIn(p: Params, chunks: seq<Chunk>, n: nat, q: nat, j: nat, img: seq<byte>,
                                  rest: seq<byte>)
    requires Readable(p, chunks, n) && q < |chunks|
    requires 1 <= j <= |chunks[q].codes|
    requires Holds(chunks[q], img)
    requires |img| == ImageSize(chunks, n, q)
    requires Wire(chunks[q + 1..], if q + 1 <= n then n - q - 1 else 0, rest)
    ensures Yields(p, Flat(chunks[..q]) + chunks[q].codes[..j], img, Start(j, chunks[q].width), rest,
            DecRun(p, Flat(chunks)).out)
    decreases |chunks| - q, 8 - j
  {
    hide CodeAt, DecRun, Reads, Flat, DecodeBytes, Wire, Readable, Closed, Yields, Refills, TailBytes;
    var ch := chunks[q];
    var pre := Flat(chunks[..q]) + ch.codes[..j];
    BufferOk(p, chunks, n, q);
    if j < |ch.codes| {
      WalkIn(p, chunks, n, q, j + 1, img, rest);
      assert Flat(chunks[..q]) + ch.codes[..j + 1] == pre + [ch.codes[j]];
      assert Reads(p, pre, ch.width, ch.codes[j], false);
      assert HoldsAt(ch, img, j);
      StartNext(j, ch.width);
      ReadHere(p, pre, img, Start(j, ch.width), rest, ch.width, ch.codes[j], DecRun(p, Flat(chunks)).out);
    } else {
      assert ch.codes[..j] == ch.codes;
      FlatTake(chunks, q);
      BufferEnds(p, Flat(chunks[..q]), ch, ImageSize(chunks, n, q));
      WalkNext(p, chunks, n, q + 1, img, Start(j, ch.width), rest);
    }
  }

  /** Reading a code does not change the width. */
  lemma AfterRead(p: Params, pre: seq<nat>, width: nat, code: nat, opens: bool)
    requires Reads(p, pre, width, code, opens)
    ensures DecRun(p, pre + [code]).At? && DecRun(p, pre + [code]).d.w.nbits == width
  {
    DecRunStep(p, pre, code);
  }

  /** After the last code of a buffer the reader fetches the next one. */
  lemma BufferEnds(p: Params, pre: seq<nat>, ch: Chunk, size: nat)
    requires 1 <= |ch.codes| <= 8 && ReadsAll(p, pre, ch)
    requires (Closed(p, pre, ch) && size == ch.width) || size == TailBytes(ch)
    ensures forall img: seq<byte> :: |img| == size ==> Refills(p, pre + ch.codes, img, Start(|ch.codes|, ch.width))
  {
    hide DecRun, Reads, PreRead, Force;
    var m := |ch.codes| - 1;
    var all := pre + ch.codes;
    assert Reads(p, pre + ch.codes[..m], ch.width, ch.codes[m], m == 0);
    assert all == pre + ch.codes[..m] + [ch.codes[m]];
    AfterRead(p, pre + ch.codes[..m], ch.width, ch.codes[m], m == 0);
    ReadsWidth(p, pre + ch.codes[..m], ch.width, ch.codes[m], m == 0);
    var d := DecRun(p, all).d;
    if !Force(d) {
      NoChange(p, d);
    }
  }

  lemma BufferOk(p: Params, chunks: seq<Chunk>, n: nat, q: nat)
    requires Readable(p, chunks, n) && q < |chunks|
    ensures 1 <= |chunks[q].codes| <= 8 && n <= |chunks| <= n + 1
    ensures ReadsAll(p, Flat(chunks[..q]), chunks[q])
    ensures q < n ==> Closed(p, Flat(chunks[..q]), chunks[q])
    ensures DecRun(p, Flat(chunks)).At?
  {
    hide DecRun, Reads, Flat, ReadsAll;
  }

  lemma NoChange(p: Params, d: Dec)
    requires !Force(d)
    ensures PreRead(p, d) == d
  {
  }

  lemma ReadsWidth(p: Params, pre: seq<nat>, width: nat, code: nat, opens: bool)
    requires Reads(p, pre, width, code, opens)
    ensures INIT_BITS <= width <= BITS
  {
  }

  lemma FinalReadable(p: Params, e: Enc)
    requires Buffered(p, e.closed, e.w, e.open)
    requires DecRun(p, Emitted(e)).At?
    ensures Readable(p, FinalChunks(e), |e.closed|)
    ensures Flat(FinalChunks(e)) == Emitted(e)
  {
    hide Closed, Reads, DecRun;
    var chunks := FinalChunks(e);
    var n := |e.closed|;
    assert chunks[..n] == e.closed;
    forall q | 0 <= q < n
      ensures Closed(p, Flat(chunks[..q]), chunks[q])
    {
      assert chunks[..q] == e.closed[..q];
    }
    if e.open != [] {
      FlatSnoc(e.closed, Chunk(e.w.nbits, e.open));
    } else {
      assert Emitted(e) == Flat(e.closed);
    }
  }

  // ----- the whole file -----

  function Header(p: Params): (h: seq<byte>)
    requires p.maxbits < 32
  {
    [0x1f, 0x9d, p.maxbits + if p.block then 0x80 else 0]
  }

  datatype Unpacked = NotCompressed | TooManyBits | Corrupt | Data(bytes: seq<byte>)

  /** What the header byte says. */
  function ParamsOf(b: byte): Params {
    Params(b % 32, b >= 0x80)
  }

  /** What decompressing a file gives.  A missing third byte is read as -1, hence 31 bits.
      Fewer than nine bits, which no compressor writes, count as corrupt. */
  function Unpack(file: seq<byte>): Unpacked {
    if |file| < 2 || file[0] != 0x1f || file[1] != 0x9d then NotCompressed
    else if |file| == 2 || ParamsOf(file[2]).maxbits > BITS then TooManyBits
    else if !ParamsOf(file[2]).Valid() then Corrupt
    else
      var p := ParamsOf(file[2]);
      match DecodeBytes(p, InitDec(p), [], 0, file[3..])
      case None => Corrupt
      case Some(data) => Data(data)
  }

  /** The stream of a run that ends by emitting the pending code. */
  ghost predicate WireOfRun(p: Params, e: Enc, bs: seq<byte>) {
    var e1 := Output(p, e, e.ent, false);
    Wire(FinalChunks(e1), |e1.closed|, bs)
  }

  /** What the compressor writes for some input: nothing but the header when the input is
      empty; otherwise the buffers of a run, whatever hits and clears it decided on. */
  ghost predicate Packed(p: Params, input: seq<byte>, choices: seq<Choice>, file: seq<byte>)
    requires p.Valid()
  {
    && |file| >= 3 && file[..3] == Header(p)
    && if input == [] then |file| == 3
       else
         && |input| == |choices| + 1
         && EncRunOf(p, input, choices).Going?
         && WireOfRun(p, EncRunOf(p, input, choices).e, file[3..])
  }

  /** Every file the compressor can write unpacks to its input. */
  lemma UnpackPacked(p: Params, input: seq<byte>, choices: seq<Choice>, file: seq<byte>)
    requires p.Valid() && Packed(p, input, choices, file)
    ensures Unpack(file) == Data(input)
  {
    hide EncRunOf, WireOfRun;
    assert file[2] == file[..3][2] && file[1] == file[..3][1] && file[0] == file[..3][0];
    assert ParamsOf(file[2]) == p;
    if input != [] {
      RunUnpacks(p, input, choices, file[3..]);
    }
  }

  lemma BeforeFirst(p: Params)
    ensures Flat([]) == []
    ensures DecRun(p, []) == At(InitDec(p), [])
    ensures Refills(p, [], [], 0)
  {
  }

  lemma RunUnpacks(p: Params, input: seq<byte>, choices: seq<Choice>, bs: seq<byte>)
    requires p.Valid() && |input| == |choices| + 1
    requires EncRunOf(p, input, choices).Going?
    requires WireOfRun(p, EncRunOf(p, input, choices).e, bs)
    ensures DecodeBytes(p, InitDec(p), [], 0, bs) == Some(input)
  {
    hide InStep, EncRunOf, Output, Wire, DecodeBytes, Buffered, Readable, SameWidth, CaughtUp, DecRun, Force,
      Refills, Flat, Emitted, FinalChunks;
    RunInStep(p, input, choices);
    var e0 := EncRunOf(p, input, choices).e;
    EmitData(p, e0, input);
    var e := Output(p, e0, e0.ent, false);
    FinalReadable(p, e);
    var chunks := FinalChunks(e);
    assert chunks[..0] == [] && chunks[0..] == chunks;
    BeforeFirst(p);
    WalkNext(p, chunks, |e.closed|, 0, [], 0, bs);
    var t := DecodeBytes(p, InitDec(p), [], 0, bs);
    assert [] + t.value == t.value;
  }
}
