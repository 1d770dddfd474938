/**
 Packing codes into buffers and getting them out again, for any list of codes:
 output() and getcode() apart from what the codes mean.
 */
module LzwPacking {
  import opened Common
  import opened LzwCodes
  import opened LzwSync
  import opened LzwStream
  import opened LzwBits
  import opened LzwCompress

  /** The codes getcode() takes from a buffer from bit off on, if nothing makes it fetch another:
      it goes on while off is below the size in bits, rounded down by n_bits - 1. */
  function CodesFrom(img: seq<byte>, width: BitCount, off: nat): seq<nat>
    decreases 8 * |img| - off
  {
    if off >= 8 * |img| - (width - 1) then [] else [CodeAt(img, off, width)] + CodesFrom(img, width, off + width)
  }

  /** The rounding leaves exactly the codes that are there in full. */
  lemma {:induction false} RoundedCount(img: seq<byte>, width: BitCount, k: nat)
    requires Start(k, width) <= 8 * |img|
    ensures Start(k + |CodesFrom(img, width, Start(k, width))|, width) <= 8 * |img|
    ensures 8 * |img| < Start(k + |CodesFrom(img, width, Start(k, width))| + 1, width)
    decreases 8 * |img| - Start(k, width)
  {
    hide CodeAt, Start;
    StartNext(k, width);
    if Start(k, width) < 8 * |img| - (width - 1) {
      RoundedCount(img, width, k + 1);
      assert CodesFrom(img, width, Start(k, width))
               == [CodeAt(img, Start(k, width), width)] + CodesFrom(img, width, Start(k + 1, width));
    } else {
      assert CodesFrom(img, width, Start(k, width)) == [];
    }
  }

  lemma {:induction false} CodesHeld(ch: Chunk, img: seq<byte>, j: nat)
    requires Holds(ch, img) && j <= |ch.codes|
    ensures CodesFrom(img, ch.width, Start(j, ch.width))
              == ch.codes[j..] + CodesFrom(img, ch.width, Start(|ch.codes|, ch.width))
    decreases |ch.codes| - j
  {
    hide CodeAt, Start;
    if j < |ch.codes| {
      assert HoldsAt(ch, img, j);
      StartNext(j, ch.width);
      CodesHeld(ch, img, j + 1);
      assert ch.codes[j..] == [ch.codes[j]] + ch.codes[j + 1..];
    } else {
      var rest := CodesFrom(img, ch.width, Start(j, ch.width));
      assert ch.codes[j..] + rest == rest;
    }
  }

  /** getcode() finds exactly the codes of a buffer if and only if less than one code of padding
      follows them. */
  lemma ExactCodes(ch: Chunk, img: seq<byte>)
    requires Holds(ch, img)
    ensures CodesFrom(img, ch.width, 0) == ch.codes <==> 8 * |img| - Start(|ch.codes|, ch.width) < ch.width
    ensures ch.codes <= CodesFrom(img, ch.width, 0)
  {
    hide CodeAt;
    var k := |ch.codes|;
    CodesHeld(ch, img, 0);
    assert Start(0, ch.width) == 0 && ch.codes[0..] == ch.codes;
    var rest := CodesFrom(img, ch.width, Start(k, ch.width));
    assert rest == [] <==> Start(k, ch.width) >= 8 * |img| - (ch.width - 1);
    assert ch.codes + rest == ch.codes <==> rest == [] by {
      assert |ch.codes + rest| == |ch.codes| + |rest|;
    }
  }

  /** A full buffer, and one that end of file cut to the bytes its codes need, have no more. */
  lemma NoPadding(ch: Chunk, size: nat)
    requires ch.width >= 8 && (size == TailBytes(ch) || (size == ch.width && |ch.codes| == 8))
    ensures 8 * size - Start(|ch.codes|, ch.width) < ch.width
  {
  }

  /** With 7-bit codes this would be wrong: of seven that were written eight are read. */
  lemma NarrowExample(codes: seq<nat>, img: seq<byte>)
    requires |codes| == 7 && Holds(Chunk(7, codes), img) && |img| == TailBytes(Chunk(7, codes))
    ensures |CodesFrom(img, 7, 0)| == 8 && CodesFrom(img, 7, 0)[..7] == codes
  {
    hide CodeAt, CodesFrom;
    ExactCodes(Chunk(7, codes), img);
    assert Start(0, 7) == 0;
    RoundedCount(img, 7, 0);
  }

  // ----- whole streams -----

  /** What the reader knows of a buffer: the width, and after how many codes it fetches the next
      one because a width change or a CLEAR came up, if it does. */
  datatype Plan = Plan(width: BitCount, stop: Option<nat>)

  function Taken(codes: seq<nat>, stop: Option<nat>): seq<nat> {
    if stop.Some? && stop.value <= |codes| then codes[..stop.value] else codes
  }

  /** getcode() called until the end of the stream. */
  function ReadAll(plan: seq<Plan>, bs: seq<byte>): seq<nat>
    decreases |plan|
  {
    if plan == [] then []
    else
      var n := Min(plan[0].width, |bs|);
      Taken(CodesFrom(bs[..n], plan[0].width, 0), plan[0].stop) + ReadAll(plan[1..], bs[n..])
  }

  /** The reader's plan fits the buffers, of which n are whole: it stops early in exactly those
      that were written early. */
  ghost predicate Follows(plan: seq<Plan>, chunks: seq<Chunk>, n: nat) {
    && |plan| == |chunks| && n <= |chunks| <= n + 1
    && forall q :: 0 <= q < |chunks| ==>
         && plan[q].width == chunks[q].width && INIT_BITS <= chunks[q].width <= BITS && 1 <= |chunks[q].codes| <= 8
         && plan[q].stop == if q < n && |chunks[q].codes| < 8 then Some(|chunks[q].codes|) else None
  }

  lemma {:induction false} FlatFront(ch: Chunk, chunks: seq<Chunk>)
    ensures Flat([ch] + chunks) == ch.codes + Flat(chunks)
    decreases |chunks|
  {
    if chunks == [] {
      assert [ch] + chunks == [] + [ch];
      FlatSnoc([], ch);
    } else {
      var k := |chunks| - 1;
      FlatFront(ch, chunks[..k]);
      assert [ch] + chunks == ([ch] + chunks[..k]) + [chunks[k]];
      FlatSnoc([ch] + chunks[..k], chunks[k]);
    }
  }

  /** One buffer gives its codes, padding or not. */
  lemma BufferRead(ch: Chunk, img: seq<byte>, whole: bool, stop: Option<nat>)
    requires Holds(ch, img) && INIT_BITS <= ch.width <= BITS && 1 <= |ch.codes| <= 8
    requires |img| == if whole then ch.width else TailBytes(ch)
    requires stop == if whole && |ch.codes| < 8 then Some(|ch.codes|) else None
    ensures Taken(CodesFrom(img, ch.width, 0), stop) == ch.codes
  {
    hide CodeAt, CodesFrom, Start, Holds;
    ExactCodes(ch, img);
    if stop.None? {
      NoPadding(ch, |img|);
    }
  }

  /** The packing round trip: any codes, at any widths from 9 to 13, come back as they are, and
      no others with them. */
  lemma {:induction false} ReadsBack(plan: seq<Plan>, chunks: seq<Chunk>, n: nat, bs: seq<byte>)
    requires Follows(plan, chunks, n) && Wire(chunks, n, bs)
    ensures ReadAll(plan, bs) == Flat(chunks)
    decreases |chunks|
  {
    hide CodesFrom, Start, Taken, Flat, Holds, TailBytes;
    if chunks == [] {
      NoCodes();
    } else {
      var ch, rest := chunks[0], chunks[1..];
      var whole := n > 0;
      var img := if whole then bs[..ch.width] else bs;
      ShortImage(ch, img);
      assert bs[..|img|] == img && Min(ch.width, |bs|) == |img|;
      BufferRead(ch, img, whole, plan[0].stop);
      assert [ch] + rest == chunks;
      FlatFront(ch, rest);
      if whole {
        ReadsBack(plan[1..], rest, n - 1, bs[|img|..]);
      } else {
        NoCodes();
        assert rest == [] && plan[1..] == [];
      }
    }
  }

  lemma NoCodes()
    ensures Flat([]) == []
  {
  }

  // ----- the loops -----

  ghost predicate GoodChunk(ch: Chunk) {
    && INIT_BITS <= ch.width <= BITS && 1 <= |ch.codes| <= 8
    && forall j :: 0 <= j < |ch.codes| ==> ch.codes[j] < Pow2(ch.width)
  }

  /** output() of the codes of one buffer, over whatever the buffer held before. */
  method PutBuffer(buf: array<byte>, ch: Chunk)
    requires buf.Length == BITS && GoodChunk(ch)
    modifies buf
    ensures Holds(ch, buf[..])
  {
    hide CodeAt, Start, Holds, Pow2, SameBelow;
    var j, offset := 0, 0;
    HoldsNone(ch.width, buf[..]);
    while j < |ch.codes|
      invariant 0 <= j <= |ch.codes| && offset == Start(j, ch.width)
      invariant Holds(Chunk(ch.width, ch.codes[..j]), buf[..])
    {
      StartNext(j, ch.width);
      StartFull(j + 1, ch.width);
      ghost var was := buf[..];
      PutCode(buf, offset, ch.width, ch.codes[j]);
      HoldsSnoc(Chunk(ch.width, ch.codes[..j]), was, ch.codes[j], buf[..]);
      assert ch.codes[..j + 1] == ch.codes[..j] + [ch.codes[j]];
      offset := offset + ch.width;
      j := j + 1;
    }
    assert ch.codes[..j] == ch.codes;
  }

  /** All buffers; the last one is whole or ends with the file. */
  method PackAll(chunks: seq<Chunk>, n: nat) returns (bs: seq<byte>)
    requires n <= |chunks| <= n + 1 && forall q :: 0 <= q < |chunks| ==> GoodChunk(chunks[q])
    ensures Wire(chunks, n, bs)
  {
    hide Holds, Wire, Start, TailBytes;
    var buf := new byte[BITS](_ => 0);
    bs := [];
    EmptyWire();
    var q := 0;
    while q < |chunks|
      invariant 0 <= q <= |chunks|
      invariant Wire(chunks[..q], Min(q, n), bs)
    {
      var ch := chunks[q];
      PutBuffer(buf, ch);
      StartFull(|ch.codes|, ch.width);
      var size := if q < n then ch.width else TailBytes(ch);
      TailFits(ch, size, q < n);
      HoldsPrefix(ch, buf[..], size);
      WireSnoc(chunks[..q], bs, ch, buf[..size], q < n);
      assert chunks[..q + 1] == chunks[..q] + [ch];
      bs := bs + buf[..size];
      q := q + 1;
    }
    assert chunks[..q] == chunks;
  }

  lemma TailFits(ch: Chunk, size: nat, whole: bool)
    requires 1 <= |ch.codes| <= 8 && size == if whole then ch.width else TailBytes(ch)
    ensures Start(|ch.codes|, ch.width) <= 8 * size && size <= ch.width
  {
    StartFull(|ch.codes|, ch.width);
  }

  /** getcode() on one buffer. */
  method GetBuffer(img: seq<byte>, width: nat, stop: Option<nat>) returns (codes: seq<nat>)
    requires INIT_BITS <= width <= BITS
    ensures codes == Taken(CodesFrom(img, width, 0), stop)
  {
    hide CodeAt;
    var buf := new byte[|img|](i requires 0 <= i < |img| => img[i]);
    assert buf[..] == img;
    codes := [];
    var offset := 0;
    while offset < 8 * |img| - (width - 1)
      invariant 0 <= offset && buf[..] == img
      invariant CodesFrom(img, width, 0) == codes + CodesFrom(img, width, offset)
      decreases 8 * |img| - offset
    {
      if stop.Some? && stop.value == |codes| {
        assert CodesFrom(img, width, 0)[..|codes|] == codes;
        return;
      }
      var code := GetBits(buf, offset, width);
      codes := codes + [code];
      offset := offset + width;
    }
    assert CodesFrom(img, width, 0) == codes;
    if stop.Some? && stop.value <= |codes| {
      codes := codes[..stop.value];
    }
  }

  /** Pack and unpack. */
  method PackAndUnpack(chunks: seq<Chunk>, n: nat) returns (bs: seq<byte>, codes: seq<nat>)
    requires n <= |chunks| <= n + 1 && forall q :: 0 <= q < |chunks| ==> GoodChunk(chunks[q])
    ensures codes == Flat(chunks)
  {
    hide Wire, Pow2, CodesFrom, Flat, Taken;
    bs := PackAll(chunks, n);
    var plan := seq(|chunks|, q requires 0 <= q < |chunks| =>
      Plan(chunks[q].width, if q < n && |chunks[q].codes| < 8 then Some(|chunks[q].codes|) else None));
    ReadsBack(plan, chunks, n, bs);
    codes := [];
    var q, rest := 0, bs;
    assert plan[0..] == plan;
    while q < |plan|
      invariant 0 <= q <= |plan| && ReadAll(plan, bs) == codes + ReadAll(plan[q..], rest)
    {
      var size := Min(plan[q].width, |rest|);
      var more := GetBuffer(rest[..size], plan[q].width, plan[q].stop);
      assert plan[q..][0] == plan[q] && plan[q..][1..] == plan[q + 1..];
      codes := codes + more;
      rest := rest[size..];
      q := q + 1;
    }
  }
}
