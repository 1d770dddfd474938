/** compress(): the compressor with its hash table and its bit buffer. */
module LzwCompress {
  import opened Common
  import opened LzwCodes
  import opened LzwSync
  import opened LzwStream
  import opened LzwBits
  import opened LzwProbe

  const CHECK_GAP := 10000

  // ----- buffers written to the stream -----

  lemma {:induction false} CodeAtPrefix(bs: seq<byte>, m: nat, off: nat, n: nat)
    requires m <= |bs| && off + n <= 8 * m
    ensures CodeAt(bs[..m], off, n) == CodeAt(bs, off, n)
    decreases n
  {
    if n > 0 {
      CodeAtPrefix(bs, m, off + 1, n - 1);
    }
  }

  lemma StartMono(j: nat, k: nat, width: nat)
    requires j <= k
    ensures Start(j, width) <= Start(k, width)
  {
    MulMono(width, j, k);
  }

  lemma HoldsPrefix(ch: Chunk, bs: seq<byte>, m: nat)
    requires Holds(ch, bs) && m <= |bs| && Start(|ch.codes|, ch.width) <= 8 * m
    ensures Holds(ch, bs[..m])
  {
    hide CodeAt, Start;
    forall j | 0 <= j < |ch.codes|
      ensures HoldsAt(ch, bs[..m], j)
    {
      assert HoldsAt(ch, bs, j);
      StartNext(j, ch.width);
      StartMono(j + 1, |ch.codes|, ch.width);
      CodeAtPrefix(bs, m, Start(j, ch.width), ch.width);
    }
  }

  lemma HoldsNone(width: BitCount, bs: seq<byte>)
    ensures Holds(Chunk(width, []), bs) && Start(0, width) == 0
  {
  }

  /** Eight codes fill a buffer. */
  lemma StartFull(m: nat, width: BitCount)
    requires m <= 8
    ensures Start(m, width) == 8 * width <==> m == 8
    ensures Start(m, width) == 0 <==> m == 0
    ensures Start(m, width) <= 8 * width
  {
  }

  /** What PutCode does to a buffer. */
  lemma HoldsSnoc(ch: Chunk, bs: seq<byte>, code: nat, bs': seq<byte>)
    requires Holds(ch, bs)
    requires SameBelow(bs', bs, Start(|ch.codes|, ch.width))
    requires Start(|ch.codes|, ch.width) + ch.width <= 8 * |bs'|
    requires CodeAt(bs', Start(|ch.codes|, ch.width), ch.width) == code
    ensures Holds(Chunk(ch.width, ch.codes + [code]), bs')
  {
    hide CodeAt, Start, SameBelow;
    var ch' := Chunk(ch.width, ch.codes + [code]);
    StartNext(|ch.codes|, ch.width);
    assert |bs| == |bs'| by { SameSize(bs', bs, Start(|ch.codes|, ch.width)); }
    forall j | 0 <= j < |ch'.codes|
      ensures HoldsAt(ch', bs', j)
    {
      if j < |ch.codes| {
        assert HoldsAt(ch, bs, j);
        StartNext(j, ch.width);
        StartMono(j + 1, |ch.codes|, ch.width);
        SameCode(bs', bs, Start(|ch.codes|, ch.width), Start(j, ch.width), ch.width);
      }
    }
  }

  lemma SameSize(a: seq<byte>, b: seq<byte>, off: nat)
    requires SameBelow(a, b, off)
    ensures |a| == |b|
  {
  }

  /** One more buffer at the end of the stream, whole or cut by end of file. */
  lemma {:induction false} WireSnoc(chunks: seq<Chunk>, bs: seq<byte>, ch: Chunk, img: seq<byte>, whole: bool)
    requires Wire(chunks, |chunks|, bs) && Holds(ch, img)
    requires |img| == if whole then ch.width else TailBytes(ch)
    ensures Wire(chunks + [ch], if whole then |chunks| + 1 else |chunks|, bs + img)
  {
    hide Holds, TailBytes;
    if chunks == [] {
      assert bs + img == img;
      assert img[..|img|] == img && img[|img|..] == [];
    } else {
      var w := chunks[0].width;
      WireSnoc(chunks[1..], bs[w..], ch, img, whole);
      assert (chunks + [ch])[1..] == chunks[1..] + [ch];
      assert (bs + img)[..w] == bs[..w];
      assert (bs + img)[w..] == bs[w..] + img;
    }
  }

  // ----- the hash table -----

  /** The table slot key/code stands for a string of the code table: key is made of a
      character and the code of a prefix. */
  ghost predicate SlotOk(p: Params, table: seq<seq<byte>>, key: int, code: int) {
    Pow2Positive(p.maxbits);
    var c, pre := key / p.MaxMax(), key % p.MaxMax();
    && 0 <= c < 256 && pre < |table|
    && p.FirstFree() <= code < |table|
    && table[code] == table[pre] + [c]
  }

  /** All filled slots are sound, and there are no more of them than table entries. */
  ghost predicate HashOk(p: Params, htab: seq<int>, codetab: seq<int>, table: seq<seq<byte>>, filled: set<nat>) {
    && |htab| == |codetab| == HSIZE
    && (forall i :: 0 <= i < HSIZE && htab[i] >= 0 ==> i in filled && SlotOk(p, table, htab[i], codetab[i]))
    && |filled| <= |table| - p.FirstFree()
  }

  function Fcode(p: Params, c: byte, ent: nat): nat {
    c * p.MaxMax() + ent
  }

  lemma FcodeParts(p: Params, c: byte, ent: nat)
    requires ent < p.MaxMax()
    ensures Fcode(p, c, ent) / p.MaxMax() == c && Fcode(p, c, ent) % p.MaxMax() == ent
  {
    DivModUnique(Fcode(p, c, ent), p.MaxMax(), c, ent);
  }

  // ----- probing -----

  /** Where the search for a key begins. */
  function Home(p: Params, key: nat): (i: nat)
    requires p.Valid() && key < 256 * p.MaxMax()
    ensures i < HSIZE
  {
    MaxMaxBound(p);
    KeyParts(p, key);
    FirstProbe(p, key / p.MaxMax(), key % p.MaxMax());
    Xor(Shl(key / p.MaxMax(), 5), key % p.MaxMax())
  }

  lemma KeyParts(p: Params, key: nat)
    requires p.MaxMax() > 0 && key < 256 * p.MaxMax()
    ensures 0 <= key / p.MaxMax() < 256 && 0 <= key % p.MaxMax() < p.MaxMax()
  {
    hide Pow2;
    DivBelow(key, p.MaxMax(), 256);
  }

  lemma DivBelow(x: nat, m: nat, b: nat)
    requires m > 0 && x < b * m
    ensures 0 <= x / m < b && 0 <= x % m < m
  {
    var q := x / m;
    assert x == m * q + x % m;
    if q >= b {
      MulMono(m, b, q);
      assert false;
    }
  }

  /** The slot looked at after k steps of the secondary probe. */
  function PathSlot(home: nat, k: nat): (i: nat)
    requires home < HSIZE
    ensures i < HSIZE
  {
    if k == 0 then home
    else
      var i := PathSlot(home, k - 1) - if home == 0 then 1 else HSIZE - home;
      if i < 0 then i + HSIZE else i
  }

  /** The search goes on behind a slot with value v: the first stops at an empty slot, the others
      also at a slot whose key is 0. */
  predicate GoesOn(v: int, k: nat) {
    if k == 0 then v >= 0 else v > 0
  }

  ghost predicate LeadsTo(htab: seq<int>, home: nat, k: nat)
    requires |htab| == HSIZE && home < HSIZE
  {
    forall j: nat :: j < k ==> GoesOn(htab[PathSlot(home, j)], j)
  }

  /** The search for a key comes to slot i. */
  ghost predicate Found(p: Params, htab: seq<int>, i: nat)
    requires p.Valid() && |htab| == HSIZE && i < HSIZE && 0 <= htab[i] < 256 * p.MaxMax()
  {
    exists k: nat :: PathSlot(Home(p, htab[i]), k) == i && LeadsTo(htab, Home(p, htab[i]), k)
  }

  /** Every key but 0 is found. */
  ghost predicate AllFound(p: Params, htab: seq<int>)
    requires p.Valid()
  {
    && |htab| == HSIZE
    && (forall i :: 0 <= i < HSIZE && htab[i] > 0 ==> htab[i] < 256 * p.MaxMax() && Found(p, htab, i))
  }

  /** A search that ended without the key: it is not in the table. */
  lemma MissMeansNone(p: Params, htab: seq<int>, key: nat, k: nat, i: nat)
    requires p.Valid() && AllFound(p, htab) && 0 < key < 256 * p.MaxMax()
    requires LeadsTo(htab, Home(p, key), k) && !GoesOn(htab[PathSlot(Home(p, key), k)], k)
    requires forall j: nat :: j <= k ==> htab[PathSlot(Home(p, key), j)] != key
    ensures i < HSIZE ==> htab[i] != key
  {
    hide Home, PathSlot;
    if i < HSIZE && htab[i] == key {
      assert false;
    }
  }

  /** The new key is found where the search for it ended, and the others still are. */
  lemma EnterFound(p: Params, htab: seq<int>, key: nat, k: nat)
    requires p.Valid() && AllFound(p, htab) && key < 256 * p.MaxMax()
    requires LeadsTo(htab, Home(p, key), k) && htab[PathSlot(Home(p, key), k)] <= 0
    ensures AllFound(p, htab[PathSlot(Home(p, key), k) := key])
    ensures forall x: int :: x > 0 && x in htab ==> x in htab[PathSlot(Home(p, key), k) := key]
  {
    hide Home, PathSlot;
    var at := PathSlot(Home(p, key), k);
    var htab' := htab[at := key];
    forall i | 0 <= i < HSIZE && htab'[i] > 0
      ensures htab'[i] < 256 * p.MaxMax() && Found(p, htab', i)
    {
      if i == at {
        StillLeads(htab, Home(p, key), k, at, key);
      } else {
        assert Found(p, htab, i);
        var k1: nat :| PathSlot(Home(p, htab[i]), k1) == i && LeadsTo(htab, Home(p, htab[i]), k1);
        StillLeads(htab, Home(p, htab[i]), k1, at, key);
      }
    }
    forall x: int | x > 0 && x in htab
      ensures x in htab'
    {
      var i :| 0 <= i < HSIZE && htab[i] == x;
      assert htab'[i] == x;
    }
  }

  lemma StillLeads(htab: seq<int>, home: nat, k: nat, at: nat, key: nat)
    requires |htab| == HSIZE && home < HSIZE && LeadsTo(htab, home, k) && at < HSIZE && htab[at] <= 0
    ensures LeadsTo(htab[at := key], home, k)
  {
    hide PathSlot;
    forall j: nat | j < k
      ensures GoesOn(htab[at := key][PathSlot(home, j)], j)
    {
      assert GoesOn(htab[PathSlot(home, j)], j);
    }
  }

  /** All strings entered since the last clearing are in the table, but for that of key 0. */
  ghost predicate HasAll(p: Params, htab: seq<int>, entered: set<(nat, byte)>) {
    forall x :: x in entered && Fcode(p, x.1, x.0) > 0 ==> Fcode(p, x.1, x.0) in htab
  }

  lemma HasOneMore(p: Params, htab: seq<int>, htab': seq<int>, entered: set<(nat, byte)>, ent: nat, c: byte)
    requires HasAll(p, htab, entered) && Fcode(p, c, ent) in htab'
    requires forall x: int :: x > 0 && x in htab ==> x in htab'
    ensures HasAll(p, htab', entered + {(ent, c)})
  {
    hide Fcode;
  }

  lemma FcodeBound(p: Params, c: byte, ent: nat)
    requires ent < p.MaxMax()
    ensures Fcode(p, c, ent) < 256 * p.MaxMax()
    ensures Fcode(p, c, ent) == 0 <==> c == 0 && ent == 0
  {
    hide Pow2;
    var m := p.MaxMax();
    MulMono(m, c, 255);
    if c > 0 {
      MulMono(m, 1, c);
    }
  }

  /** A hit gives the code of exactly this prefix and character. */
  lemma HitSound(p: Params, htab: seq<int>, codetab: seq<int>, table: seq<seq<byte>>, filled: set<nat>, c: byte,
                 ent: nat, i: nat)
    requires HashOk(p, htab, codetab, table, filled) && i < HSIZE
    requires ent < |table| <= p.MaxMax()
    requires htab[i] == Fcode(p, c, ent)
    ensures p.FirstFree() <= codetab[i] < |table| && table[codetab[i]] == table[ent] + [c]
  {
    FcodeParts(p, c, ent);
    assert SlotOk(p, table, htab[i], codetab[i]);
  }

  /** Entering the new string keeps the hash table sound, even where it overwrites the key 0. */
  lemma EnterSound(p: Params, htab: seq<int>, codetab: seq<int>, table: seq<seq<byte>>, filled: set<nat>, c: byte,
                   ent: nat, i: nat)
    requires HashOk(p, htab, codetab, table, filled) && i < HSIZE
    requires ent < |table| < p.MaxMax() && p.FirstFree() <= |table|
    ensures HashOk(p, htab[i := Fcode(p, c, ent)], codetab[i := |table|], table + [table[ent] + [c]], filled + {i})
  {
    hide Fcode;
    FcodeParts(p, c, ent);
    var table' := table + [table[ent] + [c]];
    var htab', codetab' := htab[i := Fcode(p, c, ent)], codetab[i := |table|];
    assert SlotOk(p, table', htab'[i], codetab'[i]);
    forall j | 0 <= j < HSIZE && htab'[j] >= 0
      ensures j in filled + {i} && SlotOk(p, table', htab'[j], codetab'[j])
    {
      if j != i {
        assert SlotOk(p, table, htab[j], codetab[j]);
      }
    }
    assert |filled + {i}| <= |filled| + 1;
  }

  /** The table always has an empty slot. */
  lemma EmptySlot(p: Params, htab: seq<int>, codetab: seq<int>, table: seq<seq<byte>>, filled: set<nat>)
    returns (slot: nat)
    requires p.Valid() && HashOk(p, htab, codetab, table, filled) && |table| <= p.MaxMax()
    ensures |htab| == HSIZE && slot < HSIZE && htab[slot] < 0
  {
    MaxMaxBound(p);
    slot := FreeSlot(HSIZE, filled);
  }

  function Xor(a: nat, b: nat): nat
    decreases a + b
  {
    if a == 0 && b == 0 then 0 else 2 * Xor(a / 2, b / 2) + (a + b) % 2
  }

  lemma {:induction false} XorFits(a: nat, b: nat, k: nat)
    requires a < Pow2(k) && b < Pow2(k)
    ensures Xor(a, b) < Pow2(k)
    decreases k
  {
    if k > 0 {
      XorFits(a / 2, b / 2, k - 1);
    }
  }

  /** The first probe stays inside the table. */
  lemma FirstProbe(p: Params, c: byte, ent: nat)
    requires p.Valid() && ent < p.MaxMax()
    ensures Xor(Shl(c, 5), ent) < HSIZE
  {
    Pow2Table();
    assert Shl(c, 5) == c * 32;
    assert p.maxbits in {9, 10, 11, 12, 13};
    XorFits(c * 32, ent, 13);
  }

  lemma MaxMaxBound(p: Params)
    requires p.Valid()
    ensures 512 <= p.MaxMax() <= 8192
  {
    Pow2Table();
    assert p.maxbits in {9, 10, 11, 12, 13};
  }

  /** Input per output byte, with eight fractional bits. */
  function Ratio(inCount: nat, bytesOut: nat): (r: nat)
    requires bytesOut > 0
    ensures inCount <= 0x7FFFFF ==> IsQuotient(r, 256 * inCount, bytesOut)
    ensures inCount > 0x7FFFFF && bytesOut >= 256 ==> IsQuotient(r, inCount, bytesOut / 256)
    ensures inCount > 0x7FFFFF && bytesOut < 256 ==> r == 0x7FFFFFFF
  {
    if inCount > 0x007fffff then
      var rat := bytesOut / 256;
      if rat == 0 then 0x7fffffff
      else
        Divides(inCount, rat);
        inCount / rat
    else
      Divides(inCount * 256, bytesOut);
      inCount * 256 / bytesOut
  }

  /** q is x / d, rounded down. */
  predicate IsQuotient(q: nat, x: nat, d: nat) {
    q * d <= x < q * d + d
  }

  lemma Divides(x: nat, d: nat)
    requires d > 0
    ensures IsQuotient(x / d, x, d)
  {
    assert x == d * (x / d) + x % d;
  }

  // ----- the program -----

  class Compressor {
    const p: Params
    const htab: array<int>
    const codetab: array<int>
    const buf: array<byte>
    var stdout: seq<byte>
    var freeEnt: nat
    var nBits: nat
    var maxcode: int
    var clearFlg: bool
    var offset: nat
    var hshift: nat
    var inCount: nat
    var bytesOut: nat
    var ratio: nat
    var checkpoint: nat
    ghost var e: Enc
    ghost var filled: set<nat>
    ghost var entered: set<(nat, byte)>

    /** The bit buffer and the stream hold what e says. */
    ghost predicate StreamOk()
      reads this, buf
    {
      && p.Valid()
      && buf.Length == BITS
      && nBits == e.w.nbits && maxcode == e.w.maxcode && INIT_BITS <= nBits <= BITS
      && freeEnt == |e.table|
      && |e.open| < 8 && offset == Start(|e.open|, nBits)
      && Holds(Chunk(e.w.nbits, e.open), buf[..])
      && |stdout| >= 3 && bytesOut >= 3 && stdout[..3] == Header(p)
      && Wire(e.closed, |e.closed|, stdout[3..])
    }

    ghost predicate TableOk()
      reads this, htab, codetab
    {
      && p.Valid() && htab != codetab && htab.Length == codetab.Length == HSIZE && hshift == 5
      && HashOk(p, htab[..], codetab[..], e.table, filled)
      && AllFound(p, htab[..]) && HasAll(p, htab[..], entered)
    }

    constructor (maxbits: nat, block: bool)
      requires INIT_BITS <= maxbits <= BITS
      ensures p == Params(maxbits, block)
      ensures htab.Length == HSIZE && codetab.Length == HSIZE && htab != codetab && buf.Length == BITS
      ensures fresh(htab) && fresh(codetab) && fresh(buf)
    {
      p := Params(maxbits, block);
      htab := new int[HSIZE];
      codetab := new int[HSIZE];
      buf := new byte[BITS](_ => 0);
    }

    /** output() of a code. */
    method Output(code: nat)
      requires StreamOk() && code < Pow2(nBits)
      requires INIT_BITS <= LzwCodes.Output(p, e, code, clearFlg).w.nbits <= BITS
      modifies buf, `stdout, `nBits, `maxcode, `clearFlg, `offset, `bytesOut, `e
      ensures StreamOk() && !clearFlg
      ensures e == LzwCodes.Output(p, old(e), code, old(clearFlg))
    {
      hide CodeAt, Start, Holds, Wire, Pow2, SameBelow, TailBytes;
      ghost var ch := Chunk(e.w.nbits, e.open);
      ghost var ch' := Chunk(e.w.nbits, e.open + [code]);
      StartNext(|e.open|, nBits);
      StartFull(|e.open| + 1, nBits);
      PutCode(buf, offset, nBits, code);
      HoldsSnoc(ch, old(buf[..]), code, buf[..]);
      HoldsPrefix(ch', buf[..], nBits);
      WireSnoc(e.closed, stdout[3..], ch', buf[..nBits], true);
      assert (stdout + buf[..nBits])[3..] == stdout[3..] + buf[..nBits];
      assert (stdout + buf[..nBits])[..3] == stdout[..3];
      e := LzwCodes.Output(p, e, code, clearFlg);
      offset := offset + nBits;
      if offset == 8 * nBits {
        bytesOut := bytesOut + nBits;
        stdout := stdout + buf[..nBits];
        offset := 0;
      }
      if freeEnt > maxcode || clearFlg {
        if offset > 0 {
          stdout := stdout + buf[..nBits];
          bytesOut := bytesOut + nBits;
        }
        offset := 0;
        if clearFlg {
          nBits := INIT_BITS;
          maxcode := 511;
          clearFlg := false;
        } else {
          nBits := nBits + 1;
          maxcode := if nBits == p.maxbits then p.MaxMax() else Pow2(nBits) - 1;
        }
      }
      HoldsNone(nBits, buf[..]);
    }

    /** output(-1): write what is left in the buffer. */
    method Flush()
      requires StreamOk()
      modifies `stdout, `bytesOut, `offset
      ensures |stdout| >= 3 && stdout[..3] == Header(p)
      ensures Wire(FinalChunks(e), |e.closed|, stdout[3..])
      ensures e.open == [] ==> StreamOk() && stdout == old(stdout)
    {
      hide CodeAt, Start, Holds, Wire, Pow2;
      StartFull(|e.open|, nBits);
      if offset > 0 {
        ghost var ch := Chunk(e.w.nbits, e.open);
        var n := (offset + 7) / 8;
        HoldsPrefix(ch, buf[..], n);
        WireSnoc(e.closed, stdout[3..], ch, buf[..n], false);
        assert (stdout + buf[..n])[3..] == stdout[3..] + buf[..n];
        assert (stdout + buf[..n])[..3] == stdout[..3];
        stdout := stdout + buf[..n];
      }
      bytesOut := bytesOut + (offset + 7) / 8;
      offset := 0;
    }

    /** cl_hash(): empty every slot, sixteen at a time and then one by one. */
    method ClHash()
      requires htab.Length == HSIZE
      modifies htab
      ensures forall i :: 0 <= i < HSIZE ==> htab[i] == -1
    {
      var htabP := HSIZE;
      var i := HSIZE - 16;
      while i >= 0
        invariant i == htabP - 16 && 0 <= htabP
        invariant forall k :: htabP <= k < HSIZE ==> htab[k] == -1
      {
        for j := 0 to 16
          invariant forall k :: htabP - j <= k < HSIZE ==> htab[k] == -1
        {
          htab[htabP - 1 - j] := -1;
        }
        htabP := htabP - 16;
        i := i - 16;
      }
      i := i + 16;
      while i > 0
        invariant i == htabP && 0 <= i
        invariant forall k :: htabP <= k < HSIZE ==> htab[k] == -1
      {
        htabP := htabP - 1;
        htab[htabP] := -1;
        i := i - 1;
      }
    }

    /** hshift, the bits a character is shifted by before hashing. */
    method HashShift() returns (shift: nat)
      ensures shift == 5
    {
      var h, fcode := 0, HSIZE;
      while fcode < 65536
        invariant h <= 3 && fcode == HSIZE * Pow2(h)
        decreases 3 - h
      {
        assert h < 3 by { Pow2Table(); }
        fcode := fcode * 2;
        h := h + 1;
      }
      assert h == 3 by { Pow2Table(); }
      shift := 8 - h;
    }

    /** Look up the string of ent followed by c: a hit, or the slot for a new entry, after k steps.
        The first probe stops at an empty slot, the others also at a slot whose key is 0. */
    method Probe(c: byte, ent: nat) returns (hit: bool, i: nat, ghost k: nat)
      requires p.Valid() && TableOk() && ent < |e.table| <= p.MaxMax()
      ensures i < HSIZE && Fcode(p, c, ent) < 256 * p.MaxMax()
      ensures hit <==> htab[i] == Fcode(p, c, ent)
      ensures !hit ==> htab[i] <= 0 && i == PathSlot(Home(p, Fcode(p, c, ent)), k)
      ensures !hit ==> LeadsTo(htab[..], Home(p, Fcode(p, c, ent)), k)
      ensures !hit && Fcode(p, c, ent) > 0 ==> Fcode(p, c, ent) !in htab[..]
    {
      hide HashOk, Fcode, Xor, AllFound, HasAll;
      var fcode := Fcode(p, c, ent);
      FirstProbe(p, c, ent);
      FcodeParts(p, c, ent);
      FcodeBound(p, c, ent);
      i := Xor(Shl(c, hshift), ent);
      ghost var home := Home(p, fcode);
      assert i == home == PathSlot(home, 0);
      hide Home;
      k := 0;
      if htab[i] == fcode {
        return true, i, k;
      } else if htab[i] < 0 {
        MissedAll(p, htab[..], fcode, k);
        return false, i, k;
      }
      var disp := HSIZE - i;
      if i == 0 {
        disp := 1;
      }
      ghost var slot := EmptySlot(p, htab[..], codetab[..], e.table, filled);
      ghost var steps, z := ProbeReaches(i, disp, slot);
      ghost var start, y := i, 0;
      var at := i;
      while true
        invariant 0 <= at < HSIZE && k < steps && at == PathSlot(home, k)
        invariant at + HSIZE * y == start - k * disp
        invariant LeadsTo(htab[..], home, k + 1)
        invariant forall j: nat :: j <= k ==> htab[PathSlot(home, j)] != fcode
        decreases steps - k
      {
        k := k + 1;
        assert start - k * disp == start - (k - 1) * disp - disp;
        at := at - disp;
        if at < 0 {
          at := at + HSIZE;
          y := y - 1;
        }
        assert at == PathSlot(home, k);
        if htab[at] == fcode {
          return true, at, k;
        }
        if htab[at] <= 0 {
          MissedAll(p, htab[..], fcode, k);
          return false, at, k;
        }
        if k == steps {
          SameSlot(at, slot, y, z);
          assert false;
        }
      }
    }

    /** cl_block(): when the compression ratio has not improved, start over. */
    method ClBlock() returns (ghost cleared: bool)
      requires StreamOk() && TableOk() && p.block && !clearFlg
      requires INIT_BITS <= LzwCodes.Output(p, e.(table := InitTable(p)), CLEAR, true).w.nbits <= BITS
      requires CLEAR < Pow2(nBits)
      modifies htab, buf, `stdout, `nBits, `maxcode, `clearFlg, `offset, `bytesOut, `e
      modifies `freeEnt, `ratio, `checkpoint, `filled, `entered
      ensures StreamOk() && TableOk() && !clearFlg && entered == if cleared then {} else old(entered)
      ensures e == if cleared then LzwCodes.Output(p, old(e).(table := InitTable(p)), CLEAR, true) else old(e)
      ensures old(bytesOut) > 0 && (cleared <==> Ratio(inCount, old(bytesOut)) <= old(ratio))
      ensures ratio == (if cleared then 0 else Ratio(inCount, old(bytesOut))) && checkpoint == inCount + CHECK_GAP
    {
      hide Wire, Holds, LzwCodes.Output, Start, AllFound, HasAll, HashOk, InitTable;
      checkpoint := inCount + CHECK_GAP;
      var rat := Ratio(inCount, bytesOut);
      if rat > ratio {
        ratio := rat;
        cleared := false;
      } else {
        ratio := 0;
        ClearTable();
        OutputKeeps(p, e, CLEAR, true);
        Output(CLEAR);
        cleared := true;
      }
    }

    /** The table as it is at the start; output() is told. */
    method ClearTable()
      requires StreamOk() && TableOk() && p.block
      modifies htab, `clearFlg, `e, `freeEnt, `filled, `entered
      ensures StreamOk() && TableOk() && clearFlg && entered == {} && e == old(e).(table := InitTable(p))
    {
      hide Wire, Holds, Start, AllFound, HasAll, HashOk, InitTable;
      ClHash();
      freeEnt := FIRST;
      clearFlg := true;
      e := e.(table := InitTable(p));
      filled, entered := {}, {};
      EmptyHash(p, htab[..], codetab[..], e.table);
      NoneEntered(p, htab[..]);
    }

    /** One input byte: extend the pending string, or emit its code and start a new one.  A string
        that is in the table under a key other than 0 is always extended. */
    method Step(c: byte, ent: nat, ghost consumed: seq<byte>) returns (next: nat, ghost choice: Choice)
      requires StreamOk() && TableOk() && !clearFlg
      requires ent == e.ent && InStep(p, e, consumed)
      modifies htab, codetab, buf, `stdout, `nBits, `maxcode, `clearFlg, `offset, `bytesOut, `e
      modifies `freeEnt, `ratio, `checkpoint, `filled, `entered
      ensures StreamOk() && TableOk() && !clearFlg
      ensures old(e).ent < |old(e).table| && Allowed(p, old(e), c, choice)
      ensures e == EncStep(p, old(e), c, choice) && next == e.ent
      ensures Fcode(p, c, ent) > 0 && Fcode(p, c, ent) in old(htab[..]) ==> choice.Hit?
      ensures (ent, c) in old(entered) && choice.Miss? ==> ent == 0 && c == 0
      ensures entered == AfterEntry(p, old(e), c, choice, old(entered))
      ensures checkpoint == old(checkpoint) || (inCount >= old(checkpoint) && checkpoint == inCount + CHECK_GAP)
      ensures choice == Miss(true) ==> inCount >= old(checkpoint) && checkpoint == inCount + CHECK_GAP
    {
      hide Wire, Holds, Start, HashOk, Fcode, LzwCodes.Output, InStep, AllFound, HasAll, LeadsTo, PathSlot, Home;
      InStepTable(p, e, consumed);
      OutputFits(p, e, consumed);
      OutputKeeps(p, e, ent, false);
      FcodeBound(p, c, ent);
      EnteredThere(p, htab[..], entered, ent, c);
      var hit, i, k := Probe(c, ent);
      if hit {
        HitSound(p, htab[..], codetab[..], e.table, filled, c, ent, i);
        next := codetab[i];
        choice := Hit(next);
        e := e.(ent := next);
        return;
      }
      Output(ent);
      next := c;
      e := e.(ent := c);
      choice := Miss(false);
      if freeEnt < p.MaxMax() {
        Enter(c, ent, i, k);
      } else if inCount >= checkpoint && p.block {
        OutputKeeps(p, e.(table := InitTable(p)), CLEAR, true);
        ghost var cleared := ClBlock();
        choice := Miss(cleared);
      }
    }

    /** A new entry under the next free code, in slot i to which the search has led. */
    method Enter(c: byte, ent: nat, i: nat, ghost k: nat)
      requires TableOk() && freeEnt == |e.table| < p.MaxMax() && p.FirstFree() <= |e.table| && ent < |e.table|
      requires i < HSIZE && htab[i] <= 0 && Fcode(p, c, ent) < 256 * p.MaxMax()
      requires i == PathSlot(Home(p, Fcode(p, c, ent)), k) && LeadsTo(htab[..], Home(p, Fcode(p, c, ent)), k)
      modifies htab, codetab, `freeEnt, `e, `filled, `entered
      ensures TableOk() && freeEnt == |e.table| && entered == old(entered) + {(ent, c)}
      ensures e == old(e).(table := old(e).table + [old(e).table[ent] + [c]])
    {
      hide HashOk, Fcode, AllFound, HasAll, LeadsTo, PathSlot, Home;
      ghost var key, htab0 := Fcode(p, c, ent), htab[..];
      EnterSound(p, htab[..], codetab[..], e.table, filled, c, ent, i);
      EnterFound(p, htab[..], key, k);
      codetab[i] := freeEnt;
      freeEnt := freeEnt + 1;
      htab[i] := Fcode(p, c, ent);
      assert htab[..] == htab0[i := key] && codetab[..] == old(codetab[..])[i := |e.table|];
      assert htab[..][i] == key;
      HasOneMore(p, htab0, htab[..], entered, ent, c);
      e := e.(table := e.table + [e.table[ent] + [c]]);
      filled, entered := filled + {i}, entered + {(ent, c)};
    }

    /** What compress() does before its loop. */
    method Begin(first: byte)
      requires p.Valid()
      requires htab.Length == HSIZE && codetab.Length == HSIZE && htab != codetab && buf.Length == BITS
      modifies this, htab
      ensures StreamOk() && TableOk() && !clearFlg
      ensures e == InitEnc(p, first) && stdout == Header(p) && entered == {} && inCount == 1 && checkpoint == CHECK_GAP
    {
      hide Wire, Holds, Start, HashOk, InitTable, AllFound, HasAll;
      ratio, inCount, checkpoint := 0, 1, CHECK_GAP;
      BeginStream(first);
      hshift := HashShift();
      ClHash();
      filled, entered := {}, {};
      EmptyHash(p, htab[..], codetab[..], e.table);
      NoneEntered(p, htab[..]);
    }

    /** The header, and an empty buffer. */
    method BeginStream(first: byte)
      requires p.Valid() && buf.Length == BITS
      modifies `stdout, `offset, `bytesOut, `clearFlg, `nBits, `maxcode, `freeEnt, `e
      ensures StreamOk() && !clearFlg && e == InitEnc(p, first) && stdout == Header(p)
    {
      hide Wire, Holds, Start, InitTable;
      stdout := Header(p);
      offset, bytesOut, clearFlg := 0, 3, false;
      nBits, maxcode := INIT_BITS, 511;
      freeEnt := p.FirstFree();
      e := InitEnc(p, first);
      HoldsNone(nBits, buf[..]);
      EmptyWire();
      assert stdout[3..] == [];
    }

    /** compress(): the whole program.  choices records what it decided at each byte. */
    method Compress(input: seq<byte>) returns (ghost choices: seq<Choice>)
      requires p.Valid()
      requires htab.Length == HSIZE && codetab.Length == HSIZE && htab != codetab && buf.Length == BITS
      modifies this, htab, codetab, buf
      ensures Packed(p, input, choices, stdout)
      ensures input != [] ==> |input| == |choices| + 1 && Greedy(p, input, choices) && RareClears(choices, 10000)
    {
      hide Wire, Holds, Start, HashOk, LzwCodes.Output, InStep, EncStep, Allowed, InitTable, AllFound, HasAll;
      hide Greedy, RareClears, Fcode, Entered, AfterEntry;
      choices := [];
      if input == [] {
        // getc gave EOF, so both calls of output get -1
        Begin(0);
        Flush();
        Flush();
        return;
      }
      var ent: nat := input[0];
      Begin(input[0]);
      var pos := 1;
      NothingRead(p, input, checkpoint);
      while pos < |input|
        invariant 1 <= pos <= |input| && |choices| == pos - 1
        invariant StreamOk() && TableOk() && !clearFlg && ent == e.ent
        invariant EncRunOf(p, input[..pos], choices) == Going(e) && inCount == pos
        invariant Entered(p, input[..pos], choices) == entered && Greedy(p, input[..pos], choices)
        invariant Spaced(choices, checkpoint)
      {
        var c := input[pos];
        inCount := inCount + 1;
        RunInStep(p, input[..pos], choices);
        ghost var choice;
        ghost var checkpoint0 := checkpoint;
        ent, choice := Step(c, ent, input[..pos]);
        ExtendRun(p, input, pos, choices, choice);
        ExtendGreedy(p, input, pos, choices, choice);
        ExtendSpaced(choices, choice, checkpoint0, checkpoint);
        choices := choices + [choice];
        pos := pos + 1;
      }
      assert input[..pos] == input;
      SpacedRare(choices, checkpoint);
      RunInStep(p, input, choices);
      OutputFits(p, e, input);
      Output(ent);
      Flush();
    }
  }

  lemma MissedAll(p: Params, htab: seq<int>, key: nat, k: nat)
    requires p.Valid() && AllFound(p, htab) && key < 256 * p.MaxMax()
    requires LeadsTo(htab, Home(p, key), k) && !GoesOn(htab[PathSlot(Home(p, key), k)], k)
    requires forall j: nat :: j <= k ==> htab[PathSlot(Home(p, key), j)] != key
    ensures key > 0 ==> key !in htab
  {
    hide Home, PathSlot, AllFound, LeadsTo, GoesOn;
    if key > 0 {
      forall i: nat | i < |htab|
        ensures htab[i] != key
      {
        TableSize(p, htab);
        MissMeansNone(p, htab, key, k, i);
      }
    }
  }

  lemma TableSize(p: Params, htab: seq<int>)
    requires p.Valid() && AllFound(p, htab)
    ensures |htab| == HSIZE
  {
  }

  lemma InStepTable(p: Params, e: Enc, consumed: seq<byte>)
    requires InStep(p, e, consumed)
    ensures e.ent < |e.table| && p.FirstFree() <= |e.table| <= p.MaxMax()
  {
    hide Buffered, DecRun, Lags, SameWidth;
  }

  /** output() is always called with a code that fits the current width, and never
      leaves the widths of the bit buffer. */
  lemma OutputFits(p: Params, e: Enc, consumed: seq<byte>)
    requires p.Valid() && InStep(p, e, consumed)
    ensures e.ent < Pow2(e.w.nbits)
    ensures var w := LzwCodes.Output(p, e, e.ent, false).w;
            INIT_BITS <= w.nbits <= BITS && CLEAR < Pow2(w.nbits)
    ensures forall e1: Enc :: LzwCodes.Output(p, e1, CLEAR, true).w == InitWidth()
  {
    hide Buffered, DecRun, Flat;
    EntFits(p, e, DecRun(p, Emitted(e)).d);
    EmitData(p, e, consumed);
    Pow2Table();
    assert LzwCodes.Output(p, e, e.ent, false).w.nbits in {9, 10, 11, 12, 13};
  }

  lemma EmptyWire()
    ensures Wire([], 0, [])
  {
  }

  lemma OutputKeeps(p: Params, e: Enc, code: nat, clear: bool)
    ensures var e1 := LzwCodes.Output(p, e, code, clear);
            e1.table == e.table && e1.ent == e.ent
  {
  }

  lemma EmptyHash(p: Params, htab: seq<int>, codetab: seq<int>, table: seq<seq<byte>>)
    requires |htab| == |codetab| == HSIZE && |table| == p.FirstFree()
    requires forall i :: 0 <= i < HSIZE ==> htab[i] == -1
    ensures HashOk(p, htab, codetab, table, {})
  {
  }

  lemma ExtendRun(p: Params, input: seq<byte>, pos: nat, choices: seq<Choice>, choice: Choice)
    requires 1 <= pos < |input| && |choices| == pos - 1
    requires EncRunOf(p, input[..pos], choices).Going?
    requires Allowed(p, EncRunOf(p, input[..pos], choices).e, input[pos], choice)
    ensures EncRunOf(p, input[..pos + 1], choices + [choice])
            == Going(EncStep(p, EncRunOf(p, input[..pos], choices).e, input[pos], choice))
  {
    assert input[..pos + 1][..pos] == input[..pos];
    assert (choices + [choice])[..pos - 1] == choices;
  }

  /** No key is in an empty table. */
  lemma NoneEntered(p: Params, htab: seq<int>)
    requires p.Valid() && |htab| == HSIZE && forall i :: 0 <= i < HSIZE ==> htab[i] == -1
    ensures AllFound(p, htab) && HasAll(p, htab, {})
  {
  }

  lemma EnteredThere(p: Params, htab: seq<int>, entered: set<(nat, byte)>, ent: nat, c: byte)
    requires HasAll(p, htab, entered)
    ensures (ent, c) in entered && Fcode(p, c, ent) > 0 ==> Fcode(p, c, ent) in htab
  {
    hide Fcode;
    var x := (ent, c);
    assert x.0 == ent && x.1 == c;
  }

  lemma NothingRead(p: Params, input: seq<byte>, checkpoint: nat)
    requires input != [] && checkpoint == CHECK_GAP
    ensures EncRunOf(p, input[..1], []).Going? && Entered(p, input[..1], []) == {} && Greedy(p, input[..1], [])
    ensures Spaced([], checkpoint)
  {
  }

  lemma {:induction false} ExtendGreedy(p: Params, input: seq<byte>, pos: nat, choices: seq<Choice>, choice: Choice)
    requires 1 <= pos < |input| && |choices| == pos - 1
    requires EncRunOf(p, input[..pos], choices).Going? && EncRunOf(p, input[..pos + 1], choices + [choice]).Going?
    requires Greedy(p, input[..pos], choices)
    requires var e := EncRunOf(p, input[..pos], choices).e;
             (e.ent, input[pos]) in Entered(p, input[..pos], choices) && choice.Miss? ==> e.ent == 0 && input[pos] == 0
    ensures Greedy(p, input[..pos + 1], choices + [choice])
    ensures Entered(p, input[..pos + 1], choices + [choice])
            == AfterEntry(p, EncRunOf(p, input[..pos], choices).e, input[pos], choice,
               Entered(p, input[..pos], choices))
  {
    hide AfterEntry;
    var cs, line := choices + [choice], input[..pos + 1];
    assert line[..pos] == input[..pos] && cs[..pos - 1] == choices && cs[pos - 1] == choice;
    hide EncRunOf, Entered;
    forall k | 0 <= k < |cs|
      ensures GreedyAt(p, line, cs, k)
    {
      assert line[..k + 1] == input[..pos][..k + 1] && line[k + 1] == input[k + 1];
      if k < |choices| {
        assert cs[..k] == choices[..k] && input[..pos][k + 1] == line[k + 1];
        assert GreedyAt(p, input[..pos], choices, k);
      } else {
        assert cs[..k] == choices && input[..pos][..k + 1] == input[..pos];
      }
    }
  }

  /** The next clearing is far from those before. */
  ghost predicate Spaced(choices: seq<Choice>, checkpoint: nat) {
    && RareClears(choices, CHECK_GAP) && checkpoint >= CHECK_GAP
    && (forall k :: 0 <= k < |choices| && choices[k] == Miss(true) ==> checkpoint >= k + 2 + CHECK_GAP)
  }

  lemma ExtendSpaced(choices: seq<Choice>, choice: Choice, before: nat, after: nat)
    requires Spaced(choices, before) && after >= before
    requires choice == Miss(true) ==> |choices| + 2 >= before && after == |choices| + 2 + CHECK_GAP
    ensures Spaced(choices + [choice], after)
  {
    var cs := choices + [choice];
    assert forall k :: 0 <= k < |choices| ==> cs[k] == choices[k];
  }

  lemma SpacedRare(choices: seq<Choice>, checkpoint: nat)
    requires Spaced(choices, checkpoint)
    ensures RareClears(choices, CHECK_GAP)
  {
  }

  lemma SameSlot(at: nat, slot: nat, y: int, z: int)
    requires at < HSIZE && slot < HSIZE && at + HSIZE * y == slot + HSIZE * z
    ensures at == slot
  {
  }
}