/**
 ProFile disk images: tools/mklisa.py wraps a file system into 532-byte blocks
 with tags, tools/minixfs.py takes it out again.
 */
module Profile {
  import opened Common

  const TAG := 20
  const DATA := 512
  const BLOCK532 := 532
  const MAGIC := 0x4D4E584C
  const VERSION := 1
  const FIRST_IMAGE := 2

  /** How many blocks some bytes take. */
  function Blocks(s: seq<byte>): nat {
    (|s| + DATA - 1) / DATA
  }

  /** Bytes i * 512 .. of some data, at most 512 of them. */
  function Chunk(s: seq<byte>, i: nat): (c: seq<byte>)
    requires i < Blocks(s)
    ensures 0 < |c| <= DATA
  {
    s[DATA * i..Min(DATA * i + DATA, |s|)]
  }

  /** The 512 bytes behind the tag of block n. */
  function DataOf(raw: seq<byte>, n: nat): (d: seq<byte>)
    requires BLOCK532 * (n + 1) <= |raw|
    ensures |d| == DATA
  {
    raw[BLOCK532 * n + TAG..BLOCK532 * (n + 1)]
  }

  /** The tag of block n. */
  function TagOf(raw: seq<byte>, n: nat): (t: seq<byte>)
    requires BLOCK532 * (n + 1) <= |raw|
    ensures |t| == TAG
  {
    raw[BLOCK532 * n..BLOCK532 * n + TAG]
  }

  const NO_TAG: seq<byte> := Zeros(TAG)

  /** The tag the boot ROM looks for. */
  function BootTag(): (t: seq<byte>)
    ensures |t| == TAG
  {
    Zeros(TAG)[4 := 0xAA][5 := 0xAA]
  }

  // ----- what the blocks hold -----

  function Padded(s: seq<byte>): (p: seq<byte>)
    requires |s| <= DATA
    ensures |p| == DATA
  {
    s + Zeros(DATA - |s|)
  }

  /** The blocks of the image hold the data of the plan, one after the other; the rest is empty. */
  ghost predicate Holds(raw: seq<byte>, nblocks: nat, plan: seq<seq<byte>>) {
    && |raw| == BLOCK532 * nblocks && |plan| <= nblocks
    && (forall n :: 0 <= n < |plan| ==> |plan[n]| <= DATA && DataOf(raw, n) == Padded(plan[n]))
    && (forall n :: |plan| <= n < nblocks ==> DataOf(raw, n) == Zeros(DATA))
    && (forall n: nat :: n < nblocks ==> TagOf(raw, n) == if n == 0 && plan != [] then BootTag() else NO_TAG)
  }

  /** put(): tag and data of block n. */
  function Put(raw: seq<byte>, n: nat, data: seq<byte>, tag: seq<byte>): (r: seq<byte>)
    requires BLOCK532 * (n + 1) <= |raw| && |tag| == TAG && |data| <= DATA
    ensures |r| == |raw|
  {
    var pos := BLOCK532 * n;
    raw[..pos] + tag + data + raw[pos + TAG + |data|..]
  }

  /** Where each byte comes from. */
  lemma PutByte(raw: seq<byte>, n: nat, data: seq<byte>, tag: seq<byte>, i: nat)
    requires BLOCK532 * (n + 1) <= |raw| && |tag| == TAG && |data| <= DATA && i < |raw|
    ensures var r, at := Put(raw, n, data, tag), i - BLOCK532 * n;
            r[i] == if 0 <= at < TAG then tag[at] else if TAG <= at < TAG + |data| then data[at - TAG] else raw[i]
  {
  }

  lemma PutData(raw: seq<byte>, n: nat, data: seq<byte>, tag: seq<byte>, m: nat)
    requires BLOCK532 * (n + 1) <= |raw| && BLOCK532 * (m + 1) <= |raw| && |tag| == TAG && |data| <= DATA
    ensures DataOf(Put(raw, n, data, tag), m) == if m == n then data + DataOf(raw, n)[|data|..] else DataOf(raw, m)
  {
    hide Put;
    var r := DataOf(Put(raw, n, data, tag), m);
    var goal := if m == n then data + DataOf(raw, n)[|data|..] else DataOf(raw, m);
    forall k | 0 <= k < DATA
      ensures r[k] == goal[k]
    {
      PutByte(raw, n, data, tag, BLOCK532 * m + TAG + k);
      assert r[k] == Put(raw, n, data, tag)[BLOCK532 * m + TAG + k];
      assert DataOf(raw, m)[k] == raw[BLOCK532 * m + TAG + k];
    }
  }

  lemma PutTag(raw: seq<byte>, n: nat, data: seq<byte>, tag: seq<byte>, m: nat)
    requires BLOCK532 * (n + 1) <= |raw| && BLOCK532 * (m + 1) <= |raw| && |tag| == TAG && |data| <= DATA
    ensures TagOf(Put(raw, n, data, tag), m) == if m == n then tag else TagOf(raw, m)
  {
    hide Put;
    forall k | 0 <= k < TAG
      ensures TagOf(Put(raw, n, data, tag), m)[k] == if m == n then tag[k] else TagOf(raw, m)[k]
    {
      PutByte(raw, n, data, tag, BLOCK532 * m + k);
    }
  }

  /** The next block of the plan. */
  lemma PutNext(raw: seq<byte>, nblocks: nat, plan: seq<seq<byte>>, data: seq<byte>, tag: seq<byte>)
    requires Holds(raw, nblocks, plan) && |plan| < nblocks && |data| <= DATA
    requires tag == if plan == [] then BootTag() else NO_TAG
    ensures Holds(Put(raw, |plan|, data, tag), nblocks, plan + [data])
  {
    var n, r, plan' := |plan|, Put(raw, |plan|, data, tag), plan + [data];
    forall m: nat | m < nblocks
      ensures DataOf(r, m) == if m == n then Padded(data) else DataOf(raw, m)
      ensures TagOf(r, m) == if m == n then tag else TagOf(raw, m)
    {
      PutData(raw, n, data, tag, m);
      PutTag(raw, n, data, tag, m);
      assert Zeros(DATA)[|data|..] == Zeros(DATA - |data|);
    }
    forall m | 0 <= m < |plan'|
      ensures |plan'[m]| <= DATA && DataOf(r, m) == Padded(plan'[m])
    {
    }
  }

  function Chunks(s: seq<byte>, k: nat): seq<seq<byte>>
    requires k <= Blocks(s)
  {
    if k == 0 then [] else Chunks(s, k - 1) + [Chunk(s, k - 1)]
  }

  lemma {:induction false} ChunksAt(s: seq<byte>, k: nat)
    requires k <= Blocks(s)
    ensures |Chunks(s, k)| == k && forall i :: 0 <= i < k ==> Chunks(s, k)[i] == Chunk(s, i)
  {
    if k > 0 {
      ChunksAt(s, k - 1);
    }
  }

  /** Padded chunks one after the other are the data, padded. */
  function PaddedData(s: seq<byte>): (p: seq<byte>)
    ensures |p| == DATA * Blocks(s) && s <= p
  {
    s + Zeros(DATA * Blocks(s) - |s|)
  }

  lemma PaddedChunk(s: seq<byte>, i: nat)
    requires i < Blocks(s)
    ensures Padded(Chunk(s, i)) == PaddedData(s)[DATA * i..DATA * i + DATA]
  {
  }

  // ----- the header -----

  function Header(imageBlocks: nat, load: nat, entry: nat, firstFs: nat, fsBlocks: nat): (h: seq<byte>)
    requires imageBlocks < WORD32 && load < WORD32 && entry < WORD32 && firstFs < WORD32 && fsBlocks < WORD32
    ensures |h| == 32
  {
    PackLong(MAGIC) + PackLong(VERSION) + PackLong(FIRST_IMAGE) + PackLong(imageBlocks)
    + PackLong(load) + PackLong(entry) + PackLong(firstFs) + PackLong(fsBlocks)
  }

  lemma LongInside(s: seq<byte>, p: nat, v: nat)
    requires v < WORD32 && p + 4 <= |s| && s[p..p + 4] == PackLong(v)
    ensures Long(s, p) == v
  {
    var q := PackLong(v);
    assert q[0] == s[p] && q[1] == s[p + 1] && q[2] == s[p + 2] && q[3] == s[p + 3];
  }

  /** "MNXL", version 1, and the image from block 2 on. */
  lemma FirstLongs()
    ensures PackLong(MAGIC) == [0x4D, 0x4E, 0x58, 0x4C] && PackLong(VERSION) == [0, 0, 0, 1]
    ensures PackLong(FIRST_IMAGE) == [0, 0, 0, 2]
  {
  }

  lemma HeaderReads(h: seq<byte>, imageBlocks: nat, load: nat, entry: nat, firstFs: nat, fsBlocks: nat)
    requires imageBlocks < WORD32 && load < WORD32 && entry < WORD32 && firstFs < WORD32 && fsBlocks < WORD32
    requires Header(imageBlocks, load, entry, firstFs, fsBlocks) <= h
    ensures h[..12] == [0x4D, 0x4E, 0x58, 0x4C, 0, 0, 0, 1, 0, 0, 0, 2]
    ensures Long(h, 0) == MAGIC && Long(h, 12) == imageBlocks && Long(h, 16) == load && Long(h, 20) == entry
            && Long(h, 24) == firstFs && Long(h, 28) == fsBlocks
  {
    FirstLongs();
    hide PackLong;
    var f := Header(imageBlocks, load, entry, firstFs, fsBlocks);
    assert f[0..4] == PackLong(MAGIC) && f[4..8] == PackLong(VERSION) && f[8..12] == PackLong(FIRST_IMAGE);
    assert f[12..16] == PackLong(imageBlocks) && f[16..20] == PackLong(load) && f[20..24] == PackLong(entry);
    assert f[24..28] == PackLong(firstFs) && f[28..32] == PackLong(fsBlocks);
    assert forall i {:trigger h[i]} :: 0 <= i < 32 ==> h[i] == f[i];
    assert h[..12] == f[0..4] + f[4..8] + f[8..12];
    assert h[0..4] == f[0..4] && h[24..28] == f[24..28] && h[28..32] == f[28..32];
    assert h[12..16] == f[12..16] && h[16..20] == f[16..20] && h[20..24] == f[20..24];
    LongInside(h, 0, MAGIC);
    LongInside(h, 12, imageBlocks);
    LongInside(h, 16, load);
    LongInside(h, 20, entry);
    LongInside(h, 24, firstFs);
    LongInside(h, 28, fsBlocks);
  }

  // ----- mklisa -----

  function FirstFs(image: seq<byte>, fs: seq<byte>): nat {
    if fs == [] then 0 else FIRST_IMAGE + Blocks(image)
  }

  ghost function Plan(boot: seq<byte>, image: seq<byte>, fs: seq<byte>, load: nat, entry: nat): seq<seq<byte>>
    requires load < WORD32 && entry < WORD32 && FIRST_IMAGE + Blocks(image) + Blocks(fs) < WORD32
  {
    [boot, Header(Blocks(image), load, entry, FirstFs(image, fs), Blocks(fs))]
    + Chunks(image, Blocks(image)) + Chunks(fs, Blocks(fs))
  }

  /** The blocks of some data behind what is there already. */
  method PutAll(raw0: seq<byte>, first: nat, s: seq<byte>, ghost nblocks: nat, ghost plan: seq<seq<byte>>)
    returns (raw: seq<byte>)
    requires Holds(raw0, nblocks, plan) && plan != [] && (s != [] ==> first == |plan|) && |plan| + Blocks(s) <= nblocks
    ensures Holds(raw, nblocks, plan + Chunks(s, Blocks(s)))
  {
    hide Holds, Put, Chunk;
    raw := raw0;
    var i := 0;
    assert plan + [] == plan;
    while i < Blocks(s)
      invariant 0 <= i <= Blocks(s) && Holds(raw, nblocks, plan + Chunks(s, i))
    {
      ChunksAt(s, i);
      HoldsSize(raw, nblocks, plan + Chunks(s, i));
      PutNext(raw, nblocks, plan + Chunks(s, i), Chunk(s, i), NO_TAG);
      raw := Put(raw, first + i, Chunk(s, i), NO_TAG);
      assert plan + Chunks(s, i + 1) == plan + Chunks(s, i) + [Chunk(s, i)];
      i := i + 1;
    }
  }

  lemma HoldsSize(raw: seq<byte>, nblocks: nat, plan: seq<seq<byte>>)
    requires Holds(raw, nblocks, plan)
    ensures |raw| == BLOCK532 * nblocks && |plan| <= nblocks
  {
  }

  lemma EmptyHolds(nblocks: nat)
    ensures Holds(Zeros(BLOCK532 * nblocks), nblocks, [])
  {
  }

  /** mklisa: the whole image; None: fail(). */
  method Mklisa(boot: seq<byte>, image: seq<byte>, fs: seq<byte>, load: nat, entry: nat, nblocks: nat)
    returns (r: Option<seq<byte>>)
    requires nblocks == 9728 || nblocks == 19456
    ensures r.Some? <==> |boot| <= DATA && image != [] && FIRST_IMAGE + Blocks(image) + Blocks(fs) <= nblocks
                         && load < WORD32 && entry < WORD32
    ensures r.Some? ==> IsDisk(r.value, boot, image, fs, load, entry, nblocks)
  {
    hide Holds, Put, Zeros;
    if |boot| > DATA || image == [] {
      return None;
    }
    var imageBlocks, fsBlocks := Blocks(image), Blocks(fs);
    var firstFs := FirstFs(image, fs);
    if FIRST_IMAGE + imageBlocks + fsBlocks > nblocks || load >= WORD32 || entry >= WORD32 {
      return None;
    }
    var out := Zeros(BLOCK532 * nblocks);
    EmptyHolds(nblocks);
    PutNext(out, nblocks, [], boot, BootTag());
    out := Put(out, 0, boot, BootTag());
    assert [] + [boot] == [boot];
    var header := Header(imageBlocks, load, entry, firstFs, fsBlocks);
    PutNext(out, nblocks, [boot], header, NO_TAG);
    out := Put(out, 1, header, NO_TAG);
    assert [boot] + [header] == [boot, header];
    out := PutAll(out, FIRST_IMAGE, image, nblocks, [boot, header]);
    ChunksAt(image, imageBlocks);
    out := PutAll(out, firstFs, fs, nblocks, [boot, header] + Chunks(image, imageBlocks));
    r := Some(out);
  }

  /** raw is what mklisa makes. */
  ghost predicate IsDisk(raw: seq<byte>, boot: seq<byte>, image: seq<byte>, fs: seq<byte>, load: nat, entry: nat,
                         nblocks: nat) {
    && load < WORD32 && entry < WORD32 && |boot| <= DATA && FIRST_IMAGE + Blocks(image) + Blocks(fs) <= nblocks < WORD32
    && Holds(raw, nblocks, Plan(boot, image, fs, load, entry))
  }

  /** Block n has its 20 tag bytes at 532 * n.  The boot ROM finds AA AA in the tag of block 0; all
      others are zero. */
  lemma TagBytes(raw: seq<byte>, boot: seq<byte>, image: seq<byte>, fs: seq<byte>, load: nat, entry: nat,
                 nblocks: nat, n: nat, k: nat)
    requires IsDisk(raw, boot, image, fs, load, entry, nblocks) && n < nblocks && k < 20
    ensures |raw| == 532 * nblocks && raw[532 * n + k] == if n == 0 && (k == 4 || k == 5) then 0xAA else 0
  {
    assert TagOf(raw, n)[k] == raw[532 * n + k];
  }

  /** The data of block n begins at 532 * n + 20: the boot block, and the header of eight longs. */
  lemma HeaderBytes(raw: seq<byte>, boot: seq<byte>, image: seq<byte>, fs: seq<byte>, load: nat, entry: nat,
                    nblocks: nat)
    requires IsDisk(raw, boot, image, fs, load, entry, nblocks)
    ensures |raw| == 532 * nblocks && nblocks >= 2 && raw[20..20 + |boot|] == boot
    ensures raw[552..564] == [0x4D, 0x4E, 0x58, 0x4C, 0, 0, 0, 1, 0, 0, 0, 2]
    ensures Long(raw, 564) == (|image| + 511) / 512 && Long(raw, 568) == load && Long(raw, 572) == entry
    ensures Long(raw, 576) == if fs == [] then 0 else 2 + (|image| + 511) / 512
    ensures Long(raw, 580) == (|fs| + 511) / 512
  {
    hide Long, Chunks, TagOf, Zeros, Header;
    var plan := Plan(boot, image, fs, load, entry);
    var d0, d1 := DataOf(raw, 0), DataOf(raw, 1);
    assert d0 == Padded(plan[0]) && d1 == Padded(plan[1]);
    assert raw[20..20 + |boot|] == d0[..|boot|] == boot;
    HeaderReads(d1, Blocks(image), load, entry, FirstFs(image, fs), Blocks(fs));
    assert raw[552..564] == d1[..12];
    SameLong(raw, d1, 12);
    SameLong(raw, d1, 16);
    SameLong(raw, d1, 20);
    SameLong(raw, d1, 24);
    SameLong(raw, d1, 28);
  }

  lemma SameLong(raw: seq<byte>, d: seq<byte>, p: nat)
    requires |raw| >= 1064 && d == raw[552..1064] && p + 4 <= 512
    ensures Long(raw, 552 + p) == Long(d, p)
  {
  }

  /** Byte k of the image is in block 2 + k / 512, and the file system follows. */
  lemma ImageByte(raw: seq<byte>, boot: seq<byte>, image: seq<byte>, fs: seq<byte>, load: nat, entry: nat,
                  nblocks: nat, k: nat)
    requires IsDisk(raw, boot, image, fs, load, entry, nblocks) && k < |image|
    ensures var at := 532 * (2 + k / 512) + 20 + k % 512;
            at < |raw| && raw[at] == image[k]
  {
    hide TagOf, Header;
    var n := k / 512;
    ChunksAt(image, Blocks(image));
    BlockByte(raw, nblocks, Plan(boot, image, fs, load, entry), 2 + n, image, k);
  }

  lemma FsByte(raw: seq<byte>, boot: seq<byte>, image: seq<byte>, fs: seq<byte>, load: nat, entry: nat,
               nblocks: nat, k: nat)
    requires IsDisk(raw, boot, image, fs, load, entry, nblocks) && k < |fs|
    ensures var at := 532 * (2 + (|image| + 511) / 512 + k / 512) + 20 + k % 512;
            at < |raw| && raw[at] == fs[k]
  {
    hide TagOf, Header;
    var n := k / 512;
    ChunksAt(image, Blocks(image));
    ChunksAt(fs, Blocks(fs));
    BlockByte(raw, nblocks, Plan(boot, image, fs, load, entry), 2 + Blocks(image) + n, fs, k);
  }

  lemma BlockByte(raw: seq<byte>, nblocks: nat, plan: seq<seq<byte>>, n: nat, s: seq<byte>, k: nat)
    requires Holds(raw, nblocks, plan) && k < |s| && n < |plan| && k / 512 < Blocks(s) && plan[n] == Chunk(s, k / 512)
    ensures var at := 532 * n + 20 + k % 512;
            at < |raw| && raw[at] == s[k]
  {
    hide TagOf, Zeros;
    assert DataOf(raw, n) == Padded(plan[n]);
    assert DataOf(raw, n)[k % 512] == raw[532 * n + 20 + k % 512];
  }

  // ----- find_fs -----

  /** A slice as Python takes it. */
  function Slice(s: seq<byte>, a: nat, b: nat): seq<byte>
    requires a <= b
  {
    s[Min(a, |s|)..Min(b, |s|)]
  }

  /** find_fs(): the file system area of a ProFile image, or the whole file; None: fail(). */
  method FindFs(raw: seq<byte>) returns (r: Option<seq<byte>>)
    ensures var wrapped := |raw| % BLOCK532 == 0 && |raw| >= 2 * BLOCK532 && Long(DataOf(raw, 1), 0) == MAGIC;
            && (!wrapped ==> r == Some(raw))
            && (wrapped && Long(DataOf(raw, 1), 28) == 0 ==> r == None)
            && (wrapped && Long(DataOf(raw, 1), 28) != 0 ==>
                 r == Some(Area(raw, Long(DataOf(raw, 1), 24), Long(DataOf(raw, 1), 28))))
  {
    hide Long;
    if |raw| % BLOCK532 == 0 && |raw| >= 2 * BLOCK532 {
      var hdr := raw[BLOCK532 + TAG..BLOCK532 + TAG + 32];
      HeaderWords(raw);
      var magic, fsFirst, fsCount := Long(hdr, 0), Long(hdr, 24), Long(hdr, 28);
      if magic == MAGIC {
        if fsCount == 0 {
          return None;
        }
        var out := [];
        var b := fsFirst;
        while b < fsFirst + fsCount
          invariant fsFirst <= b <= fsFirst + fsCount && out == Area(raw, fsFirst, b - fsFirst)
        {
          var pos := b * BLOCK532 + TAG;
          out := out + Slice(raw, pos, pos + DATA);
          b := b + 1;
        }
        return Some(out);
      }
    }
    return Some(raw);
  }

  lemma HeaderWords(raw: seq<byte>)
    requires |raw| >= 2 * BLOCK532
    ensures var hdr := raw[BLOCK532 + TAG..BLOCK532 + TAG + 32];
            Long(hdr, 0) == Long(DataOf(raw, 1), 0) && Long(hdr, 24) == Long(DataOf(raw, 1), 24)
              && Long(hdr, 28) == Long(DataOf(raw, 1), 28)
  {
  }

  /** The data of n blocks from a on, as far as there are any. */
  function Area(raw: seq<byte>, a: nat, n: nat): seq<byte> {
    if n == 0 then []
    else
      var pos := (a + n - 1) * BLOCK532 + TAG;
      Area(raw, a, n - 1) + Slice(raw, pos, pos + DATA)
  }

  lemma SliceIs(raw: seq<byte>, n: nat)
    requires BLOCK532 * (n + 1) <= |raw|
    ensures Slice(raw, n * BLOCK532 + TAG, n * BLOCK532 + TAG + DATA) == DataOf(raw, n)
  {
  }

  lemma {:induction false} AreaIs(raw: seq<byte>, nblocks: nat, plan: seq<seq<byte>>, fs: seq<byte>, a: nat, n: nat)
    requires Holds(raw, nblocks, plan) && n <= Blocks(fs) && a + Blocks(fs) <= |plan|
    requires forall i :: 0 <= i < Blocks(fs) ==> plan[a + i] == Chunk(fs, i)
    ensures Area(raw, a, n) == PaddedData(fs)[..DATA * n]
    decreases n
  {
    hide Slice, DataOf, PaddedData, Chunk;
    if n > 0 {
      AreaIs(raw, nblocks, plan, fs, a, n - 1);
      SliceIs(raw, a + (n - 1));
      assert DataOf(raw, a + (n - 1)) == Padded(plan[a + (n - 1)]);
      PaddedChunk(fs, n - 1);
      var p := PaddedData(fs);
      assert p[..DATA * n] == p[..DATA * (n - 1)] + p[DATA * (n - 1)..DATA * (n - 1) + DATA];
    }
  }

  /** What mklisa wrapped, find_fs takes out: the file system, padded to whole blocks.  Without
      a file system it fails. */
  method WrapAndFind(boot: seq<byte>, image: seq<byte>, fs: seq<byte>, load: nat, entry: nat, nblocks: nat)
    returns (raw: Option<seq<byte>>, r: Option<seq<byte>>)
    requires nblocks == 9728 || nblocks == 19456
    ensures raw.Some? <==> |boot| <= DATA && image != [] && FIRST_IMAGE + Blocks(image) + Blocks(fs) <= nblocks
                           && load < WORD32 && entry < WORD32
    ensures raw.Some? && fs == [] ==> r == None
    ensures raw.Some? && fs != [] ==> r == Some(PaddedData(fs))
    ensures raw.Some? && fs != [] && |fs| % DATA == 0 ==> r == Some(fs)
  {
    hide IsDisk, Area, PaddedData, Long, DataOf;
    r := None;
    raw := Mklisa(boot, image, fs, load, entry, nblocks);
    if raw.None? {
      return;
    }
    PlanReads(raw.value, boot, image, fs, load, entry, nblocks);
    r := FindFs(raw.value);
    if |fs| % DATA == 0 {
      WholeBlocks(fs);
    }
  }

  lemma WholeBlocks(fs: seq<byte>)
    requires |fs| % DATA == 0
    ensures PaddedData(fs) == fs
  {
  }

  lemma PlanReads(raw: seq<byte>, boot: seq<byte>, image: seq<byte>, fs: seq<byte>, load: nat, entry: nat, nblocks: nat)
    requires IsDisk(raw, boot, image, fs, load, entry, nblocks)
    ensures |raw| == BLOCK532 * nblocks && nblocks >= 2
    ensures Long(DataOf(raw, 1), 0) == MAGIC && Long(DataOf(raw, 1), 24) == FirstFs(image, fs)
            && Long(DataOf(raw, 1), 28) == Blocks(fs)
    ensures Area(raw, FirstFs(image, fs), Blocks(fs)) == PaddedData(fs)
  {
    hide Area, PaddedData, Chunks, Long;
    var plan := Plan(boot, image, fs, load, entry);
    ChunksAt(image, Blocks(image));
    ChunksAt(fs, Blocks(fs));
    var header := plan[1];
    assert DataOf(raw, 1) == Padded(header);
    HeaderReads(DataOf(raw, 1), Blocks(image), load, entry, FirstFs(image, fs), Blocks(fs));
    if fs == [] {
      NoArea(raw, 0, fs);
    } else {
      var a := FirstFs(image, fs);
      assert forall i :: 0 <= i < Blocks(fs) ==> plan[a + i] == Chunks(fs, Blocks(fs))[i];
      AreaIs(raw, nblocks, plan, fs, a, Blocks(fs));
      AllOf(fs);
    }
  }

  lemma NoArea(raw: seq<byte>, a: nat, fs: seq<byte>)
    requires fs == []
    ensures Area(raw, a, 0) == [] && PaddedData(fs) == [] && Blocks(fs) == 0
  {
  }

  lemma AllOf(fs: seq<byte>)
    ensures PaddedData(fs)[..DATA * Blocks(fs)] == PaddedData(fs)
  {
  }
}
