/**
 tools/mkfs.py: class FileSystem.  A method that returns false stands for
 pexit() or a Python exception: the run ends there without an image.
 */
module Mkfs {
  import opened Common
  import opened MinixImage
  import opened MinixModel
  import opened MinixSteps

  /** Bits set by one call of insert_bit on bit map block blk. */
  ghost predicate Inserted(bits: seq<bool>, r: seq<bool>, blk: nat, bit: nat, count: nat) {
    && |r| == |bits|
    && forall i :: 0 <= i < |bits| ==>
         (r[i] <==> bits[i] || BITS_PER_BLOCK * blk + bit <= i < BITS_PER_BLOCK * blk + bit + count)
  }

  /** insert_bit(): only bits inside the one block can be set. */
  method InsertBit(bits: seq<bool>, blk: nat, bit: nat, count: nat) returns (ok: bool, r: seq<bool>)
    requires BITS_PER_BLOCK * blk + BITS_PER_BLOCK <= |bits|
    ensures ok <==> count == 0 || bit + count <= BITS_PER_BLOCK
    ensures ok ==> Inserted(bits, r, blk, bit, count)
  {
    r := bits;
    var i := bit;
    while i < bit + count
      invariant bit <= i <= bit + count
      invariant i > bit ==> i <= BITS_PER_BLOCK
      invariant Inserted(bits, r, blk, bit, i - bit)
    {
      if i >= BITS_PER_BLOCK {
        return false, r;
      }
      r := r[BITS_PER_BLOCK * blk + i := true];
      i := i + 1;
    }
    ok := true;
  }

  function BitmapSize(bits: nat): nat {
    (bits + BITS_PER_BLOCK - 1) / BITS_PER_BLOCK
  }

  function Residual(len: nat): nat {
    if len % BITS_PER_BLOCK == 0 then BITS_PER_BLOCK else len % BITS_PER_BLOCK
  }

  lemma BitmapFits(len: nat)
    requires len >= 1
    ensures var n := BitmapSize(len);
            n >= 1 && BITS_PER_BLOCK * (n - 1) + Residual(len) == len && 1 <= Residual(len) <= BITS_PER_BLOCK
  {
  }

  function Repeat<T>(n: nat, x: T): (s: seq<T>)
    ensures |s| == n && forall i :: 0 <= i < n ==> s[i] == x
  {
    seq(n, _ => x)
  }

  /** The first data zone. */
  function FirstZone(blocks: nat, inodes: nat): nat {
    BitmapSize(1 + inodes) + BitmapSize(blocks) + 2 + (inodes + INODES_PER_BLOCK - 1) / INODES_PER_BLOCK
  }

  lemma ManyBits(blocks: nat, inodes: nat)
    requires blocks < 65536 && inodes < 65536 && FirstZone(blocks, inodes) < blocks
    ensures var len := blocks - FirstZone(blocks, inodes) + 1;
            BitmapSize(len) <= BitmapSize(blocks) <= BitmapSize(len) + 1
  {
  }

  /** A bit map of some blocks for len bits: bit 0 and the bits from len on are set. */
  method EmptyMap(len: nat, given: nat) returns (bits: seq<bool>)
    requires len >= 1 && BitmapSize(len) <= given <= BitmapSize(len) + 1
    ensures |bits| == BITS_PER_BLOCK * given
    ensures forall i :: 0 <= i < |bits| ==> (bits[i] <==> i == 0 || i >= len)
  {
    BitmapFits(len);
    var needed := BitmapSize(len);
    hide BitmapSize, Residual;
    bits := Repeat(BITS_PER_BLOCK * given, false);
    var ok;
    ok, bits := InsertBit(bits, needed - 1, Residual(len), BITS_PER_BLOCK - Residual(len));
    if needed != given {
      ok, bits := InsertBit(bits, given - 1, 0, BITS_PER_BLOCK);
    }
    ok, bits := InsertBit(bits, 0, 0, 1);
  }

  /** super(): an image with an empty inode table; None when it fails. */
  method Super(blocks: nat, inodes: nat, big: bool) returns (r: Option<Image>)
    ensures r.None? <==> blocks > 65535 || inodes > 65535 || FirstZone(blocks, inodes) >= blocks
    ensures r.Some? ==>
              && r.value.ninodes == inodes && r.value.nzones == blocks && r.value.big == big
              && r.value.first == FirstZone(blocks, inodes)
              && Rep(r.value, Model(r.value.first, [], [])) && Packable(r.value)
    ensures r.Some? ==>
              && |r.value.inodeMap| == BITS_PER_BLOCK * BitmapSize(1 + inodes)
              && |r.value.zoneMap| == BITS_PER_BLOCK * BitmapSize(blocks)
              && (forall i :: 0 <= i < |r.value.inodeMap| ==> (r.value.inodeMap[i] <==> i == 0 || i > inodes))
              && (forall i :: 0 <= i < |r.value.zoneMap| ==>
                    (r.value.zoneMap[i] <==> i == 0 || i > blocks - r.value.first))
  {
    hide Rep, Packable, Bordered;
    var first := FirstZone(blocks, inodes);
    if blocks > 65535 || inodes > 65535 || first >= blocks {
      return None;
    }
    var inodeMap := EmptyMap(inodes + 1, BitmapSize(inodes + 1));
    ManyBits(blocks, inodes);
    var zoneMap := EmptyMap(blocks - first + 1, BitmapSize(blocks));
    var empty := Inode(0, 0, 0, 0, 0, 0, ZeroZones(9));
    var im := Image(big, inodes, blocks, first, inodeMap, zoneMap, Repeat(inodes, empty), Repeat(blocks, Zeros(BLOCK)));
    MapSizes(inodes + 1);
    MapSizes(blocks);
    hide BitmapSize, FirstZone;
    FreshRep(im);
    FreshPacked(im, empty);
    return Some(im);
  }

  lemma MapSizes(len: nat)
    ensures BITS_PER_BLOCK * BitmapSize(len) >= len
  {
  }

  lemma FreshPacked(im: Image, empty: Inode)
    requires im.ninodes < 65536 && FirstZone(im.nzones, im.ninodes) < im.nzones < 65536
    requires im.first == FirstZone(im.nzones, im.ninodes)
    requires |im.inodeMap| == BITS_PER_BLOCK * BitmapSize(1 + im.ninodes)
             && |im.zoneMap| == BITS_PER_BLOCK * BitmapSize(im.nzones)
    requires im.inodes == Repeat(im.ninodes, empty) && |im.blocks| == im.nzones
    requires empty == Inode(0, 0, 0, 0, 0, 0, ZeroZones(9))
    ensures Packable(im)
  {
    assert InodePackable(empty);
  }

  lemma FreshRep(im: Image)
    requires Shaped(im) && im.nzones < 65536 && im.ninodes < 65536 && im.first <= im.nzones
    requires forall i :: 1 <= i <= im.ninodes ==> !im.inodeMap[i]
    requires forall i :: 1 <= i <= im.nzones - im.first ==> !im.zoneMap[i]
    requires forall z :: 0 <= z < im.nzones ==> im.blocks[z] == Zeros(BLOCK)
    ensures Rep(im, Model(im.first, [], []))
  {
  }

  // ----- what fits -----

  /** A file of n zones can have another. */
  predicate ZoneFits(n: nat, room: int) {
    n < NR_DZONE + NR_INDIRECTS && (n == NR_DZONE ==> room >= 1)
  }

  /** n data zones and the indirect zone they need. */
  function WithIndirect(n: nat): nat {
    if n > NR_DZONE then n + 1 else n
  }

  function FileBlocks(data: seq<byte>): nat {
    (|data| + BLOCK - 1) / BLOCK
  }

  /** The zones a file takes. */
  function FileZones(data: seq<byte>): nat {
    WithIndirect(FileBlocks(data))
  }

  predicate FileFits(data: seq<byte>, room: int) {
    FileBlocks(data) <= NR_DZONE + NR_INDIRECTS && FileZones(data) <= room
  }

  /** The zones one more entry adds to a directory. */
  function Growth(dir: Node): nat {
    if |dir.ents| < SLOTS * |dir.zones| then 0 else 1
  }

  predicate EntryFits(dir: Node, room: int) {
    |dir.ents| < SLOTS * NR_DZONE && Growth(dir) <= room
  }

  class FileSystem {
    var image: Image
    var nextZone: nat
    var nextInode: nat
    ghost var m: Model

    ghost predicate Valid()
      reads this
    {
      && Rep(image, m) && nextZone == m.NextZone() && nextInode == m.NextInode()
      && ZoneRoom() >= 0 && (m.nodes != [] ==> InodeRoom() >= 0) && Packable(image)
      && Bordered(image.inodeMap, image.ninodes) && Bordered(image.zoneMap, image.nzones - image.first)
    }

    constructor (image: Image)
      requires Rep(image, Model(image.first, [], [])) && Packable(image)
      requires Bordered(image.inodeMap, image.ninodes) && Bordered(image.zoneMap, image.nzones - image.first)
      ensures Valid() && this.image == image && m == Model(image.first, [], [])
    {
      this.image := image;
      nextZone, nextInode := image.first, 1;
      m := Model(image.first, [], []);
    }

    /** Fixed properties of the image. */
    twostate predicate SameShape()
      reads this
    {
      && image.ninodes == old(image.ninodes) && image.nzones == old(image.nzones) && image.big == old(image.big)
      && image.first == old(image.first) && m.first == old(m.first)
    }

    /** How many inodes can still be had: the last one never, and only bits of the first block. */
    ghost function InodeRoom(): int
      reads this
    {
      Min(image.ninodes - 1, BITS_PER_BLOCK - 1) - |m.nodes|
    }

    /** How many zones can still be had. */
    ghost function ZoneRoom(): int
      reads this
    {
      Min(image.nzones - image.first, BITS_PER_BLOCK - 1) - |m.owner|
    }

    method AllocInode(mode: nat, uid: nat, gid: nat, ghost kind: Kind, ghost parent: nat) returns (ok: bool, num: nat)
      requires Valid() && mode < 65536 && KindOf(Inode(mode, uid, 0, 0, gid, 0, ZeroZones(9))) == Some(kind)
      modifies this
      ensures ok <==> old(InodeRoom()) >= 1 && uid < 65536 && gid < 256
      ensures ok ==> Valid() && SameShape() && num == old(m.NextInode()) && num < image.ninodes
      ensures ok ==> m == old(m).(nodes := old(m).nodes + [EmptyNode(kind, Attr(mode, uid, gid), parent)])
    {
      num := nextInode;
      nextInode := nextInode + 1;
      if num >= image.ninodes {
        return false, num;
      }
      var ino := Inode(mode, uid, 0, 0, gid, 0, ZeroZones(9));
      if uid >= 65536 || gid >= 256 || num >= BITS_PER_BLOCK {
        return false, num;
      }
      hide Bordered;
      NewInodeRep(image, m, ino, kind, parent);
      PackedStill(image, NewInode(image, num, ino), num);
      BorderedSet(image.inodeMap, image.ninodes, num);
      image := NewInode(image, num, ino);
      m := m.(nodes := m.nodes + [EmptyNode(kind, Attr(mode, uid, gid), parent)]);
      ok := true;
    }

    method AllocZone() returns (ok: bool, z: nat)
      requires Valid()
      modifies this
      ensures ok <==> old(ZoneRoom()) >= 1
      ensures ok ==> Valid() && SameShape() && z == old(m.NextZone()) && 0 < z < |image.blocks| && Loose(m, z)
      ensures ok ==> m == old(m).(owner := old(m).owner + [0])
      ensures ok ==> image.blocks == old(image.blocks) && image.inodes == old(image.inodes)
      ensures ok ==> image.blocks[z] == Zeros(BLOCK)
    {
      z := nextZone;
      nextZone := nextZone + 1;
      if z + 1 > image.nzones || z - (image.first - 1) >= BITS_PER_BLOCK {
        return false, z;
      }
      hide Bordered;
      NewZoneRep(image, m);
      PackedElsewhere(image, NewZone(image, z));
      BorderedSet(image.zoneMap, image.nzones - image.first, z - (image.first - 1));
      image := NewZone(image, z);
      m := m.(owner := m.owner + [0]);
      ok := true;
    }

    method IncrLink(n: nat) returns (ok: bool)
      requires Valid() && m.Has(n)
      modifies this
      ensures ok <==> old(m).At(n).links < 255
      ensures ok ==> Valid() && SameShape() && m == old(m).With(n, Counted(old(m).At(n), 0, 1))
    {
      hide Rep, Packable, Counted;
      CountRep(image, m, n, 0, 1);
      NodeStored(image, m, n);
      var ino := image.inodes[n - 1];
      if ino.nlinks >= 255 {
        return false;
      }
      PackedInode(image, n);
      CountedPacked(image, n, 0, 1);
      image := image.(inodes := image.inodes[n - 1 := ino.(size := ino.size + 0, nlinks := ino.nlinks + 1)]);
      m := m.With(n, Counted(m.At(n), 0, 1));
      ok := true;
    }

    method IncrSize(n: nat, count: nat)
      requires Valid() && m.Has(n) && m.At(n).size + count < WORD32
      modifies this
      ensures Valid() && SameShape() && m == old(m).With(n, Counted(old(m).At(n), count, 0))
    {
      hide Rep, Packable, Counted;
      CountRep(image, m, n, count, 0);
      NodeStored(image, m, n);
      PackedInode(image, n);
      var ino := image.inodes[n - 1];
      CountedPacked(image, n, count, 0);
      image := image.(inodes := image.inodes[n - 1 := ino.(size := ino.size + count, nlinks := ino.nlinks + 0)]);
      m := m.With(n, Counted(m.At(n), count, 0));
    }

    /** The first direct zone word of an inode that is zero. */
    method FreeZoneWord(n: nat) returns (i: nat)
      requires Valid() && m.Has(n) && m.At(n).kind != Device
      ensures i == if |m.At(n).zones| < NR_DZONE then |m.At(n).zones| else NR_DZONE
    {
      hide Rep;
      NodeZones(image, m, n);
      i := 0;
      while i < NR_DZONE && image.inodes[n - 1].zone[i] != 0
        invariant 0 <= i <= NR_DZONE && i <= |m.At(n).zones|
      {
        i := i + 1;
      }
    }

    /** add_zone() for a file or a directory.  chunk is what z holds of a file. */
    method AddZone(n: nat, z: nat, nbytes: nat, ghost chunk: seq<byte>) returns (ok: bool)
      requires Valid() && m.Has(n) && Loose(m, z) && 0 < z < |image.blocks|
      requires ReadyFor(image.blocks[z], m.At(n), chunk) && m.At(n).size + nbytes < WORD32
      requires m.At(n).kind == Directory ==> |m.At(n).zones| < NR_DZONE
      modifies this
      ensures ok <==> ZoneFits(|old(m).At(n).zones|, old(ZoneRoom()))
      ensures ok ==> Valid() && SameShape() && AddedZone(old(m), m, n, z, nbytes, chunk)
      ensures ok ==> ZoneRoom() == old(ZoneRoom()) - if |old(m).At(n).zones| == NR_DZONE then 1 else 0
    {
      hide Rep, AddedZone, Packable, Bordered;
      var i := FreeZoneWord(n);
      if i < NR_DZONE {
        AddZoneDirect(n, z, i, nbytes, chunk);
        ok := true;
      } else {
        ok := AddZoneInd(n, z, nbytes, chunk);
      }
    }

    /** add_zone() in direct zone word i. */
    method AddZoneDirect(n: nat, z: nat, i: nat, nbytes: nat, ghost chunk: seq<byte>)
      requires Valid() && m.Has(n) && Loose(m, z) && 0 < z < |image.blocks|
      requires ReadyFor(image.blocks[z], m.At(n), chunk) && i == |m.At(n).zones| < NR_DZONE
               && m.At(n).size + nbytes < WORD32
      modifies this
      ensures Valid() && SameShape() && AddedZone(old(m), m, n, z, nbytes, chunk) && ZoneRoom() == old(ZoneRoom())
    {
      hide Rep, ReadyFor, AddedZone, Grown, Packable, Bordered;
      AddDirect(image, m, n, z, nbytes, chunk);
      NodeStored(image, m, n);
      var ino := image.inodes[n - 1];
      GrownPacked(image, image.blocks, n, nbytes, i, z);
      image := image.(inodes := image.inodes[n - 1 := ino.(size := ino.size + nbytes, zone := ino.zone[i := z])]);
      AddedDirect(m, n, z, nbytes, chunk);
      m := Attach(m, n, Grown(m.At(n), z, nbytes, chunk), z);
    }

    /** The first word of the indirect block y that is zero. */
    method FreeWord(n: nat, ghost z: nat, y: nat) returns (i: nat)
      requires Valid() && m.Has(n) && m.At(n).kind == Regular && |m.At(n).zones| >= NR_DZONE
      requires y < |image.blocks| && IndirectFor(image, m, n, z, y)
      ensures i == Min(|m.At(n).zones| - NR_DZONE, NR_INDIRECTS)
    {
      hide Rep, Word;
      NodeZones(image, m, n);
      if |m.At(n).zones| > NR_DZONE {
        IndWords(image, m, n);
      } else {
        ZeroWords(image.big);
      }
      i := 0;
      while i < NR_INDIRECTS && Word(image.big, image.blocks[y], i) != 0
        invariant 0 <= i <= NR_INDIRECTS && NR_DZONE + i <= |m.At(n).zones|
      {
        i := i + 1;
      }
    }

    /** add_zone() behind the indirect zone. */
    method AddZoneInd(n: nat, z: nat, nbytes: nat, ghost chunk: seq<byte>) returns (ok: bool)
      requires Valid() && m.Has(n) && Loose(m, z) && 0 < z < |image.blocks|
      requires ReadyFor(image.blocks[z], m.At(n), chunk) && |m.At(n).zones| >= NR_DZONE && m.At(n).kind == Regular
      requires m.At(n).size + nbytes < WORD32
      modifies this
      ensures ok <==> ZoneFits(|old(m).At(n).zones|, old(ZoneRoom()))
      ensures ok ==> Valid() && SameShape() && AddedZone(old(m), m, n, z, nbytes, chunk)
      ensures ok ==> ZoneRoom() == old(ZoneRoom()) - if |old(m).At(n).zones| == NR_DZONE then 1 else 0
    {
      hide Rep, ReadyFor, Packable, AddedZone;
      NodeZones(image, m, n);
      var y := image.inodes[n - 1].zone[NR_DZONE];
      ghost var node := m.At(n);
      if y == 0 {
        ok, y := AllocZone();
        if !ok {
          return;
        }
        assert m.OwnerOf(z) == old(m).OwnerOf(z);
      }
      assert m.At(n) == node && IndirectFor(image, m, n, z, y);
      var i := FreeWord(n, z, y);
      if i == NR_INDIRECTS {
        return false;
      }
      ghost var m1 := m;
      IndirectPlace(image, m, n, z, y);
      PutIndirect(n, z, y, i, nbytes, chunk);
      AddedIndirect(old(m), m1, n, z, y, nbytes, chunk);
      ok := true;
    }

    /** Zone z in word i of the indirect zone y. */
    method PutIndirect(n: nat, z: nat, y: nat, i: nat, nbytes: nat, ghost chunk: seq<byte>)
      requires Valid() && m.Has(n) && Loose(m, z) && 0 < z < |image.blocks| && 0 < y < |image.blocks|
      requires ReadyFor(image.blocks[z], m.At(n), chunk) && m.At(n).kind == Regular
      requires m.At(n).size + nbytes < WORD32 && m.first <= y < m.NextZone()
      requires NR_DZONE + i == |m.At(n).zones| < NR_DZONE + NR_INDIRECTS && IndirectFor(image, m, n, z, y)
      modifies this
      ensures Valid() && SameShape() && m == Attach2(old(m), n, GrownInd(old(m).At(n), z, y, nbytes, chunk), z, y)
    {
      hide Rep, ReadyFor, Packable, PutWord, GrownInd;
      NodeStored(image, m, n);
      AddIndirect(image, m, n, z, y, nbytes, chunk);
      GrownPacked(image, image.blocks[y := PutWord(image.big, image.blocks[y], i, z)], n, nbytes, NR_DZONE, y);
      var ino := image.inodes[n - 1];
      image := image.(inodes := image.inodes[n - 1 := ino.(size := ino.size + nbytes, zone := ino.zone[NR_DZONE := y])],
                      blocks := image.blocks[y := PutWord(image.big, image.blocks[y], i, z)]);
      m := Attach2(m, n, GrownInd(m.At(n), z, y, nbytes, chunk), z, y);
    }

    /** The search of enter_dir(): zone word k and slot s of the first empty entry.  k is the
        first unused zone word when the used zones are full, or 7 when there is none. */
    method FindSlot(n: nat) returns (k: nat, s: nat)
      requires Valid() && m.Has(n) && m.At(n).kind == Directory && |m.At(n).zones| <= NR_DZONE
      ensures k == |m.At(n).ents| / SLOTS <= NR_DZONE && s == |m.At(n).ents| % SLOTS
      ensures k <= |m.At(n).zones|
    {
      hide Rep;
      NodeZones(image, m, n);
      ghost var node := m.At(n);
      DirRoom(image, m, n);
      k := 0;
      while k < NR_DZONE && image.inodes[n - 1].zone[k] != 0
        invariant 0 <= k <= |node.zones| && SLOTS * k <= |node.ents|
      {
        var b := image.blocks[image.inodes[n - 1].zone[k]];
        s := 0;
        while s < SLOTS && SlotNum(image.big, b, s) != 0
          invariant 0 <= s <= SLOTS && SLOTS * k + s <= |node.ents|
          decreases SLOTS - s
        {
          UsedSlot(image, m, n, k, s);
          s := s + 1;
        }
        if s < SLOTS {
          UsedSlot(image, m, n, k, s);
          return;
        }
        k := k + 1;
      }
      s := 0;
    }

    /** enter_dir() */
    method EnterDir(n: nat, name: seq<byte>, child: nat) returns (ok: bool)
      requires Valid() && m.Has(n) && m.At(n).kind == Directory && |m.At(n).zones| <= NR_DZONE
      requires 0 < child < 65536 && |name| >= 1 && forall i :: 0 <= i < |name| ==> name[i] != 0
      modifies this
      ensures ok <==> |name| <= NAME_MAX && EntryFits(old(m).At(n), old(ZoneRoom()))
      ensures ok ==> Valid() && SameShape() && |name| <= NAME_MAX && EnteredDir(old(m), m, n, Entry(child, name))
      ensures ok ==> ZoneRoom() == old(ZoneRoom()) - Growth(old(m).At(n))
    {
      hide Rep, PutSlot, Packable, Bordered;
      if |name| > NAME_MAX {
        return false;
      }
      var k, s := FindSlot(n);
      if k >= NR_DZONE {
        return false;
      }
      NodeZones(image, m, n);
      DirRoom(image, m, n);
      if image.inodes[n - 1].zone[k] == 0 {
        var z;
        ok, z := AllocZone();
        if !ok {
          return;
        }
        assert m.At(n) == old(m).At(n);
        ghost var m1 := m;
        NodeStored(image, m, n);
        PackedInode(image, n);
        AddZoneDirect(n, z, k, 0, []);
        GrownByZone(old(m), m1, m, n, z);
      }
      ok := PutEntry(n, k, s, Entry(child, name));
    }

    /** Write an entry into slot s of the k-th zone. */
    method PutEntry(n: nat, k: nat, s: nat, e: Entry) returns (ok: bool)
      requires Valid() && m.Has(n) && m.At(n).kind == Directory && |m.At(n).zones| <= NR_DZONE
      requires k == |m.At(n).ents| / SLOTS < |m.At(n).zones| && s == |m.At(n).ents| % SLOTS
      requires 0 < e.num < 65536 && ValidName(e.name)
      modifies this
      ensures ok && Valid() && SameShape() && m == old(m).With(n, Entered(old(m).At(n), e))
              && ZoneRoom() == old(ZoneRoom())
    {
      hide Rep, PutSlot;
      NodeZones(image, m, n);
      EnterRep(image, m, n, e);
      var z := image.inodes[n - 1].zone[k];
      image := image.(blocks := image.blocks[z := PutSlot(image.big, image.blocks[z], s, e.num, e.name)]);
      m := m.With(n, Entered(m.At(n), e));
      ok := true;
    }

    /** One block of a file. */
    method EatChunk(n: nat, data: seq<byte>, pos: nat, ghost done: seq<byte>, ghost m0: Model) returns (ok: bool)
      requires Valid() && m.Has(n) && m.At(n).kind == Regular && m0.Has(n) && Filled(m0, m, n, done)
      requires pos < |data| && pos % BLOCK == 0 && done == data[..pos]
      modifies this
      ensures ok <==> old(ZoneRoom()) >= 1 && ZoneFits(|old(m).At(n).zones|, old(ZoneRoom()) - 1)
      ensures ok ==> Valid() && SameShape() && m.Has(n) && Filled(m0, m, n, data[..Min(pos + BLOCK, |data|)])
      ensures ok ==> |m.At(n).zones| == |old(m).At(n).zones| + 1
      ensures ok ==> ZoneRoom() == old(ZoneRoom()) - 1 - if |old(m).At(n).zones| == NR_DZONE then 1 else 0
    {
      hide Rep, Filled, Packable, Bordered;
      var next := Min(pos + BLOCK, |data|);
      var chunk := data[pos..next];
      assert data[..next] == done + chunk;
      FilledShape(m0, m, n, done);
      NodeZones(image, m, n);
      var z;
      ghost var m1 := m;
      ok, z := AllocZone();
      if !ok {
        return;
      }
      assert m.At(n) == m1.At(n);
      WriteLooseRep(image, m, z, ChunkBlock(chunk, 0));
      PackedElsewhere(image, image.(blocks := image.blocks[z := ChunkBlock(chunk, 0)]));
      image := image.(blocks := image.blocks[z := ChunkBlock(chunk, 0)]);
      ghost var m2 := m;
      ok := AddZone(n, z, |chunk|, chunk);
      if !ok {
        return;
      }
      FilledMore(m0, m1, m2, m, n, z, done, chunk);
      FilledShape(m0, m, n, data[..next]);
    }

    /** eat_file(): the data in zones of their own. */
    method EatFile(n: nat, data: seq<byte>) returns (ok: bool)
      requires Valid() && m.Has(n) && m.At(n).kind == Regular && m.At(n).zones == [] && m.At(n).data == []
      requires m.At(n).size == 0 && m.At(n).ind == 0
      modifies this
      ensures ok <==> FileFits(data, old(ZoneRoom()))
      ensures ok ==> Valid() && SameShape() && Filled(old(m), m, n, data)
                     && ZoneRoom() == old(ZoneRoom()) - FileZones(data)
    {
      hide Rep, Filled, FileFits, WithIndirect, Packable, Bordered;
      NothingFilled(m, n, data, ZoneRoom());
      var pos := 0;
      while pos < |data|
        invariant Valid() && SameShape() && m.Has(n) && 0 <= pos && pos % BLOCK == 0
        invariant Filled(old(m), m, n, data[..Min(pos, |data|)])
        invariant ZoneRoom() == old(ZoneRoom()) - WithIndirect(|m.At(n).zones|)
        decreases |data| - pos
      {
        ghost var done := data[..pos];
        FilledShape(old(m), m, n, done);
        ChunkFits(data, pos, old(ZoneRoom()));
        ok := EatChunk(n, data, pos, done, old(m));
        if !ok {
          return;
        }
        pos := pos + BLOCK;
      }
      FilledShape(old(m), m, n, data[..|data|]);
      NodeZones(image, m, n);
      assert data[..|data|] == data;
      FileDone(data, ZoneRoom(), old(ZoneRoom()));
      ok := true;
    }
  }

  /** File n holds data, and nothing else has changed. */
  ghost predicate Filled(m: Model, m': Model, n: nat, data: seq<byte>)
    requires m.Has(n)
  {
    && |m'.nodes| == |m.nodes| && m'.nodes == m.nodes[n - 1 := m'.At(n)]
    && m'.At(n) == m.At(n).(data := data, size := |data|, zones := m'.At(n).zones, ind := m'.At(n).ind)
    && |m'.At(n).zones| == (|data| + BLOCK - 1) / BLOCK
    && (forall y: nat :: Loose(m', y) ==> Loose(m, y))
  }

  lemma NothingFilled(m: Model, n: nat, data: seq<byte>, room: int)
    requires m.Has(n) && m.At(n).data == [] && m.At(n).zones == [] && m.At(n).size == 0
    ensures Filled(m, m, n, data[..0]) && WithIndirect(|m.At(n).zones|) == 0
  {
    assert m.nodes[n - 1 := m.At(n)] == m.nodes && data[..0] == [];
  }

  lemma FilledShape(m: Model, m': Model, n: nat, data: seq<byte>)
    requires m.Has(n) && Filled(m, m', n, data)
    ensures m'.Has(n) && m'.At(n).kind == m.At(n).kind && m'.At(n).data == data && m'.At(n).size == |data|
            && |m'.At(n).zones| == FileBlocks(data)
    ensures |data| % BLOCK == 0 ==> |data| == BLOCK * |m'.At(n).zones|
  {
  }

  /** A file fits if and only if each of its blocks does after those before it. */
  lemma ChunkFits(data: seq<byte>, pos: nat, room: int)
    requires pos < |data| && pos % BLOCK == 0
    ensures var k := pos / BLOCK;
            FileFits(data, room) ==> room - WithIndirect(k) >= 1 && ZoneFits(k, room - WithIndirect(k) - 1)
    ensures WithIndirect(pos / BLOCK + 1) == WithIndirect(pos / BLOCK) + 1 + (if pos / BLOCK == NR_DZONE then 1 else 0)
  {
  }

  lemma FileDone(data: seq<byte>, room: int, room0: int)
    requires room >= 0 && room == room0 - WithIndirect(FileBlocks(data)) && FileBlocks(data) <= NR_DZONE + NR_INDIRECTS
    ensures FileFits(data, room0)
  {
  }

  lemma FilledMore(m: Model, m0: Model, m1: Model, m2: Model, n: nat, z: nat, done: seq<byte>, chunk: seq<byte>)
    requires m.Has(n) && Filled(m, m0, n, done) && |done| == BLOCK * |m0.At(n).zones| && 1 <= |chunk| <= BLOCK
    requires m1 == m0.(owner := m0.owner + [0]) && z == m0.NextZone()
    requires AddedZone(m1, m2, n, z, |chunk|, chunk)
    ensures Filled(m, m2, n, done + chunk)
  {
    hide Loose;
    assert forall y: nat :: Loose(m2, y) ==> Loose(m0, y) by {
      LooseAfter(m0, m1, m2, z);
    }
  }

  lemma LooseAfter(m0: Model, m1: Model, m2: Model, z: nat)
    requires m1 == m0.(owner := m0.owner + [0]) && z == m0.NextZone()
    requires forall y: nat :: Loose(m2, y) ==> Loose(m1, y) && y != z
    ensures forall y: nat :: Loose(m2, y) ==> Loose(m0, y)
  {
    SameOwners(m0);
  }

  /** A zone taken for a directory. */
  lemma GrownByZone(m: Model, m1: Model, m2: Model, n: nat, z: nat)
    requires m.Has(n) && m1 == m.(owner := m.owner + [0]) && z == m.NextZone()
    requires AddedZone(m1, m2, n, z, 0, []) && |m.At(n).zones| < NR_DZONE
    ensures m2.nodes == m.nodes[n - 1 := m.At(n).(zones := m.At(n).zones + [z])]
    ensures forall y: nat :: Loose(m2, y) ==> Loose(m, y)
  {
    assert m.At(n).data + [] == m.At(n).data;
    SameOwners(m);
  }

  lemma DirRoom(im: Image, m: Model, n: nat)
    requires Rep(im, m) && m.Has(n) && m.At(n).kind == Directory
    ensures |m.At(n).ents| <= SLOTS * |m.At(n).zones|
  {
    NodeRep(im, m, n);
  }

  lemma UsedSlot(im: Image, m: Model, n: nat, k: nat, s: nat)
    requires Rep(im, m) && m.Has(n) && m.At(n).kind == Directory && k < |m.At(n).zones| && s < SLOTS
    ensures m.At(n).zones[k] < |im.blocks|
    ensures SlotNum(im.big, im.blocks[m.At(n).zones[k]], s) == 0 <==> SLOTS * k + s >= |m.At(n).ents|
  {
    NodeRep(im, m, n);
    SlotsUsed(im.big, im.blocks, m.At(n), k, s);
  }

  /** What entering e into directory n does to the model. */
  ghost predicate EnteredDir(m: Model, m': Model, n: nat, e: Entry)
    requires m.Has(n)
  {
    && |m'.nodes| == |m.nodes| && m'.nodes == m.nodes[n - 1 := m'.At(n)]
    && m'.At(n) == m.At(n).(ents := m.At(n).ents + [e], zones := m'.At(n).zones)
    && |m'.At(n).zones| == (if |m.At(n).ents| < SLOTS * |m.At(n).zones| then |m.At(n).zones| else |m.At(n).zones| + 1)
    && |m'.At(n).zones| <= NR_DZONE
    && (forall y: nat :: Loose(m', y) ==> Loose(m, y))
  }

  lemma IndWords(im: Image, m: Model, n: nat)
    requires Rep(im, m) && m.Has(n) && m.At(n).kind == Regular && m.At(n).ind != 0
    ensures m.At(n).ind < |im.blocks|
    ensures forall i :: 0 <= i < NR_INDIRECTS ==>
              (Word(im.big, im.blocks[m.At(n).ind], i) != 0 <==> NR_DZONE + i < |m.At(n).zones|)
  {
    hide Word;
    NodeZones(im, m, n);
    NodeRep(im, m, n);
    var node := m.At(n);
    assert IndBlock(im.big, BlockOf(im.blocks, node.ind), node.zones);
  }

  lemma ZeroWords(big: bool)
    ensures forall i :: 0 <= i < NR_INDIRECTS ==> Word(big, Zeros(BLOCK), i) == 0
  {
  }

  lemma AddedIndirect(m: Model, m1: Model, n: nat, z: nat, y: nat, nbytes: nat, chunk: seq<byte>)
    requires m.Has(n) && Loose(m, z) && m1.nodes == m.nodes && m1.first == m.first
    requires m1 == m || (m1 == m.(owner := m.owner + [0]) && y == m.NextZone())
    requires m1 == m ==> m.At(n).ind == y && m.first <= y < m.NextZone()
    requires m1 != m ==> m.At(n).ind == 0 && |m.At(n).zones| >= NR_DZONE
    ensures AddedZone(m, Attach2(m1, n, GrownInd(m.At(n), z, y, nbytes, chunk), z, y), n, z, nbytes, chunk)
  {
    var m' := Attach2(m1, n, GrownInd(m.At(n), z, y, nbytes, chunk), z, y);
    Owners2(m1, n, GrownInd(m.At(n), z, y, nbytes, chunk), z, y);
    forall x: nat | Loose(m', x)
      ensures Loose(m, x) && x != z
    {
      assert x != z && x != y;
    }
  }

  /** What adding zone z does to the model. */
  ghost predicate AddedZone(m: Model, m': Model, n: nat, z: nat, nbytes: nat, chunk: seq<byte>)
    requires m.Has(n)
  {
    && |m'.nodes| == |m.nodes| && m'.nodes == m.nodes[n - 1 := m'.At(n)]
    && m'.At(n) == Grown(m.At(n), z, nbytes, chunk).(ind := m'.At(n).ind)
    && (m.At(n).ind != 0 || |m.At(n).zones| < NR_DZONE ==> m'.At(n).ind == m.At(n).ind)
    && (forall y: nat :: Loose(m', y) ==> Loose(m, y) && y != z)
  }

  lemma AddedDirect(m: Model, n: nat, z: nat, nbytes: nat, chunk: seq<byte>)
    requires m.Has(n) && m.first <= z < m.NextZone() && Loose(m, z)
    ensures AddedZone(m, Attach(m, n, Grown(m.At(n), z, nbytes, chunk), z), n, z, nbytes, chunk)
  {
    var m' := Attach(m, n, Grown(m.At(n), z, nbytes, chunk), z);
    forall y: nat | Loose(m', y)
      ensures Loose(m, y) && y != z
    {
      assert y == z ==> m'.OwnerOf(y) == n;
    }
  }

  lemma NodeStored(im: Image, m: Model, n: nat)
    requires Rep(im, m) && m.Has(n)
    ensures n <= im.ninodes == |im.inodes| && |im.inodes[n - 1].zone| == 9
    ensures im.inodes[n - 1].size == m.At(n).size && im.inodes[n - 1].nlinks == m.At(n).links
    ensures |im.blocks| == im.nzones
  {
    NodeRep(im, m, n);
  }

  lemma CountedPacked(im: Image, n: nat, size: nat, links: nat)
    requires Packable(im) && 1 <= n <= im.ninodes == |im.inodes|
    requires im.inodes[n - 1].size + size < WORD32 && im.inodes[n - 1].nlinks + links < 256
    ensures var ino := im.inodes[n - 1];
            Packable(im.(inodes := im.inodes[n - 1 := ino.(size := ino.size + size, nlinks := ino.nlinks + links)]))
  {
    var ino := im.inodes[n - 1];
    PackedInode(im, n);
    PackedStill(im, im.(inodes := im.inodes[n - 1 := ino.(size := ino.size + size, nlinks := ino.nlinks + links)]), n);
  }

  /** Zone z put into zone word i of an inode. */
  lemma GrownPacked(im: Image, blocks: seq<Block>, n: nat, nbytes: nat, i: nat, z: nat)
    requires Packable(im) && 1 <= n <= im.ninodes == |im.inodes| && i < |im.inodes[n - 1].zone| && z < |im.blocks|
    requires im.inodes[n - 1].size + nbytes < WORD32 && |blocks| == |im.blocks|
    ensures var ino := im.inodes[n - 1];
            Packable(im.(blocks := blocks,
                         inodes := im.inodes[n - 1 := ino.(size := ino.size + nbytes, zone := ino.zone[i := z])]))
  {
    var ino := im.inodes[n - 1];
    PackedInode(im, n);
    var ino' := ino.(size := ino.size + nbytes, zone := ino.zone[i := z]);
    assert InodePackable(ino');
    PackedStill(im, im.(blocks := blocks, inodes := im.inodes[n - 1 := ino']), n);
  }

  /** What the inode says about the zones of a node. */
  lemma NodeZones(im: Image, m: Model, n: nat)
    requires Rep(im, m) && m.Has(n) && m.At(n).kind != Device
    ensures n <= |im.inodes| && |im.inodes[n - 1].zone| == 9
    ensures var node, ino := m.At(n), im.inodes[n - 1];
            && |node.zones| <= NR_DZONE + NR_INDIRECTS
            && (forall i :: 0 <= i < NR_DZONE ==> (ino.zone[i] != 0 <==> i < |node.zones|))
            && (forall i :: 0 <= i < NR_DZONE && i < |node.zones| ==> ino.zone[i] == node.zones[i])
            && ino.zone[NR_DZONE] == node.ind && ino.zone[NR_DZONE + 1] == 0
            && ino.size == node.size && ino.nlinks == node.links && KindOf(ino) == Some(node.kind)
            && (|node.zones| > NR_DZONE <==> node.ind != 0)
            && (forall k :: 0 <= k < |node.zones| ==> 0 < node.zones[k] < |im.blocks|)
            && (node.ind != 0 ==> node.ind < |im.blocks|)
  {
    NodeRep(im, m, n);
    OwnedParts(m.At(n));
    var node := m.At(n);
    forall k | 0 <= k < |node.zones|
      ensures 0 < node.zones[k] < |im.blocks|
    {
      assert node.Owned()[k] == node.zones[k];
    }
  }
}
