/**
 A Minix V1 file system image and how tools/minixfs.py reads it.  The super
 block, the bit maps and the inodes are records; data blocks are bytes.
 */
module MinixImage {
  import opened Common

  const BLOCK := 1024
  const NR_DZONE := 7
  const NR_INDIRECTS := 512
  const DIR_SIZE := 16
  const NAME_MAX := 14
  const SLOTS := 64
  const BITS_PER_BLOCK := 8192
  const INODES_PER_BLOCK := 32

  const I_REGULAR := 0x8000
  const I_BLOCK_SPECIAL := 0x6000
  const I_DIRECTORY := 0x4000
  const I_CHAR_SPECIAL := 0x2000

  type Block = b: seq<byte> | |b| == BLOCK witness Zeros(BLOCK)

  datatype Inode = Inode(mode: nat, uid: nat, size: nat, mtime: nat, gid: nat, nlinks: nat, zone: seq<nat>)

  datatype Image = Image(big: bool, ninodes: nat, nzones: nat, first: nat,
                         inodeMap: seq<bool>, zoneMap: seq<bool>, inodes: seq<Inode>, blocks: seq<Block>)

  /** The parts have the sizes the super block says. */
  ghost predicate Shaped(im: Image) {
    && |im.inodes| == im.ninodes && |im.blocks| == im.nzones
    && im.ninodes < |im.inodeMap| && im.nzones < |im.zoneMap| + im.first
    && 1 <= im.first
    && forall i :: 0 <= i < |im.inodes| ==> |im.inodes[i].zone| == 9
  }

  /** The fields of an inode fit their places in the image. */
  predicate InodePackable(ino: Inode) {
    && ino.mode < 65536 && ino.uid < 65536 && ino.size < WORD32 && ino.mtime < WORD32 && ino.gid < 256
       && ino.nlinks < 256
    && |ino.zone| == 9 && forall i :: 0 <= i < 9 ==> ino.zone[i] < 65536
  }

  /** The blocks in front of the data zones, as the super block counts them. */
  function MetaBlocks(im: Image): nat {
    2 + |im.inodeMap| / BITS_PER_BLOCK + |im.zoneMap| / BITS_PER_BLOCK
        + (im.ninodes + INODES_PER_BLOCK - 1) / INODES_PER_BLOCK
  }

  ghost predicate Packable(im: Image) {
    && Shaped(im) && im.nzones < 65536 && im.ninodes < 65536
    && |im.inodeMap| % BITS_PER_BLOCK == 0 && |im.zoneMap| % BITS_PER_BLOCK == 0
    && |im.inodeMap| < 65536 * BITS_PER_BLOCK && |im.zoneMap| < 65536 * BITS_PER_BLOCK
    && im.first == MetaBlocks(im) <= im.nzones
    && forall i :: 0 <= i < |im.inodes| ==> InodePackable(im.inodes[i])
  }

  /** Bit 0 of a map and the bits past its end are set. */
  ghost predicate Bordered(bits: seq<bool>, last: int) {
    forall i :: 0 <= i < |bits| && (i == 0 || i > last) ==> bits[i]
  }

  lemma BorderedSet(bits: seq<bool>, last: int, i: nat)
    requires Bordered(bits, last) && i < |bits|
    ensures Bordered(bits[i := true], last)
  {
  }

  lemma PackedInode(im: Image, n: nat)
    requires Packable(im) && 1 <= n <= im.ninodes
    ensures |im.inodes| == im.ninodes && InodePackable(im.inodes[n - 1])
  {
    hide InodePackable;
  }

  /** One inode, bits of the maps and blocks may change. */
  lemma PackedStill(im: Image, im': Image, n: nat)
    requires Packable(im) && 1 <= n <= im.ninodes == im'.ninodes && im'.nzones == im.nzones && im'.first == im.first
    requires |im'.inodeMap| == |im.inodeMap| && |im'.zoneMap| == |im.zoneMap| && |im'.blocks| == |im.blocks|
    requires |im.inodes| == im.ninodes == |im'.inodes| && im'.inodes == im.inodes[n - 1 := im'.inodes[n - 1]]
    requires InodePackable(im'.inodes[n - 1])
    ensures Packable(im')
  {
    forall i | 0 <= i < |im'.inodes|
      ensures |im'.inodes[i].zone| == 9 && InodePackable(im'.inodes[i])
    {
      PackedInode(im, i + 1);
    }
  }

  lemma PackedElsewhere(im: Image, im': Image)
    requires Packable(im) && im'.ninodes == im.ninodes && im'.nzones == im.nzones && im'.first == im.first
    requires |im'.inodeMap| == |im.inodeMap| && |im'.zoneMap| == |im.zoneMap| && |im'.blocks| == |im.blocks|
    requires im'.inodes == im.inodes
    ensures Packable(im')
  {
    hide InodePackable;
  }

  // ----- 16-bit words and directory slots in a block -----

  /** The i-th 16-bit word, in either byte order. */
  function Word(big: bool, b: seq<byte>, i: nat): nat
    requires 2 * i + 2 <= |b|
  {
    var x: nat, y: nat := b[2 * i], b[2 * i + 1];
    if big then 256 * x + y else x + 256 * y
  }

  function PutWord(big: bool, b: seq<byte>, i: nat, v: nat): (r: seq<byte>)
    requires 2 * i + 2 <= |b| && v < 65536
    ensures |r| == |b|
    ensures Word(big, r, i) == v
    ensures forall k :: 0 <= k < |b| && k != 2 * i && k != 2 * i + 1 ==> r[k] == b[k]
  {
    if big then b[2 * i := v / 256][2 * i + 1 := v % 256] else b[2 * i := v % 256][2 * i + 1 := v / 256]
  }

  lemma WordFrame(big: bool, a: seq<byte>, b: seq<byte>, i: nat)
    requires 2 * i + 2 <= |a| && 2 * i + 2 <= |b|
    requires a[2 * i] == b[2 * i] && a[2 * i + 1] == b[2 * i + 1]
    ensures Word(big, a, i) == Word(big, b, i)
  {
  }

  function SlotNum(big: bool, b: seq<byte>, s: nat): nat
    requires DIR_SIZE * s + DIR_SIZE <= |b|
  {
    Word(big, b, 8 * s)
  }

  /** The bytes of a name field up to the first NUL. */
  function UpToNul(raw: seq<byte>): seq<byte> {
    if raw == [] || raw[0] == 0 then [] else [raw[0]] + UpToNul(raw[1..])
  }

  function SlotName(b: seq<byte>, s: nat): seq<byte>
    requires DIR_SIZE * s + DIR_SIZE <= |b|
  {
    UpToNul(b[DIR_SIZE * s + 2..DIR_SIZE * s + DIR_SIZE])
  }

  /** Write a directory entry: inode number and NUL-padded name. */
  function PutSlot(big: bool, b: seq<byte>, s: nat, num: nat, name: seq<byte>): (r: seq<byte>)
    requires DIR_SIZE * s + DIR_SIZE <= |b| && num < 65536 && |name| <= NAME_MAX
    ensures |r| == |b|
    ensures forall k :: 0 <= k < |b| && !(DIR_SIZE * s <= k < DIR_SIZE * s + DIR_SIZE) ==> r[k] == b[k]
  {
    var at := DIR_SIZE * s;
    var b1 := PutWord(big, b, 8 * s, num);
    b1[..at + 2] + name + Zeros(NAME_MAX - |name|) + b1[at + DIR_SIZE..]
  }

  lemma {:induction false} UpToNulPadded(name: seq<byte>, n: nat)
    requires forall i :: 0 <= i < |name| ==> name[i] != 0
    ensures UpToNul(name + Zeros(n)) == name
    decreases |name|
  {
    if name == [] {
      assert name + Zeros(n) == Zeros(n);
    } else {
      assert (name + Zeros(n))[1..] == name[1..] + Zeros(n);
      UpToNulPadded(name[1..], n);
    }
  }

  lemma PutSlotReads(big: bool, b: seq<byte>, s: nat, num: nat, name: seq<byte>)
    requires DIR_SIZE * s + DIR_SIZE <= |b| && num < 65536 && |name| <= NAME_MAX
    requires forall i :: 0 <= i < |name| ==> name[i] != 0
    ensures var r := PutSlot(big, b, s, num, name);
            SlotNum(big, r, s) == num && SlotName(r, s) == name
  {
    var at := DIR_SIZE * s;
    var b1 := PutWord(big, b, 8 * s, num);
    var r := PutSlot(big, b, s, num, name);
    WordFrame(big, r, b1, 8 * s);
    assert r[at + 2..at + DIR_SIZE] == name + Zeros(NAME_MAX - |name|);
    UpToNulPadded(name, NAME_MAX - |name|);
  }

  lemma SlotFrame(big: bool, a: seq<byte>, b: seq<byte>, s: nat)
    requires DIR_SIZE * s + DIR_SIZE <= |a| && DIR_SIZE * s + DIR_SIZE <= |b|
    requires forall k :: DIR_SIZE * s <= k < DIR_SIZE * s + DIR_SIZE ==> a[k] == b[k]
    ensures SlotNum(big, a, s) == SlotNum(big, b, s) && SlotName(a, s) == SlotName(b, s)
  {
    assert a[DIR_SIZE * s + 2..DIR_SIZE * s + DIR_SIZE] == b[DIR_SIZE * s + 2..DIR_SIZE * s + DIR_SIZE];
  }

  // ----- class FS: the reader -----

  /** self.block(n): nothing when n is outside the image. */
  function BlockBytes(im: Image, n: nat): seq<byte> {
    if n < |im.blocks| then im.blocks[n] else []
  }

  function Words(big: bool, b: Block): (w: seq<nat>)
    ensures |w| == NR_INDIRECTS
    ensures forall i :: 0 <= i < NR_INDIRECTS ==> w[i] == Word(big, b, i)
  {
    seq(NR_INDIRECTS, i requires 0 <= i < NR_INDIRECTS => Word(big, b, i))
  }

  function ZeroZones(n: nat): (z: seq<nat>)
    ensures |z| == n && forall i :: 0 <= i < n ==> z[i] == 0
  {
    seq(n, _ => 0)
  }

  /** The zones and indirect zones below the double indirect words; None: an exception. */
  function DoubleZones(im: Image, words: seq<nat>): Option<(seq<nat>, seq<nat>)> {
    if words == [] then Some(([], []))
    else
      var rest := DoubleZones(im, words[1..]);
      if rest.None? then None
      else if words[0] == 0 then Some((ZeroZones(NR_INDIRECTS) + rest.value.0, rest.value.1))
      else if words[0] >= |im.blocks| then None
      else Some((Words(im.big, im.blocks[words[0]]) + rest.value.0, [words[0]] + rest.value.1))
  }

  /** zones(): data zones in order, and indirect zones. */
  function ZonesOf(im: Image, ino: Inode): Option<(seq<nat>, seq<nat>)>
    requires |ino.zone| == 9
  {
    var direct := ino.zone[..NR_DZONE];
    var single := ino.zone[NR_DZONE];
    var double := ino.zone[NR_DZONE + 1];
    if single >= |im.blocks| || double >= |im.blocks| then None
    else
      var (z, ind) := if single == 0 then (direct, [])
                      else (direct + Words(im.big, im.blocks[single]), [single]);
      if double == 0 then Some((z, ind))
      else
        match DoubleZones(im, Words(im.big, im.blocks[double]))
        case None => None
        case Some((z2, ind2)) => Some((z + z2, ind + [double] + ind2))
  }

  /** The loop of read_file(): append zones until size bytes are there. */
  function Gather(im: Image, zones: seq<nat>, size: nat, out: seq<byte>): seq<byte>
    decreases |zones|
  {
    if zones == [] || |out| >= size then out
    else Gather(im, zones[1..], size, out + if zones[0] == 0 then Zeros(BLOCK) else BlockBytes(im, zones[0]))
  }

  function Take(s: seq<byte>, n: nat): seq<byte> {
    if |s| <= n then s else s[..n]
  }

  /** read_file() */
  function ReadFile(im: Image, ino: Inode): Option<seq<byte>>
    requires |ino.zone| == 9
  {
    match ZonesOf(im, ino)
    case None => None
    case Some((z, _)) => Some(Take(Gather(im, z, ino.size, []), ino.size))
  }

  datatype Entry = Entry(num: nat, name: seq<byte>)

  /** dir_entries() from slot s on. */
  function EntriesFrom(big: bool, data: seq<byte>, s: nat): seq<Entry>
    decreases |data| - DIR_SIZE * s
  {
    if DIR_SIZE * s + DIR_SIZE > |data| then []
    else
      var rest := EntriesFrom(big, data, s + 1);
      if SlotNum(big, data, s) == 0 then rest
      else [Entry(SlotNum(big, data, s), SlotName(data, s))] + rest
  }

  function DirEntries(im: Image, ino: Inode): Option<seq<Entry>>
    requires |ino.zone| == 9
  {
    match ReadFile(im, ino)
    case None => None
    case Some(data) => Some(EntriesFrom(im.big, data, 0))
  }

  function TypeOf(ino: Inode): nat {
    ino.mode / 4096 % 16 * 4096
  }

  /** The first entry with the given name. */
  function FindName(entries: seq<Entry>, name: seq<byte>): Option<nat> {
    if entries == [] then None
    else if entries[0].name == name then Some(entries[0].num)
    else FindName(entries[1..], name)
  }

  /** lookup() from inode n on; None: an error. */
  function LookupFrom(im: Image, n: nat, path: seq<seq<byte>>): Option<nat>
    requires forall i :: 0 <= i < |im.inodes| ==> |im.inodes[i].zone| == 9
    decreases |path|
  {
    if path == [] then Some(n)
    else if n == 0 || n > |im.inodes| || TypeOf(im.inodes[n - 1]) != I_DIRECTORY then None
    else
      match DirEntries(im, im.inodes[n - 1])
      case None => None
      case Some(entries) =>
        match FindName(entries, path[0])
        case None => None
        case Some(num) => LookupFrom(im, num, path[1..])
  }
}
