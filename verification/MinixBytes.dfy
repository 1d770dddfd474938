/**
 The bytes of a file system image: what tools/mkfs.py writes to the file and
 class FS of tools/minixfs.py reads from it.  All numbers are 16-bit words in
 the byte order of the image; two bytes of an inode make up one word.
 */
module MinixBytes {
  import opened Common
  import opened MinixImage
  import opened MinixModel
  import opened MinixSteps

  const WORDS := 512
  const INODE_WORDS := 16
  const BITS_PER_WORD := 16
  const SUPER_MAGIC := 0x137F
  const MAX_SIZE := 268966912
  const SUPER_SIZE := 18

  // ----- words -----

  /** A 32-bit number as two words. */
  function LongWords(big: bool, v: nat): (w: seq<nat>)
    requires v < WORD32
    ensures |w| == 2 && w[0] < 65536 && w[1] < 65536
  {
    if big then [v / 65536, v % 65536] else [v % 65536, v / 65536]
  }

  function LongOf(big: bool, x: nat, y: nat): nat {
    if big then 65536 * x + y else x + 65536 * y
  }

  /** Two bytes, one after the other, as a word. */
  function PairWord(big: bool, x: nat, y: nat): nat {
    if big then 256 * x + y else x + 256 * y
  }

  ghost predicate AllWords(w: seq<nat>) {
    forall i :: 0 <= i < |w| ==> w[i] < 65536
  }

  function ByteOf(big: bool, w: nat, first: bool): byte
    requires w < 65536
  {
    if big == first then w / 256 else w % 256
  }

  lemma WordsInBlock(big: bool, w: seq<nat>, b: seq<byte>)
    requires |w| == WORDS && AllWords(w) && |b| == BLOCK
    requires forall k :: 0 <= k < BLOCK ==> b[k] == ByteOf(big, w[k / 2], k % 2 == 0)
    ensures forall i :: 0 <= i < WORDS ==> Word(big, b, i) == w[i]
  {
    forall i | 0 <= i < WORDS
      ensures Word(big, b, i) == w[i]
    {
      assert b[2 * i] == ByteOf(big, w[i], true);
      assert b[2 * i + 1] == ByteOf(big, w[i], false);
    }
  }

  function BlockOfWords(big: bool, w: seq<nat>): (b: Block)
    requires |w| == WORDS && AllWords(w)
    ensures forall i :: 0 <= i < WORDS ==> Word(big, b, i) == w[i]
  {
    var b := seq<byte>(BLOCK, k requires 0 <= k < BLOCK => ByteOf(big, w[k / 2], k % 2 == 0));
    WordsInBlock(big, w, b);
    b
  }

  // ----- bit maps -----

  /** A word holds its bits with the lowest first. */
  function BitsValue(bits: seq<bool>): (v: nat)
    ensures v < Pow2(|bits|)
  {
    if bits == [] then 0 else (if bits[0] then 1 else 0) + 2 * BitsValue(bits[1..])
  }

  function BitAt(v: nat, j: nat): bool {
    Pow2Positive(j);
    v / Pow2(j) % 2 == 1
  }

  lemma {:induction false} BitsValueAt(bits: seq<bool>, j: nat)
    requires j < |bits|
    ensures BitAt(BitsValue(bits), j) == bits[j]
    decreases j
  {
    var v := BitsValue(bits);
    if j > 0 {
      BitsValueAt(bits[1..], j - 1);
      Pow2Positive(j - 1);
      HalfDiv(v, Pow2(j - 1));
    }
  }

  lemma HalfDiv(v: nat, p: nat)
    requires p > 0
    ensures v / (2 * p) == v / 2 / p
  {
    var q, r := v / 2 / p, v / 2 % p;
    assert v / 2 == p * q + r;
    assert v == 2 * p * q + (2 * r + v % 2);
    assert (2 * p) * q == 2 * p * q;
    DivModUnique(v, 2 * p, q, 2 * r + v % 2);
  }

  function MapWord(bits: seq<bool>, w: nat): (v: nat)
    requires BITS_PER_WORD * w + BITS_PER_WORD <= |bits|
    ensures v < 65536
  {
    assert Pow2(16) == 65536 by {
      Pow2Table();
    }
    BitsValue(bits[BITS_PER_WORD * w..BITS_PER_WORD * w + BITS_PER_WORD])
  }

  function MapWords(bits: seq<bool>, blk: nat): (w: seq<nat>)
    requires BITS_PER_BLOCK * blk + BITS_PER_BLOCK <= |bits|
    ensures |w| == WORDS
    ensures forall i :: 0 <= i < WORDS ==> w[i] == MapWord(bits, WORDS * blk + i)
    ensures AllWords(w)
  {
    seq<nat>(WORDS, i requires 0 <= i < WORDS => MapWord(bits, WORDS * blk + i))
  }

  // ----- super block and inodes -----

  function MapBlocks(bits: seq<bool>): nat {
    |bits| / BITS_PER_BLOCK
  }

  function SuperWords(im: Image): (w: seq<nat>)
    requires Packable(im)
    ensures |w| == WORDS && AllWords(w)
  {
    [im.ninodes, im.nzones, MapBlocks(im.inodeMap), MapBlocks(im.zoneMap), im.first, 0]
    + LongWords(im.big, MAX_SIZE) + [SUPER_MAGIC] + ZeroZones(WORDS - 9)
  }

  function InodeWords(big: bool, ino: Inode): (w: seq<nat>)
    requires InodePackable(ino)
    ensures |w| == INODE_WORDS && AllWords(w)
  {
    [ino.mode, ino.uid] + LongWords(big, ino.size) + LongWords(big, ino.mtime) + [PairWord(big, ino.gid, ino.nlinks)]
        + ino.zone
  }

  function InodeStart(im: Image): nat {
    2 + MapBlocks(im.inodeMap) + MapBlocks(im.zoneMap)
  }

  /** Word i of the inode table. */
  function TableWord(im: Image, i: nat): (w: nat)
    requires Packable(im)
    ensures w < 65536
  {
    if i / INODE_WORDS < im.ninodes then InodeWords(im.big, im.inodes[i / INODE_WORDS])[i % INODE_WORDS] else 0
  }

  function TableWords(im: Image, blk: nat): (w: seq<nat>)
    requires Packable(im)
    ensures |w| == WORDS
    ensures forall i :: 0 <= i < WORDS ==> w[i] == TableWord(im, WORDS * blk + i)
    ensures AllWords(w)
  {
    seq<nat>(WORDS, i requires 0 <= i < WORDS => TableWord(im, WORDS * blk + i))
  }

  // ----- the file -----

  /** The words of a block in front of the data zones. */
  function MetaWords(im: Image, n: nat): (w: seq<nat>)
    requires Packable(im) && n < im.first
    ensures |w| == WORDS && AllWords(w)
  {
    var zmap := 2 + MapBlocks(im.inodeMap);
    if n == 0 then ZeroZones(WORDS)
    else if n == 1 then SuperWords(im)
    else if n < zmap then MapWords(im.inodeMap, n - 2)
    else if n < InodeStart(im) then MapWords(im.zoneMap, n - zmap)
    else TableWords(im, n - InodeStart(im))
  }

  function WholeBlock(im: Image, n: nat): Block
    requires Packable(im) && n < im.nzones
  {
    if n < im.first then BlockOfWords(im.big, MetaWords(im, n)) else im.blocks[n]
  }

  /** The image with the first blocks as they are in the file. */
  function Whole(im: Image): (r: Image)
    requires Packable(im)
    ensures r == im.(blocks := r.blocks) && |r.blocks| == im.nzones
    ensures forall n :: 0 <= n < im.nzones ==> r.blocks[n] == WholeBlock(im, n)
  {
    im.(blocks := seq(im.nzones, n requires 0 <= n < im.nzones => WholeBlock(im, n)))
  }

  /** Blocks one after the other. */
  function Flat(blocks: seq<Block>): (s: seq<byte>)
    ensures |s| == BLOCK * |blocks|
    ensures forall k :: 0 <= k < |s| ==> s[k] == blocks[k / BLOCK][k % BLOCK]
  {
    seq(BLOCK * |blocks|, k requires 0 <= k < BLOCK * |blocks| => blocks[k / BLOCK][k % BLOCK])
  }

  /** The file mkfs writes. */
  function FileOf(im: Image): (s: seq<byte>)
    requires Packable(im)
    ensures |s| == BLOCK * im.nzones
  {
    Flat(Whole(im).blocks)
  }

  // ----- class FS -----

  /** inode(): 16 words from word i on. */
  function ReadInode(big: bool, data: seq<byte>, i: nat): Inode
    requires 2 * i + 32 <= |data|
  {
    Inode(Word(big, data, i), Word(big, data, i + 1),
          LongOf(big, Word(big, data, i + 2), Word(big, data, i + 3)),
          LongOf(big, Word(big, data, i + 4), Word(big, data, i + 5)),
          data[2 * i + 12], data[2 * i + 13],
          seq<nat>(9, k requires 0 <= k < 9 => Word(big, data, i + 7 + k)))
  }

  /** bit(): bit i of the map that begins with block first. */
  function ReadBit(big: bool, data: seq<byte>, first: nat, i: nat): bool
    requires BLOCK * first + 2 * (i / BITS_PER_WORD) + 2 <= |data|
  {
    BitAt(Word(big, data, WORDS * first + i / BITS_PER_WORD), i % BITS_PER_WORD)
  }

  lemma InMap(first: nat, blocks: nat, i: nat, size: nat)
    requires BLOCK * (first + blocks) <= size && i < BITS_PER_BLOCK * blocks
    ensures BLOCK * first + 2 * (i / BITS_PER_WORD) + 2 <= size
  {
    assert i / BITS_PER_WORD < WORDS * blocks;
  }

  function ReadMap(big: bool, data: seq<byte>, first: nat, blocks: nat): (m: seq<bool>)
    requires BLOCK * (first + blocks) <= |data|
    ensures |m| == BITS_PER_BLOCK * blocks
  {
    seq(BITS_PER_BLOCK * blocks,
      i requires 0 <= i < BITS_PER_BLOCK * blocks => InMap(first, blocks, i, |data|); ReadBit(big, data, first, i))
  }

  function ReadInodes(big: bool, data: seq<byte>, start: nat, n: nat): (s: seq<Inode>)
    requires BLOCK * start + 32 * n <= |data|
    ensures |s| == n
  {
    seq(n, k requires 0 <= k < n => ReadInode(big, data, WORDS * start + INODE_WORDS * k))
  }

  /** block() */
  function ReadBlock(data: seq<byte>, n: nat): Block
    requires BLOCK * n + BLOCK <= |data|
  {
    data[BLOCK * n..BLOCK * n + BLOCK]
  }

  function ReadBlocks(data: seq<byte>): (s: seq<Block>)
    ensures |s| == |data| / BLOCK
  {
    seq(|data| / BLOCK, n requires 0 <= n < |data| / BLOCK => ReadBlock(data, n))
  }

  /** A file system as class FS sees it; None: fail(), or an exception for a file that ends
      before its inodes do. */
  function Parse(big: bool, data: seq<byte>): Option<Image> {
    if |data| < BLOCK + SUPER_SIZE then None
    else if Word(big, data, WORDS + 8) != SUPER_MAGIC || Word(big, data, WORDS + 5) != 0 then None
    else
      var ninodes, nzones := Word(big, data, WORDS), Word(big, data, WORDS + 1);
      var imapBlocks, zmapBlocks := Word(big, data, WORDS + 2), Word(big, data, WORDS + 3);
      var start := 2 + imapBlocks + zmapBlocks;
      if BLOCK * start + 32 * ninodes > |data| then None
      else Some(Image(big, ninodes, nzones, Word(big, data, WORDS + 4), ReadMap(big, data, 2, imapBlocks),
                      ReadMap(big, data, 2 + imapBlocks, zmapBlocks), ReadInodes(big, data, start, ninodes),
                        ReadBlocks(data)))
  }

  // ----- reading what was written -----

  lemma FlatWord(big: bool, blocks: seq<Block>, n: nat, i: nat)
    requires n < |blocks| && i < WORDS
    ensures 2 * (WORDS * n + i) + 2 <= |Flat(blocks)|
    ensures Word(big, Flat(blocks), WORDS * n + i) == Word(big, blocks[n], i)
  {
    var k := 2 * (WORDS * n + i);
    DivModUnique(k, BLOCK, n, 2 * i);
    DivModUnique(k + 1, BLOCK, n, 2 * i + 1);
    WordFrame2(big, Flat(blocks), blocks[n], WORDS * n + i, i);
  }

  lemma WordFrame2(big: bool, a: seq<byte>, b: seq<byte>, i: nat, j: nat)
    requires 2 * i + 2 <= |a| && 2 * j + 2 <= |b|
    requires a[2 * i] == b[2 * j] && a[2 * i + 1] == b[2 * j + 1]
    ensures Word(big, a, i) == Word(big, b, j)
  {
  }

  lemma FlatBlocks(blocks: seq<Block>)
    ensures ReadBlocks(Flat(blocks)) == blocks
  {
    var s := Flat(blocks);
    forall n | 0 <= n < |blocks|
      ensures ReadBlock(s, n) == blocks[n]
    {
      forall k | 0 <= k < BLOCK
        ensures ReadBlock(s, n)[k] == blocks[n][k]
      {
        DivModUnique(BLOCK * n + k, BLOCK, n, k);
      }
    }
  }

  /** The words in front of the data zones are where they belong. */
  lemma MetaWordAt(im: Image, n: nat, i: nat)
    requires Packable(im) && n < im.first && i < WORDS
    ensures 2 * (WORDS * n + i) + 2 <= |FileOf(im)|
    ensures Word(im.big, FileOf(im), WORDS * n + i) == MetaWords(im, n)[i]
  {
    hide Flat, MetaWords, Word, BlockOfWords;
    FlatWord(im.big, Whole(im).blocks, n, i);
    assert Whole(im).blocks[n] == BlockOfWords(im.big, MetaWords(im, n));
  }

  lemma SuperReads(im: Image)
    requires Packable(im)
    ensures var s := FileOf(im);
            && |s| >= 2 * BLOCK
            && Word(im.big, s, WORDS) == im.ninodes && Word(im.big, s, WORDS + 1) == im.nzones
            && Word(im.big, s, WORDS + 2) == MapBlocks(im.inodeMap)
               && Word(im.big, s, WORDS + 3) == MapBlocks(im.zoneMap)
            && Word(im.big, s, WORDS + 4) == im.first && Word(im.big, s, WORDS + 5) == 0
            && Word(im.big, s, WORDS + 8) == SUPER_MAGIC
  {
    hide FileOf, Word, Flat, LongWords;
    var w := SuperWords(im);
    assert w == MetaWords(im, 1);
    forall i: nat | i < 9
      ensures 2 * (WORDS + i) + 2 <= |FileOf(im)| && Word(im.big, FileOf(im), WORDS + i) == w[i]
    {
      MetaWordAt(im, 1, i);
    }
    assert w[1] == im.nzones && w[4] == im.first;
    assert w[2] == MapBlocks(im.inodeMap) && w[3] == MapBlocks(im.zoneMap) && w[5] == 0 && w[8] == SUPER_MAGIC;
    assert Word(im.big, FileOf(im), WORDS + 0) == w[0];
  }

  /** A bit of a map is in its word. */
  lemma MapBit(bits: seq<bool>, i: nat)
    requires i < |bits| && |bits| % BITS_PER_BLOCK == 0
    ensures BITS_PER_WORD * (i / BITS_PER_WORD) + BITS_PER_WORD <= |bits|
    ensures BitAt(MapWord(bits, i / BITS_PER_WORD), i % BITS_PER_WORD) == bits[i]
  {
    hide BitAt;
    var w := i / BITS_PER_WORD;
    BitsValueAt(bits[BITS_PER_WORD * w..BITS_PER_WORD * w + BITS_PER_WORD], i % BITS_PER_WORD);
  }

  /** A bit map that begins with block first of the file is read back. */
  lemma MapReads(im: Image, bits: seq<bool>, first: nat)
    requires Packable(im) && |bits| % BITS_PER_BLOCK == 0 && first + MapBlocks(bits) <= im.first
    requires forall n :: first <= n < first + MapBlocks(bits) ==>
               BITS_PER_BLOCK * (n - first) + BITS_PER_BLOCK <= |bits| && MetaWords(im, n) == MapWords(bits, n - first)
    ensures BLOCK * (first + MapBlocks(bits)) <= |FileOf(im)|
    ensures ReadMap(im.big, FileOf(im), first, MapBlocks(bits)) == bits
  {
    hide FileOf, MetaWords, Word, MapWord, BitAt, Packable;
    assert im.first <= im.nzones by {
      PackedFirst(im);
    }
    forall i | 0 <= i < |bits|
      ensures BLOCK * first + 2 * (i / BITS_PER_WORD) + 2 <= |FileOf(im)|
      ensures ReadBit(im.big, FileOf(im), first, i) == bits[i]
    {
      var w := i / BITS_PER_WORD;
      var n, j := first + w / WORDS, w % WORDS;
      MetaWordAt(im, n, j);
      assert WORDS * n + j == WORDS * first + w;
      MapBit(bits, i);
    }
  }

  lemma PackedFirst(im: Image)
    requires Packable(im)
    ensures im.first <= im.nzones
  {
  }

  lemma TableAt(im: Image, i: nat)
    requires Packable(im) && i < INODE_WORDS * im.ninodes
    ensures 2 * (WORDS * InodeStart(im) + i) + 2 <= |FileOf(im)|
    ensures Word(im.big, FileOf(im), WORDS * InodeStart(im) + i) == TableWord(im, i)
  {
    hide FileOf, Word, TableWord, Flat;
    var n, j := InodeStart(im) + i / WORDS, i % WORDS;
    assert i / WORDS < (im.ninodes + INODES_PER_BLOCK - 1) / INODES_PER_BLOCK;
    MetaWordAt(im, n, j);
    assert MetaWords(im, n) == TableWords(im, i / WORDS);
    assert WORDS * n + j == WORDS * InodeStart(im) + i;
  }

  lemma InodeWordAt(im: Image, k: nat, j: nat)
    requires Packable(im) && k < im.ninodes && j < INODE_WORDS
    ensures var i := WORDS * InodeStart(im) + INODE_WORDS * k + j;
            2 * i + 2 <= |FileOf(im)| && Word(im.big, FileOf(im), i) == InodeWords(im.big, im.inodes[k])[j]
  {
    hide FileOf, Word, InodeWords;
    TableAt(im, INODE_WORDS * k + j);
    DivModUnique(INODE_WORDS * k + j, INODE_WORDS, k, j);
  }

  lemma PairUnique(big: bool, data: seq<byte>, i: nat, x: nat, y: nat)
    requires 2 * i + 2 <= |data| && x < 256 && y < 256 && Word(big, data, i) == PairWord(big, x, y)
    ensures data[2 * i] == x && data[2 * i + 1] == y
  {
  }

  /** What InodeWords packs, ReadInode unpacks, wherever the words are. */
  lemma Unpacked(big: bool, data: seq<byte>, i: nat, ino: Inode)
    requires 2 * i + 32 <= |data| && InodePackable(ino)
    requires forall j :: 0 <= j < INODE_WORDS ==> Word(big, data, i + j) == InodeWords(big, ino)[j]
    ensures ReadInode(big, data, i) == ino
  {
    hide Word;
    var w := InodeWords(big, ino);
    assert Word(big, data, i + 0) == w[0];
    assert w[1] == ino.uid && w[2..4] == LongWords(big, ino.size) && w[4..6] == LongWords(big, ino.mtime);
    assert w[2] == w[2..4][0] && w[3] == w[2..4][1] && w[4] == w[4..6][0] && w[5] == w[4..6][1];
    assert w[6] == PairWord(big, ino.gid, ino.nlinks) && w[7..] == ino.zone;
    PairUnique(big, data, i + 6, ino.gid, ino.nlinks);
    forall k | 0 <= k < 9
      ensures Word(big, data, i + 7 + k) == ino.zone[k]
    {
      assert Word(big, data, i + (7 + k)) == w[7 + k];
      assert w[7..][k] == w[7 + k];
    }
    assert ReadInode(big, data, i).zone == ino.zone;
  }

  lemma InodesRead(im: Image)
    requires Packable(im)
    ensures BLOCK * InodeStart(im) + 32 * im.ninodes <= |FileOf(im)|
    ensures ReadInodes(im.big, FileOf(im), InodeStart(im), im.ninodes) == im.inodes
  {
    hide FileOf, Word, InodeWords, ReadInode, InodePackable;
    forall k | 0 <= k < im.ninodes
      ensures 2 * (WORDS * InodeStart(im) + INODE_WORDS * k) + 32 <= |FileOf(im)|
      ensures ReadInode(im.big, FileOf(im), WORDS * InodeStart(im) + INODE_WORDS * k) == im.inodes[k]
    {
      forall j: nat | j < INODE_WORDS
        ensures 2 * (WORDS * InodeStart(im) + INODE_WORDS * k + j) + 2 <= |FileOf(im)|
        ensures Word(im.big, FileOf(im), WORDS * InodeStart(im) + INODE_WORDS * k + j)
                  == InodeWords(im.big, im.inodes[k])[j]
      {
        InodeWordAt(im, k, j);
      }
      assert InodePackable(im.inodes[k]);
      Unpacked(im.big, FileOf(im), WORDS * InodeStart(im) + INODE_WORDS * k, im.inodes[k]);
    }
  }

  lemma MapsRead(im: Image)
    requires Packable(im)
    ensures BLOCK * InodeStart(im) <= |FileOf(im)|
    ensures ReadMap(im.big, FileOf(im), 2, MapBlocks(im.inodeMap)) == im.inodeMap
    ensures ReadMap(im.big, FileOf(im), 2 + MapBlocks(im.inodeMap), MapBlocks(im.zoneMap)) == im.zoneMap
  {
    hide FileOf, ReadMap, MapWords, SuperWords, TableWords, Shaped, InodePackable;
    MapReads(im, im.inodeMap, 2);
    MapReads(im, im.zoneMap, 2 + MapBlocks(im.inodeMap));
  }

  /** Reading the file gives the image back. */
  lemma ParseBack(im: Image)
    requires Packable(im)
    ensures Parse(im.big, FileOf(im)) == Some(Whole(im))
  {
    hide Packable, ReadMap, ReadInodes, ReadBlocks, Flat, Word, MapBlocks;
    SuperReads(im);
    MapsRead(im);
    InodesRead(im);
    FlatBlocks(Whole(im).blocks);
  }

  /** In the wrong byte order no file is accepted: the magic number differs. */
  lemma WrongOrder(im: Image)
    requires Packable(im)
    ensures Parse(!im.big, FileOf(im)) == None
  {
    hide Packable, FileOf, ReadMap, ReadInodes, ReadBlocks, MapBlocks;
    SuperReads(im);
  }

  /** The end of the super block byte by byte: the largest size and the magic number. */
  lemma SuperBytes(im: Image)
    requires Packable(im)
    ensures |FileOf(im)| >= 1042
    ensures im.big ==> FileOf(im)[1036..1042] == [0x10, 0x08, 0x1C, 0x00, 0x13, 0x7F]
    ensures !im.big ==> FileOf(im)[1036..1042] == [0x00, 0x1C, 0x08, 0x10, 0x7F, 0x13]
  {
    hide Packable, FileOf, MapBlocks, SuperWords, Word;
    SuperReads(im);
    LimitWords(im);
    var s := FileOf(im);
    TwoBytes(im.big, s, 518);
    TwoBytes(im.big, s, 519);
    TwoBytes(im.big, s, 520);
    assert s[1036..1042] == [s[1036], s[1037], s[1038], s[1039], s[1040], s[1041]];
  }

  lemma LimitWords(im: Image)
    requires Packable(im)
    ensures |FileOf(im)| >= 1042
    ensures Word(im.big, FileOf(im), 518) == if im.big then 4104 else 7168
    ensures Word(im.big, FileOf(im), 519) == if im.big then 7168 else 4104
  {
    hide FileOf, Word;
    MetaWordAt(im, 1, 6);
    MetaWordAt(im, 1, 7);
    MetaWordAt(im, 1, 8);
    var w := SuperWords(im);
    assert w[6..8] == LongWords(im.big, MAX_SIZE);
    assert w[6] == w[6..8][0] && w[7] == w[6..8][1];
  }

  lemma TwoBytes(big: bool, s: seq<byte>, i: nat)
    requires 2 * i + 2 <= |s|
    ensures s[2 * i] == (if big then Word(big, s, i) / 256 else Word(big, s, i) % 256)
    ensures s[2 * i + 1] == (if big then Word(big, s, i) % 256 else Word(big, s, i) / 256)
  {
  }

  // ----- the first blocks do not matter -----

  /** What an image stores is the same with the first blocks as they are in the file. */
  lemma WholeRep(im: Image, m: Model)
    requires Packable(im) && Rep(im, m)
    ensures Rep(Whole(im), m)
  {
    hide InodeRep, BlocksRep, Packable, WholeBlock;
    var w := Whole(im);
    assert forall z :: im.first <= z < im.nzones ==> w.blocks[z] == im.blocks[z] by {
      DataBlocks(im);
    }
    forall n | m.Has(n)
      ensures BlocksRep(w.big, w.blocks, m.At(n))
    {
      NodeRep(im, m, n);
      BlocksFrame(im.big, im.blocks, w.blocks, m.At(n));
    }
  }

  lemma DataBlocks(im: Image)
    requires Packable(im)
    ensures |im.blocks| == im.nzones
    ensures forall z :: im.first <= z < im.nzones ==> WholeBlock(im, z) == im.blocks[z]
  {
  }
}
