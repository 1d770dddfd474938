/**
 tools/minixfs.py: zones(), read_file(), dir_entries() and the check in terms
 of the words and bytes of the image.
 */
module MinixLaws {
  import opened Common
  import opened MinixImage
  import opened MinixSettled
  import opened MinixCheck

  // ----- zones() -----

  function NonZero(words: seq<nat>): seq<nat> {
    if words == [] then [] else (if words[0] == 0 then [] else [words[0]]) + NonZero(words[1..])
  }

  /** Word i of block n. */
  function WordOf(im: Image, n: nat, i: nat): nat
    requires n < |im.blocks| && i < 512
  {
    Word(im.big, im.blocks[n], i)
  }

  /** The data zone in place k below these indirect zones; a missing indirect zone stands for 512
      missing ones. */
  ghost predicate DoubleAt(im: Image, words: seq<nat>, k: nat, z: nat)
    requires k < 512 * |words|
  {
    var ind := words[k / 512];
    if ind == 0 then z == 0 else ind < |im.blocks| && z == WordOf(im, ind, k % 512)
  }

  lemma {:induction false} DoubleMeans(im: Image, words: seq<nat>)
    ensures DoubleZones(im, words).Some? <==> forall i :: 0 <= i < |words| && words[i] != 0 ==> words[i] < |im.blocks|
    ensures DoubleZones(im, words).Some? ==>
              var (z, ind) := DoubleZones(im, words).value;
              && |z| == 512 * |words| && ind == NonZero(words)
              && forall k :: 0 <= k < |z| ==> DoubleAt(im, words, k, z[k])
    decreases |words|
  {
    hide Word;
    if words != [] {
      var w, more := words[0], words[1..];
      DoubleMeans(im, more);
      assert words == [w] + more;
      var all := DoubleZones(im, words);
      if all.Some? {
        var (z, ind) := all.value;
        var rest := DoubleZones(im, more).value.0;
        forall k | 0 <= k < |z|
          ensures DoubleAt(im, words, k, z[k])
        {
          if k >= 512 {
            NextGroup(k);
            assert z[k] == rest[k - 512] && DoubleAt(im, more, k - 512, rest[k - 512]);
          }
        }
      }
    }
  }

  lemma NextGroup(k: nat)
    requires k >= 512
    ensures (k - 512) / 512 == k / 512 - 1 && (k - 512) % 512 == k % 512
  {
  }

  /** The first places are the seven words of the inode, then come those of the indirect block. */
  function SingleEnd(ino: Inode): nat
    requires |ino.zone| == 9
  {
    if ino.zone[7] == 0 then 7 else 519
  }

  function DoubleWords(im: Image, ino: Inode): (w: seq<nat>)
    requires |ino.zone| == 9
    ensures |w| == if 0 < ino.zone[8] < |im.blocks| then 512 else 0
  {
    var double := ino.zone[8];
    if 0 < double < |im.blocks| then seq<nat>(512, i requires 0 <= i < 512 => WordOf(im, double, i)) else []
  }

  /** Zone k of an inode. */
  ghost predicate ZoneAt(im: Image, ino: Inode, k: nat, z: nat)
    requires |ino.zone| == 9
  {
    if k < 7 then z == ino.zone[k]
    else if k < SingleEnd(ino) then ino.zone[7] < |im.blocks| && z == WordOf(im, ino.zone[7], k - 7)
    else
      var words := DoubleWords(im, ino);
      k - SingleEnd(ino) < 512 * |words| && DoubleAt(im, words, k - SingleEnd(ino), z)
  }

  lemma ZonesMeans(im: Image, ino: Inode)
    requires |ino.zone| == 9 && ZonesOf(im, ino).Some?
    ensures var (z, ind) := ZonesOf(im, ino).value;
            && |z| == SingleEnd(ino) + (if ino.zone[8] == 0 then 0 else 262144)
            && (forall k :: 0 <= k < |z| ==> ZoneAt(im, ino, k, z[k]))
            && ind == (if ino.zone[7] == 0 then [] else [ino.zone[7]])
                      + (if ino.zone[8] == 0 then [] else [ino.zone[8]] + NonZero(DoubleWords(im, ino)))
  {
    hide Word, DoubleZones, NonZero, DoubleAt;
    if ino.zone[8] != 0 {
      var words := Words(im.big, im.blocks[ino.zone[8]]);
      assert words == DoubleWords(im, ino);
      DoubleMeans(im, words);
    }
  }

  // ----- read_file() -----

  /** A byte of zone z; zone 0 stands for zeros. */
  ghost predicate ByteIn(im: Image, z: nat, j: nat, b: byte)
    requires j < 1024
  {
    if z == 0 then b == 0 else z < |im.blocks| && b == im.blocks[z][j]
  }

  ghost predicate Stored(im: Image, zones: seq<nat>, data: seq<byte>, from: nat) {
    && from <= |data| <= from + 1024 * |zones|
    && forall k :: from <= k < |data| ==> ByteIn(im, zones[(k - from) / 1024], (k - from) % 1024, data[k])
  }

  lemma {:induction false} GatherMeans(im: Image, zones: seq<nat>, size: nat, out: seq<byte>)
    requires forall i :: 0 <= i < |zones| && |out| + 1024 * i < size && zones[i] != 0 ==> zones[i] < |im.blocks|
    ensures var r := Gather(im, zones, size, out);
            out <= r && |r| >= Min(size, |out| + 1024 * |zones|) && Stored(im, zones, r, |out|)
    decreases |zones|
  {
    if zones != [] && |out| < size {
      var blk: seq<byte> := if zones[0] == 0 then Zeros(BLOCK) else BlockBytes(im, zones[0]);
      assert zones[0] != 0 ==> zones[0] < |im.blocks|;
      assert |blk| == 1024;
      forall i | 0 <= i < |zones[1..]| && |out + blk| + 1024 * i < size && zones[1..][i] != 0
        ensures zones[1..][i] < |im.blocks|
      {
        assert zones[1..][i] == zones[i + 1];
      }
      GatherMeans(im, zones[1..], size, out + blk);
      GatherStep(im, zones, blk, out, Gather(im, zones[1..], size, out + blk));
    }
  }

  lemma GatherStep(im: Image, zones: seq<nat>, blk: seq<byte>, out: seq<byte>, r: seq<byte>)
    requires zones != [] && |blk| == 1024 && (forall j :: 0 <= j < 1024 ==> ByteIn(im, zones[0], j, blk[j]))
    requires out + blk <= r && Stored(im, zones[1..], r, |out| + 1024)
    ensures out <= r && Stored(im, zones, r, |out|)
  {
    hide ByteIn;
    var from, more := |out|, zones[1..];
    forall k | from <= k < |r|
      ensures ByteIn(im, zones[(k - from) / 1024], (k - from) % 1024, r[k])
    {
      if k < from + 1024 {
        assert r[k] == (out + blk)[k] == blk[k - from];
      } else {
        NextBlock(k - from);
        assert ByteIn(im, more[(k - (from + 1024)) / 1024], (k - (from + 1024)) % 1024, r[k]);
      }
    }
    assert r[..from] == (out + blk)[..from] == out;
  }

  lemma NextBlock(k: nat)
    requires k >= 1024
    ensures (k - 1024) / 1024 == k / 1024 - 1 && (k - 1024) % 1024 == k % 1024
  {
  }

  /** Byte k of a file is byte k % 1024 of its zone k / 1024, up to the size or the last zone. */
  lemma ReadFileMeans(im: Image, ino: Inode)
    requires |ino.zone| == 9 && ZonesOf(im, ino).Some?
    requires var z := ZonesOf(im, ino).value.0;
             forall i :: 0 <= i < |z| && 1024 * i < ino.size && z[i] != 0 ==> z[i] < |im.blocks|
    ensures ReadFile(im, ino).Some?
    ensures var z, data := ZonesOf(im, ino).value.0, ReadFile(im, ino).value;
            |data| == Min(ino.size, 1024 * |z|) && Stored(im, z, data, 0)
  {
    hide ZonesOf, ByteIn;
    var z := ZonesOf(im, ino).value.0;
    GatherMeans(im, z, ino.size, []);
  }

  // ----- dir_entries() -----

  /** How many of the slots from s on have number x. */
  function SlotCount(big: bool, data: seq<byte>, s: nat, x: nat): nat
    decreases |data| - 16 * s
  {
    if 16 * s + 16 > |data| then 0 else (if Word(big, data, 8 * s) == x then 1 else 0) + SlotCount(big, data, s + 1, x)
  }

  lemma {:induction false} CountFront(e: Entry, ents: seq<Entry>, x: nat)
    ensures CountEnts([e] + ents, x) == (if e.num == x then 1 else 0) + CountEnts(ents, x)
    decreases |ents|
  {
    var all := [e] + ents;
    if ents == [] {
      assert all[..0] == [];
    } else {
      var n := |ents| - 1;
      CountFront(e, ents[..n], x);
      assert all[..|all| - 1] == [e] + ents[..n];
    }
  }

  /** Slots with number 0 are free, wherever they are; every other slot is an entry. */
  lemma {:induction false} EntriesMean(big: bool, data: seq<byte>, s: nat)
    ensures forall x :: x != 0 ==> CountEnts(EntriesFrom(big, data, s), x) == SlotCount(big, data, s, x)
    ensures forall i :: s <= i && 16 * i + 16 <= |data| && SlotNum(big, data, i) != 0 ==>
              Entry(SlotNum(big, data, i), SlotName(data, i)) in EntriesFrom(big, data, s)
    decreases |data| - 16 * s
  {
    hide Word, SlotName;
    if 16 * s + 16 <= |data| {
      EntriesMean(big, data, s + 1);
      var rest := EntriesFrom(big, data, s + 1);
      var e := Entry(SlotNum(big, data, s), SlotName(data, s));
      forall x: nat | x != 0
        ensures CountEnts(EntriesFrom(big, data, s), x) == SlotCount(big, data, s, x)
      {
        CountFront(e, rest, x);
      }
    }
  }

  // ----- the check -----

  /** What a clean image says of zone k of an inode in use: behind the end there is none, and one
      that is there is a data zone and has its bit in the map. */
  lemma ZoneOfClean(im: Image, order: seq<nat>, n: nat, k: nat)
    requires Shaped(im) && Clean(im, order) && n in order && 1 <= n <= |im.inodes|
    requires var t := im.inodes[n - 1].mode / 4096 % 16;
             t == 8 || t == 4
    ensures ZonesOf(im, im.inodes[n - 1]).Some?
    ensures var z := ZonesOf(im, im.inodes[n - 1]).value.0;
            k < |z| && z[k] != 0 ==>
              1024 * k < im.inodes[n - 1].size && im.first <= z[k] < im.nzones && im.zoneMap[z[k] - im.first + 1]
  {
    hide ZonesOf, Covered, Ordered, Lists, EntryCount, ZonesFine;
    var ino := im.inodes[n - 1];
    assert ZonesFine(im, ino);
    FineZone(im, ino, k);
    var z := ZonesOf(im, ino).value.0;
    if k < |z| && z[k] != 0 {
      assert Uses(im, n, z[k]);
      assert InUse(im, order, z[k]);
    }
  }

  lemma FineZone(im: Image, ino: Inode, k: nat)
    requires |ino.zone| == 9 && ZonesFine(im, ino)
    requires ino.mode / 4096 % 16 == 8 || ino.mode / 4096 % 16 == 4
    ensures ZonesOf(im, ino).Some?
    ensures var z := ZonesOf(im, ino).value.0;
            k < |z| && z[k] != 0 ==> 1024 * k < ino.size && im.first <= z[k] < im.nzones && z[k] in Covered(im, ino)
  {
    hide ZonesOf;
    var z := ZonesOf(im, ino).value.0;
    CoverMeans(ino, |z|, k);
    if k < |z| && z[k] != 0 {
      assert Covered(im, ino)[k] == z[k];
    }
  }

  lemma CoverMeans(ino: Inode, zones: nat, k: nat)
    ensures k < Cover(ino, zones) <==> k < zones && 1024 * k < ino.size
  {
  }

  /** A zone in the map belongs to one inode of the walk. */
  lemma MarkedOfClean(im: Image, order: seq<nat>, z: nat) returns (n: nat)
    requires Shaped(im) && Clean(im, order) && im.first <= z < im.nzones && im.zoneMap[z - im.first + 1]
    ensures n in order && 1 <= n <= |im.inodes| && ZonesOf(im, im.inodes[n - 1]).Some?
    ensures var (zones, ind) := ZonesOf(im, im.inodes[n - 1]).value;
            z in zones || z in ind
    ensures forall k :: k in order && Uses(im, k, z) ==> k == n
  {
    hide ZonesOf, Ordered, Lists, InodesClean;
    assert InUse(im, order, z);
    n :| n in order && Uses(im, n, z);
  }
}
