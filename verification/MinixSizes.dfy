/**
 Sizes that cmd_check of tools/minixfs.py does not look at: its description
 says that files larger than their zones are reported, but they are not.
 */
module MinixSizes {
  import opened Common
  import opened MinixImage
  import opened MinixSettled
  import opened MinixCheck

  /** The image with another size in inode n. */
  function Resized(im: Image, n: nat, size: nat): (r: Image)
    requires Shaped(im) && IsInode(im, n)
    ensures Shaped(r)
  {
    im.(inodes := im.inodes[n - 1 := im.inodes[n - 1].(size := size)])
  }

  /** The size of an inode covers all its zones. */
  predicate AllCovered(im: Image, ino: Inode)
    requires |ino.zone| == 9
  {
    ZonesOf(im, ino).Some? && |ZonesOf(im, ino).value.0| <= (ino.size + BLOCK - 1) / BLOCK
  }

  /** Only a regular file is resized, so directories read the same. */
  lemma SameEnts(im: Image, n: nat, size: nat, x: nat)
    requires Shaped(im) && IsInode(im, n) && TypeOf(im.inodes[n - 1]) == I_REGULAR
    ensures EntsOf(Resized(im, n, size), x) == EntsOf(im, x)
    ensures IsDir(Resized(im, n, size), x) <==> IsDir(im, x)
  {
    hide ZonesOf, EntriesFrom, Gather, DoubleZones;
    var im' := Resized(im, n, size);
    if IsDir(im, x) {
      SameRead(im, im', im.inodes[x - 1]);
    }
  }

  lemma SameRead(im: Image, im': Image, ino: Inode)
    requires |ino.zone| == 9 && im'.blocks == im.blocks && im'.big == im.big
    ensures ZonesOf(im', ino) == ZonesOf(im, ino) && DirEntries(im', ino) == DirEntries(im, ino)
  {
    hide EntriesFrom, Words;
    if ino.zone[NR_DZONE + 1] < |im.blocks| {
      SameDouble(im, im', Words(im.big, im.blocks[ino.zone[NR_DZONE + 1]]));
    }
    if ZonesOf(im, ino).Some? {
      SameGather(im, im', ZonesOf(im, ino).value.0, ino.size, []);
    }
  }

  lemma {:induction false} SameDouble(im: Image, im': Image, words: seq<nat>)
    requires im'.blocks == im.blocks && im'.big == im.big
    ensures DoubleZones(im', words) == DoubleZones(im, words)
    decreases |words|
  {
    hide Words;
    if words != [] {
      SameDouble(im, im', words[1..]);
    }
  }

  lemma {:induction false} SameGather(im: Image, im': Image, zones: seq<nat>, size: nat, out: seq<byte>)
    requires im'.blocks == im.blocks
    ensures Gather(im', zones, size, out) == Gather(im, zones, size, out)
    decreases |zones|
  {
    if zones != [] && |out| < size {
      SameGather(im, im', zones[1..], size, out + if zones[0] == 0 then Zeros(BLOCK) else BlockBytes(im, zones[0]));
    }
  }

  /** What a larger size adds to the zones an inode may have are holes. */
  lemma LargerCover(im: Image, im': Image, ino: Inode, size: nat)
    requires |ino.zone| == 9 && im'.blocks == im.blocks && im'.big == im.big && im'.first == im.first
             && im'.nzones == im.nzones
    requires size >= ino.size && TypeOf(ino) == I_REGULAR
    ensures var ino' := ino.(size := size);
            && (NoneBeyond(im, ino) ==>
                  && (forall z: nat :: z != 0 ==> (z in Covered(im', ino') <==> z in Covered(im, ino)))
                  && (ZonesFine(im, ino) ==> ZonesFine(im', ino')))
            && (AllCovered(im, ino) ==>
                  Covered(im', ino') == Covered(im, ino) && (ZonesFine(im', ino') <==> ZonesFine(im, ino)))
  {
    hide ZonesOf;
    var ino' := ino.(size := size);
    SameZones(im, im', ino, ino');
    if ZonesOf(im, ino).Some? {
      var (z, ind) := ZonesOf(im, ino).value;
      var a, b := Cover(ino, |z|), Cover(ino', |z|);
      CoverMore(ino, size, |z|);
      if NoneBeyond(im, ino) {
        assert z[..b] == z[..a] + z[a..b];
        HolesBetween(im, z[..a], z[a..b], ind);
        assert z[..a] + z[a..b] + ind == z[..b] + ind;
      }
    }
  }

  lemma CoverMore(ino: Inode, size: nat, n: nat)
    requires size >= ino.size
    ensures Cover(ino, n) <= Cover(ino.(size := size), n)
    ensures n <= (ino.size + BLOCK - 1) / BLOCK ==> Cover(ino.(size := size), n) == Cover(ino, n) == n
  {
  }

  lemma SameZones(im: Image, im': Image, ino: Inode, ino': Inode)
    requires |ino.zone| == 9 && ino'.zone == ino.zone && im'.blocks == im.blocks && im'.big == im.big
    ensures ZonesOf(im', ino') == ZonesOf(im, ino)
  {
    hide Words;
    if ino.zone[NR_DZONE + 1] < |im.blocks| {
      SameDouble(im, im', Words(im.big, im.blocks[ino.zone[NR_DZONE + 1]]));
    }
  }

  lemma HolesBetween(im: Image, a: seq<nat>, holes: seq<nat>, b: seq<nat>)
    requires forall k :: 0 <= k < |holes| ==> holes[k] == 0
    ensures forall z :: z != 0 ==> (z in a + holes + b <==> z in a + b)
    ensures ZonesDistinct(im, a + b) ==> ZonesDistinct(im, a + holes + b)
  {
    var s, t := a + holes + b, a + b;
    if ZonesDistinct(im, t) {
      forall k | 0 <= k < |s| && s[k] != 0
        ensures im.first <= s[k] < im.nzones
      {
        assert s[k] == t[if k < |a| then k else k - |holes|];
      }
      forall j, k | 0 <= j < k < |s| && s[j] != 0
        ensures s[j] != s[k]
      {
        if s[k] != 0 {
          assert s[j] == t[if j < |a| then j else j - |holes|];
          assert s[k] == t[if k < |a| then k else k - |holes|];
        }
      }
    }
  }

  /** The rest of the image does not notice. */
  lemma SameOthers(im: Image, n: nat, size: nat, x: nat)
    requires Shaped(im) && IsInode(im, n) && TypeOf(im.inodes[n - 1]) == I_REGULAR && IsInode(im, x) && x != n
    ensures var im' := Resized(im, n, size);
            && im'.inodes[x - 1] == im.inodes[x - 1] && Covered(im', im.inodes[x - 1]) == Covered(im, im.inodes[x - 1])
            && (ZonesFine(im', im.inodes[x - 1]) <==> ZonesFine(im, im.inodes[x - 1]))
  {
    hide ZonesOf, Cover;
    SameRead(im, Resized(im, n, size), im.inodes[x - 1]);
  }

  lemma {:induction false} SameEntryCount(im: Image, n: nat, size: nat, order: seq<nat>, k: nat, x: nat)
    requires Shaped(im) && IsInode(im, n) && TypeOf(im.inodes[n - 1]) == I_REGULAR
    ensures EntryCount(Resized(im, n, size), order, k, x) == EntryCount(im, order, k, x)
    decreases k
  {
    hide EntsOf, Resized, CountEnts;
    if k > 0 {
      SameEntryCount(im, n, size, order, k - 1, x);
      SameEnts(im, n, size, k);
    }
  }

  lemma SamePlaced(im: Image, n: nat, size: nat, order: seq<nat>, k: nat)
    requires Shaped(im) && IsInode(im, n) && TypeOf(im.inodes[n - 1]) == I_REGULAR && k < |order|
    ensures Placed(Resized(im, n, size), order, k) <==> Placed(im, order, k)
  {
    hide EntsOf;
    var im' := Resized(im, n, size);
    forall p: nat
      ensures PlacedBy(im', order, k, p) <==> PlacedBy(im, order, k, p)
    {
      SameEnts(im, n, size, p);
      SameEnts(im, n, size, order[k]);
    }
  }

  /** The same inodes, entries and links. */
  lemma SameTree(im: Image, n: nat, size: nat, order: seq<nat>)
    requires Shaped(im) && IsInode(im, n) && TypeOf(im.inodes[n - 1]) == I_REGULAR
    ensures var im' := Resized(im, n, size);
            && (Ordered(im', order) <==> Ordered(im, order))
            && (forall p, c: nat :: Lists(im', p, c) <==> Lists(im, p, c))
            && (ListedOnce(im', order) <==> ListedOnce(im, order))
            && (forall x: nat :: EntryCount(im', order, im.ninodes, x) == EntryCount(im, order, im.ninodes, x))
  {
    hide EntsOf, EntryCount, Placed, Resized;
    var im' := Resized(im, n, size);
    forall k | 0 <= k < |order|
      ensures Placed(im', order, k) <==> Placed(im, order, k)
    {
      SamePlaced(im, n, size, order, k);
    }
    forall p: nat
      ensures EntsOf(im', p) == EntsOf(im, p) && (IsDir(im', p) <==> IsDir(im, p))
    {
      SameEnts(im, n, size, p);
    }
    forall x: nat
      ensures EntryCount(im', order, im.ninodes, x) == EntryCount(im, order, im.ninodes, x)
    {
      SameEntryCount(im, n, size, order, im.ninodes, x);
    }
  }

  /** Zones belong to the same inodes as before. */
  lemma SameUses(im: Image, n: nat, size: nat, x: nat, z: nat)
    requires Shaped(im) && IsInode(im, n) && TypeOf(im.inodes[n - 1]) == I_REGULAR && size >= im.inodes[n - 1].size
    requires NoneBeyond(im, im.inodes[n - 1]) || AllCovered(im, im.inodes[n - 1])
    ensures Uses(Resized(im, n, size), x, z) <==> Uses(im, x, z)
  {
    hide Covered, NoneBeyond, AllCovered, ZonesFine;
    if x == n {
      LargerCover(im, Resized(im, n, size), im.inodes[n - 1], size);
    } else if IsInode(im, x) {
      SameOthers(im, n, size, x);
    }
  }

  lemma SameZonesClean(im: Image, n: nat, size: nat, order: seq<nat>)
    requires Shaped(im) && IsInode(im, n) && TypeOf(im.inodes[n - 1]) == I_REGULAR && size >= im.inodes[n - 1].size
    requires NoneBeyond(im, im.inodes[n - 1]) || AllCovered(im, im.inodes[n - 1])
    ensures ZonesClean(Resized(im, n, size), order) <==> ZonesClean(im, order)
  {
    hide Uses, NoneBeyond, AllCovered;
    forall x: nat, z: nat
      ensures Uses(Resized(im, n, size), x, z) <==> Uses(im, x, z)
    {
      SameUses(im, n, size, x, z);
    }
    forall z: nat
      ensures InUse(Resized(im, n, size), order, z) <==> InUse(im, order, z)
    {
    }
  }

  lemma SameFine(im: Image, n: nat, size: nat, x: nat)
    requires Shaped(im) && IsInode(im, n) && TypeOf(im.inodes[n - 1]) == I_REGULAR && size >= im.inodes[n - 1].size
    requires IsInode(im, x)
    ensures var im' := Resized(im, n, size);
            && im'.inodes[x - 1].nlinks == im.inodes[x - 1].nlinks
            && (ZonesFine(im, im.inodes[x - 1]) ==> ZonesFine(im', im'.inodes[x - 1]))
            && (AllCovered(im, im.inodes[n - 1]) ==>
                 (ZonesFine(im', im'.inodes[x - 1]) <==> ZonesFine(im, im.inodes[x - 1])))
  {
    hide ZonesFine, AllCovered, NoneBeyond, Covered;
    var im' := Resized(im, n, size);
    if x == n {
      LargerCover(im, im', im.inodes[n - 1], size);
      FineBeyond(im, im.inodes[n - 1]);
    } else {
      SameOthers(im, n, size, x);
    }
  }

  lemma SameInodesClean(im: Image, n: nat, size: nat, order: seq<nat>)
    requires Shaped(im) && IsInode(im, n) && TypeOf(im.inodes[n - 1]) == I_REGULAR && size >= im.inodes[n - 1].size
    ensures InodesClean(im, order) ==> InodesClean(Resized(im, n, size), order)
    ensures AllCovered(im, im.inodes[n - 1]) ==> (InodesClean(Resized(im, n, size), order) <==> InodesClean(im, order))
  {
    hide ZonesFine, EntryCount, AllCovered, Ordered, ListedOnce, Lists;
    var im' := Resized(im, n, size);
    SameTree(im, n, size, order);
    forall x: nat | IsInode(im, x)
      ensures im'.inodes[x - 1].nlinks == im.inodes[x - 1].nlinks
      ensures ZonesFine(im, im.inodes[x - 1]) ==> ZonesFine(im', im'.inodes[x - 1])
      ensures AllCovered(im, im.inodes[n - 1]) ==>
                (ZonesFine(im', im'.inodes[x - 1]) <==> ZonesFine(im, im.inodes[x - 1]))
    {
      SameFine(im, n, size, x);
    }
    if InodesClean(im, order) {
      forall x | x in order
        ensures IsInode(im', x) && ZonesFine(im', im'.inodes[x - 1])
                && im'.inodes[x - 1].nlinks == EntryCount(im', order, im'.ninodes, x)
      {
        assert IsInode(im, x);
      }
    }
    if AllCovered(im, im.inodes[n - 1]) && InodesClean(im', order) {
      forall x | x in order
        ensures IsInode(im, x) && ZonesFine(im, im.inodes[x - 1])
                && im.inodes[x - 1].nlinks == EntryCount(im, order, im.ninodes, x)
      {
        assert IsInode(im', x);
      }
    }
  }

  lemma FineBeyond(im: Image, ino: Inode)
    requires |ino.zone| == 9
    ensures ZonesFine(im, ino) ==> NoneBeyond(im, ino)
  {
  }

  /** No size of a regular file is too large for the check: a clean image stays clean, and where
      the zones are covered already nothing changes at all. */
  lemma OversizeUnseen(im: Image, n: nat, size: nat, order: seq<nat>)
    requires Shaped(im) && IsInode(im, n) && TypeOf(im.inodes[n - 1]) == I_REGULAR && size >= im.inodes[n - 1].size
    ensures n in order && Clean(im, order) ==> Clean(Resized(im, n, size), order)
    ensures n in order && Consistent(im, order) ==> Consistent(Resized(im, n, size), order)
    ensures AllCovered(im, im.inodes[n - 1]) ==> (Clean(Resized(im, n, size), order) <==> Clean(im, order))
  {
    hide Ordered, ZonesClean, ZonesFine, NoneBeyond, AllCovered, Lists, ListedOnce, EntryCount, Resized;
    SameTree(im, n, size, order);
    SameInodesClean(im, n, size, order);
    FineBeyond(im, im.inodes[n - 1]);
    if AllCovered(im, im.inodes[n - 1]) || (n in order && InodesClean(im, order)) {
      SameZonesClean(im, n, size, order);
    }
  }

  /** The check on an image and on one with a larger regular file. */
  method CheckResized(im: Image, n: nat, size: nat) returns (r: Report)
    requires Shaped(im) && IsInode(im, n) && TypeOf(im.inodes[n - 1]) == I_REGULAR && size >= im.inodes[n - 1].size
    ensures (exists order :: n in order && Consistent(im, order)) ==> r == Problems([])
  {
    hide Consistent, Resized;
    forall order: seq<nat> | n in order && Consistent(im, order)
      ensures Consistent(Resized(im, n, size), order)
    {
      OversizeUnseen(im, n, size, order);
    }
    r := Check(Resized(im, n, size));
  }
}
