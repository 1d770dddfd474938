/** What mkfs builds is clean, and what the check cannot see. */
module MkfsCheck {
  import opened Common
  import opened MinixImage
  import opened MinixModel
  import opened MinixSteps
  import opened Mkfs
  import opened MinixSettled
  import opened MkfsTree
  import opened MinixRead
  import opened MinixPath
  import opened MinixCheck
  import opened MinixSizes

  // ----- what mkfs leaves is clean -----

  /** A complete image as mkfs leaves it. */
  ghost predicate Finished(im: Image, m: Model) {
    Rep(im, m) && Settled(m) && m.nodes != []
  }

  lemma FinishedEnts(im: Image, m: Model, n: nat)
    requires Finished(im, m) && m.Has(n)
    ensures Shaped(im) && IsInode(im, n)
    ensures EntsOf(im, n) == m.At(n).ents
  {
    hide DirEntries, Links;
    NodeRep(im, m, n);
    assert NodeSettled(m, n);
    if m.At(n).kind == Directory {
      DirReadsBack(im, m, n);
    }
  }

  lemma {:induction false} NotNamed(entries: seq<Entry>, i: nat, name: seq<byte>)
    requires i < |entries| && entries[i].name == name
    requires forall k :: i < k < |entries| ==> entries[k].name != name
    ensures LastNamed(entries, name) == Some(entries[i].num)
    decreases |entries|
  {
    if i < |entries| - 1 {
      NotNamed(entries[..|entries| - 1], i, name);
    }
  }

  lemma FinishedDir(im: Image, m: Model, n: nat)
    requires Finished(im, m) && m.Has(n) && m.At(n).kind == Directory
    ensures DirFine(im, n, m.At(n).parent, m.At(n).ents)
  {
    hide Links, LastNamed;
    var ents := m.At(n).ents;
    assert NodeSettled(m, n);
    forall k | 0 <= k < |ents|
      ensures ents[k].num <= im.ninodes
    {
      EntryInRange(m, n, k);
    }
    forall k | 2 <= k < |ents|
      ensures !Dots(ents[k].name)
    {
      assert ListsAt(m, n, k);
    }
    assert DOT != DOTDOT by {
      assert |DOT| != |DOTDOT|;
    }
    NotNamed(ents, 0, DOT);
    NotNamed(ents, 1, DOTDOT);
  }

  /** Covered zones are the zones of the model. */
  lemma FinishedZones(im: Image, m: Model, n: nat)
    requires Finished(im, m) && m.Has(n)
    ensures Shaped(im) && IsInode(im, n)
    ensures HasZones(im.inodes[n - 1]) <==> m.At(n).kind != Device
    ensures HasZones(im.inodes[n - 1]) ==> ZonesOf(im, im.inodes[n - 1]).Some?
    ensures NoneBeyond(im, im.inodes[n - 1]) && Covered(im, im.inodes[n - 1]) == m.At(n).Owned()
  {
    hide Links, ZonesOf;
    assert NodeSettled(m, n);
    NodeRep(im, m, n);
    if m.At(n).kind != Device {
      ZonesOfNode(im, m, n);
      var (z, ind) := ZonesOf(im, im.inodes[n - 1]).value;
      assert z[..|m.At(n).zones|] == m.At(n).zones;
    }
  }

  lemma OwnerMarked(im: Image, m: Model, n: nat, z: nat)
    requires Finished(im, m) && Shaped(im) && m.Has(n)
    ensures Uses(im, n, z) <==> m.OwnerOf(z) == n
  {
    hide Settled, Covered, Node.Owned, NoneBeyond, ZonesOf;
    FinishedZones(im, m, n);
    NodeRep(im, m, n);
    if z in m.At(n).Owned() {
      var k :| 0 <= k < |m.At(n).Owned()| && m.At(n).Owned()[k] == z;
    }
    if m.OwnerOf(z) == n {
      assert z in m.At(n).Owned();
    }
  }

  lemma {:induction false} FinishedCount(im: Image, m: Model, used: seq<nat>, k: nat, x: nat)
    requires Finished(im, m) && Shaped(im) && k <= im.ninodes
    requires forall n :: n in used <==> m.Has(n)
    ensures EntryCount(im, used, k, x) == Links(m.nodes[..if k <= |m.nodes| then k else |m.nodes|], x)
    decreases k
  {
    hide Finished, EntsOf, CountEnts;
    if k > 0 {
      FinishedCount(im, m, used, k - 1, x);
      if k <= |m.nodes| {
        FinishedEnts(im, m, k);
        assert m.nodes[..k] == m.nodes[..k - 1] + [m.At(k)];
        LinksSnoc(m.nodes[..k - 1], m.At(k), x);
      }
    }
  }

  lemma LinksStored(im: Image, m: Model, n: nat)
    requires Finished(im, m) && m.Has(n)
    ensures Shaped(im) && IsInode(im, n) && im.inodes[n - 1].nlinks == Links(m.nodes, n)
  {
    hide Links;
    NodeRep(im, m, n);
    assert NodeSettled(m, n);
  }

  /** The inodes in the order in which mkfs made them. */
  function Numbers(n: nat): (s: seq<nat>)
    ensures |s| == n && forall k :: 0 <= k < n ==> s[k] == k + 1
  {
    seq(n, k => k + 1)
  }

  lemma NumbersHas(m: Model, n: nat)
    ensures n in Numbers(|m.nodes|) <==> m.Has(n)
  {
    if m.Has(n) {
      assert Numbers(|m.nodes|)[n - 1] == n;
    }
  }

  /** Each inode stands behind the directory that lists it. */
  lemma FinishedPlaced(im: Image, m: Model, k: nat)
    requires Finished(im, m) && k < |m.nodes|
    ensures Shaped(im) && Placed(im, Numbers(|m.nodes|), k)
  {
    hide Links, Rep, EntsOf, DirFine;
    var order, n := Numbers(|m.nodes|), k + 1;
    assert NodeSettled(m, n);
    var p := m.At(n).parent;
    FinishedEnts(im, m, n);
    DirKind(im, m, n);
    if m.At(n).kind == Directory {
      FinishedDir(im, m, n);
    }
    if k > 0 {
      FinishedEnts(im, m, p);
      var j :| ListedAt(m, n, j);
      assert NodeSettled(m, p);
      assert ListsAt(m, p, j);
      assert Lists(im, p, n);
      assert order[..k][p - 1] == p;
    }
    assert PlacedBy(im, order, k, p);
  }

  /** What a directory lists was made, below it. */
  lemma FinishedLists(im: Image, m: Model, p: nat, c: nat)
    requires Finished(im, m) && m.Has(p) && Shaped(im) && Lists(im, p, c)
    ensures m.Has(c) && m.At(c).parent == p
  {
    hide Links, Rep, EntsOf;
    FinishedEnts(im, m, p);
    var k :| 0 <= k < |EntsOf(im, p)| && EntsOf(im, p)[k].num == c && !Dots(EntsOf(im, p)[k].name);
    assert NodeSettled(m, p);
    assert ListsAt(m, p, k);
  }

  lemma FinishedInodes(im: Image, m: Model)
    requires Finished(im, m)
    ensures Shaped(im) && InodesClean(im, Numbers(|m.nodes|))
  {
    hide Settled, EntryCount, NodesRep, Links;
    var order := Numbers(|m.nodes|);
    forall n
      ensures n in order <==> 1 <= n <= |m.nodes|
    {
      if n >= 0 {
        NumbersHas(m, n);
      }
    }
    forall n: nat | m.Has(n)
      ensures IsInode(im, n) && ZonesFine(im, im.inodes[n - 1])
              && im.inodes[n - 1].nlinks == EntryCount(im, order, im.ninodes, n)
    {
      FinishedFine(im, m, n);
      LinksStored(im, m, n);
      FinishedCount(im, m, order, im.ninodes, n);
      assert m.nodes[..|m.nodes|] == m.nodes;
    }
  }

  lemma FinishedFine(im: Image, m: Model, n: nat)
    requires Finished(im, m) && m.Has(n)
    ensures Shaped(im) && IsInode(im, n) && ZonesFine(im, im.inodes[n - 1])
  {
    hide Settled, Covered, Node.Owned, NoneBeyond;
    FinishedZones(im, m, n);
    NodeRep(im, m, n);
  }

  lemma FinishedZonesClean(im: Image, m: Model)
    requires Finished(im, m)
    ensures Shaped(im) && ZonesClean(im, Numbers(|m.nodes|))
  {
    hide NodeSettled, NodesRep, Uses;
    var order := Numbers(|m.nodes|);
    forall n: nat, z: nat | n in order
      ensures Uses(im, n, z) <==> m.OwnerOf(z) == n
    {
      NumbersHas(m, n);
      OwnerMarked(im, m, n, z);
    }
    forall z: nat | im.first <= z < im.nzones
      ensures im.zoneMap[z - im.first + 1] <==> InUse(im, order, z)
    {
      if z < m.NextZone() {
        assert !Loose(m, z);
        NumbersHas(m, m.OwnerOf(z));
        assert Uses(im, m.OwnerOf(z), z);
      }
    }
  }

  /** Every image mkfs completes is consistent. */
  lemma FinishedConsistent(im: Image, m: Model)
    requires Finished(im, m)
    ensures Shaped(im) && Consistent(im, Numbers(|m.nodes|))
  {
    hide Settled, Rep, InodesClean, ZonesClean, Lists, Placed;
    var order := Numbers(|m.nodes|);
    FinishedInodes(im, m);
    FinishedZonesClean(im, m);
    forall k | 0 <= k < |order|
      ensures Placed(im, order, k)
    {
      FinishedPlaced(im, m, k);
    }
    forall p: nat, c: nat | p in order && Lists(im, p, c)
      ensures c in order && m.Has(c) && m.At(c).parent == p
    {
      NumbersHas(m, p);
      FinishedLists(im, m, p, c);
      NumbersHas(m, c);
    }
  }

  /** mkfs and then minixfs check: mkfs completes exactly if the prototype fits, every image it
      completes is without a problem, and all that the prototype has is found under its path if
      the names are plain, and only then. */
  method BuildAndCheck(blocks: nat, inodes: nat, big: bool, proto: Proto) returns (r: Option<(Image, Report)>)
    requires proto.PDir? && GoodProto(proto)
    ensures r.Some? <==> Fits(blocks, inodes, proto)
    ensures r.Some? ==> r.value.1 == Problems([]) && Shaped(r.value.0)
    ensures r.Some? ==> forall names :: PathFinds(r.value.0, proto, names)
  {
    hide Rep, Settled, BuiltNode, LookupFrom, InodeShows, GoodProto, Fits, Usable, Plain, LookupPath;
    var image, m := Build(blocks, inodes, big, proto);
    if image.None? {
      return None;
    }
    var im := image.value;
    CompleteFinished(im, m, proto);
    FinishedConsistent(im, m);
    var report := Check(im);
    EverythingFound(im, m, proto);
    r := Some((im, report));
  }

  lemma EverythingFound(im: Image, m: Model, proto: Proto)
    requires Complete(im, m, proto)
    ensures Shaped(im) && forall names :: PathFinds(im, proto, names)
  {
    hide Complete, LookupFrom, InodeShows, Usable, Plain, LookupPath;
    CompleteFinished(im, m, proto);
    forall names: seq<string>
      ensures PathFinds(im, proto, names)
    {
      if (forall i :: 0 <= i < |names| ==> Usable(names[i])) && ProtoAt(proto, Stored(names)).Some? {
        FoundAtItsPath(im, m, proto, names);
      }
    }
  }

  lemma CompleteFinished(im: Image, m: Model, proto: Proto)
    requires Complete(im, m, proto)
    ensures Finished(im, m) && Shaped(im)
  {
    hide Settled;
  }

  /** A file system with one empty file. */
  function OneFile(name: seq<byte>): Proto {
    PDir("d--755", 0, 0, [PEntry(name, PFile("---644", 0, 0, []))])
  }

  lemma OneFileFits(name: seq<byte>)
    requires GoodName(name) && |name| <= NAME_MAX
    ensures GoodProto(OneFile(name)) && Fits(20, 32, OneFile(name))
  {
    var entries := OneFile(name).entries;
    assert DirStorable(entries) by {
      assert AllStorable(entries[0].node);
      assert SubDirs(entries, 1) == SubDirs(entries, 0) == 0;
    }
    assert EntryNodes(entries, 1) == EntryNodes(entries, 0) + 1 && NodeCount(OneFile(name)) == 2;
    assert EntryZones(entries, 1) == EntryZones(entries, 0) == 0 && ZoneCount(OneFile(name)) == 1;
  }

  /** The inode of the file. */
  lemma EmptyFileAt(im: Image, m: Model, name: seq<byte>)
    requires Complete(im, m, OneFile(name)) && name != DOT && name != DOTDOT
    ensures Shaped(im)
    ensures var n := LookupFrom(im, 1, [name]);
            && n.Some? && IsInode(im, n.value) && TypeOf(im.inodes[n.value - 1]) == I_REGULAR
            && im.inodes[n.value - 1].size == 0 && im.inodes[n.value - 1].zone == ZeroZones(9)
            && n.value in Numbers(|m.nodes|)
  {
    hide Settled, LookupFrom, Rep, BuiltNode;
    var proto, path := OneFile(name), [name];
    assert FindEntry(proto.entries, name) == Some(PFile("---644", 0, 0, []));
    assert ProtoAt(PFile("---644", 0, 0, []), path[1..]) == Some(PFile("---644", 0, 0, []));
    assert ProtoAt(proto, path) == Some(PFile("---644", 0, 0, []));
    LookupAgrees(im, m, 1, proto, path);
    EmptyFile(im, m, LookupFrom(im, 1, path).value);
  }

  lemma EmptyFile(im: Image, m: Model, n: nat)
    requires Rep(im, m) && Settled(m) && BuiltNode(m, n, PFile("---644", 0, 0, []))
    ensures Shaped(im) && IsInode(im, n) && TypeOf(im.inodes[n - 1]) == I_REGULAR
    ensures im.inodes[n - 1].size == 0 && im.inodes[n - 1].zone == ZeroZones(9) && n in Numbers(|m.nodes|)
  {
    hide Links, Rep;
    assert NodeSettled(m, n);
    NodeRep(im, m, n);
    NumbersHas(m, n);
    NodeZones(im, m, n);
  }

  lemma ResizedEmpty(im: Image, n: nat)
    requires Shaped(im) && IsInode(im, n) && TypeOf(im.inodes[n - 1]) == I_REGULAR
    requires im.inodes[n - 1].zone == ZeroZones(9) && im.nzones > 0
    ensures Covered(Resized(im, n, 5000), Resized(im, n, 5000).inodes[n - 1]) == ZeroZones(5)
  {
    assert ZeroZones(9)[..NR_DZONE][..5] == ZeroZones(5);
  }

  /** An input the check should report and does not: a file of 5000 bytes without any zone. */
  method OversizeExample() returns (im: Image, n: nat, r: Report)
    ensures Shaped(im) && IsInode(im, n) && TypeOf(im.inodes[n - 1]) == I_REGULAR && im.inodes[n - 1].size == 5000
    ensures Covered(im, im.inodes[n - 1]) == ZeroZones(5)
    ensures r == Problems([])
  {
    hide Rep, Settled, BuiltNode, Fits, GoodProto, Covered, Consistent;
    var name: seq<byte> := [97];
    assert name != DOT && name != DOTDOT by {
      assert name[0] != DOT[0] && name[0] != DOTDOT[0];
    }
    OneFileFits(name);
    var image, m := Build(20, 32, true, OneFile(name));
    CompleteFinished(image.value, m, OneFile(name));
    FinishedConsistent(image.value, m);
    EmptyFileAt(image.value, m, name);
    n := LookupFrom(image.value, 1, [name]).value;
    im := Resized(image.value, n, 5000);
    ResizedEmpty(image.value, n);
    r := CheckResized(image.value, n, 5000);
  }

  /** The bytes of "a/b". */
  lemma SlashName()
    ensures Utf8("a/b") == [97, 47, 98]
  {
    Utf8Ascii("a/b");
    var s := Latin1(Utf8("a/b"));
    assert Code(s[0]) == 97 && Code(s[1]) == 47 && Code(s[2]) == 98;
  }

  /** The root has no entry "a". */
  lemma NoEntryA(im: Image, m: Model, name: seq<byte>)
    requires Complete(im, m, OneFile(name)) && name == [97, 47, 98]
    ensures Shaped(im) && LookupParts(im, 1, ["a", "b"]) == None
  {
    hide Links, Rep, DirEntries;
    assert NodeSettled(m, 1);
    DirReadsBack(im, m, 1);
    CompleteFinished(im, m, OneFile(name));
    var ents := m.At(1).ents;
    MkfsTree.EntryAt(m, 1, OneFile(name).entries, 0);
    assert |ents| == 3 && ents[0].name == DOT && ents[1].name == DOTDOT && ents[2].name == name;
    DotTexts();
    assert |Latin1(name)| == 3;
    NoneNamed(ents, "a");
  }

  lemma {:induction false} NoneNamed(entries: seq<Entry>, part: string)
    requires forall k :: 0 <= k < |entries| ==> Latin1(entries[k].name) != part
    ensures FindText(entries, part) == None
    decreases |entries|
  {
    if entries != [] {
      NoneNamed(entries[1..], part);
    }
  }

  /** A file that mkfs stores and lookup does not find under its path. */
  method SlashExample() returns (im: Image, n: nat)
    ensures Shaped(im) && IsInode(im, n) && TypeOf(im.inodes[n - 1]) == I_REGULAR
    ensures LookupFrom(im, 1, [Utf8("a/b")]) == Some(n) && LookupPath(im, "/a/b") == None
  {
    hide Rep, Settled, BuiltNode, Fits, GoodProto, LookupFrom, LookupParts, Utf8, Parts;
    SlashName();
    SlashParts();
    var name: seq<byte> := [97, 47, 98];
    assert name != DOT && name != DOTDOT by {
      assert name[0] != DOT[0] && name[0] != DOTDOT[0];
    }
    OneFileFits(name);
    var image, m := Build(20, 32, true, OneFile(name));
    im := image.value;
    EmptyFileAt(im, m, name);
    NoEntryA(im, m, name);
    n := LookupFrom(im, 1, [name]).value;
  }
}
