/** tools/mkfs.py: building a whole tree from a prototype. */
module MkfsTree {
  import opened Common
  import opened MinixImage
  import opened MinixModel
  import opened MinixSteps
  import opened Mkfs
  import opened MinixSettled
  import opened MkfsMode

  /** A prototype: the lines of a directory with their tokens, the data of files in place of their
      names.  What a line describes follows from the first character of its mode. */
  datatype Proto =
    | PFile(mode: string, uid: nat, gid: nat, data: seq<byte>)
    | PDev(mode: string, uid: nat, gid: nat, major: nat, minor: nat, blocks: nat)
    | PDir(mode: string, uid: nat, gid: nat, entries: seq<PEntry>)
  datatype PEntry = PEntry(name: seq<byte>, node: Proto)

  function KindFor(p: Proto): Kind {
    match p
    case PFile(_, _, _, _) => Regular
    case PDev(_, _, _, _, _, _) => Device
    case PDir(_, _, _, _) => Directory
  }

  function ModeOf(p: Proto): nat {
    ModeCon(p.mode).GetOr(0)
  }

  /** The type is that of the line. */
  predicate GoodType(p: Proto) {
    && p.mode != ""
    && match p
       case PFile(_, _, _, _) => p.mode[0] == '-'
       case PDev(_, _, _, _, _, _) => p.mode[0] == 'b' || p.mode[0] == 'c'
       case PDir(_, _, _, _) => p.mode[0] == 'd'
  }

  function AttrOf(p: Proto): Attr {
    Attr(ModeOf(p), p.uid, p.gid)
  }

  lemma ModeKind(p: Proto, ino: Inode)
    requires GoodType(p) && ModeCon(p.mode).Some? && ino.mode == ModeOf(p)
    ensures KindOf(ino) == Some(KindFor(p)) && ino.mode < 65536
  {
    hide ModeCon;
    ModeConSays(p.mode);
  }

  ghost predicate GoodName(name: seq<byte>) {
    |name| >= 1 && name != DOT && name != DOTDOT && forall i :: 0 <= i < |name| ==> name[i] != 0
  }

  /** Names are usable and distinct in every directory. */
  ghost predicate GoodProto(p: Proto)
    decreases p
  {
    GoodType(p) && (p.PDir? ==> GoodEntries(p.entries))
  }

  ghost predicate GoodEntries(entries: seq<PEntry>)
    decreases entries
  {
    && (forall k :: 0 <= k < |entries| ==> GoodName(entries[k].name) && GoodProto(entries[k].node))
    && (forall j, k :: 0 <= j < k < |entries| ==> entries[j].name != entries[k].name)
  }

  // ----- what fits -----

  /** Mode and owner can be stored. */
  predicate HeadFits(p: Proto) {
    IsMode(p.mode) && p.uid < 65536 && p.gid < 256
  }

  /** The zones of an inode before the entries of a directory are read. */
  function OwnZones(p: Proto): nat {
    match p
    case PFile(_, _, _, data) => FileZones(data)
    case PDev(_, _, _, _, _, _) => 0
    case PDir(_, _, _, _) => 1
  }

  /** It can be stored, whatever else there is. */
  predicate Storable(p: Proto) {
    && HeadFits(p)
    && match p
       case PFile(_, _, _, data) => FileBlocks(data) <= NR_DZONE + NR_INDIRECTS
       case PDev(_, _, _, major, minor, _) => DeviceNumber(major, minor) < 65536
       case PDir(_, _, _, _) => true
  }

  /** There is room for one more entry of a directory. */
  ghost predicate EntryOk(dir: Node, name: seq<byte>, p: Proto, inodes: int, zones: int) {
    && inodes >= 1 && Storable(p) && |name| <= NAME_MAX
    && |dir.ents| < SLOTS * NR_DZONE && (p.PDir? ==> dir.links < 255)
    && Growth(dir) + OwnZones(p) <= zones
  }

  /** The inodes of a prototype. */
  function NodeCount(p: Proto): nat
    decreases p, 0
  {
    1 + if p.PDir? then EntryNodes(p.entries, |p.entries|) else 0
  }

  /** The inodes of the first k entries and what is below them. */
  function EntryNodes(entries: seq<PEntry>, k: nat): nat
    requires k <= |entries|
    decreases entries, k
  {
    if k == 0 then 0 else EntryNodes(entries, k - 1) + NodeCount(entries[k - 1].node)
  }

  /** A directory with k entries besides the dots is full up to its last block. */
  function GrowsAt(k: nat): nat {
    if (2 + k) % SLOTS == 0 then 1 else 0
  }

  /** The zones of a prototype. */
  function ZoneCount(p: Proto): nat
    decreases p, 0
  {
    OwnZones(p) + if p.PDir? then EntryZones(p.entries, |p.entries|) else 0
  }

  /** The zones of the first k entries, what is below them and what the directory grows by. */
  function EntryZones(entries: seq<PEntry>, k: nat): nat
    requires k <= |entries|
    decreases entries, k
  {
    if k == 0 then 0 else EntryZones(entries, k - 1) + GrowsAt(k - 1) + ZoneCount(entries[k - 1].node)
  }

  function SubDirs(entries: seq<PEntry>, k: nat): nat
    requires k <= |entries|
  {
    if k == 0 then 0 else SubDirs(entries, k - 1) + if entries[k - 1].node.PDir? then 1 else 0
  }

  /** Everything can be stored: names, owners, file sizes, directory sizes, link counts. */
  ghost predicate AllStorable(p: Proto)
    decreases p
  {
    Storable(p) && (p.PDir? ==> DirStorable(p.entries))
  }

  ghost predicate DirStorable(entries: seq<PEntry>)
    decreases entries
  {
    && 2 + |entries| <= SLOTS * NR_DZONE && 2 + SubDirs(entries, |entries|) <= 255
    && forall k :: 0 <= k < |entries| ==> |entries[k].name| <= NAME_MAX && AllStorable(entries[k].node)
  }

  /** The entries fit into so many inodes and zones. */
  ghost predicate DirFits(entries: seq<PEntry>, inodes: int, zones: int) {
    DirStorable(entries) && EntryNodes(entries, |entries|) <= inodes && EntryZones(entries, |entries|) <= zones
  }

  /** The first k entries need no more than all. */
  lemma {:induction false} NeedPart(entries: seq<PEntry>, k: nat, n: nat)
    requires k <= n <= |entries|
    ensures EntryNodes(entries, k) <= EntryNodes(entries, n) && EntryZones(entries, k) <= EntryZones(entries, n)
    ensures SubDirs(entries, k) <= SubDirs(entries, n)
    decreases n
  {
    hide NodeCount, ZoneCount, GrowsAt;
    if k < n {
      NeedPart(entries, k, n - 1);
    }
  }

  /** What entry k takes. */
  lemma StepCount(entries: seq<PEntry>, k: nat)
    requires k < |entries|
    ensures var p := entries[k].node;
            && EntryNodes(entries, k + 1)
                 == EntryNodes(entries, k) + 1 + (if p.PDir? then EntryNodes(p.entries, |p.entries|) else 0)
            && EntryZones(entries, k + 1) == EntryZones(entries, k) + GrowsAt(k) + OwnZones(p)
                                             + (if p.PDir? then EntryZones(p.entries, |p.entries|) else 0)
            && SubDirs(entries, k + 1) == SubDirs(entries, k) + (if p.PDir? then 1 else 0)
            && (p.PDir? ==> OwnZones(p) == 1)
  {
    hide GrowsAt, FileZones;
  }

  /** If all entries fit, so does entry k after those before it, and then what is below it. */
  lemma {:induction false} NextFits(entries: seq<PEntry>, k: nat, dir: Node, inodes: int, zones: int)
    requires k < |entries| && DirFits(entries, inodes, zones)
    requires |dir.ents| == 2 + k && Growth(dir) == GrowsAt(k) && dir.links == 2 + SubDirs(entries, k)
    ensures var i, z := inodes - EntryNodes(entries, k), zones - EntryZones(entries, k);
            var p := entries[k].node;
            && EntryOk(dir, entries[k].name, p, i, z)
            && (p.PDir? ==> DirFits(p.entries, i - 1, z - GrowsAt(k) - 1))
  {
    hide OwnZones, NodeCount, ZoneCount, EntryNodes, EntryZones, SubDirs, GrowsAt, Growth, FileBlocks;
    NeedPart(entries, k + 1, |entries|);
    StepCount(entries, k);
    assert AllStorable(entries[k].node);
  }

  lemma OwnDir(p: Proto)
    requires p.PDir?
    ensures OwnZones(p) == 1
  {
  }

  // ----- stages of one entry -----

  /** m is m0 with directory p replaced and one new inode. */
  ghost predicate Stage(m0: Model, m: Model, p: nat, parent: Node, node: Node) {
    && m0.Has(p) && m.first == m0.first
    && m.nodes == m0.nodes[p - 1 := parent] + [node]
    && (forall z: nat :: !Loose(m, z))
  }

  lemma StageAt(m0: Model, m: Model, p: nat, parent: Node, node: Node)
    requires Stage(m0, m, p, parent, node)
    ensures m.Has(p) && m.Has(m0.NextInode()) && m.At(p) == parent && m.At(m0.NextInode()) == node
  {
  }

  /** The new inode, or its parent, has changed. */
  lemma StageNew(m0: Model, m: Model, p: nat, parent: Node, node: Node, m': Model, node': Node)
    requires Stage(m0, m, p, parent, node)
    requires m'.first == m.first && m'.nodes == m.nodes[m0.NextInode() - 1 := node']
    requires forall z: nat :: Loose(m', z) ==> Loose(m, z)
    ensures Stage(m0, m', p, parent, node')
  {
    assert m.nodes[m0.NextInode() - 1 := node'] == m0.nodes[p - 1 := parent] + [node'];
  }

  lemma StageParent(m0: Model, m: Model, p: nat, parent: Node, node: Node, m': Model, parent': Node)
    requires Stage(m0, m, p, parent, node)
    requires m'.first == m.first && m'.nodes == m.nodes[p - 1 := parent']
    requires forall z: nat :: Loose(m', z) ==> Loose(m, z)
    ensures Stage(m0, m', p, parent', node)
  {
    assert m.nodes[p - 1 := parent'] == m0.nodes[p - 1 := parent'] + [node];
  }

  lemma CountedLoose(m: Model, n: nat, node: Node)
    requires m.Has(n)
    ensures forall z: nat :: Loose(m.With(n, node), z) <==> Loose(m, z)
    ensures m.With(n, node).nodes == m.nodes[n - 1 := node]
  {
  }

  /** The first zone and the dot entries of a directory. */
  method StartDir(fs: FileSystem, n: nat, parent: nat) returns (ok: bool)
    requires fs.Valid() && fs.m.Has(n) && 0 < n < 65536 && 0 < parent < 65536
    requires fs.m.At(n).kind == Directory && fs.m.At(n).ents == [] && fs.m.At(n).zones == [] && fs.m.At(n).size == 0
    requires forall z: nat :: !Loose(fs.m, z)
    modifies fs
    ensures ok <==> old(fs.ZoneRoom()) >= 1
    ensures ok ==> fs.Valid() && fs.SameShape() && fs.ZoneRoom() == old(fs.ZoneRoom()) - 1
    ensures ok ==> |fs.m.nodes| == |old(fs.m).nodes| && fs.m.nodes == old(fs.m).nodes[n - 1 := fs.m.At(n)]
    ensures ok ==>
              var node := old(fs.m).At(n);
              && fs.m.At(n) == node.(ents := [Entry(n, DOT), Entry(parent, DOTDOT)], size := node.size + 32,
                                        zones := fs.m.At(n).zones)
              && |fs.m.At(n).zones| == 1
    ensures ok ==> forall z: nat :: !Loose(fs.m, z)
  {
    hide Rep, Packable, Bordered;
    var z;
    ghost var m0 := fs.m;
    ok, z := fs.AllocZone();
    if !ok {
      return;
    }
    ghost var m1 := fs.m;
    assert m1.At(n) == m0.At(n);
    ok := fs.AddZone(n, z, 32, []);
    if !ok {
      return;
    }
    assert m0.At(n).data + [] == m0.At(n).data;
    LooseAfter(m0, m1, fs.m, z);
    ok := fs.EnterDir(n, DOT, n);
    if !ok {
      return;
    }
    ok := fs.EnterDir(n, DOTDOT, parent);
  }

  /** add_zone() for a device: its number goes where a file has its first zone. */
  method AddDevice(fs: FileSystem, n: nat, dev: nat, size: nat) returns (ok: bool)
    requires fs.Valid() && fs.m.Has(n) && fs.m.At(n).kind == Device && fs.m.At(n).zones == []
    requires fs.m.At(n).size == 0
    modifies fs
    ensures ok <==> dev < 65536
    ensures ok ==> fs.Valid() && fs.SameShape()
    ensures ok ==> fs.m == old(fs.m).With(n, Numbered(old(fs.m).At(n), dev, size % WORD32))
                   && fs.ZoneRoom() == old(fs.ZoneRoom())
  {
    hide Rep, Packable, Bordered, Numbered;
    if dev >= 65536 {
      return false;
    }
    var bytes := size % WORD32;
    DeviceRep(fs.image, fs.m, n, dev, bytes);
    NodeStored(fs.image, fs.m, n);
    NumberedPacked(fs.image, n, dev, bytes);
    var ino := fs.image.inodes[n - 1];
    fs.image := fs.image.(inodes :=
        fs.image.inodes[n - 1 := ino.(size := ino.size + bytes, zone := ino.zone[0 := dev])]);
    fs.m := fs.m.With(n, Numbered(fs.m.At(n), dev, bytes));
    ok := true;
  }

  lemma NumberedPacked(im: Image, n: nat, dev: nat, size: nat)
    requires Packable(im) && 1 <= n <= im.ninodes == |im.inodes| && |im.inodes[n - 1].zone| == 9
    requires im.inodes[n - 1].size + size < WORD32 && dev < 65536
    ensures var ino := im.inodes[n - 1];
            Packable(im.(inodes := im.inodes[n - 1 := ino.(size := ino.size + size, zone := ino.zone[0 := dev])]))
  {
    var ino := im.inodes[n - 1];
    PackedInode(im, n);
    var ino' := ino.(size := ino.size + size, zone := ino.zone[0 := dev]);
    assert InodePackable(ino');
    PackedStill(im, im.(inodes := im.inodes[n - 1 := ino']), n);
  }

  /** The new inode of an entry, entered into directory p and counted. */
  method NewEntry(fs: FileSystem, p: nat, name: seq<byte>, proto: Proto) returns (ok: bool, n: nat)
    requires fs.Valid() && fs.m.Has(p) && p < 65536 && fs.m.At(p).kind == Directory && |fs.m.At(p).zones| <= NR_DZONE
    requires fs.m.At(p).size <= DIR_SIZE * SLOTS * NR_DZONE
    requires GoodName(name) && GoodType(proto) && forall z: nat :: !Loose(fs.m, z)
    modifies fs
    ensures ok <==> old(fs.InodeRoom()) >= 1 && HeadFits(proto) && |name| <= NAME_MAX
                    && EntryFits(old(fs.m).At(p), old(fs.ZoneRoom()))
    ensures ok ==> fs.Valid() && fs.SameShape() && n == old(fs.m).NextInode() < 65536
    ensures ok ==> fs.ZoneRoom() == old(fs.ZoneRoom()) - Growth(old(fs.m).At(p))
    ensures ok ==> fs.m.Has(p) && p != n && fs.m.Has(n)
    ensures ok ==> Stage(old(fs.m), fs.m, p, fs.m.At(p), Counted(EmptyNode(KindFor(proto), AttrOf(proto), p), 0, 1))
    ensures ok ==> ParentAfter(old(fs.m).At(p), fs.m.At(p), Entry(n, name), 0)
  {
    hide Rep, Packable, Bordered;
    ghost var m0 := fs.m;
    ModeConSays(proto.mode);
    var mode := ModeCon(proto.mode);
    if mode.None? {
      return false, 0;
    }
    ModeKind(proto, Inode(ModeOf(proto), proto.uid, 0, 0, proto.gid, 0, ZeroZones(9)));
    ok, n := fs.AllocInode(mode.value, proto.uid, proto.gid, KindFor(proto), p);
    if !ok {
      return;
    }
    ghost var m1, node1 := fs.m, EmptyNode(KindFor(proto), AttrOf(proto), p);
    InodesSmall(fs.image, fs.m);
    assert Stage(m0, m1, p, m0.At(p), node1) by {
      assert m0.nodes[p - 1 := m0.At(p)] == m0.nodes;
      assert forall z: nat :: Loose(m1, z) ==> Loose(m0, z);
    }
    ok := fs.EnterDir(p, name, n);
    if !ok {
      return;
    }
    ghost var m2 := fs.m;
    StageParent(m0, m1, p, m0.At(p), node1, m2, m2.At(p));
    fs.IncrSize(p, DIR_SIZE);
    ghost var m3 := fs.m;
    CountedLoose(m2, p, m3.At(p));
    StageParent(m0, m2, p, m2.At(p), node1, m3, m3.At(p));
    StageAt(m0, m3, p, m3.At(p), node1);
    ok := fs.IncrLink(n);
    if !ok {
      return;
    }
    CountedLoose(m3, n, fs.m.At(n));
    StageNew(m0, m3, p, m3.At(p), node1, fs.m, fs.m.At(n));
    StageAt(m0, fs.m, p, m3.At(p), fs.m.At(n));
  }

  lemma InodesSmall(im: Image, m: Model)
    requires Rep(im, m)
    ensures |m.nodes| <= im.ninodes < 65536
  {
    hide NodesRep, FreeRep, Attached;
  }

  /** A directory after entry e was added and dots subdirectories point to it. */
  ghost predicate ParentAfter(a: Node, b: Node, e: Entry, links: nat) {
    && b == a.(ents := a.ents + [e], size := a.size + DIR_SIZE, zones := b.zones, links := a.links + links)
    && |b.zones| == (if |a.ents| < SLOTS * |a.zones| then |a.zones| else |a.zones| + 1) <= NR_DZONE
  }

  /** The node an entry gets, before the entries of a directory are read. */
  ghost predicate NodeFor(node: Node, proto: Proto, n: nat, p: nat) {
    && NewNode(node, n) && node.kind == KindFor(proto) && node.parent == p
    && IsMode(proto.mode) && node.attr == AttrOf(proto)
    && (proto.PFile? ==> node.data == proto.data)
    && (proto.PDev? ==>
          node.zones == [DeviceNumber(proto.major, proto.minor)] && node.size == proto.blocks * BLOCK % WORD32)
  }

  /** One line of a directory in the prototype, up to the entries below it. */
  method EatEntry(fs: FileSystem, p: nat, name: seq<byte>, proto: Proto) returns (ok: bool, n: nat)
    requires fs.Valid() && fs.m.Has(p) && p < 65536 && fs.m.At(p).kind == Directory && |fs.m.At(p).zones| <= NR_DZONE
    requires fs.m.At(p).size <= DIR_SIZE * SLOTS * NR_DZONE
    requires GoodName(name) && GoodType(proto) && forall z: nat :: !Loose(fs.m, z)
    modifies fs
    ensures ok <==> EntryOk(old(fs.m).At(p), name, proto, old(fs.InodeRoom()), old(fs.ZoneRoom()))
    ensures ok ==> fs.Valid() && fs.SameShape() && n == old(fs.m).NextInode() < 65536 && fs.m.Has(n)
    ensures ok ==> fs.ZoneRoom() == old(fs.ZoneRoom()) - Growth(old(fs.m).At(p)) - OwnZones(proto)
    ensures ok ==> fs.InodeRoom() == old(fs.InodeRoom()) - 1
    ensures ok ==> OneMore(old(fs.m), fs.m, p, name, fs.m.At(n)) && NodeFor(fs.m.At(n), proto, n, p)
  {
    hide Rep, Packable, Bordered;
    ghost var m0 := fs.m;
    ok, n := NewEntry(fs, p, name, proto);
    if !ok {
      return;
    }
    ghost var m1 := fs.m;
    ghost var parent, node := m1.At(p), m1.At(n);
    StageAt(m0, m1, p, parent, node);
    match proto
    case PFile(_, _, _, data) =>
      ok := fs.EatFile(n, data);
      if !ok {
        return;
      }
      StageNew(m0, m1, p, parent, node, fs.m, fs.m.At(n));
      StageAt(m0, fs.m, p, parent, fs.m.At(n));
    case PDev(_, _, _, major, minor, blocks) =>
      ok := AddDevice(fs, n, DeviceNumber(major, minor), blocks * BLOCK);
      if !ok {
        return;
      }
      CountedLoose(m1, n, fs.m.At(n));
      StageNew(m0, m1, p, parent, node, fs.m, fs.m.At(n));
      StageAt(m0, fs.m, p, parent, fs.m.At(n));
    case PDir(_, _, _, _) =>
      ok := LinkDir(fs, n, p, m0, AttrOf(proto));
  }

  /** The dot entries of a new directory and the links they make. */
  method LinkDir(fs: FileSystem, n: nat, p: nat, ghost m0: Model, ghost attr: Attr) returns (ok: bool)
    requires fs.Valid() && m0.Has(p) && n == m0.NextInode() < 65536 && fs.m.Has(p)
    requires Stage(m0, fs.m, p, fs.m.At(p), Counted(EmptyNode(Directory, attr, p), 0, 1))
    modifies fs
    ensures old(fs.m).Has(p) && (ok <==> old(fs.ZoneRoom()) >= 1 && old(fs.m).At(p).links < 255)
    ensures ok ==> fs.Valid() && fs.SameShape() && fs.m.Has(p) && fs.m.Has(n) && fs.ZoneRoom() == old(fs.ZoneRoom()) - 1
    ensures ok ==> Stage(m0, fs.m, p, Counted(old(fs.m).At(p), 0, 1), fs.m.At(n))
    ensures ok ==> NewNode(fs.m.At(n), n) && fs.m.At(n).kind == Directory && fs.m.At(n).attr == attr
                   && fs.m.At(n).parent == p
  {
    hide Rep, Packable, Bordered;
    ghost var m1 := fs.m;
    ghost var parent, node := m1.At(p), m1.At(n);
    StageAt(m0, m1, p, parent, node);
    ok := StartDir(fs, n, p);
    if !ok {
      return;
    }
    ghost var m2 := fs.m;
    StageNew(m0, m1, p, parent, node, m2, m2.At(n));
    StageAt(m0, m2, p, parent, m2.At(n));
    ok := fs.IncrLink(p);
    if !ok {
      return;
    }
    ghost var m3 := fs.m;
    CountedLoose(m2, p, m3.At(p));
    StageParent(m0, m2, p, parent, m2.At(n), m3, m3.At(p));
    StageAt(m0, m3, p, m3.At(p), m2.At(n));
    ok := fs.IncrLink(n);
    if !ok {
      return;
    }
    CountedLoose(m3, n, fs.m.At(n));
    StageNew(m0, m3, p, m3.At(p), m2.At(n), fs.m, fs.m.At(n));
    StageAt(m0, fs.m, p, m3.At(p), fs.m.At(n));
  }

  // ----- whole directories -----

  /** Inode n and what is below it is what the prototype says. */
  ghost predicate BuiltNode(m: Model, n: nat, proto: Proto)
    decreases proto
  {
    && m.Has(n) && m.At(n).kind == KindFor(proto) && IsMode(proto.mode) && m.At(n).attr == AttrOf(proto)
    && match proto
       case PFile(_, _, _, data) => m.At(n).data == data
       case PDev(_, _, _, major, minor, blocks) =>
         m.At(n).zones == [DeviceNumber(major, minor)] && m.At(n).size == blocks * BLOCK % WORD32
       case PDir(_, _, _, entries) => |m.At(n).ents| == 2 + |entries| && BuiltUpTo(m, n, entries, |entries|)
  }

  /** The first k entries of directory n are as in the prototype. */
  ghost predicate BuiltUpTo(m: Model, n: nat, entries: seq<PEntry>, k: nat)
    requires k <= |entries|
    decreases entries
  {
    && m.Has(n) && |m.At(n).ents| >= 2 + k
    && forall j :: 0 <= j < k ==>
         && m.At(n).ents[2 + j].name == entries[j].name && m.At(n).ents[2 + j].num > n
         && BuiltNode(m, m.At(n).ents[2 + j].num, entries[j].node)
  }

  /** From inode n on nothing has changed. */
  ghost predicate SameFrom(m: Model, m': Model, n: nat) {
    |m.nodes| <= |m'.nodes| && forall x :: n <= x && m.Has(x) ==> m'.At(x) == m.At(x)
  }

  lemma {:induction false} BuiltStays(m: Model, m': Model, n: nat, proto: Proto)
    requires BuiltNode(m, n, proto) && SameFrom(m, m', n)
    ensures BuiltNode(m', n, proto)
    decreases proto, 0
  {
    assert m'.At(n) == m.At(n);
    if proto.PDir? {
      EntriesStay(m, m', n, proto.entries);
    }
  }

  lemma EntryAt(m: Model, n: nat, entries: seq<PEntry>, j: nat)
    requires j < |entries| && BuiltUpTo(m, n, entries, |entries|)
    ensures m.At(n).ents[2 + j].name == entries[j].name && m.At(n).ents[2 + j].num > n
    ensures BuiltNode(m, m.At(n).ents[2 + j].num, entries[j].node)
  {
    hide BuiltNode;
  }

  lemma {:induction false} EntriesStay(m: Model, m': Model, n: nat, entries: seq<PEntry>)
    requires BuiltUpTo(m, n, entries, |entries|) && SameFrom(m, m', n) && m'.At(n) == m.At(n)
    ensures BuiltUpTo(m', n, entries, |entries|)
    decreases entries, 0
  {
    forall j | 0 <= j < |entries|
      ensures m'.At(n).ents[2 + j].name == entries[j].name && m'.At(n).ents[2 + j].num > n
      ensures BuiltNode(m', m'.At(n).ents[2 + j].num, entries[j].node)
    {
      EntryAt(m, n, entries, j);
      BuiltStays(m, m', m.At(n).ents[2 + j].num, entries[j].node);
    }
  }

  /** All inodes but p are as before, and p only got more entries. */
  ghost predicate Kept(m: Model, m': Model, p: nat) {
    && m.Has(p) && |m.nodes| <= |m'.nodes|
    && (forall x :: m.Has(x) && x != p ==> m'.At(x) == m.At(x))
    && m.At(p).ents <= m'.At(p).ents
    && m'.At(p).kind == m.At(p).kind && m'.At(p).attr == m.At(p).attr && m'.At(p).parent == m.At(p).parent
  }

  lemma BuiltKept(m: Model, m': Model, p: nat, entries: seq<PEntry>, k: nat)
    requires k <= |entries| && BuiltUpTo(m, p, entries, k) && Kept(m, m', p)
    ensures BuiltUpTo(m', p, entries, k)
  {
    forall j | 0 <= j < k
      ensures m'.At(p).ents[2 + j] == m.At(p).ents[2 + j] && BuiltNode(m', m'.At(p).ents[2 + j].num, entries[j].node)
    {
      BuiltStays(m, m', m.At(p).ents[2 + j].num, entries[j].node);
    }
  }

  lemma OneMoreKept(m: Model, m': Model, p: nat, name: seq<byte>, node: Node)
    requires m.Has(p) && OneMore(m, m', p, name, node)
    ensures Kept(m, m', p) && m'.Has(m.NextInode()) && m'.At(m.NextInode()) == node
    ensures |m'.At(p).ents| == |m.At(p).ents| + 1 && m'.At(p).ents[|m.At(p).ents|] == Entry(m.NextInode(), name)
  {
    forall x | m.Has(x)
      ensures x != p ==> m'.At(x) == m.At(x)
    {
      SameElsewhere(m, m', p, name, node, x);
    }
    SameElsewhere(m, m', p, name, node, p);
  }

  lemma KeptBoth(m: Model, m1: Model, m2: Model, p: nat, n: nat)
    requires Kept(m, m1, p) && Kept(m1, m2, n) && n > |m.nodes|
    ensures Kept(m, m2, p)
  {
  }

  /** The directory is complete up to entry k. */
  ghost predicate DirProgress(m0: Model, m: Model, p: nat, entries: seq<PEntry>, k: nat) {
    && k <= |entries| && Settled(m) && Kept(m0, m, p) && m.At(p).kind == Directory
    && |m.At(p).ents| == 2 + k && BuiltUpTo(m, p, entries, k)
  }

  /** The name of the next entry is new, and the directory has a sound shape. */
  lemma NextName(m0: Model, m: Model, p: nat, entries: seq<PEntry>, k: nat)
    requires DirProgress(m0, m, p, entries, k) && k < |entries| && GoodEntries(entries)
    ensures forall j :: 2 <= j < |m.At(p).ents| ==> m.At(p).ents[j].name != entries[k].name
    ensures |m.At(p).zones| <= NR_DZONE
  {
    hide BuiltNode, Links;
    assert NodeSettled(m, p);
    forall j | 2 <= j < |m.At(p).ents|
      ensures m.At(p).ents[j].name != entries[k].name
    {
      assert m.At(p).ents[2 + (j - 2)].name == entries[j - 2].name;
    }
  }

  lemma EntryDone(m0: Model, m: Model, m': Model, p: nat, entries: seq<PEntry>, k: nat, n: nat)
    requires DirProgress(m0, m, p, entries, k) && k < |entries|
    requires n == m.NextInode() && Settled(m') && Kept(m, m', p) && m'.At(p).kind == Directory
    requires |m'.At(p).ents| == 3 + k && m'.At(p).ents[2 + k] == Entry(n, entries[k].name)
    requires BuiltNode(m', n, entries[k].node)
    ensures DirProgress(m0, m', p, entries, k + 1)
  {
    hide Settled, BuiltNode, BuiltUpTo;
    BuiltKept(m, m', p, entries, k);
    BuiltMore(m', p, entries, k, n);
    KeptTwice(m0, m, m', p);
  }

  lemma BuiltMore(m: Model, p: nat, entries: seq<PEntry>, k: nat, n: nat)
    requires k < |entries| && BuiltUpTo(m, p, entries, k) && |m.At(p).ents| == 3 + k && n > p
    requires m.At(p).ents[2 + k] == Entry(n, entries[k].name) && BuiltNode(m, n, entries[k].node)
    ensures BuiltUpTo(m, p, entries, k + 1)
  {
    hide BuiltNode;
  }

  lemma KeptTwice(m0: Model, m: Model, m': Model, p: nat)
    requires Kept(m0, m, p) && Kept(m, m', p)
    ensures Kept(m0, m', p)
  {
  }

  lemma DirShape(m0: Model, m: Model, p: nat, entries: seq<PEntry>, k: nat)
    requires DirProgress(m0, m, p, entries, k)
    ensures k <= |entries| && m.Has(p) && m.At(p).kind == Directory && Settled(m) && Kept(m0, m, p)
    ensures |m.At(p).ents| == 2 + k && |m.At(p).zones| == (|m.At(p).ents| + SLOTS - 1) / SLOTS
    ensures m.At(p).size == DIR_SIZE * |m.At(p).ents| <= DIR_SIZE * SLOTS * NR_DZONE
    ensures Growth(m.At(p)) == GrowsAt(k)
  {
    hide BuiltUpTo, Links;
    assert NodeSettled(m, p);
  }

  /** The first k entries can be stored. */
  ghost predicate StoredUpTo(entries: seq<PEntry>, k: nat)
    requires k <= |entries|
  {
    && 2 + k <= SLOTS * NR_DZONE && 2 + SubDirs(entries, k) <= 255
    && forall j :: 0 <= j < k ==> |entries[j].name| <= NAME_MAX && AllStorable(entries[j].node)
  }

  lemma StepStored(entries: seq<PEntry>, k: nat, dir: Node, inodes: int, zones: int)
    requires k < |entries| && StoredUpTo(entries, k) && |dir.ents| == 2 + k && dir.links == 2 + SubDirs(entries, k)
    requires var p := entries[k].node;
             EntryOk(dir, entries[k].name, p, inodes, zones) && (p.PDir? ==> DirStorable(p.entries))
    ensures StoredUpTo(entries, k + 1)
  {
    hide OwnZones, Growth;
  }

  lemma AllStored(entries: seq<PEntry>, inodes: int, zones: int)
    requires StoredUpTo(entries, |entries|)
    requires EntryNodes(entries, |entries|) <= inodes && EntryZones(entries, |entries|) <= zones
    ensures DirFits(entries, inodes, zones)
  {
    hide NodeCount, ZoneCount, AllStorable;
  }

  lemma FitsStored(entries: seq<PEntry>, inodes: int, zones: int)
    requires DirFits(entries, inodes, zones)
    ensures DirStorable(entries)
  {
  }

  lemma NoneEaten(entries: seq<PEntry>)
    ensures EntryNodes(entries, 0) == 0 && EntryZones(entries, 0) == 0 && SubDirs(entries, 0) == 0
            && StoredUpTo(entries, 0)
  {
  }

  lemma GoodAt(entries: seq<PEntry>, k: nat)
    requires GoodEntries(entries) && k < |entries|
    ensures GoodName(entries[k].name) && GoodType(entries[k].node)
    ensures entries[k].node.PDir? ==> GoodEntries(entries[k].node.entries)
  {
    assert GoodProto(entries[k].node);
  }

  /** eat_dir() */
  method EatDir(fs: FileSystem, p: nat, entries: seq<PEntry>) returns (ok: bool)
    requires fs.Valid() && fs.m.Has(p) && p < 65536 && DirProgress(fs.m, fs.m, p, entries, 0) && GoodEntries(entries)
    requires fs.m.At(p).links == 2
    modifies fs
    ensures ok <==> DirFits(entries, old(fs.InodeRoom()), old(fs.ZoneRoom()))
    ensures ok ==> fs.Valid() && fs.SameShape()
    ensures ok ==> fs.InodeRoom() == old(fs.InodeRoom()) - EntryNodes(entries, |entries|)
    ensures ok ==> fs.ZoneRoom() == old(fs.ZoneRoom()) - EntryZones(entries, |entries|)
    ensures ok ==> DirProgress(old(fs.m), fs.m, p, entries, |entries|)
    decreases entries
  {
    hide Rep, Packable, Bordered, Settled, OneMore, NodeFor, BuiltNode, DirProgress, GoodEntries, GoodName;
    hide DirFits, EntryOk, NodeCount, ZoneCount, OwnZones, EntryNodes, EntryZones, SubDirs, StoredUpTo, Growth, GrowsAt;
    ghost var m0, inodes, zones := fs.m, fs.InodeRoom(), fs.ZoneRoom();
    NoneEaten(entries);
    var k := 0;
    while k < |entries|
      invariant 0 <= k <= |entries| && fs.Valid() && fs.SameShape()
      invariant DirProgress(m0, fs.m, p, entries, k)
      invariant fs.InodeRoom() == inodes - EntryNodes(entries, k) && fs.ZoneRoom() == zones - EntryZones(entries, k)
      invariant fs.m.At(p).links == 2 + SubDirs(entries, k) && StoredUpTo(entries, k)
    {
      ghost var m1, inodes1, zones1 := fs.m, fs.InodeRoom(), fs.ZoneRoom();
      DirShape(m0, m1, p, entries, k);
      if DirFits(entries, inodes, zones) {
        NextFits(entries, k, m1.At(p), inodes, zones);
      }
      NextName(m0, m1, p, entries, k);
      NoLoose(m1);
      GoodAt(entries, k);
      var proto := entries[k].node;
      var n;
      ok, n := EatEntry(fs, p, entries[k].name, proto);
      if !ok {
        return;
      }
      ghost var m2 := fs.m;
      AfterEntry(m1, m2, p, entries[k].name, proto, n);
      if proto.PDir? {
        SubdirReady(m2, n, p, proto);
        ghost var inodes2, zones2 := fs.InodeRoom(), fs.ZoneRoom();
        OwnDir(proto);
        ok := EatDir(fs, n, proto.entries);
        if !ok {
          return;
        }
        FitsStored(proto.entries, inodes2, zones2);
        SubdirDone(m1, m2, fs.m, p, n, proto);
      }
      EntryDone(m0, m1, fs.m, p, entries, k, n);
      StepCount(entries, k);
      StepStored(entries, k, m1.At(p), inodes1, zones1);
      k := k + 1;
    }
    AllStored(entries, inodes, zones);
    ok := true;
  }

  lemma NoLoose(m: Model)
    requires Settled(m)
    ensures forall z: nat :: !Loose(m, z)
  {
  }

  lemma AfterEntry(m1: Model, m2: Model, p: nat, name: seq<byte>, proto: Proto, n: nat)
    requires Settled(m1) && m1.Has(p) && m1.At(p).kind == Directory && n == m1.NextInode() && m2.Has(n)
    requires OneMore(m1, m2, p, name, m2.At(n)) && NodeFor(m2.At(n), proto, n, p) && GoodName(name)
    requires forall k :: 2 <= k < |m1.At(p).ents| ==> m1.At(p).ents[k].name != name
    ensures Settled(m2) && Kept(m1, m2, p) && NodeFor(m2.At(n), proto, n, p)
    ensures |m2.At(p).ents| == |m1.At(p).ents| + 1 && m2.At(p).ents[|m1.At(p).ents|] == Entry(n, name)
    ensures m2.At(p).links == m1.At(p).links + if proto.PDir? then 1 else 0
    ensures proto.PDir? ==> m2.At(n).links == 2
    ensures !proto.PDir? ==> BuiltNode(m2, n, proto)
  {
    hide Settled, OneMore;
    SettledOneMore(m1, m2, p, name, m2.At(n));
    OneMoreKept(m1, m2, p, name, m2.At(n));
    OneMoreLinks(m1, m2, p, name, m2.At(n));
  }

  lemma OneMoreLinks(m: Model, m': Model, p: nat, name: seq<byte>, node: Node)
    requires m.Has(p) && OneMore(m, m', p, name, node)
    ensures m'.Has(p) && m'.At(p).links == m.At(p).links + if node.kind == Directory then 1 else 0
  {
  }

  lemma SubdirReady(m: Model, n: nat, p: nat, proto: Proto)
    requires Settled(m) && m.Has(n) && proto.PDir? && NodeFor(m.At(n), proto, n, p)
    ensures DirProgress(m, m, n, proto.entries, 0) && IsMode(proto.mode) && m.At(n).attr == AttrOf(proto)
  {
    hide Settled;
  }

  lemma SubdirDone(m1: Model, m2: Model, m3: Model, p: nat, n: nat, proto: Proto)
    requires m1.Has(p) && Kept(m1, m2, p) && n == m1.NextInode() && m2.Has(n) && proto.PDir?
    requires DirProgress(m2, m3, n, proto.entries, |proto.entries|) && IsMode(proto.mode)
             && m2.At(n).attr == AttrOf(proto)
    ensures Settled(m3) && Kept(m1, m3, p) && BuiltNode(m3, n, proto) && m3.At(p) == m2.At(p)
  {
    hide Settled;
    KeptBoth(m1, m2, m3, p, n);
  }

  lemma RootLinks(node: Node)
    requires node.parent == 1 && node.kind == Directory && NewNode(node, 1)
    ensures Links([node], 1) == 2
  {
    hide CountEnts;
    var a, b := Entry(1, DOT), Entry(1, DOTDOT);
    assert node.ents == [] + [a] + [b] && [node] == [] + [node];
    LinksSnoc([], node, 1);
    CountSnoc([] + [a], b, 1);
    CountSnoc([], a, 1);
    assert CountEnts([], 1) == 0 by {
      NoCount([], 1);
    }
  }

  /** A file system with nothing but an empty root directory. */
  lemma RootSettled(m: Model, node: Node)
    requires m.nodes == [node] && node.kind == Directory && node.parent == 1
    requires NewNode(node, 1) && forall z: nat :: !Loose(m, z)
    ensures Settled(m)
  {
    hide Links, CountEnts, Loose, ListedAt, ListsAt;
    RootLinks(node);
    assert m.At(1) == node;
    assert DirSettled(m, 1);
    assert NodeSettled(m, 1);
    assert forall n :: m.Has(n) ==> n == 1;
  }

  /** The root inode and rootdir(). */
  method RootDir(fs: FileSystem, proto: Proto) returns (ok: bool)
    requires fs.Valid() && fs.m == Model(fs.image.first, [], []) && proto.PDir? && GoodType(proto)
    modifies fs
    ensures ok <==> old(fs.InodeRoom()) >= 1 && old(fs.ZoneRoom()) >= 1 && HeadFits(proto)
    ensures ok ==> fs.Valid() && fs.SameShape() && fs.m.Has(1) && DirProgress(fs.m, fs.m, 1, proto.entries, 0)
    ensures ok ==> fs.InodeRoom() == old(fs.InodeRoom()) - 1 && fs.ZoneRoom() == old(fs.ZoneRoom()) - 1
    ensures ok ==> fs.m.At(1).links == 2 && fs.m.At(1).attr == AttrOf(proto)
  {
    hide Rep, Packable, Bordered, Settled;
    ModeConSays(proto.mode);
    var mode := ModeCon(proto.mode);
    if mode.None? {
      return false;
    }
    ModeKind(proto, Inode(ModeOf(proto), proto.uid, 0, 0, proto.gid, 0, ZeroZones(9)));
    var n;
    ok, n := fs.AllocInode(mode.value, proto.uid, proto.gid, Directory, 1);
    if !ok {
      return;
    }
    assert forall z: nat :: !Loose(fs.m, z);
    ok := StartDir(fs, 1, 1);
    if !ok {
      return;
    }
    assert fs.m.nodes == [fs.m.At(1)];
    ok := LinkRoot(fs);
    if !ok {
      return;
    }
    RootSettled(fs.m, fs.m.At(1));
  }

  /** The links of the two dot entries. */
  method LinkRoot(fs: FileSystem) returns (ok: bool)
    requires fs.Valid() && |fs.m.nodes| == 1 && fs.m.At(1).links == 0 && forall z: nat :: !Loose(fs.m, z)
    modifies fs
    ensures ok && fs.Valid() && fs.SameShape() && fs.ZoneRoom() == old(fs.ZoneRoom())
    ensures fs.m.nodes == [old(fs.m).At(1).(links := 2)] && forall z: nat :: !Loose(fs.m, z)
  {
    hide Rep, Packable, Bordered, Loose;
    ok := fs.IncrLink(1);
    ghost var m1 := fs.m;
    CountedLoose(old(fs.m), 1, m1.At(1));
    ok := fs.IncrLink(1);
    CountedLoose(m1, 1, fs.m.At(1));
  }

  /** What a finished run of mkfs leaves: a complete image of the prototype. */
  ghost predicate Complete(im: Image, m: Model, proto: Proto) {
    Rep(im, m) && Settled(m) && BuiltNode(m, 1, proto)
  }

  /** The prototype fits a file system of so many blocks and inodes.  The last inode is never
      used, and bits are only set in the first block of each bit map. */
  ghost predicate Fits(blocks: nat, inodes: nat, proto: Proto) {
    var first := FirstZone(blocks, inodes);
    && blocks <= 65535 && inodes <= 65535 && first < blocks && AllStorable(proto)
    && NodeCount(proto) < Min(inodes, BITS_PER_BLOCK)
    && ZoneCount(proto) <= Min(blocks - first, BITS_PER_BLOCK - 1)
  }

  lemma FitsSize(blocks: nat, inodes: nat, proto: Proto)
    ensures Fits(blocks, inodes, proto) ==> blocks <= 65535 && inodes <= 65535 && FirstZone(blocks, inodes) < blocks
  {
  }

  lemma RootFits(blocks: nat, inodes: nat, proto: Proto)
    requires proto.PDir? && blocks <= 65535 && inodes <= 65535 && FirstZone(blocks, inodes) < blocks
    ensures var i, z := Min(inodes - 1, BITS_PER_BLOCK - 1),
            Min(blocks - FirstZone(blocks, inodes), BITS_PER_BLOCK - 1);
            Fits(blocks, inodes, proto) <==>
                i >= 1 && z >= 1 && HeadFits(proto) && DirFits(proto.entries, i - 1, z - 1)
  {
    hide EntryNodes, EntryZones, FirstZone, DirStorable;
  }

  lemma AllBordered(im: Image)
    requires forall i :: 0 <= i < |im.inodeMap| ==> (im.inodeMap[i] <==> i == 0 || i > im.ninodes)
    requires forall i :: 0 <= i < |im.zoneMap| ==> (im.zoneMap[i] <==> i == 0 || i > im.nzones - im.first)
    ensures Bordered(im.inodeMap, im.ninodes) && Bordered(im.zoneMap, im.nzones - im.first)
  {
  }

  /** mkfs: the whole program.  None: it stopped with an error. */
  method Build(blocks: nat, inodes: nat, big: bool, proto: Proto) returns (r: Option<Image>, ghost m: Model)
    requires proto.PDir? && GoodProto(proto)
    ensures r.Some? <==> Fits(blocks, inodes, proto)
    ensures r.Some? ==> Complete(r.value, m, proto) && Packable(r.value) && r.value.big == big
    ensures r.Some? ==> Bordered(r.value.inodeMap, inodes) && Bordered(r.value.zoneMap, blocks - r.value.first)
    ensures r.Some? ==> r.value.ninodes == inodes && r.value.nzones == blocks
                        && r.value.first == FirstZone(blocks, inodes)
  {
    hide Rep, Packable, Bordered, Settled, Fits, DirFits, FirstZone;
    m := Model(0, [], []);
    if blocks <= 65535 && inodes <= 65535 && FirstZone(blocks, inodes) < blocks {
      RootFits(blocks, inodes, proto);
    }
    FitsSize(blocks, inodes, proto);
    var super1 := Super(blocks, inodes, big);
    if super1.None? {
      return None, m;
    }
    AllBordered(super1.value);
    var fs := new FileSystem(super1.value);
    var ok := RootDir(fs, proto);
    if !ok {
      return None, m;
    }
    ok := EatDir(fs, 1, proto.entries);
    if !ok {
      return None, m;
    }
    m := fs.m;
    r := Some(fs.image);
  }
}
