/** Reading a complete image back: tools/minixfs.py finds what mkfs stored. */
module MinixRead {
  import opened Common
  import opened MinixImage
  import opened MinixModel
  import opened MinixSteps
  import opened Mkfs
  import opened MinixSettled
  import opened MkfsTree
  import opened MkfsMode

  /** z lists the zones and then only zeros. */
  ghost predicate Padded(z: seq<nat>, zones: seq<nat>) {
    |zones| <= |z| && forall k :: 0 <= k < |z| ==> z[k] == if k < |zones| then zones[k] else 0
  }

  /** zones() lists the zones of a file or directory in order, then zeros. */
  lemma ZonesOfNode(im: Image, m: Model, n: nat)
    requires Rep(im, m) && m.Has(n) && m.At(n).kind != Device
    ensures n <= |im.inodes| && |im.inodes[n - 1].zone| == 9
    ensures var r := ZonesOf(im, im.inodes[n - 1]);
            && r.Some? && Padded(r.value.0, m.At(n).zones)
            && r.value.1 == if m.At(n).ind == 0 then [] else [m.At(n).ind]
  {
    NodeZones(im, m, n);
    NodeRep(im, m, n);
    hide Rep, InodeRep, BlocksRep, ZonesOf, Padded;
    ZonesOfInode(im, im.inodes[n - 1], m.At(n));
  }

  lemma ZonesOfInode(im: Image, ino: Inode, node: Node)
    requires InodeRep(ino, node) && BlocksRep(im.big, im.blocks, node) && node.kind != Device && |im.blocks| > 0
    ensures |ino.zone| == 9
    ensures var r := ZonesOf(im, ino);
            r.Some? && Padded(r.value.0, node.zones) && r.value.1 == if node.ind == 0 then [] else [node.ind]
  {
    hide Word, DirBlock, ChunkBlock, DoubleZones;
    OwnedParts(node);
    if node.ind != 0 {
      assert IndBlock(im.big, BlockOf(im.blocks, node.ind), node.zones);
    }
  }

  // ----- file contents -----

  /** The blocks of some zones, one after the other. */
  function Cat(im: Image, zones: seq<nat>): seq<byte> {
    if zones == [] then [] else Cat(im, zones[..|zones| - 1]) + BlockBytes(im, zones[|zones| - 1])
  }

  ghost predicate InImage(im: Image, zones: seq<nat>) {
    forall k :: 0 <= k < |zones| ==> 0 < zones[k] < |im.blocks|
  }

  lemma {:induction false} CatAt(im: Image, zones: seq<nat>)
    requires InImage(im, zones)
    ensures |Cat(im, zones)| == BLOCK * |zones|
    ensures forall i :: 0 <= i < BLOCK * |zones| ==> Cat(im, zones)[i] == im.blocks[zones[i / BLOCK]][i % BLOCK]
    decreases |zones|
  {
    if zones != [] {
      var k := |zones| - 1;
      CatAt(im, zones[..k]);
      forall i | 0 <= i < BLOCK * |zones|
        ensures Cat(im, zones)[i] == im.blocks[zones[i / BLOCK]][i % BLOCK]
      {
        if i < BLOCK * k {
          assert zones[..k][i / BLOCK] == zones[i / BLOCK];
        }
      }
    }
  }

  /** The loop of read_file() stops after the zones the size needs. */
  lemma {:induction false} GatherCat(im: Image, z: seq<nat>, zones: seq<nat>, size: nat, k: nat, out: seq<byte>)
    requires Padded(z, zones) && InImage(im, zones) && k <= |zones| == (size + BLOCK - 1) / BLOCK
    requires out == Cat(im, zones[..k])
    ensures Gather(im, z[k..], size, out) == Cat(im, zones)
    decreases |zones| - k
  {
    assert InImage(im, zones[..k]);
    CatAt(im, zones[..k]);
    if k == |zones| {
      assert zones[..k] == zones;
    } else {
      assert zones[..k + 1][..k] == zones[..k];
      assert z[k..][0] == zones[k] && z[k..][1..] == z[k + 1..];
      GatherCat(im, z, zones, size, k + 1, out + BlockBytes(im, zones[k]));
    }
  }

  lemma ReadNode(im: Image, m: Model, n: nat)
    requires Rep(im, m) && m.Has(n) && m.At(n).kind != Device
    requires |m.At(n).zones| == (m.At(n).size + BLOCK - 1) / BLOCK
    ensures n <= |im.inodes| && |im.inodes[n - 1].zone| == 9 && InImage(im, m.At(n).zones)
    ensures ReadFile(im, im.inodes[n - 1]) == Some(Take(Cat(im, m.At(n).zones), m.At(n).size))
  {
    hide Rep, Gather, Cat;
    NodeZones(im, m, n);
    ZonesOfNode(im, m, n);
    var node, ino := m.At(n), im.inodes[n - 1];
    var z := ZonesOf(im, ino).value.0;
    assert z[0..] == z && node.zones[..0] == [];
    NoCat(im);
    GatherCat(im, z, node.zones, node.size, 0, []);
  }

  lemma NoCat(im: Image)
    ensures Cat(im, []) == []
  {
  }

  lemma ChunkAt(data: seq<byte>, i: nat)
    requires i < |data|
    ensures ChunkBlock(data, i / BLOCK)[i % BLOCK] == data[i]
  {
    var k := i / BLOCK;
    assert data[BLOCK * k..][i % BLOCK] == data[i];
  }

  /** A file reads back as the bytes it was made from. */
  lemma FileReadsBack(im: Image, m: Model, n: nat)
    requires Rep(im, m) && Settled(m) && m.Has(n) && m.At(n).kind == Regular
    ensures n <= |im.inodes| && |im.inodes[n - 1].zone| == 9
    ensures ReadFile(im, im.inodes[n - 1]) == Some(m.At(n).data)
  {
    hide Links, Cat, ChunkBlock, ReadFile;
    assert NodeSettled(m, n);
    var node := m.At(n);
    ReadNode(im, m, n);
    CatAt(im, node.zones);
    NodeRep(im, m, n);
    var r := Take(Cat(im, node.zones), node.size);
    forall i | 0 <= i < |node.data|
      ensures r[i] == node.data[i]
    {
      ChunkAt(node.data, i);
      assert BlockOf(im.blocks, node.zones[i / BLOCK]) == ChunkBlock(node.data, i / BLOCK);
    }
    assert r == node.data;
  }

  // ----- directories -----

  lemma SlotOfData(im: Image, m: Model, n: nat, g: nat)
    requires Rep(im, m) && m.Has(n) && m.At(n).kind == Directory && InImage(im, m.At(n).zones)
    requires g < |m.At(n).ents| && DIR_SIZE * |m.At(n).ents| <= BLOCK * |m.At(n).zones|
    ensures var data := Take(Cat(im, m.At(n).zones), DIR_SIZE * |m.At(n).ents|);
            && |data| == DIR_SIZE * |m.At(n).ents|
            && SlotNum(im.big, data, g) == m.At(n).ents[g].num > 0 && SlotName(data, g) == m.At(n).ents[g].name
  {
    hide Cat, SlotNum, SlotName;
    var node := m.At(n);
    NodeRep(im, m, n);
    CatAt(im, node.zones);
    var data := Take(Cat(im, node.zones), DIR_SIZE * |node.ents|);
    var k, s := g / SLOTS, g % SLOTS;
    var b := im.blocks[node.zones[k]];
    assert DirBlock(im.big, BlockOf(im.blocks, node.zones[k]), node.ents, k);
    assert SlotRep(im.big, b, node.ents, k, s);
    var x, y := data[DIR_SIZE * g..DIR_SIZE * g + DIR_SIZE], b[DIR_SIZE * s..DIR_SIZE * s + DIR_SIZE];
    forall i | 0 <= i < DIR_SIZE
      ensures x[i] == y[i]
    {
      var at := DIR_SIZE * g + i;
      assert at / BLOCK == k && at % BLOCK == DIR_SIZE * s + i;
      assert x[i] == data[at] == Cat(im, node.zones)[at];
    }
    assert x == y;
    SlotMoved(im.big, data, g, b, s);
  }

  lemma SlotMoved(big: bool, a: seq<byte>, g: nat, b: seq<byte>, s: nat)
    requires DIR_SIZE * g + DIR_SIZE <= |a| && DIR_SIZE * s + DIR_SIZE <= |b|
    requires a[DIR_SIZE * g..DIR_SIZE * g + DIR_SIZE] == b[DIR_SIZE * s..DIR_SIZE * s + DIR_SIZE]
    ensures SlotNum(big, a, g) == SlotNum(big, b, s) && SlotName(a, g) == SlotName(b, s)
  {
    var x, y := a[DIR_SIZE * g..DIR_SIZE * g + DIR_SIZE], b[DIR_SIZE * s..DIR_SIZE * s + DIR_SIZE];
    assert x[0] == a[DIR_SIZE * g] && x[1] == a[DIR_SIZE * g + 1];
    assert y[0] == b[DIR_SIZE * s] && y[1] == b[DIR_SIZE * s + 1];
    assert a[DIR_SIZE * g + 2..DIR_SIZE * g + DIR_SIZE] == x[2..]
           && b[DIR_SIZE * s + 2..DIR_SIZE * s + DIR_SIZE] == y[2..];
  }

  lemma {:induction false} EntriesAre(big: bool, data: seq<byte>, ents: seq<Entry>, g: nat)
    requires |data| == DIR_SIZE * |ents| && g <= |ents|
    requires forall k :: 0 <= k < |ents| ==>
               SlotNum(big, data, k) == ents[k].num > 0 && SlotName(data, k) == ents[k].name
    ensures EntriesFrom(big, data, g) == ents[g..]
    decreases |ents| - g
  {
    hide SlotNum, SlotName;
    if g < |ents| {
      EntriesAre(big, data, ents, g + 1);
    }
  }

  /** A directory lists its entries in the order they were entered. */
  lemma DirReadsBack(im: Image, m: Model, n: nat)
    requires Rep(im, m) && Settled(m) && m.Has(n) && m.At(n).kind == Directory
    ensures n <= |im.inodes| && |im.inodes[n - 1].zone| == 9
    ensures DirEntries(im, im.inodes[n - 1]) == Some(m.At(n).ents)
  {
    hide Links, Cat, ReadFile, SlotNum, SlotName, EntriesFrom, Rep;
    assert NodeSettled(m, n);
    var node := m.At(n);
    ReadNode(im, m, n);
    var data := Take(Cat(im, node.zones), node.size);
    forall g | 0 <= g < |node.ents|
      ensures |data| == DIR_SIZE * |node.ents|
      ensures SlotNum(im.big, data, g) == node.ents[g].num > 0 && SlotName(data, g) == node.ents[g].name
    {
      SlotOfData(im, m, n, g);
    }
    SlotOfData(im, m, n, 0);
    EntriesAre(im.big, data, node.ents, 0);
    assert node.ents[0..] == node.ents;
  }

  // ----- paths -----

  /** The node of the prototype at a path. */
  function ProtoAt(proto: Proto, path: seq<seq<byte>>): Option<Proto>
    decreases |path|
  {
    if path == [] then Some(proto)
    else if !proto.PDir? then None
    else
      match FindEntry(proto.entries, path[0])
      case None => None
      case Some(sub) => ProtoAt(sub, path[1..])
  }

  function FindEntry(entries: seq<PEntry>, name: seq<byte>): Option<Proto> {
    if entries == [] then None
    else if entries[0].name == name then Some(entries[0].node)
    else FindEntry(entries[1..], name)
  }

  /** The directory search finds the inode of the entry the prototype has. */
  lemma {:induction false} FindAgrees(m: Model, n: nat, all: seq<PEntry>, name: seq<byte>, k: nat)
    requires m.Has(n) && k <= |all| && |m.At(n).ents| == 2 + |all| && BuiltUpTo(m, n, all, |all|)
    requires FindEntry(all[k..], name).Some?
    ensures var num := FindName(m.At(n).ents[2 + k..], name);
            num.Some? && BuiltNode(m, num.value, FindEntry(all[k..], name).value)
    decreases |all| - k
  {
    hide BuiltNode;
    if k < |all| {
      assert all[k..][0] == all[k] && all[k..][1..] == all[k + 1..];
      var ents := m.At(n).ents;
      assert ents[2 + k..][0] == ents[2 + k] && ents[2 + k..][1..] == ents[2 + (k + 1)..];
      if all[k].name != name {
        FindAgrees(m, n, all, name, k + 1);
      }
    }
  }

  lemma {:induction false} LookupAgrees(im: Image, m: Model, n: nat, proto: Proto, path: seq<seq<byte>>)
    requires Rep(im, m) && Settled(m) && BuiltNode(m, n, proto)
    requires forall i :: 0 <= i < |path| ==> path[i] != DOT && path[i] != DOTDOT
    requires ProtoAt(proto, path).Some?
    ensures Shaped(im)
    ensures var num := LookupFrom(im, n, path);
            num.Some? && BuiltNode(m, num.value, ProtoAt(proto, path).value)
    decreases |path|
  {
    hide Settled, DirEntries, FindName, FindEntry, BuiltNode, MapsRep, NodesRep, FreeRep, Attached;
    if path != [] {
      BuiltKind(m, n, proto);
      DirReadsBack(im, m, n);
      DirKind(im, m, n);
      StepAgrees(m, n, proto, path[0]);
      var num := FindName(m.At(n).ents, path[0]).value;
      LookupAgrees(im, m, num, FindEntry(proto.entries, path[0]).value, path[1..]);
    }
  }

  lemma BuiltKind(m: Model, n: nat, proto: Proto)
    requires BuiltNode(m, n, proto)
    ensures m.Has(n) && m.At(n).kind == KindFor(proto)
  {
  }

  /** One component of a path. */
  lemma StepAgrees(m: Model, n: nat, proto: Proto, name: seq<byte>)
    requires Settled(m) && BuiltNode(m, n, proto) && proto.PDir? && name != DOT && name != DOTDOT
    requires FindEntry(proto.entries, name).Some?
    ensures m.Has(n)
    ensures FindName(m.At(n).ents, name).Some?
    ensures BuiltNode(m, FindName(m.At(n).ents, name).value, FindEntry(proto.entries, name).value)
  {
    hide NodeSettled, FindName, FindEntry;
    DotsFirst(m, n);
    SkipDots(m.At(n).ents, name);
    assert proto.entries[0..] == proto.entries;
    FindAgrees(m, n, proto.entries, name, 0);
  }

  lemma DirKind(im: Image, m: Model, n: nat)
    requires Rep(im, m) && m.Has(n)
    ensures n <= |im.inodes| && (m.At(n).kind == Directory <==> TypeOf(im.inodes[n - 1]) == I_DIRECTORY)
  {
    NodeRep(im, m, n);
  }

  lemma DotsFirst(m: Model, n: nat)
    requires Settled(m) && m.Has(n) && m.At(n).kind == Directory
    ensures |m.At(n).ents| >= 2 && m.At(n).ents[0].name == DOT && m.At(n).ents[1].name == DOTDOT
  {
    hide Links;
    assert NodeSettled(m, n);
  }

  lemma SkipDots(ents: seq<Entry>, name: seq<byte>)
    requires |ents| >= 2 && ents[0].name == DOT && ents[1].name == DOTDOT && name != DOT && name != DOTDOT
    ensures FindName(ents, name) == FindName(ents[2..], name)
  {
    assert ents[1..][0] == ents[1] && ents[1..][1..] == ents[2..];
  }

  /** The inode is what the prototype says: type, flags and digits of the mode, owner, and the
      bytes of a file or the two numbers and the size of a device. */
  ghost predicate InodeShows(im: Image, n: nat, proto: Proto)
    requires Shaped(im)
  {
    && 1 <= n <= |im.inodes|
    && var ino := im.inodes[n - 1];
       && IsMode(proto.mode) && Says(ino.mode, proto.mode) && ino.uid == proto.uid && ino.gid == proto.gid
       && (proto.PFile? ==> ReadFile(im, ino) == Some(proto.data))
       && (proto.PDev? ==> ino.size == proto.blocks * BLOCK % WORD32)
       && (proto.PDev? && proto.minor < 256 ==> ino.zone[0] / 256 == proto.major && ino.zone[0] % 256 == proto.minor)
  }

  /** lookup() and then read_file() give back every file of the prototype, and lookup() every
      device and directory. */
  lemma FilesReadBack(im: Image, m: Model, proto: Proto, path: seq<seq<byte>>)
    requires Complete(im, m, proto)
    requires forall i :: 0 <= i < |path| ==> path[i] != DOT && path[i] != DOTDOT
    requires ProtoAt(proto, path).Some?
    ensures Shaped(im)
    ensures var n := LookupFrom(im, 1, path);
            n.Some? && InodeShows(im, n.value, ProtoAt(proto, path).value)
  {
    hide Settled, ReadFile, LookupFrom, BuiltNode;
    LookupAgrees(im, m, 1, proto, path);
    NodeShows(im, m, LookupFrom(im, 1, path).value, ProtoAt(proto, path).value);
  }

  lemma NodeShows(im: Image, m: Model, n: nat, proto: Proto)
    requires Rep(im, m) && Settled(m) && BuiltNode(m, n, proto)
    ensures Shaped(im) && InodeShows(im, n, proto)
  {
    hide Settled, ReadFile, Rep, BuiltUpTo, ModeCon, Says, DeviceNumber;
    NodeRep(im, m, n);
    ModeConSays(proto.mode);
    if proto.PDev? && proto.minor < 256 {
      DeviceParts(proto.major, proto.minor);
    }
    if proto.PFile? {
      FileReadsBack(im, m, n);
    }
  }
}
