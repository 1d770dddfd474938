/**
 What an image under construction holds, told apart from how it is stored: the
 files, the directory entries, and who owns which zone.
 */
module MinixModel {
  import opened Common
  import opened MinixImage

  datatype Kind = Regular | Directory | Device

  /** Mode word and owner of an inode. */
  datatype Attr = Attr(mode: nat, uid: nat, gid: nat)

  /** One inode.  A directory's entries come in the order they were entered.  parent is
      the directory that lists it; the root is its own parent.  A device keeps its number
      where the others keep their first zone. */
  datatype Node = Node(kind: Kind, attr: Attr, data: seq<byte>, ents: seq<Entry>, parent: nat,
                       zones: seq<nat>, ind: nat, size: nat, links: nat) {
    /** The zones that belong to it. */
    function Owned(): seq<nat> {
      if kind == Device then [] else zones + (if ind == 0 then [] else [ind])
    }
  }

  /** nodes[n - 1] is inode n; owner[z - first] is the inode zone z belongs to, 0 while it
      is not attached yet. */
  datatype Model = Model(first: nat, nodes: seq<Node>, owner: seq<nat>) {
    function NextInode(): nat { |nodes| + 1 }
    function NextZone(): nat { first + |owner| }

    function OwnerOf(z: nat): nat {
      if first <= z < first + |owner| then owner[z - first] else 0
    }

    predicate Has(n: nat) {
      1 <= n <= |nodes|
    }

    function At(n: nat): Node
      requires Has(n)
    {
      nodes[n - 1]
    }

    function With(n: nat, node: Node): Model
      requires Has(n)
    {
      this.(nodes := nodes[n - 1 := node])
    }
  }

  // ----- how a node is stored -----

  function KindOf(ino: Inode): Option<Kind> {
    if TypeOf(ino) == I_REGULAR then Some(Regular)
    else if TypeOf(ino) == I_DIRECTORY then Some(Directory)
    else if TypeOf(ino) == I_BLOCK_SPECIAL || TypeOf(ino) == I_CHAR_SPECIAL then Some(Device)
    else None
  }

  /** The nine zone words of an inode. */
  function ZoneWords(node: Node): (w: seq<nat>)
    requires |node.zones| <= NR_DZONE + NR_INDIRECTS
    ensures |w| == 9
  {
    var n := |node.zones|;
    (if n <= NR_DZONE then node.zones + ZeroZones(NR_DZONE - n) else node.zones[..NR_DZONE]) + [node.ind, 0]
  }

  ghost predicate InodeRep(ino: Inode, node: Node) {
    && KindOf(ino) == Some(node.kind) && Attr(ino.mode, ino.uid, ino.gid) == node.attr
    && ino.size == node.size && ino.nlinks == node.links
    && |node.zones| <= NR_DZONE + NR_INDIRECTS
    && ino.zone == ZoneWords(node)
    && (|node.zones| > NR_DZONE <==> node.ind != 0)
  }

  /** Block k of some data, padded with zeros. */
  function ChunkBlock(data: seq<byte>, k: nat): Block {
    var rest := if BLOCK * k <= |data| then data[BLOCK * k..] else [];
    if |rest| >= BLOCK then rest[..BLOCK] else rest + Zeros(BLOCK - |rest|)
  }

  /** Block b holds entries 64 * k .. of a directory, and nothing behind them. */
  ghost predicate DirBlock(big: bool, b: Block, ents: seq<Entry>, k: nat) {
    forall s :: 0 <= s < SLOTS ==> SlotRep(big, b, ents, k, s)
  }

  ghost predicate SlotRep(big: bool, b: Block, ents: seq<Entry>, k: nat, s: nat)
    requires s < SLOTS
  {
    if SLOTS * k + s < |ents|
    then SlotNum(big, b, s) == ents[SLOTS * k + s].num && SlotName(b, s) == ents[SLOTS * k + s].name
    else SlotNum(big, b, s) == 0
  }

  ghost predicate IndBlock(big: bool, b: Block, zones: seq<nat>) {
    forall i :: 0 <= i < NR_INDIRECTS ==>
      Word(big, b, i) == if NR_DZONE + i < |zones| then zones[NR_DZONE + i] else 0
  }

  ghost predicate ValidName(name: seq<byte>) {
    1 <= |name| <= NAME_MAX && forall i :: 0 <= i < |name| ==> name[i] != 0
  }

  /** Block z, for zone numbers known to be in range. */
  function BlockOf(blocks: seq<Block>, z: nat): Block {
    if z < |blocks| then blocks[z] else Zeros(BLOCK)
  }

  ghost predicate BlocksRep(big: bool, blocks: seq<Block>, node: Node) {
    && (forall k :: 0 <= k < |node.Owned()| ==> 0 < node.Owned()[k] < |blocks|)
    && (node.kind == Regular ==> forall k :: 0 <= k < |node.zones| ==>
         BlockOf(blocks, node.zones[k]) == ChunkBlock(node.data, k))
    && (node.kind == Directory ==>
          && (forall k :: 0 <= k < |node.zones| ==> DirBlock(big, BlockOf(blocks, node.zones[k]), node.ents, k))
          && (forall e :: 0 <= e < |node.ents| ==> 0 < node.ents[e].num < 65536 && ValidName(node.ents[e].name))
          && |node.ents| <= SLOTS * |node.zones|)
    && (node.kind != Device && node.ind != 0 ==> IndBlock(big, BlockOf(blocks, node.ind), node.zones))
  }

  lemma OwnedParts(node: Node)
    requires node.kind != Device
    ensures |node.Owned()| == |node.zones| + (if node.ind == 0 then 0 else 1)
    ensures forall k :: 0 <= k < |node.zones| ==> node.Owned()[k] == node.zones[k]
    ensures node.ind != 0 ==> node.Owned()[|node.zones|] == node.ind
  {
  }

  /** Only its own blocks matter to a node. */
  lemma BlocksFrame(big: bool, a: seq<Block>, b: seq<Block>, node: Node)
    requires BlocksRep(big, a, node) && |a| == |b|
    requires forall k :: 0 <= k < |node.Owned()| ==> node.Owned()[k] < |a| && a[node.Owned()[k]] == b[node.Owned()[k]]
    ensures BlocksRep(big, b, node)
  {
    hide DirBlock, ChunkBlock, IndBlock, Node.Owned, ValidName;
    if node.kind != Device {
      OwnedParts(node);
      forall k | 0 <= k < |node.zones|
        ensures BlockOf(a, node.zones[k]) == BlockOf(b, node.zones[k])
      {
        assert node.Owned()[k] == node.zones[k];
      }
    }
  }

  // ----- who owns what -----

  /** The zones of inode n carry its mark, and it has none twice. */
  ghost predicate Marked(m: Model, n: nat)
    requires m.Has(n)
  {
    var own := m.At(n).Owned();
    && (forall k :: 0 <= k < |own| ==> m.first <= own[k] < m.NextZone() && m.OwnerOf(own[k]) == n)
    && (forall j, k :: 0 <= j < k < |own| ==> own[j] != own[k])
  }

  /** Every attached zone is among the zones of its owner. */
  ghost predicate Attached(m: Model) {
    forall z: nat :: m.OwnerOf(z) != 0 ==> m.Has(m.OwnerOf(z)) && z in m.At(m.OwnerOf(z)).Owned()
  }

  // ----- the whole image -----

  ghost predicate MapsRep(im: Image, m: Model)
    requires Shaped(im)
  {
    && m.first == im.first && |m.nodes| <= im.ninodes && m.NextZone() <= im.nzones
    && (forall i :: 1 <= i <= im.ninodes ==> (im.inodeMap[i] <==> i <= |m.nodes|))
    && (forall i :: 1 <= i <= im.nzones - im.first ==> (im.zoneMap[i] <==> i <= |m.owner|))
  }

  ghost predicate NodesRep(im: Image, m: Model)
    requires |m.nodes| <= |im.inodes|
  {
    forall n :: m.Has(n) ==>
        InodeRep(im.inodes[n - 1], m.At(n)) && BlocksRep(im.big, im.blocks, m.At(n)) && Marked(m, n)
  }

  ghost predicate FreeRep(im: Image, m: Model)
    requires |im.blocks| == im.nzones
  {
    forall z :: m.NextZone() <= z < im.nzones ==> im.blocks[z] == Zeros(BLOCK)
  }

  /** The image stores the model. */
  ghost predicate Rep(im: Image, m: Model) {
    && Shaped(im) && im.nzones < 65536 && im.ninodes < 65536
    && MapsRep(im, m) && NodesRep(im, m) && FreeRep(im, m) && Attached(m)
  }
}
