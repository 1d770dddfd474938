/** The elementary changes mkfs makes to an image, and the model that follows them. */
module MinixSteps {
  import opened Common
  import opened MinixImage
  import opened MinixModel

  // ----- facts out of Rep -----

  lemma NodeRep(im: Image, m: Model, n: nat)
    requires Rep(im, m) && m.Has(n)
    ensures Shaped(im) && |m.nodes| <= |im.inodes|
    ensures InodeRep(im.inodes[n - 1], m.At(n)) && BlocksRep(im.big, im.blocks, m.At(n)) && Marked(m, n)
  {
    hide InodeRep, BlocksRep, Marked;
  }

  // ----- a new inode -----

  function EmptyNode(kind: Kind, attr: Attr, parent: nat): Node {
    Node(kind, attr, [], [], parent, [], 0, 0, 0)
  }

  function NewInode(im: Image, num: nat, ino: Inode): Image
    requires 1 <= num <= |im.inodes| && num < |im.inodeMap|
  {
    im.(inodes := im.inodes[num - 1 := ino], inodeMap := im.inodeMap[num := true])
  }

  function AttrIn(ino: Inode): Attr {
    Attr(ino.mode, ino.uid, ino.gid)
  }

  lemma EmptyNodeRep(big: bool, blocks: seq<Block>, ino: Inode, kind: Kind, parent: nat)
    requires KindOf(ino) == Some(kind) && ino.size == 0 && ino.nlinks == 0 && ino.zone == ZeroZones(9)
    ensures var node := EmptyNode(kind, AttrIn(ino), parent);
            InodeRep(ino, node) && BlocksRep(big, blocks, node) && node.Owned() == []
  {
    assert ZoneWords(EmptyNode(kind, AttrIn(ino), parent)) == ZeroZones(9);
  }

  lemma NewInodeRep(im: Image, m: Model, ino: Inode, kind: Kind, parent: nat)
    requires Rep(im, m) && m.NextInode() < im.ninodes
    requires KindOf(ino) == Some(kind) && ino.size == 0 && ino.nlinks == 0 && ino.zone == ZeroZones(9)
    ensures Rep(NewInode(im, m.NextInode(), ino), m.(nodes := m.nodes + [EmptyNode(kind, AttrIn(ino), parent)]))
  {
    hide InodeRep, BlocksRep, Marked, AttrIn;
    var n := m.NextInode();
    var im' := NewInode(im, n, ino);
    var node := EmptyNode(kind, AttrIn(ino), parent);
    var m' := m.(nodes := m.nodes + [node]);
    EmptyNodeRep(im.big, im.blocks, ino, kind, parent);
    forall k | m'.Has(k)
      ensures InodeRep(im'.inodes[k - 1], m'.At(k)) && BlocksRep(im'.big, im'.blocks, m'.At(k)) && Marked(m', k)
    {
      if k < n {
        NodeRep(im, m, k);
        assert m'.At(k) == m.At(k);
        MarkedStill(m, m', k);
      } else {
        NothingMarked(m', k);
      }
    }
    AttachedStill(m, m');
  }

  /** More inodes do not change who owns what. */
  lemma MarkedStill(m: Model, m': Model, k: nat)
    requires m.Has(k) && m'.Has(k) && Marked(m, k) && m'.first == m.first && m'.owner == m.owner && m'.At(k) == m.At(k)
    ensures Marked(m', k)
  {
  }

  lemma NothingMarked(m: Model, k: nat)
    requires m.Has(k) && m.At(k).Owned() == []
    ensures Marked(m, k)
  {
  }

  lemma AttachedStill(m: Model, m': Model)
    requires Attached(m) && m'.first == m.first && m'.owner == m.owner && m.nodes <= m'.nodes
    ensures Attached(m')
  {
    hide Node.Owned;
    forall z: nat | m'.OwnerOf(z) != 0
      ensures m'.Has(m'.OwnerOf(z)) && z in m'.At(m'.OwnerOf(z)).Owned()
    {
      assert m.OwnerOf(z) == m'.OwnerOf(z);
      assert m'.At(m'.OwnerOf(z)) == m.At(m.OwnerOf(z));
    }
  }

  // ----- a new zone -----

  function NewZone(im: Image, z: nat): Image
    requires 1 <= im.first <= z && z - (im.first - 1) < |im.zoneMap|
  {
    im.(zoneMap := im.zoneMap[z - (im.first - 1) := true])
  }

  lemma NewZoneRep(im: Image, m: Model)
    requires Rep(im, m) && m.NextZone() < im.nzones
    ensures m.NextZone() - (im.first - 1) < |im.zoneMap|
    ensures Rep(NewZone(im, m.NextZone()), m.(owner := m.owner + [0]))
  {
    var im' := NewZone(im, m.NextZone());
    var m' := m.(owner := m.owner + [0]);
    assert MapsRep(im', m') && FreeRep(im', m') by {
      hide NodesRep, Attached;
    }
    hide MapsRep, FreeRep;
    SameOwners(m);
    SameNodes(im, m, im', m');
  }

  /** The nodes are as well represented in an image that differs elsewhere. */
  lemma SameNodes(im: Image, m: Model, im': Image, m': Model)
    requires |m.nodes| <= |im.inodes| && NodesRep(im, m) && Attached(m)
    requires im'.inodes == im.inodes && im'.blocks == im.blocks && im'.big == im.big
    requires m'.nodes == m.nodes && m'.first == m.first && m'.NextZone() >= m.NextZone()
    requires forall z: nat :: m'.OwnerOf(z) == m.OwnerOf(z)
    ensures NodesRep(im', m') && Attached(m')
  {
    hide InodeRep, BlocksRep, Model.OwnerOf, Node.Owned;
    forall k | m'.Has(k)
      ensures InodeRep(im'.inodes[k - 1], m'.At(k)) && BlocksRep(im'.big, im'.blocks, m'.At(k)) && Marked(m', k)
    {
      assert m.Has(k) && m'.At(k) == m.At(k) && Marked(m, k);
    }
  }

  lemma SameOwners(m: Model)
    ensures forall z: nat :: m.(owner := m.owner + [0]).OwnerOf(z) == m.OwnerOf(z)
  {
  }

  // ----- a zone not attached yet may be written -----

  ghost predicate Loose(m: Model, z: nat) {
    m.first <= z < m.NextZone() && m.OwnerOf(z) == 0
  }

  lemma WriteLooseRep(im: Image, m: Model, z: nat, b: Block)
    requires Rep(im, m) && Loose(m, z)
    ensures z < |im.blocks| && Rep(im.(blocks := im.blocks[z := b]), m)
  {
    var im' := im.(blocks := im.blocks[z := b]);
    forall k | m.Has(k)
      ensures InodeRep(im'.inodes[k - 1], m.At(k)) && BlocksRep(im'.big, im'.blocks, m.At(k)) && Marked(m, k)
    {
      hide InodeRep, BlocksRep;
      NodeRep(im, m, k);
      BlocksFrame(im.big, im.blocks, im'.blocks, m.At(k));
    }
  }

  // ----- a change to one inode and its blocks -----

  /** The zones that change hands were loose and now belong to n; blocks change only
      where n is the owner. */
  ghost predicate OnlyOf(im: Image, m: Model, im': Image, m': Model, n: nat)
    requires m.Has(n) && |im.inodes| >= |m.nodes|
  {
    && im' == im.(inodes := im'.inodes, blocks := im'.blocks) && |im'.blocks| == |im.blocks|
    && |im'.inodes| == |im.inodes| && im'.inodes == im.inodes[n - 1 := im'.inodes[n - 1]]
    && m'.first == m.first && |m'.owner| == |m.owner|
    && |m'.nodes| == |m.nodes| && m'.nodes == m.nodes[n - 1 := m'.At(n)]
    && (forall z: nat :: m'.OwnerOf(z) == m.OwnerOf(z) || (m.OwnerOf(z) == 0 && m'.OwnerOf(z) == n))
    && (forall z :: 0 <= z < |im.blocks| && im'.blocks[z] != im.blocks[z] ==> m'.OwnerOf(z) == n)
    && (forall z: nat :: m'.OwnerOf(z) == n ==> z in m'.At(n).Owned())
  }

  lemma ChangeRep(im: Image, m: Model, im': Image, m': Model, n: nat)
    requires Rep(im, m) && m.Has(n) && OnlyOf(im, m, im', m', n)
    requires |im'.inodes[n - 1].zone| == 9
    requires InodeRep(im'.inodes[n - 1], m'.At(n)) && BlocksRep(im'.big, im'.blocks, m'.At(n)) && Marked(m', n)
    ensures Rep(im', m')
  {
    hide InodeRep, BlocksRep, Marked, Node.Owned;
    assert MapsRep(im', m') && Shaped(im') by {
      hide NodesRep, Attached, FreeRep, Model.OwnerOf;
    }
    ChangedNodes(im, m, im', m', n);
    ChangedOwners(im, m, im', m', n);
  }

  lemma ChangedNodes(im: Image, m: Model, im': Image, m': Model, n: nat)
    requires Rep(im, m) && m.Has(n) && OnlyOf(im, m, im', m', n)
    requires InodeRep(im'.inodes[n - 1], m'.At(n)) && BlocksRep(im'.big, im'.blocks, m'.At(n)) && Marked(m', n)
    ensures NodesRep(im', m')
  {
    forall k | m'.Has(k)
      ensures InodeRep(im'.inodes[k - 1], m'.At(k)) && BlocksRep(im'.big, im'.blocks, m'.At(k)) && Marked(m', k)
    {
      hide InodeRep, BlocksRep, MapsRep, FreeRep, Attached, Model.OwnerOf, Node.Owned;
      if k != n {
        NodeRep(im, m, k);
        assert m'.At(k) == m.At(k) && im'.inodes[k - 1] == im.inodes[k - 1];
        BlocksFrame(im.big, im.blocks, im'.blocks, m.At(k));
      }
    }
  }

  lemma ChangedOwners(im: Image, m: Model, im': Image, m': Model, n: nat)
    requires Rep(im, m) && m.Has(n) && OnlyOf(im, m, im', m', n)
    ensures FreeRep(im', m') && Attached(m')
  {
    hide NodesRep, MapsRep, Node.Owned;
    forall z: nat | m'.OwnerOf(z) != 0
      ensures m'.Has(m'.OwnerOf(z)) && z in m'.At(m'.OwnerOf(z)).Owned()
    {
      if m'.OwnerOf(z) != n {
        assert m.OwnerOf(z) == m'.OwnerOf(z);
      }
    }
    forall z | m'.NextZone() <= z < im'.nzones
      ensures im'.blocks[z] == Zeros(BLOCK)
    {
      assert m'.OwnerOf(z) == 0;
    }
  }

  // ----- one more zone for an inode -----

  /** A node with zone z behind its other zones. */
  function Grown(node: Node, z: nat, nbytes: nat, chunk: seq<byte>): Node {
    node.(zones := node.zones + [z], size := node.size + nbytes, data := node.data + chunk)
  }

  function Attach(m: Model, n: nat, node: Node, z: nat): Model
    requires m.Has(n) && m.first <= z < m.NextZone()
  {
    m.With(n, node).(owner := m.owner[z - m.first := n])
  }

  lemma ZoneWordsGrow(node: Node, z: nat, nbytes: nat, chunk: seq<byte>)
    requires |node.zones| < NR_DZONE
    ensures ZoneWords(Grown(node, z, nbytes, chunk)) == ZoneWords(node)[|node.zones| := z]
    ensures ZoneWords(node)[|node.zones|] == 0
    ensures forall i :: 0 <= i < |node.zones| ==> ZoneWords(node)[i] == node.zones[i]
  {
  }

  /** What a zone must hold before it becomes the next zone of a node. */
  ghost predicate ReadyFor(b: Block, node: Node, chunk: seq<byte>) {
    && (node.kind == Regular ==> |node.data| == BLOCK * |node.zones| && |chunk| <= BLOCK && b == ChunkBlock(chunk, 0))
    && (node.kind == Directory ==> chunk == [] && b == Zeros(BLOCK) && |node.ents| <= SLOTS * |node.zones|)
    && node.kind != Device
  }

  lemma ChunkShift(data: seq<byte>, chunk: seq<byte>, n: nat)
    requires |data| == BLOCK * n && |chunk| <= BLOCK
    ensures forall k :: 0 <= k < n ==> ChunkBlock(data + chunk, k) == ChunkBlock(data, k)
    ensures ChunkBlock(data + chunk, n) == ChunkBlock(chunk, 0)
  {
    forall k | 0 <= k < n
      ensures ChunkBlock(data + chunk, k) == ChunkBlock(data, k)
    {
      assert (data + chunk)[BLOCK * k..][..BLOCK] == data[BLOCK * k..][..BLOCK];
    }
    assert (data + chunk)[BLOCK * n..] == chunk == chunk[0..];
  }

  lemma EmptyDirBlock(big: bool, b: Block, ents: seq<Entry>, k: nat)
    requires b == Zeros(BLOCK) && |ents| <= SLOTS * k
    ensures DirBlock(big, b, ents, k)
  {
  }

  /** The blocks of the grown node. */
  lemma GrownBlocks(big: bool, blocks: seq<Block>, node: Node, z: nat, nbytes: nat, chunk: seq<byte>)
    requires BlocksRep(big, blocks, node) && 0 < z < |blocks| && ReadyFor(blocks[z], node, chunk)
    requires node.ind == 0
    ensures BlocksRep(big, blocks, Grown(node, z, nbytes, chunk))
  {
    hide ChunkBlock, DirBlock, IndBlock, ValidName;
    var node' := Grown(node, z, nbytes, chunk);
    var k0 := |node.zones|;
    assert node.Owned() == node.zones && node'.Owned() == node.zones + [z];
    if node.kind == Regular {
      ChunkShift(node.data, chunk, k0);
    } else {
      EmptyDirBlock(big, blocks[z], node.ents, k0);
    }
  }

  lemma AddDirect(im: Image, m: Model, n: nat, z: nat, nbytes: nat, chunk: seq<byte>)
    requires Rep(im, m) && m.Has(n) && Loose(m, z) && z < |im.blocks|
    requires ReadyFor(im.blocks[z], m.At(n), chunk) && |m.At(n).zones| < NR_DZONE
    ensures n <= |im.inodes| && |im.inodes[n - 1].zone| == 9
    ensures var ino := im.inodes[n - 1];
            var ino' := ino.(size := ino.size + nbytes, zone := ino.zone[|m.At(n).zones| := z]);
            Rep(im.(inodes := im.inodes[n - 1 := ino']), Attach(m, n, Grown(m.At(n), z, nbytes, chunk), z))
  {
    hide InodeRep, BlocksRep, Marked, Attached;
    NodeRep(im, m, n);
    var node, ino := m.At(n), im.inodes[n - 1];
    var node' := Grown(node, z, nbytes, chunk);
    var ino' := ino.(size := ino.size + nbytes, zone := ino.zone[|node.zones| := z]);
    var im', m' := im.(inodes := im.inodes[n - 1 := ino']), Attach(m, n, node', z);
    GrownInode(ino, node, z, nbytes, chunk);
    GrownBlocks(im.big, im.blocks, node, z, nbytes, chunk);
    hide ReadyFor, OnlyOf, Rep;
    assert node'.Owned() == node.Owned() + [z];
    AttachOne(im, m, n, z, ino', node');
    ChangeRep(im, m, im', m', n);
  }

  /** Zone z attached as the last of the zones of n. */
  lemma AttachOne(im: Image, m: Model, n: nat, z: nat, ino': Inode, node': Node)
    requires m.Has(n) && Marked(m, n) && Attached(m) && Loose(m, z) && n <= |im.inodes| && |m.nodes| <= |im.inodes|
    requires node'.Owned() == m.At(n).Owned() + [z]
    ensures var im', m' := im.(inodes := im.inodes[n - 1 := ino']), Attach(m, n, node', z);
            OnlyOf(im, m, im', m', n) && Marked(m', n)
  {
    hide Marked, Attached, Node.Owned;
    LooseNotOwned(m, n, z);
    AttachMarks(m, n, node', z);
  }

  lemma GrownInode(ino: Inode, node: Node, z: nat, nbytes: nat, chunk: seq<byte>)
    requires InodeRep(ino, node) && |node.zones| < NR_DZONE
    ensures |ino.zone| == 9 && node.ind == 0
    ensures InodeRep(ino.(size := ino.size + nbytes, zone := ino.zone[|node.zones| := z]),
            Grown(node, z, nbytes, chunk))
  {
    ZoneWordsGrow(node, z, nbytes, chunk);
  }

  lemma LooseNotOwned(m: Model, n: nat, z: nat)
    requires m.Has(n) && Marked(m, n) && Loose(m, z)
    ensures forall k :: 0 <= k < |m.At(n).Owned()| ==> m.At(n).Owned()[k] != z
    ensures forall j, k :: 0 <= j < k < |m.At(n).Owned()| ==> m.At(n).Owned()[j] != m.At(n).Owned()[k]
  {
    forall k | 0 <= k < |m.At(n).Owned()|
      ensures m.At(n).Owned()[k] != z
    {
      assert m.OwnerOf(m.At(n).Owned()[k]) == n;
    }
  }

  /** Attaching the zone that was added last to the zones of a node. */
  lemma AttachMarks(m: Model, n: nat, node': Node, z: nat)
    requires m.Has(n) && Marked(m, n) && Attached(m) && Loose(m, z)
    requires |node'.Owned()| == |m.At(n).Owned()| + 1
    requires forall k :: 0 <= k < |m.At(n).Owned()| ==> m.At(n).Owned()[k] in node'.Owned()
    requires forall k :: 0 <= k < |node'.Owned()| ==> node'.Owned()[k] == z || node'.Owned()[k] in m.At(n).Owned()
    requires forall j, k :: 0 <= j < k < |node'.Owned()| ==> node'.Owned()[j] != node'.Owned()[k]
    requires z in node'.Owned()
    ensures var m' := Attach(m, n, node', z);
            && Marked(m', n)
            && (forall y: nat :: m'.OwnerOf(y) == m.OwnerOf(y) || (m.OwnerOf(y) == 0 && m'.OwnerOf(y) == n))
            && (forall y: nat :: m'.OwnerOf(y) == n ==> y in node'.Owned())
  {
    var m' := Attach(m, n, node', z);
    forall y: nat
      ensures m'.OwnerOf(y) == if y == z then n else m.OwnerOf(y)
    {
    }
    forall y: nat | m'.OwnerOf(y) == n && y != z
      ensures y in node'.Owned()
    {
      assert m.OwnerOf(y) == n && y in m.At(n).Owned();
    }
  }

  // ----- one more zone behind the indirect zone -----

  function GrownInd(node: Node, z: nat, y: nat, nbytes: nat, chunk: seq<byte>): Node {
    Grown(node, z, nbytes, chunk).(ind := y)
  }

  function Attach2(m: Model, n: nat, node: Node, z: nat, y: nat): Model
    requires m.Has(n) && m.first <= z < m.NextZone() && m.first <= y < m.NextZone()
  {
    m.With(n, node).(owner := m.owner[z - m.first := n][y - m.first := n])
  }

  /** y is the indirect zone of the node, or a fresh zone about to become it. */
  ghost predicate IndirectFor(im: Image, m: Model, n: nat, z: nat, y: nat)
    requires m.Has(n) && y < |im.blocks|
  {
    if |m.At(n).zones| == NR_DZONE then Loose(m, y) && y != z && im.blocks[y] == Zeros(BLOCK)
    else y == m.At(n).ind
  }

  lemma GrownIndInode(ino: Inode, node: Node, z: nat, y: nat, nbytes: nat, chunk: seq<byte>)
    requires InodeRep(ino, node) && NR_DZONE <= |node.zones| < NR_DZONE + NR_INDIRECTS && y > 0
    requires |node.zones| > NR_DZONE ==> y == node.ind
    ensures |ino.zone| == 9
    ensures InodeRep(ino.(size := ino.size + nbytes, zone := ino.zone[NR_DZONE := y]),
            GrownInd(node, z, y, nbytes, chunk))
  {
  }

  lemma IndBlockGrow(big: bool, b: Block, zones: seq<nat>, z: nat)
    requires NR_DZONE <= |zones| < NR_DZONE + NR_INDIRECTS && z < 65536
    requires |zones| == NR_DZONE ==> b == Zeros(BLOCK)
    requires |zones| > NR_DZONE ==> IndBlock(big, b, zones)
    ensures IndBlock(big, PutWord(big, b, |zones| - NR_DZONE, z), zones + [z])
  {
    var at := |zones| - NR_DZONE;
    var b' := PutWord(big, b, at, z);
    forall i | 0 <= i < NR_INDIRECTS
      ensures Word(big, b', i) == if NR_DZONE + i < |zones + [z]| then (zones + [z])[NR_DZONE + i] else 0
    {
      if i != at {
        WordFrame(big, b', b, i);
      }
    }
  }

  lemma GrownIndBlocks(big: bool, blocks: seq<Block>, node: Node, z: nat, y: nat, nbytes: nat, chunk: seq<byte>,
                       blocks': seq<Block>)
    requires BlocksRep(big, blocks, node) && 0 < z < |blocks| && 0 < y < |blocks| && z < 65536 && z != y
    requires ReadyFor(blocks[z], node, chunk) && node.kind == Regular
    requires NR_DZONE <= |node.zones| < NR_DZONE + NR_INDIRECTS
    requires if |node.zones| == NR_DZONE then node.ind == 0 && blocks[y] == Zeros(BLOCK) else node.ind == y
    requires forall k :: 0 <= k < |node.zones| ==> node.zones[k] != y
    requires blocks' == blocks[y := PutWord(big, blocks[y], |node.zones| - NR_DZONE, z)]
    ensures BlocksRep(big, blocks', GrownInd(node, z, y, nbytes, chunk))
  {
    hide ChunkBlock, DirBlock, IndBlock, ValidName, PutWord;
    var node' := GrownInd(node, z, y, nbytes, chunk);
    var k0 := |node.zones|;
    ChunkShift(node.data, chunk, k0);
    IndBlockGrow(big, blocks[y], node.zones, z);
    assert node'.Owned() == node.zones + [z] + [y];
    assert forall k :: 0 <= k < k0 ==> node.Owned()[k] == node.zones[k];
  }

  /** Where the indirect zone and the new zone are. */
  lemma IndirectPlace(im: Image, m: Model, n: nat, z: nat, y: nat)
    requires Rep(im, m) && m.Has(n) && Loose(m, z) && z < |im.blocks| && y < |im.blocks| && m.At(n).kind == Regular
    requires NR_DZONE <= |m.At(n).zones| < NR_DZONE + NR_INDIRECTS && IndirectFor(im, m, n, z, y)
    ensures m.first <= y < m.NextZone() && 0 < y && 0 < z < 65536 && z != y
    ensures if |m.At(n).zones| == NR_DZONE then m.At(n).ind == 0 else m.At(n).ind == y
    ensures forall k :: 0 <= k < |m.At(n).zones| ==> m.At(n).zones[k] != y
    ensures forall k :: 0 <= k < |m.At(n).Owned()| ==> m.At(n).Owned()[k] != z
    ensures |m.At(n).zones| == NR_DZONE ==> forall k :: 0 <= k < |m.At(n).Owned()| ==> m.At(n).Owned()[k] != y
    ensures Loose(m, y) || m.OwnerOf(y) == n
  {
    hide BlocksRep, Marked, Attached, InodeRep;
    NodeRep(im, m, n);
    var node, ino := m.At(n), im.inodes[n - 1];
    IndexOfInd(ino, node);
    LooseNotOwned(m, n, z);
    OwnedInRange(m, n);
    if |node.zones| == NR_DZONE {
      LooseNotOwned(m, n, y);
    } else {
      assert node.Owned()[|node.zones|] == y;
    }
    forall k | 0 <= k < |node.zones|
      ensures node.zones[k] != y
    {
      assert node.Owned()[k] == node.zones[k];
      assert |node.zones| > NR_DZONE ==> node.Owned()[|node.zones|] == y;
    }
  }

  lemma AddIndirect(im: Image, m: Model, n: nat, z: nat, y: nat, nbytes: nat, chunk: seq<byte>)
    requires Rep(im, m) && m.Has(n) && Loose(m, z) && z < |im.blocks| && y < |im.blocks|
    requires m.At(n).kind == Regular && ReadyFor(im.blocks[z], m.At(n), chunk)
    requires NR_DZONE <= |m.At(n).zones| < NR_DZONE + NR_INDIRECTS && IndirectFor(im, m, n, z, y)
    ensures n <= |im.inodes| && |im.inodes[n - 1].zone| == 9 && m.first <= y < m.NextZone() && z < 65536
    ensures var ino := im.inodes[n - 1];
            var ino' := ino.(size := ino.size + nbytes, zone := ino.zone[NR_DZONE := y]);
            var b' := PutWord(im.big, im.blocks[y], |m.At(n).zones| - NR_DZONE, z);
            Rep(im.(inodes := im.inodes[n - 1 := ino'], blocks := im.blocks[y := b']),
                Attach2(m, n, GrownInd(m.At(n), z, y, nbytes, chunk), z, y))
  {
    hide InodeRep, BlocksRep, Marked, Attached, PutWord;
    NodeRep(im, m, n);
    var node, ino := m.At(n), im.inodes[n - 1];
    var node' := GrownInd(node, z, y, nbytes, chunk);
    var ino' := ino.(size := ino.size + nbytes, zone := ino.zone[NR_DZONE := y]);
    IndirectPlace(im, m, n, z, y);
    var b' := PutWord(im.big, im.blocks[y], |node.zones| - NR_DZONE, z);
    var im' := im.(inodes := im.inodes[n - 1 := ino'], blocks := im.blocks[y := b']);
    GrownIndInode(ino, node, z, y, nbytes, chunk);
    GrownIndBlocks(im.big, im.blocks, node, z, y, nbytes, chunk, im'.blocks);
    hide ReadyFor;
    AttachMarks2(m, n, node', z, y);
    ChangeRep(im, m, im', Attach2(m, n, node', z, y), n);
  }

  lemma IndexOfInd(ino: Inode, node: Node)
    requires InodeRep(ino, node) && node.kind == Regular
    ensures |node.zones| > NR_DZONE ==> |node.Owned()| == |node.zones| + 1 && node.Owned()[|node.zones|] == node.ind
    ensures |node.zones| <= NR_DZONE ==> node.Owned() == node.zones && node.ind == 0
  {
  }

  lemma OwnedInRange(m: Model, n: nat)
    requires m.Has(n) && Marked(m, n)
    ensures forall k :: 0 <= k < |m.At(n).Owned()| ==>
              m.first <= m.At(n).Owned()[k] < m.NextZone() && m.OwnerOf(m.At(n).Owned()[k]) == n
  {
  }

  lemma AttachMarks2(m: Model, n: nat, node': Node, z: nat, y: nat)
    requires m.Has(n) && Marked(m, n) && Attached(m) && Loose(m, z) && z != y
    requires m.first <= y < m.NextZone() && (Loose(m, y) || m.OwnerOf(y) == n)
    requires node'.kind == Regular && node'.ind == y && y != 0
    requires node'.zones == m.At(n).zones + [z]
    requires m.At(n).kind == Regular && (m.At(n).ind == y || (m.At(n).ind == 0 && Loose(m, y)))
    ensures var m' := Attach2(m, n, node', z, y);
            && Marked(m', n)
            && (forall x: nat :: m'.OwnerOf(x) == m.OwnerOf(x) || (m.OwnerOf(x) == 0 && m'.OwnerOf(x) == n))
            && (forall x: nat :: m'.OwnerOf(x) == n ==> x in node'.Owned())
  {
    var node := m.At(n);
    var m' := Attach2(m, n, node', z, y);
    Owners2(m, n, node', z, y);
    LooseNotOwned(m, n, z);
    OwnedInRange(m, n);
    if Loose(m, y) {
      LooseNotOwned(m, n, y);
    }
    assert node'.Owned() == node.zones + [z] + [y];
    assert node.Owned() == if node.ind == y then node.zones + [y] else node.zones;
    forall x: nat | m'.OwnerOf(x) == n
      ensures x in node'.Owned()
    {
      if x != z && x != y {
        assert x in node.Owned() && x in node.zones;
      }
    }
    hide Model.OwnerOf, Attached;
    assert node.ind == y ==> node.Owned()[|node.zones|] == y;
    assert forall k :: 0 <= k < |node.zones| ==> node.zones[k] == node.Owned()[k];
    MarkedBy(m', n, node.zones, z, y);
  }

  lemma MarkedBy(m: Model, n: nat, zones: seq<nat>, z: nat, y: nat)
    requires m.Has(n) && m.At(n).Owned() == zones + [z] + [y] && z != y
    requires m.first <= z < m.NextZone() && m.first <= y < m.NextZone() && m.OwnerOf(z) == n && m.OwnerOf(y) == n
    requires forall k :: 0 <= k < |zones| ==> m.first <= zones[k] < m.NextZone() && m.OwnerOf(zones[k]) == n
    requires forall k :: 0 <= k < |zones| ==> zones[k] != z && zones[k] != y
    requires forall j, k :: 0 <= j < k < |zones| ==> zones[j] != zones[k]
    ensures Marked(m, n)
  {
    hide Model.OwnerOf, Node.Owned;
  }

  lemma Owners2(m: Model, n: nat, node': Node, z: nat, y: nat)
    requires m.Has(n) && m.first <= z < m.NextZone() && m.first <= y < m.NextZone()
    ensures forall x: nat :: Attach2(m, n, node', z, y).OwnerOf(x) == if x == z || x == y then n else m.OwnerOf(x)
  {
  }

  // ----- a directory entry -----

  function Entered(node: Node, e: Entry): Node {
    node.(ents := node.ents + [e])
  }

  lemma DirBlockOther(big: bool, b: Block, ents: seq<Entry>, e: Entry, k: nat)
    requires DirBlock(big, b, ents, k) && k != |ents| / SLOTS
    ensures DirBlock(big, b, ents + [e], k)
  {
    hide SlotNum, SlotName;
    forall s | 0 <= s < SLOTS
      ensures SlotRep(big, b, ents + [e], k, s)
    {
      assert SlotRep(big, b, ents, k, s);
      assert SLOTS * k + s != |ents|;
    }
  }

  lemma DirBlockEnter(big: bool, b: Block, ents: seq<Entry>, e: Entry)
    requires DirBlock(big, b, ents, |ents| / SLOTS) && 0 < e.num < 65536 && ValidName(e.name)
    ensures DirBlock(big, PutSlot(big, b, |ents| % SLOTS, e.num, e.name), ents + [e], |ents| / SLOTS)
  {
    hide SlotNum, SlotName, PutSlot;
    var k, s0 := |ents| / SLOTS, |ents| % SLOTS;
    var b' := PutSlot(big, b, s0, e.num, e.name);
    PutSlotReads(big, b, s0, e.num, e.name);
    forall s | 0 <= s < SLOTS
      ensures SlotRep(big, b', ents + [e], k, s)
    {
      assert SlotRep(big, b, ents, k, s);
      if s != s0 {
        SlotFrame(big, b', b, s);
      }
    }
  }

  /** All entries so far are stored, and the slot after them is empty. */
  lemma SlotsUsed(big: bool, blocks: seq<Block>, node: Node, k: nat, s: nat)
    requires BlocksRep(big, blocks, node) && node.kind == Directory && k < |node.zones| && s < SLOTS
    ensures node.zones[k] < |blocks|
    ensures SlotNum(big, blocks[node.zones[k]], s) == 0 <==> SLOTS * k + s >= |node.ents|
  {
    hide SlotNum, SlotName;
    assert node.Owned()[k] == node.zones[k];
    assert DirBlock(big, BlockOf(blocks, node.zones[k]), node.ents, k);
    assert SlotRep(big, blocks[node.zones[k]], node.ents, k, s);
  }

  lemma EnteredBlocks(big: bool, blocks: seq<Block>, node: Node, e: Entry, blocks': seq<Block>)
    requires BlocksRep(big, blocks, node) && node.kind == Directory && node.ind == 0
    requires |node.ents| < SLOTS * |node.zones| && 0 < e.num < 65536 && ValidName(e.name)
    requires forall j, k :: 0 <= j < k < |node.Owned()| ==> node.Owned()[j] != node.Owned()[k]
    requires var z := node.zones[|node.ents| / SLOTS];
             z < |blocks| && blocks' == blocks[z := PutSlot(big, blocks[z], |node.ents| % SLOTS, e.num, e.name)]
    ensures BlocksRep(big, blocks', Entered(node, e))
  {
    hide DirBlock, ChunkBlock, IndBlock, PutSlot, ValidName;
    var k0 := |node.ents| / SLOTS;
    assert node.Owned() == node.zones && Entered(node, e).Owned() == node.zones;
    DirBlockEnter(big, blocks[node.zones[k0]], node.ents, e);
    forall k | 0 <= k < |node.zones|
      ensures DirBlock(big, BlockOf(blocks', node.zones[k]), node.ents + [e], k)
    {
      if k != k0 {
        DirBlockOther(big, BlockOf(blocks, node.zones[k]), node.ents, e, k);
      }
    }
  }

  lemma EnterRep(im: Image, m: Model, n: nat, e: Entry)
    requires Rep(im, m) && m.Has(n) && m.At(n).kind == Directory && m.At(n).ind == 0
    requires |m.At(n).ents| < SLOTS * |m.At(n).zones| && 0 < e.num < 65536 && ValidName(e.name)
    ensures var z := m.At(n).zones[|m.At(n).ents| / SLOTS];
            && z < |im.blocks|
            && Rep(im.(blocks := im.blocks[z := PutSlot(im.big, im.blocks[z], |m.At(n).ents| % SLOTS, e.num, e.name)]),
                   m.With(n, Entered(m.At(n), e)))
  {
    hide InodeRep, BlocksRep, Marked, Attached, PutSlot;
    NodeRep(im, m, n);
    var node := m.At(n);
    var k := |node.ents| / SLOTS;
    var z := node.zones[k];
    assert node.Owned() == node.zones;
    OwnedInRange(m, n);
    assert m.OwnerOf(node.Owned()[k]) == n && z < im.nzones;
    var im' := im.(blocks := im.blocks[z := PutSlot(im.big, im.blocks[z], |node.ents| % SLOTS, e.num, e.name)]);
    var m' := m.With(n, Entered(node, e));
    NoneTwice(m, n);
    EnteredBlocks(im.big, im.blocks, node, e, im'.blocks);
    EnteredInode(im.inodes[n - 1], node, e);
    SameOwned(m, n, Entered(node, e));
    ChangeRep(im, m, im', m', n);
  }

  lemma NoneTwice(m: Model, n: nat)
    requires m.Has(n) && Marked(m, n)
    ensures forall j, k :: 0 <= j < k < |m.At(n).Owned()| ==> m.At(n).Owned()[j] != m.At(n).Owned()[k]
  {
  }

  lemma EnteredInode(ino: Inode, node: Node, e: Entry)
    requires InodeRep(ino, node)
    ensures InodeRep(ino, Entered(node, e)) && |ino.zone| == 9
  {
  }

  /** Replacing a node by one with the same zones. */
  lemma SameOwned(m: Model, n: nat, node': Node)
    requires m.Has(n) && Marked(m, n) && Attached(m) && node'.Owned() == m.At(n).Owned()
    ensures var m' := m.With(n, node');
            && Marked(m', n)
            && (forall z: nat :: m'.OwnerOf(z) == m.OwnerOf(z))
            && (forall z: nat :: m'.OwnerOf(z) == n ==> z in node'.Owned())
  {
    var m' := m.With(n, node');
    assert forall z: nat :: m'.OwnerOf(z) == m.OwnerOf(z);
    forall z: nat | m'.OwnerOf(z) == n
      ensures z in node'.Owned()
    {
      assert m.OwnerOf(z) == n;
    }
  }

  // ----- size and link count -----

  function Counted(node: Node, bytes: nat, links: nat): Node {
    node.(size := node.size + bytes, links := node.links + links)
  }

  lemma CountedBlocks(big: bool, blocks: seq<Block>, ino: Inode, node: Node, bytes: nat, links: nat)
    requires InodeRep(ino, node) && BlocksRep(big, blocks, node)
    ensures Counted(node, bytes, links).Owned() == node.Owned()
    ensures BlocksRep(big, blocks, Counted(node, bytes, links))
    ensures InodeRep(ino.(size := ino.size + bytes, nlinks := ino.nlinks + links), Counted(node, bytes, links))
  {
    hide ChunkBlock, DirBlock, IndBlock;
  }

  lemma CountRep(im: Image, m: Model, n: nat, bytes: nat, links: nat)
    requires Rep(im, m) && m.Has(n)
    ensures n <= |im.inodes|
    ensures var ino := im.inodes[n - 1];
            Rep(im.(inodes := im.inodes[n - 1 := ino.(size := ino.size + bytes, nlinks := ino.nlinks + links)]),
                m.With(n, Counted(m.At(n), bytes, links)))
  {
    hide Marked, Attached;
    NodeRep(im, m, n);
    var node, ino := m.At(n), im.inodes[n - 1];
    var ino' := ino.(size := ino.size + bytes, nlinks := ino.nlinks + links);
    var node' := Counted(node, bytes, links);
    CountedBlocks(im.big, im.blocks, ino, node, bytes, links);
    hide InodeRep, BlocksRep;
    SameOwned(m, n, node');
    ChangeRep(im, m, im.(inodes := im.inodes[n - 1 := ino']), m.With(n, node'), n);
  }

  // ----- a device number in the place of the first zone -----

  function Numbered(node: Node, dev: nat, bytes: nat): Node {
    node.(zones := [dev], size := node.size + bytes)
  }

  lemma DeviceRep(im: Image, m: Model, n: nat, dev: nat, bytes: nat)
    requires Rep(im, m) && m.Has(n) && m.At(n).kind == Device && m.At(n).zones == []
    ensures n <= |im.inodes| && |im.inodes[n - 1].zone| == 9 && im.inodes[n - 1].zone[0] == 0
    ensures var ino := im.inodes[n - 1];
            Rep(im.(inodes := im.inodes[n - 1 := ino.(size := ino.size + bytes, zone := ino.zone[0 := dev])]),
                m.With(n, Numbered(m.At(n), dev, bytes)))
  {
    hide Marked, Attached;
    NodeRep(im, m, n);
    var node, ino := m.At(n), im.inodes[n - 1];
    var ino' := ino.(size := ino.size + bytes, zone := ino.zone[0 := dev]);
    var node' := Numbered(node, dev, bytes);
    assert ino'.zone == ZoneWords(node');
    assert InodeRep(ino', node') && BlocksRep(im.big, im.blocks, node') && node'.Owned() == node.Owned();
    hide InodeRep, BlocksRep;
    SameOwned(m, n, node');
    ChangeRep(im, m, im.(inodes := im.inodes[n - 1 := ino']), m.With(n, node'), n);
  }
}
