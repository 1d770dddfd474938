/**
 When an image is complete: sizes, entries, parents and link counts of all
 inodes agree.  mkfs passes through states that are not, between one entry of
 the prototype and the next it always is.
 */
module MinixSettled {
  import opened Common
  import opened MinixImage
  import opened MinixModel
  import opened MinixSteps

  const DOT: seq<byte> := [46]
  const DOTDOT: seq<byte> := [46, 46]

  // ----- link counts -----

  function CountEnts(ents: seq<Entry>, n: nat): nat {
    if ents == [] then 0
    else CountEnts(ents[..|ents| - 1], n) + if ents[|ents| - 1].num == n then 1 else 0
  }

  /** All directory entries that name inode n. */
  function Links(nodes: seq<Node>, n: nat): nat {
    if nodes == [] then 0
    else Links(nodes[..|nodes| - 1], n) + CountEnts(nodes[|nodes| - 1].ents, n)
  }

  lemma LinksSnoc(nodes: seq<Node>, node: Node, n: nat)
    ensures Links(nodes + [node], n) == Links(nodes, n) + CountEnts(node.ents, n)
  {
    assert (nodes + [node])[..|nodes|] == nodes;
  }

  lemma CountSnoc(ents: seq<Entry>, e: Entry, n: nat)
    ensures CountEnts(ents + [e], n) == CountEnts(ents, n) + if e.num == n then 1 else 0
  {
    assert (ents + [e])[..|ents|] == ents;
  }

  lemma {:induction false} LinksUpdate(nodes: seq<Node>, i: nat, node: Node, n: nat)
    requires i < |nodes|
    ensures Links(nodes[i := node], n) == Links(nodes, n) - CountEnts(nodes[i].ents, n) + CountEnts(node.ents, n)
    decreases |nodes|
  {
    var k := |nodes| - 1;
    if i == k {
      assert nodes[i := node][..k] == nodes[..k];
    } else {
      LinksUpdate(nodes[..k], i, node, n);
      assert nodes[i := node][..k] == nodes[..k][i := node];
    }
  }

  // ----- one inode -----

  ghost predicate ListsAt(m: Model, n: nat, k: nat)
    requires m.Has(n) && k < |m.At(n).ents|
  {
    var e := m.At(n).ents[k];
    && n < e.num && m.Has(e.num) && m.At(e.num).parent == n
    && e.name != DOT && e.name != DOTDOT
  }

  ghost predicate DirSettled(m: Model, n: nat)
    requires m.Has(n)
  {
    var node := m.At(n);
    && |node.ents| >= 2 && node.ents[0] == Entry(n, DOT) && node.ents[1] == Entry(node.parent, DOTDOT)
    && node.size == DIR_SIZE * |node.ents|
    && |node.zones| == (|node.ents| + SLOTS - 1) / SLOTS <= NR_DZONE
    && (forall k :: 2 <= k < |node.ents| ==> ListsAt(m, n, k))
    && (forall j, k :: 2 <= j < k < |node.ents| ==>
          node.ents[j].name != node.ents[k].name && node.ents[j].num < node.ents[k].num)
  }

  /** Entry k of the parent directory names inode n. */
  ghost predicate ListedAt(m: Model, n: nat, k: nat)
    requires m.Has(n) && m.Has(m.At(n).parent)
  {
    2 <= k < |m.At(m.At(n).parent).ents| && m.At(m.At(n).parent).ents[k].num == n
  }

  ghost predicate NodeSettled(m: Model, n: nat)
    requires m.Has(n)
  {
    var node := m.At(n);
    && (node.kind == Directory ==> DirSettled(m, n))
    && (node.kind == Regular ==> node.size == |node.data| && |node.zones| == (|node.data| + BLOCK - 1) / BLOCK)
    && (node.kind != Directory ==> node.ents == [])
    && (n == 1 ==> node.parent == 1 && node.kind == Directory)
    && (n > 1 ==> 1 <= node.parent < n && m.At(node.parent).kind == Directory && exists k :: ListedAt(m, n, k))
    && node.links == Links(m.nodes, n)
  }

  /** A complete image. */
  ghost predicate Settled(m: Model) {
    && (forall n :: m.Has(n) ==> NodeSettled(m, n))
    && (forall z: nat :: !Loose(m, z))
  }

  // ----- one more entry -----

  /** m' is m with a new last inode, listed as name in directory p.  sub says whether the new
      inode is a directory; then its dot-dot entry is one more link to p. */
  ghost predicate OneMore(m: Model, m': Model, p: nat, name: seq<byte>, node: Node)
    requires m.Has(p)
  {
    var n := m.NextInode();
    var old1 := m.At(p);
    && |m'.nodes| == |m.nodes| + 1
    && m'.nodes == m.nodes[p - 1 := m'.At(p)] + [node]
    && m'.At(p) == old1.(ents := old1.ents + [Entry(n, name)], size := old1.size + DIR_SIZE, zones := m'.At(p).zones,
                         links := old1.links + if node.kind == Directory then 1 else 0)
    && |m'.At(p).zones| == (if |old1.ents| < SLOTS * |old1.zones| then |old1.zones| else |old1.zones| + 1) <= NR_DZONE
    && node.parent == p
    && (forall z: nat :: !Loose(m', z))
  }

  /** What the new inode must be like. */
  ghost predicate NewNode(node: Node, n: nat) {
    && (node.kind == Directory ==>
          && node.ents == [Entry(n, DOT), Entry(node.parent, DOTDOT)] && node.size == DIR_SIZE * 2
          && |node.zones| == 1 && node.links == 2)
    && (node.kind != Directory ==> node.ents == [] && node.links == 1)
    && (node.kind == Regular ==> node.size == |node.data| && |node.zones| == (|node.data| + BLOCK - 1) / BLOCK)
  }

  lemma LinksOneMore(m: Model, m': Model, p: nat, name: seq<byte>, node: Node, x: nat)
    requires m.Has(p) && OneMore(m, m', p, name, node) && NewNode(node, m.NextInode())
    ensures var n := m.NextInode();
            Links(m'.nodes, x) == Links(m.nodes, x) + (if x == n then 1 else 0)
                                  + if node.kind == Directory
                                    then (if x == n then 1 else 0) + (if x == p then 1 else 0) else 0
  {
    var n := m.NextInode();
    var e := Entry(n, name);
    LinksSnoc(m.nodes[p - 1 := m'.At(p)], node, x);
    LinksUpdate(m.nodes, p - 1, m'.At(p), x);
    CountSnoc(m.At(p).ents, e, x);
    if node.kind == Directory {
      var a, b := Entry(n, DOT), Entry(p, DOTDOT);
      assert node.ents == [a] + [b];
      CountSnoc([a], b, x);
      CountSnoc([], a, x);
      assert [] + [a] == [a];
    }
  }

  lemma {:induction false} NoLinks(nodes: seq<Node>, n: nat)
    requires forall i, k :: 0 <= i < |nodes| && 0 <= k < |nodes[i].ents| ==> nodes[i].ents[k].num != n
    ensures Links(nodes, n) == 0
    decreases |nodes|
  {
    if nodes != [] {
      var k := |nodes| - 1;
      NoLinks(nodes[..k], n);
      NoCount(nodes[k].ents, n);
    }
  }

  lemma {:induction false} NoCount(ents: seq<Entry>, n: nat)
    requires forall k :: 0 <= k < |ents| ==> ents[k].num != n
    ensures CountEnts(ents, n) == 0
    decreases |ents|
  {
    if ents != [] {
      NoCount(ents[..|ents| - 1], n);
    }
  }

  /** Entries name inodes that exist. */
  lemma EntryInRange(m: Model, n: nat, k: nat)
    requires Settled(m) && m.Has(n) && k < |m.At(n).ents|
    ensures 1 <= m.At(n).ents[k].num <= |m.nodes|
  {
    hide Links;
    assert NodeSettled(m, n);
    if k >= 2 {
      assert ListsAt(m, n, k);
    }
  }

  lemma SettledOneMore(m: Model, m': Model, p: nat, name: seq<byte>, node: Node)
    requires Settled(m) && m.Has(p) && m.At(p).kind == Directory
    requires OneMore(m, m', p, name, node) && NewNode(node, m.NextInode())
    requires name != DOT && name != DOTDOT
    requires forall k :: 2 <= k < |m.At(p).ents| ==> m.At(p).ents[k].name != name
    ensures Settled(m')
  {
    hide Links, NodeSettled;
    forall n | m'.Has(n)
      ensures NodeSettled(m', n)
    {
      if n == m.NextInode() {
        NewSettled(m, m', p, name, node);
      } else if n == p {
        ParentSettled(m, m', p, name, node);
      } else {
        OtherSettled(m, m', p, name, node, n);
      }
    }
  }

  lemma NewSettled(m: Model, m': Model, p: nat, name: seq<byte>, node: Node)
    requires Settled(m) && m.Has(p) && m.At(p).kind == Directory
    requires OneMore(m, m', p, name, node) && NewNode(node, m.NextInode())
    ensures NodeSettled(m', m.NextInode())
  {
    hide Links, NodeSettled, CountEnts;
    var n := m.NextInode();
    assert m'.At(n) == node;
    assert ListedAt(m', n, |m.At(p).ents|) by {
      assert NodeSettled(m, p);
      DirHasDots(m, p);
    }
    forall i, k | 0 <= i < |m.nodes| && 0 <= k < |m.nodes[i].ents|
      ensures m.nodes[i].ents[k].num != n
    {
      assert m.Has(i + 1) && m.At(i + 1) == m.nodes[i];
      EntryInRange(m, i + 1, k);
    }
    NoLinks(m.nodes, n);
    LinksOneMore(m, m', p, name, node, n);
    SettleNode(m', n);
  }

  lemma DirHasDots(m: Model, n: nat)
    requires m.Has(n) && NodeSettled(m, n) && m.At(n).kind == Directory
    ensures |m.At(n).ents| >= 2
  {
  }

  /** NodeSettled of a new inode from its parts. */
  lemma SettleNode(m: Model, n: nat)
    requires m.Has(n) && n > 1 && NewNode(m.At(n), n)
    requires 1 <= m.At(n).parent < n && m.At(m.At(n).parent).kind == Directory
    requires exists k :: ListedAt(m, n, k)
    requires m.At(n).links == Links(m.nodes, n)
    ensures NodeSettled(m, n)
  {
  }

  lemma SameElsewhere(m: Model, m': Model, p: nat, name: seq<byte>, node: Node, n: nat)
    requires m.Has(p) && m.Has(n) && OneMore(m, m', p, name, node)
    ensures m'.Has(n) && m'.At(n).parent == m.At(n).parent && m'.At(n).kind == m.At(n).kind
    ensures m.At(n).ents <= m'.At(n).ents
    ensures n != p ==> m'.At(n) == m.At(n)
  {
    assert m'.nodes[n - 1] == m.nodes[p - 1 := m'.At(p)][n - 1];
  }

  lemma ListsKept(m: Model, m': Model, p: nat, name: seq<byte>, node: Node, n: nat, k: nat)
    requires m.Has(p) && m.Has(n) && OneMore(m, m', p, name, node)
    requires k < |m.At(n).ents| && ListsAt(m, n, k)
    ensures m'.Has(n) && k < |m'.At(n).ents| && ListsAt(m', n, k)
  {
    SameElsewhere(m, m', p, name, node, n);
    SameElsewhere(m, m', p, name, node, m.At(n).ents[k].num);
  }

  /** Parent and listing of an old inode stay. */
  lemma PlaceKept(m: Model, m': Model, p: nat, name: seq<byte>, node: Node, n: nat)
    requires m.Has(p) && m.Has(n) && OneMore(m, m', p, name, node)
    requires n > 1 ==> 1 <= m.At(n).parent < n && m.At(m.At(n).parent).kind == Directory
                       && exists k :: ListedAt(m, n, k)
    ensures m'.Has(n)
    ensures n > 1 ==> 1 <= m'.At(n).parent < n && m'.At(m'.At(n).parent).kind == Directory
                      && exists k :: ListedAt(m', n, k)
  {
    SameElsewhere(m, m', p, name, node, n);
    if n > 1 {
      SameElsewhere(m, m', p, name, node, m.At(n).parent);
      var k :| ListedAt(m, n, k);
      assert ListedAt(m', n, k);
    }
  }

  lemma OtherSettled(m: Model, m': Model, p: nat, name: seq<byte>, node: Node, n: nat)
    requires Settled(m) && m.Has(p) && m.Has(n) && n != p
    requires OneMore(m, m', p, name, node) && NewNode(node, m.NextInode())
    ensures m'.Has(n) && NodeSettled(m', n)
  {
    hide Links, OneMore, NewNode, ListsAt, ListedAt;
    assert NodeSettled(m, n);
    SameElsewhere(m, m', p, name, node, n);
    PlaceKept(m, m', p, name, node, n);
    LinksOneMore(m, m', p, name, node, n);
    if m.At(n).kind == Directory {
      forall k | 2 <= k < |m'.At(n).ents|
        ensures ListsAt(m', n, k)
      {
        ListsKept(m, m', p, name, node, n, k);
      }
    }
  }

  lemma ParentSettled(m: Model, m': Model, p: nat, name: seq<byte>, node: Node)
    requires Settled(m) && m.Has(p) && m.At(p).kind == Directory
    requires OneMore(m, m', p, name, node) && NewNode(node, m.NextInode())
    requires name != DOT && name != DOTDOT
    requires forall k :: 2 <= k < |m.At(p).ents| ==> m.At(p).ents[k].name != name
    ensures m'.Has(p) && NodeSettled(m', p)
  {
    hide Links, NewNode, ListedAt;
    assert NodeSettled(m, p);
    SameElsewhere(m, m', p, name, node, p);
    PlaceKept(m, m', p, name, node, p);
    LinksOneMore(m, m', p, name, node, p);
    var a, b := m.At(p), m'.At(p);
    var n := m.NextInode();
    assert m'.At(n) == node;
    forall k | 2 <= k < |b.ents|
      ensures ListsAt(m', p, k)
    {
      if k < |a.ents| {
        ListsKept(m, m', p, name, node, p, k);
      }
    }
    forall k | 2 <= k < |a.ents|
      ensures a.ents[k].num < n
    {
      assert ListsAt(m, p, k);
    }
    assert DirSettled(m', p);
  }
}
