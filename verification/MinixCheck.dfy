/**
 tools/minixfs.py: cmd_check reports no problem exactly for clean file systems
 in which every directory names the one it is met in as its parent.
 */
module MinixCheck {
  import opened Common
  import opened MinixImage
  import opened MinixSettled

  datatype Problem =
    | OutOfRange(who: nat, zone: nat)
    | ClaimedTwice(zone: nat, first: nat, second: nat)
    | BeyondSize(who: nat, zone: nat)
    | BadEntry(dir: nat, num: nat)
    | BadDot(dir: nat)
    | BadDotDot(dir: nat)
    | LinkCount(who: nat)
    | InodeNotMarked(who: nat)
    | InodeNotReferenced(who: nat)
    | ZoneNotMarked(zone: nat)
    | ZoneNotUsed(zone: nat)

  /** What the check reports; a Python exception ends it early.  Without inodes it would take bytes
      of the first data zone for the root. */
  datatype Report = Crashed | NoInodes | Problems(list: seq<Problem>)

  function LinksOf(links: map<nat, nat>, n: nat): nat {
    if n in links then links[n] else 0
  }

  // ----- what the check should find out -----

  predicate HasZones(ino: Inode) {
    TypeOf(ino) == I_REGULAR || TypeOf(ino) == I_DIRECTORY
  }

  /** How many of its zones the size of an inode covers. */
  function Cover(ino: Inode, zones: nat): (n: nat)
    ensures n <= zones
  {
    Min((ino.size + BLOCK - 1) / BLOCK, zones)
  }

  /** The zones an inode may have: what its size covers, and indirect zones. */
  function Covered(im: Image, ino: Inode): seq<nat>
    requires |ino.zone| == 9
  {
    if !HasZones(ino) then []
    else
      match ZonesOf(im, ino)
      case None => []
      case Some((z, ind)) => z[..Cover(ino, |z|)] + ind
  }

  /** No zone in the list is out of range or occurs twice. */
  ghost predicate ZonesDistinct(im: Image, zones: seq<nat>) {
    && (forall k :: 0 <= k < |zones| && zones[k] != 0 ==> im.first <= zones[k] < im.nzones)
    && (forall j, k :: 0 <= j < k < |zones| && zones[j] != 0 ==> zones[j] != zones[k])
  }

  ghost predicate NoneBeyond(im: Image, ino: Inode)
    requires |ino.zone| == 9
  {
    HasZones(ino) ==>
      match ZonesOf(im, ino)
      case None => false
      case Some((z, _)) => forall k :: Cover(ino, |z|) <= k < |z| ==> z[k] == 0
  }

  ghost predicate ZonesFine(im: Image, ino: Inode)
    requires |ino.zone| == 9
  {
    NoneBeyond(im, ino) && ZonesDistinct(im, Covered(im, ino))
  }

  predicate IsInode(im: Image, n: nat) {
    1 <= n <= |im.inodes|
  }

  /** Inode n has zone z. */
  predicate Uses(im: Image, n: nat, z: nat)
    requires Shaped(im)
  {
    IsInode(im, n) && z != 0 && z in Covered(im, im.inodes[n - 1])
  }

  /** The entries of inode n, if it is a directory. */
  function EntsOf(im: Image, n: nat): seq<Entry>
    requires Shaped(im)
  {
    if IsInode(im, n) && TypeOf(im.inodes[n - 1]) == I_DIRECTORY
    then DirEntries(im, im.inodes[n - 1]).GetOr([])
    else []
  }

  predicate Dots(name: seq<byte>) {
    name == DOT || name == DOTDOT
  }

  /** Directory p has an entry for inode c that is not a dot entry. */
  ghost predicate Lists(im: Image, p: nat, c: nat)
    requires Shaped(im)
  {
    ListedIn(EntsOf(im, p), c)
  }

  ghost predicate ListedIn(entries: seq<Entry>, c: nat) {
    exists k :: 0 <= k < |entries| && entries[k].num == c && !Dots(entries[k].name)
  }

  /** The last entry with a name. */
  function LastNamed(entries: seq<Entry>, name: seq<byte>): Option<nat> {
    if entries == [] then None
    else if entries[|entries| - 1].name == name then Some(entries[|entries| - 1].num)
    else LastNamed(entries[..|entries| - 1], name)
  }

  ghost predicate EntriesInRange(im: Image, entries: seq<Entry>) {
    forall k :: 0 <= k < |entries| ==> entries[k].num <= im.ninodes
  }

  /** The entries are those of a sound directory n below parent. */
  ghost predicate DirFine(im: Image, n: nat, parent: nat, entries: seq<Entry>) {
    EntriesInRange(im, entries) && LastNamed(entries, DOT) == Some(n) && LastNamed(entries, DOTDOT) == Some(parent)
  }

  /** Entries naming x in the inodes of a set up to number k. */
  ghost function EntryCount(im: Image, used: seq<nat>, k: nat, x: nat): nat
    requires Shaped(im)
  {
    if k == 0 then 0
    else EntryCount(im, used, k - 1, x) + if k in used then CountEnts(EntsOf(im, k), x) else 0
  }

  /** The k-th inode of the walk was listed by p, one of those before, and points back to it. */
  ghost predicate PlacedBy(im: Image, order: seq<nat>, k: nat, p: nat)
    requires Shaped(im) && k < |order|
  {
    && IsInode(im, order[k])
    && (if k == 0 then order[0] == 1 && p == 1 else p in order[..k] && Lists(im, p, order[k]))
    && (TypeOf(im.inodes[order[k] - 1]) == I_DIRECTORY ==> DirFine(im, order[k], p, EntsOf(im, order[k])))
  }

  ghost predicate Placed(im: Image, order: seq<nat>, k: nat)
    requires Shaped(im) && k < |order|
  {
    exists p :: PlacedBy(im, order, k, p)
  }

  /** A walk from the root that comes to no inode twice. */
  ghost predicate Ordered(im: Image, order: seq<nat>)
    requires Shaped(im)
  {
    && (forall k :: 0 <= k < |order| ==> Placed(im, order, k))
    && (forall j, k :: 0 <= j < k < |order| ==> order[j] != order[k])
  }

  /** The used inodes are those in the map, and have as many links as entries. */
  ghost predicate InodesClean(im: Image, order: seq<nat>)
    requires Shaped(im)
  {
    && (forall n :: 1 <= n <= im.ninodes ==> (im.inodeMap[n] <==> n in order))
    && (forall n :: n in order ==> IsInode(im, n) && ZonesFine(im, im.inodes[n - 1])
                                   && im.inodes[n - 1].nlinks == EntryCount(im, order, im.ninodes, n))
  }

  ghost predicate InUse(im: Image, order: seq<nat>, z: nat)
    requires Shaped(im)
  {
    exists n :: n in order && Uses(im, n, z)
  }

  /** No zone has two owners, and the zones in the map are those with one. */
  ghost predicate ZonesClean(im: Image, order: seq<nat>)
    requires Shaped(im)
  {
    && (forall n, k, z: nat :: n in order && k in order && Uses(im, n, z) && Uses(im, k, z) ==> n == k)
    && (forall z :: im.first <= z < im.nzones ==>
          (im.zoneMap[z - im.first + 1] <==> InUse(im, order, z)))
  }

  /** A consistent file system whose inodes are those of the walk. */
  ghost predicate Clean(im: Image, order: seq<nat>)
    requires Shaped(im)
  {
    && order != [] && Ordered(im, order)
    && (forall p, c: nat :: p in order && Lists(im, p, c) ==> c in order)
    && InodesClean(im, order) && ZonesClean(im, order)
  }

  // ----- claiming zones -----

  /** No claim of the list causes a problem. */
  ghost predicate ClaimsOk(im: Image, zones: seq<nat>, owner: map<nat, nat>) {
    && ZonesDistinct(im, zones)
    && (forall k :: 0 <= k < |zones| && zones[k] != 0 ==> zones[k] !in owner)
  }

  /** The zones of the list were given to who. */
  ghost predicate Claimed(zones: seq<nat>, who: nat, owner0: map<nat, nat>, owner: map<nat, nat>) {
    && (forall z :: z in owner <==> z in owner0 || (z in zones && z != 0))
    && (forall z :: z in owner ==> owner[z] == if z in zones && z != 0 then who else owner0[z])
  }

  /** claim() for all zones of a list. */
  method Claim(im: Image, zones: seq<nat>, who: nat, owner0: map<nat, nat>, problems0: seq<Problem>)
    returns (owner: map<nat, nat>, problems: seq<Problem>)
    ensures problems0 <= problems && (problems == problems0 <==> ClaimsOk(im, zones, owner0))
    ensures ClaimsOk(im, zones, owner0) ==> Claimed(zones, who, owner0, owner)
  {
    owner, problems := owner0, problems0;
    var i := 0;
    while i < |zones|
      invariant 0 <= i <= |zones| && problems0 <= problems
      invariant problems == problems0 <==> ClaimsOk(im, zones[..i], owner0)
      invariant ClaimsOk(im, zones[..i], owner0) ==> Claimed(zones[..i], who, owner0, owner)
    {
      var z := zones[i];
      OneClaim(im, zones[..i], z, who, owner0, owner);
      assert zones[..i + 1] == zones[..i] + [z];
      if z == 0 {
      } else if z < im.first || z >= im.nzones {
        problems := problems + [OutOfRange(who, z)];
      } else {
        if z in owner {
          problems := problems + [ClaimedTwice(z, owner[z], who)];
        }
        owner := owner[z := who];
      }
      i := i + 1;
    }
    assert zones[..i] == zones;
  }

  lemma OneClaim(im: Image, zones: seq<nat>, z: nat, who: nat, owner0: map<nat, nat>, owner: map<nat, nat>)
    requires ClaimsOk(im, zones, owner0) ==> Claimed(zones, who, owner0, owner)
    ensures ClaimsOk(im, zones + [z], owner0) <==>
            ClaimsOk(im, zones, owner0) && (z == 0 || (im.first <= z < im.nzones && z !in owner))
    ensures ClaimsOk(im, zones + [z], owner0) ==>
              Claimed(zones + [z], who, owner0, if z == 0 then owner else owner[z := who])
  {
    ClaimsSplit(im, zones, [z], who, owner0, owner);
    assert [z][0] == z;
  }

  /** Claims of two lists, one after the other. */
  lemma ClaimsSplit(im: Image, a: seq<nat>, b: seq<nat>, who: nat, owner0: map<nat, nat>, owner: map<nat, nat>)
    requires ClaimsOk(im, a, owner0) ==> Claimed(a, who, owner0, owner)
    ensures ClaimsOk(im, a + b, owner0) <==> ClaimsOk(im, a, owner0) && ClaimsOk(im, b, owner)
  {
    var all := a + b;
    if ClaimsOk(im, all, owner0) {
      assert forall k :: 0 <= k < |a| ==> all[k] == a[k];
      assert ClaimsOk(im, a, owner0);
      assert forall k :: 0 <= k < |b| ==> all[|a| + k] == b[k];
    } else if ClaimsOk(im, a, owner0) && ClaimsOk(im, b, owner) {
      assert forall k :: 0 <= k < |all| ==> all[k] == if k < |a| then a[k] else b[k - |a|];
      assert false;
    }
  }

  lemma ClaimedBoth(a: seq<nat>, b: seq<nat>, who: nat, owner0: map<nat, nat>, owner1: map<nat, nat>,
                    owner: map<nat, nat>)
    requires Claimed(a, who, owner0, owner1) && Claimed(b, who, owner1, owner)
    ensures Claimed(a + b, who, owner0, owner)
  {
  }

  /** The zones of one inode: those the size covers, those behind, the indirect ones. */
  method ClaimZones(im: Image, n: nat, ino: Inode, owner0: map<nat, nat>, problems0: seq<Problem>)
    returns (owner: map<nat, nat>, problems: seq<Problem>)
    requires |ino.zone| == 9 && HasZones(ino) && ZonesOf(im, ino).Some?
    ensures problems0 <= problems
    ensures problems == problems0 <==> NoneBeyond(im, ino) && ClaimsOk(im, Covered(im, ino), owner0)
    ensures problems == problems0 ==> Claimed(Covered(im, ino), n, owner0, owner)
  {
    hide ZonesOf, ClaimsOk, Claimed;
    var (z, ind) := ZonesOf(im, ino).value;
    var nz := Cover(ino, |z|);
    owner, problems := Claim(im, z[..nz], n, owner0, problems0);
    ghost var owner1 := owner;
    var i := nz;
    while i < |z|
      invariant nz <= i <= |z| && problems0 <= problems
      invariant problems == problems0 <==> ClaimsOk(im, z[..nz], owner0) && forall k :: nz <= k < i ==> z[k] == 0
      invariant problems == problems0 ==> owner == owner1
    {
      if z[i] != 0 {
        problems := problems + [BeyondSize(n, z[i])];
        owner, problems := Claim(im, [z[i]], n, owner, problems);
      }
      i := i + 1;
    }
    ghost var problems1 := problems;
    ClaimsSplit(im, z[..nz], ind, n, owner0, owner1);
    owner, problems := Claim(im, ind, n, owner, problems);
    if problems1 == problems0 && problems == problems1 {
      ClaimedBoth(z[..nz], ind, n, owner0, owner1, owner);
    }
  }

  // ----- directories -----

  /** The inodes a directory puts on the stack, with their parent. */
  function Children(entries: seq<Entry>, n: nat): seq<(nat, nat)> {
    if entries == [] then []
    else
      var e := entries[|entries| - 1];
      Children(entries[..|entries| - 1], n) + if Dots(e.name) then [] else [(e.num, n)]
  }

  lemma {:induction false} ChildrenListed(entries: seq<Entry>, n: nat)
    ensures forall i :: 0 <= i < |Children(entries, n)| ==>
              Children(entries, n)[i].1 == n && ListedIn(entries, Children(entries, n)[i].0)
    ensures forall c :: ListedIn(entries, c) ==> OnStack(Children(entries, n), c)
    decreases |entries|
  {
    if entries != [] {
      var last := |entries| - 1;
      var before := entries[..last];
      ChildrenListed(before, n);
      var all := Children(entries, n);
      forall i | 0 <= i < |all|
        ensures all[i].1 == n && ListedIn(entries, all[i].0)
      {
        if i < |Children(before, n)| {
          var k :| 0 <= k < |before| && before[k].num == all[i].0 && !Dots(before[k].name);
          assert entries[k] == before[k];
        }
      }
      forall c | ListedIn(entries, c)
        ensures OnStack(all, c)
      {
        var k :| 0 <= k < |entries| && entries[k].num == c && !Dots(entries[k].name);
        if k < last {
          assert before[k] == entries[k];
          assert ListedIn(before, c) && OnStack(Children(before, n), c);
          var i :| 0 <= i < |Children(before, n)| && Children(before, n)[i].0 == c;
          assert all[i].0 == c;
        } else {
          assert all[|all| - 1].0 == c;
        }
      }
    }
  }

  ghost predicate OnStack(stack: seq<(nat, nat)>, n: nat) {
    exists i :: 0 <= i < |stack| && stack[i].0 == n
  }

  function Get(names: map<seq<byte>, nat>, name: seq<byte>): Option<nat> {
    if name in names then Some(names[name]) else None
  }

  ghost predicate CountedIn(links0: map<nat, nat>, links: map<nat, nat>, entries: seq<Entry>) {
    forall x: nat :: LinksOf(links, x) == LinksOf(links0, x) + CountEnts(entries, x)
  }

  lemma CountOne(links0: map<nat, nat>, links: map<nat, nat>, entries: seq<Entry>, e: Entry)
    requires CountedIn(links0, links, entries)
    ensures CountedIn(links0, links[e.num := LinksOf(links, e.num) + 1], entries + [e])
  {
    hide CountEnts;
    forall x: nat {
      CountSnoc(entries, e, x);
    }
  }

  lemma SnocNamed(entries: seq<Entry>, e: Entry, n: nat, name: seq<byte>)
    ensures Children(entries + [e], n) == Children(entries, n) + if Dots(e.name) then [] else [(e.num, n)]
    ensures LastNamed(entries + [e], name) == if e.name == name then Some(e.num) else LastNamed(entries, name)
  {
    assert (entries + [e])[..|entries|] == entries;
  }

  /** The entry loop of cmd_check. */
  method ListDir(im: Image, n: nat, parent: nat, entries: seq<Entry>, links0: map<nat, nat>, stack0: seq<(nat, nat)>,
                 problems0: seq<Problem>)
    returns (links: map<nat, nat>, stack: seq<(nat, nat)>, problems: seq<Problem>)
    requires forall i :: 0 <= i < |stack0| ==> 1 <= stack0[i].0 <= im.ninodes
    requires forall i :: 0 <= i < |entries| ==> 1 <= entries[i].num
    ensures forall i :: 0 <= i < |stack| ==> 1 <= stack[i].0 <= im.ninodes
    ensures forall x :: x in links0 ==> x in links && links0[x] <= links[x]
    ensures problems0 <= problems && (problems == problems0 <==> DirFine(im, n, parent, entries))
    ensures problems == problems0 ==> CountedIn(links0, links, entries) && stack == stack0 + Children(entries, n)
  {
    hide CountedIn, Children, LastNamed, EntriesInRange, CountEnts;
    links, stack, problems := links0, stack0, problems0;
    var names: map<seq<byte>, nat> := map[];
    NothingListed(im, links0, n);
    var i := 0;
    while i < |entries|
      invariant 0 <= i <= |entries| && problems0 <= problems
      invariant forall k :: 0 <= k < |stack| ==> 1 <= stack[k].0 <= im.ninodes
      invariant forall x :: x in links0 ==> x in links && links0[x] <= links[x]
      invariant problems == problems0 <==> EntriesInRange(im, entries[..i])
      invariant problems == problems0 ==> ListedSoFar(n, entries[..i], names, links0, links, stack0, stack)
    {
      var e := entries[i];
      assert entries[..i + 1] == entries[..i] + [e];
      RangeSnoc(im, entries[..i], e);
      if e.num > im.ninodes {
        problems := problems + [BadEntry(n, e.num)];
      } else {
        if problems == problems0 {
          ListOne(n, entries[..i], e, names, links0, links, stack0, stack);
        }
        names := names[e.name := e.num];
        links := links[e.num := LinksOf(links, e.num) + 1];
        if !Dots(e.name) {
          stack := stack + [(e.num, n)];
        }
      }
      i := i + 1;
    }
    assert entries[..i] == entries;
    if Get(names, DOT) != Some(n) {
      problems := problems + [BadDot(n)];
    }
    if Get(names, DOTDOT) != Some(parent) {
      problems := problems + [BadDotDot(n)];
    }
  }

  /** What the entry loop has after some entries. */
  ghost predicate ListedSoFar(n: nat, entries: seq<Entry>, names: map<seq<byte>, nat>,
                              links0: map<nat, nat>, links: map<nat, nat>, stack0: seq<(nat, nat)>,
                                stack: seq<(nat, nat)>) {
    && CountedIn(links0, links, entries) && stack == stack0 + Children(entries, n)
    && Get(names, DOT) == LastNamed(entries, DOT) && Get(names, DOTDOT) == LastNamed(entries, DOTDOT)
  }

  lemma NothingListed(im: Image, links: map<nat, nat>, n: nat)
    ensures EntriesInRange(im, []) && CountedIn(links, links, []) && Children([], n) == []
    ensures LastNamed([], DOT) == None && LastNamed([], DOTDOT) == None
  {
  }

  lemma RangeSnoc(im: Image, entries: seq<Entry>, e: Entry)
    ensures EntriesInRange(im, entries + [e]) <==> EntriesInRange(im, entries) && e.num <= im.ninodes
  {
    if EntriesInRange(im, entries + [e]) {
      assert forall k :: 0 <= k < |entries| ==> (entries + [e])[k] == entries[k];
      assert (entries + [e])[|entries|] == e;
    }
  }

  lemma ListOne(n: nat, entries: seq<Entry>, e: Entry, names: map<seq<byte>, nat>,
                links0: map<nat, nat>, links: map<nat, nat>, stack0: seq<(nat, nat)>, stack: seq<(nat, nat)>)
    requires ListedSoFar(n, entries, names, links0, links, stack0, stack)
    ensures ListedSoFar(n, entries + [e], names[e.name := e.num], links0, links[e.num := LinksOf(links, e.num) + 1],
                        stack0, if Dots(e.name) then stack else stack + [(e.num, n)])
  {
    hide CountedIn, Children, LastNamed, CountEnts;
    CountOne(links0, links, entries, e);
    SnocNamed(entries, e, n, DOT);
    SnocNamed(entries, e, n, DOTDOT);
  }

  // ----- the walk -----

  /** What is on the stack was listed by an inode the walk has seen; the root starts it. */
  ghost predicate StackAt(im: Image, order: seq<nat>, c: nat, p: nat)
    requires Shaped(im)
  {
    if order == [] then c == 1 && p == 1 else c in order || (p in order && Lists(im, p, c))
  }

  /** Zone owners are the inodes seen so far. */
  ghost predicate OwnersOk(im: Image, order: seq<nat>, owner: map<nat, nat>)
    requires Shaped(im)
  {
    && (forall n, z: nat :: n in order && Uses(im, n, z) ==> z in owner && owner[z] == n)
    && (forall z :: z in owner ==> owner[z] in order && Uses(im, owner[z], z))
  }

  ghost predicate LinksOk(im: Image, order: seq<nat>, links: map<nat, nat>)
    requires Shaped(im)
  {
    forall x: nat :: LinksOf(links, x) == EntryCount(im, order, im.ninodes, x) + if x == 1 then 1 else 0
  }

  /** What an inode seen lists is seen or on the stack. */
  ghost predicate Closed(im: Image, order: seq<nat>, stack: seq<(nat, nat)>)
    requires Shaped(im)
  {
    && (1 in order || OnStack(stack, 1))
    && (forall p, c: nat :: p in order && Lists(im, p, c) ==> c in order || OnStack(stack, c))
  }

  ghost predicate AllFine(im: Image, order: seq<nat>)
    requires Shaped(im)
  {
    forall n :: n in order ==> IsInode(im, n) && ZonesFine(im, im.inodes[n - 1])
  }

  ghost predicate StackOk(im: Image, order: seq<nat>, stack: seq<(nat, nat)>)
    requires Shaped(im)
  {
    forall i :: 0 <= i < |stack| ==> StackAt(im, order, stack[i].0, stack[i].1)
  }

  /** The walk so far has found no problem. */
  ghost predicate Walking(im: Image, order: seq<nat>, stack: seq<(nat, nat)>, owner: map<nat, nat>,
                          links: map<nat, nat>)
    requires Shaped(im)
  {
    && Ordered(im, order) && AllFine(im, order) && StackOk(im, order, stack)
    && OwnersOk(im, order, owner) && LinksOk(im, order, links) && Closed(im, order, stack)
  }

  lemma WalkStarts(im: Image)
    requires Shaped(im)
    ensures Walking(im, [], [(1, 1)], map[], map[1 := 1])
  {
    forall x: nat
      ensures EntryCount(im, [], im.ninodes, x) == 0
    {
      NothingCounted(im, im.ninodes, x);
    }
    assert [(1, 1)][0] == (1, 1);
  }

  lemma {:induction false} NothingCounted(im: Image, k: nat, x: nat)
    requires Shaped(im)
    ensures EntryCount(im, [], k, x) == 0
  {
    if k > 0 {
      NothingCounted(im, k - 1, x);
    }
  }

  lemma {:induction false} OneCounted(im: Image, order: seq<nat>, n: nat, k: nat, x: nat)
    requires Shaped(im) && n !in order && 1 <= n
    ensures EntryCount(im, order + [n], k, x) == EntryCount(im, order, k, x)
                                                 + if n <= k then CountEnts(EntsOf(im, n), x) else 0
    decreases k
  {
    hide EntsOf, CountEnts;
    if k > 0 {
      OneCounted(im, order, n, k - 1, x);
    }
  }

  /** An inode that was seen before leaves the stack. */
  lemma SkipSeen(im: Image, order: seq<nat>, stack: seq<(nat, nat)>)
    requires Shaped(im) && |stack| > 0 && stack[|stack| - 1].0 in order
    requires StackOk(im, order, stack) && Closed(im, order, stack)
    ensures StackOk(im, order, stack[..|stack| - 1]) && Closed(im, order, stack[..|stack| - 1])
  {
    hide Lists;
    var rest := stack[..|stack| - 1];
    forall c | OnStack(stack, c) && c !in order
      ensures OnStack(rest, c)
    {
      StackRest(stack, c);
    }
  }

  lemma StackRest(stack: seq<(nat, nat)>, c: nat)
    requires |stack| > 0 && OnStack(stack, c) && c != stack[|stack| - 1].0
    ensures OnStack(stack[..|stack| - 1], c)
  {
    var i :| 0 <= i < |stack| && stack[i].0 == c;
    assert stack[..|stack| - 1][i].0 == c;
  }

  lemma VisitOrdered(im: Image, order: seq<nat>, n: nat, p: nat)
    requires Shaped(im) && Ordered(im, order) && n !in order && IsInode(im, n) && StackAt(im, order, n, p)
    requires TypeOf(im.inodes[n - 1]) == I_DIRECTORY ==> DirFine(im, n, p, EntsOf(im, n))
    ensures Ordered(im, order + [n])
  {
    hide Lists, DirFine, EntsOf;
    var order' := order + [n];
    forall k | 0 <= k < |order'|
      ensures Placed(im, order', k)
    {
      if k < |order| {
        assert Placed(im, order, k);
        var q :| PlacedBy(im, order, k, q);
        assert order'[..k] == order[..k];
        assert PlacedBy(im, order', k, q);
      } else {
        assert order'[..k] == order;
        assert PlacedBy(im, order', k, p);
      }
    }
  }

  lemma VisitOwners(im: Image, order: seq<nat>, n: nat, owner: map<nat, nat>, owner': map<nat, nat>)
    requires Shaped(im) && OwnersOk(im, order, owner) && AllFine(im, order) && n !in order && IsInode(im, n)
    requires NoneBeyond(im, im.inodes[n - 1]) && ClaimsOk(im, Covered(im, im.inodes[n - 1]), owner)
    requires Claimed(Covered(im, im.inodes[n - 1]), n, owner, owner')
    ensures OwnersOk(im, order + [n], owner') && AllFine(im, order + [n])
  {
    hide Covered, NoneBeyond;
  }

  lemma VisitStack(im: Image, order: seq<nat>, n: nat, stack: seq<(nat, nat)>)
    requires Shaped(im) && |stack| > 0 && n !in order && n == stack[|stack| - 1].0
    requires StackOk(im, order, stack) && Closed(im, order, stack)
    ensures StackOk(im, order + [n], stack[..|stack| - 1] + Children(EntsOf(im, n), n))
    ensures Closed(im, order + [n], stack[..|stack| - 1] + Children(EntsOf(im, n), n))
  {
    hide EntsOf, Children, ListedIn;
    var rest, kids := stack[..|stack| - 1], Children(EntsOf(im, n), n);
    ChildrenListed(EntsOf(im, n), n);
    StackGrows(im, order, n, rest, kids);
    forall c | OnStack(stack, c) && c != n
      ensures OnStack(rest + kids, c)
    {
      StackRest(stack, c);
      StackBoth(rest, kids, c);
    }
    forall c | Lists(im, n, c)
      ensures OnStack(rest + kids, c)
    {
      StackBoth(rest, kids, c);
    }
  }

  lemma StackBoth(a: seq<(nat, nat)>, b: seq<(nat, nat)>, c: nat)
    requires OnStack(a, c) || OnStack(b, c)
    ensures OnStack(a + b, c)
  {
    if OnStack(a, c) {
      var i :| 0 <= i < |a| && a[i].0 == c;
      assert (a + b)[i].0 == c;
    } else {
      var i :| 0 <= i < |b| && b[i].0 == c;
      assert (a + b)[|a| + i].0 == c;
    }
  }

  lemma StackGrows(im: Image, order: seq<nat>, n: nat, rest: seq<(nat, nat)>, kids: seq<(nat, nat)>)
    requires Shaped(im) && StackOk(im, order, rest) && (order == [] ==> n == 1)
    requires forall i :: 0 <= i < |kids| ==> kids[i].1 == n && Lists(im, n, kids[i].0)
    ensures StackOk(im, order + [n], rest + kids)
  {
    hide Lists;
    var stack := rest + kids;
    forall i | 0 <= i < |stack|
      ensures StackAt(im, order + [n], stack[i].0, stack[i].1)
    {
      if i < |rest| {
        assert stack[i] == rest[i];
      } else {
        assert stack[i] == kids[i - |rest|];
      }
    }
  }

  lemma VisitLinks(im: Image, order: seq<nat>, n: nat, links: map<nat, nat>, links': map<nat, nat>)
    requires Shaped(im) && LinksOk(im, order, links) && n !in order && IsInode(im, n)
    requires CountedIn(links, links', EntsOf(im, n))
    ensures LinksOk(im, order + [n], links')
  {
    hide EntsOf, CountEnts, EntryCount;
    forall x: nat {
      OneCounted(im, order, n, im.ninodes, x);
    }
  }

  /** Entries never have inode number 0. */
  lemma {:induction false} EntriesNonzero(big: bool, data: seq<byte>, s: nat)
    ensures forall i :: 0 <= i < |EntriesFrom(big, data, s)| ==> 1 <= EntriesFrom(big, data, s)[i].num
    decreases |data| - DIR_SIZE * s
  {
    if DIR_SIZE * s + DIR_SIZE <= |data| {
      EntriesNonzero(big, data, s + 1);
    }
  }

  /** What is examined when inode n comes off the stack. */
  method Visit(im: Image, n: nat, parent: nat, owner0: map<nat, nat>, links0: map<nat, nat>, stack0: seq<(nat, nat)>,
               problems0: seq<Problem>)
    returns (crashed: bool, owner: map<nat, nat>, links: map<nat, nat>, stack: seq<(nat, nat)>, problems: seq<Problem>)
    requires Shaped(im) && IsInode(im, n)
    requires forall i :: 0 <= i < |stack0| ==> 1 <= stack0[i].0 <= im.ninodes
    ensures crashed <==> HasZones(im.inodes[n - 1]) && ZonesOf(im, im.inodes[n - 1]).None?
    ensures forall i :: 0 <= i < |stack| ==> 1 <= stack[i].0 <= im.ninodes
    ensures forall x :: x in links0 ==> x in links && links0[x] <= links[x]
    ensures problems0 <= problems
    ensures !crashed ==>
              (problems == problems0 <==>
                 && NoneBeyond(im, im.inodes[n - 1]) && ClaimsOk(im, Covered(im, im.inodes[n - 1]), owner0)
                 && (TypeOf(im.inodes[n - 1]) == I_DIRECTORY ==> DirFine(im, n, parent, EntsOf(im, n))))
    ensures !crashed && problems == problems0 ==>
              && Claimed(Covered(im, im.inodes[n - 1]), n, owner0, owner)
              && CountedIn(links0, links, EntsOf(im, n)) && stack == stack0 + Children(EntsOf(im, n), n)
  {
    hide ZonesOf, DirFine, EntriesFrom, ClaimsOk, CountedIn, Claimed;
    var ino := im.inodes[n - 1];
    crashed, owner, links, stack, problems := false, owner0, links0, stack0, problems0;
    NothingListed(im, links, n);
    NothingClaimed(im, n, owner);
    if HasZones(ino) {
      if ZonesOf(im, ino).None? {
        return true, owner, links, stack, problems;
      }
      owner, problems := ClaimZones(im, n, ino, owner, problems);
    }
    if TypeOf(ino) == I_DIRECTORY {
      var entries := DirEntries(im, ino).value;
      EntriesNonzero(im.big, ReadFile(im, ino).value, 0);
      links, stack, problems := ListDir(im, n, parent, entries, links, stack, problems);
    }
  }

  lemma NothingClaimed(im: Image, n: nat, owner: map<nat, nat>)
    ensures ClaimsOk(im, [], owner) && Claimed([], n, owner, owner)
  {
  }

  // ----- the whole check -----

  /** One inode of the walk is done without a problem. */
  lemma VisitWalking(im: Image, order: seq<nat>, stack: seq<(nat, nat)>, owner: map<nat, nat>, owner': map<nat, nat>,
                     links: map<nat, nat>, links': map<nat, nat>)
    requires Shaped(im) && Walking(im, order, stack, owner, links) && |stack| > 0
    requires var n := stack[|stack| - 1].0;
             && IsInode(im, n) && n !in order
             && NoneBeyond(im, im.inodes[n - 1]) && ClaimsOk(im, Covered(im, im.inodes[n - 1]), owner)
             && (TypeOf(im.inodes[n - 1]) == I_DIRECTORY ==> DirFine(im, n, stack[|stack| - 1].1, EntsOf(im, n)))
             && Claimed(Covered(im, im.inodes[n - 1]), n, owner, owner') && CountedIn(links, links', EntsOf(im, n))
    ensures var n := stack[|stack| - 1].0;
            Walking(im, order + [n], stack[..|stack| - 1] + Children(EntsOf(im, n), n), owner', links')
  {
    hide Ordered, AllFine, StackAt, OwnersOk, LinksOk, Closed, NoneBeyond, ClaimsOk, DirFine, EntsOf, Claimed,
         CountedIn, Children, Covered;
    var (n, p) := stack[|stack| - 1];
    VisitOrdered(im, order, n, p);
    VisitOwners(im, order, n, owner, owner');
    VisitStack(im, order, n, stack);
    VisitLinks(im, order, n, links, links');
  }

  predicate IsDir(im: Image, n: nat) {
    IsInode(im, n) && TypeOf(im.inodes[n - 1]) == I_DIRECTORY
  }

  /** No directory but the root is listed by two. */
  ghost predicate ListedOnce(im: Image, order: seq<nat>)
    requires Shaped(im)
  {
    forall p, q, c: nat :: p in order && q in order && Lists(im, p, c) && Lists(im, q, c) && c != 1 && IsDir(im, c) ==>
        p == q
  }

  /** A clean image in which it does not matter where the walk comes from. */
  ghost predicate Consistent(im: Image, order: seq<nat>)
    requires Shaped(im)
  {
    Clean(im, order) && ListedOnce(im, order)
  }

  // ----- where the walk meets an inode -----

  ghost function Unseen(im: Image, seen: set<nat>): set<nat> {
    set n: nat | 1 <= n <= |im.inodes| && n !in seen
  }

  lemma UnseenLess(im: Image, seen: set<nat>, n: nat)
    requires IsInode(im, n) && n !in seen
    ensures |Unseen(im, seen + {n})| < |Unseen(im, seen)|
  {
    assert Unseen(im, seen) == Unseen(im, seen + {n}) + {n};
  }

  /** The inodes in the order in which they come off the stack for the first time, each with the
      directory it was met in. */
  ghost function Met(im: Image, stack: seq<(nat, nat)>, seen: set<nat>): seq<(nat, nat)>
    requires Shaped(im)
    decreases |Unseen(im, seen)|, |stack|
  {
    if stack == [] then []
    else
      var (n, p) := stack[|stack| - 1];
      var rest := stack[..|stack| - 1];
      if !IsInode(im, n) || n in seen then Met(im, rest, seen)
      else
        UnseenLess(im, seen, n);
        [(n, p)] + Met(im, rest + Children(EntsOf(im, n), n), seen + {n})
  }

  /** A directory names the one it is met in as its parent. */
  ghost predicate RightAt(im: Image, c: nat, p: nat)
    requires Shaped(im)
  {
    IsDir(im, c) ==> LastNamed(EntsOf(im, c), DOTDOT) == Some(p)
  }

  ghost predicate AllRight(im: Image, met: seq<(nat, nat)>)
    requires Shaped(im)
  {
    forall i :: 0 <= i < |met| ==> RightAt(im, met[i].0, met[i].1)
  }

  ghost predicate ComesRight(im: Image)
    requires Shaped(im)
  {
    AllRight(im, Met(im, [(1, 1)], {}))
  }

  lemma MetNext(im: Image, stack: seq<(nat, nat)>, seen: set<nat>)
    requires Shaped(im) && |stack| > 0
    ensures var (n, p) := stack[|stack| - 1];
            var rest := stack[..|stack| - 1];
            Met(im, stack, seen) == if !IsInode(im, n) || n in seen then Met(im, rest, seen)
                                    else [(n, p)] + Met(im, rest + Children(EntsOf(im, n), n), seen + {n})
  {
  }

  /** What the walk has met so far, and what it will meet. */
  ghost predicate MetSoFar(im: Image, met: seq<(nat, nat)>, stack: seq<(nat, nat)>, seen: set<nat>)
    requires Shaped(im)
  {
    Met(im, [(1, 1)], {}) == met + Met(im, stack, seen) && AllRight(im, met)
  }

  lemma MetStart(im: Image)
    requires Shaped(im)
    ensures MetSoFar(im, [], [(1, 1)], {})
  {
    hide Met;
  }

  lemma MetSkip(im: Image, met: seq<(nat, nat)>, stack: seq<(nat, nat)>, seen: set<nat>)
    requires Shaped(im) && MetSoFar(im, met, stack, seen) && |stack| > 0 && stack[|stack| - 1].0 in seen
    ensures MetSoFar(im, met, stack[..|stack| - 1], seen)
  {
    hide Met, RightAt;
    MetNext(im, stack, seen);
  }

  /** If everything is met where it should be, so is the next. */
  lemma MetThis(im: Image, met: seq<(nat, nat)>, stack: seq<(nat, nat)>, seen: set<nat>)
    requires Shaped(im) && MetSoFar(im, met, stack, seen) && |stack| > 0
    requires IsInode(im, stack[|stack| - 1].0) && stack[|stack| - 1].0 !in seen
    ensures ComesRight(im) ==> RightAt(im, stack[|stack| - 1].0, stack[|stack| - 1].1)
  {
    hide Met, RightAt;
    MetNext(im, stack, seen);
    if ComesRight(im) {
      var all := Met(im, [(1, 1)], {});
      assert RightAt(im, all[|met|].0, all[|met|].1);
    }
  }

  lemma MetMore(im: Image, met: seq<(nat, nat)>, stack: seq<(nat, nat)>, seen: set<nat>)
    requires Shaped(im) && MetSoFar(im, met, stack, seen) && |stack| > 0
    requires IsInode(im, stack[|stack| - 1].0) && stack[|stack| - 1].0 !in seen
    requires RightAt(im, stack[|stack| - 1].0, stack[|stack| - 1].1)
    ensures var n := stack[|stack| - 1].0;
            MetSoFar(im, met + [stack[|stack| - 1]], stack[..|stack| - 1] + Children(EntsOf(im, n), n), seen + {n})
  {
    hide Met, RightAt, Children, EntsOf;
    MetNext(im, stack, seen);
  }

  lemma MetAll(im: Image, met: seq<(nat, nat)>, seen: set<nat>)
    requires Shaped(im) && MetSoFar(im, met, [], seen)
    ensures ComesRight(im)
  {
    hide Met, RightAt;
    NoneMet(im, seen);
    assert met + [] == met;
  }

  /** Everything on the stack was listed by an inode of a consistent image. */
  ghost predicate FromOrder(im: Image, order: seq<nat>, stack: seq<(nat, nat)>, seen: set<nat>)
    requires Shaped(im)
  {
    && (forall n :: n in seen ==> n in order) && (seen != {} ==> 1 in seen)
    && (forall i :: 0 <= i < |stack| ==>
          || stack[i].0 in seen || (seen == {} && stack[i] == (1, 1))
          || (1 in seen && stack[i].1 in order && Lists(im, stack[i].1, stack[i].0)))
  }

  /** If no directory is listed twice, it does not matter where it is met. */
  lemma {:induction false} MetRight(im: Image, order: seq<nat>, stack: seq<(nat, nat)>, seen: set<nat>)
    requires Shaped(im) && Consistent(im, order) && FromOrder(im, order, stack, seen)
    ensures AllRight(im, Met(im, stack, seen))
    decreases |Unseen(im, seen)|, |stack|
  {
    hide Consistent, Lists, Met, Children, EntsOf, RightAt;
    if stack == [] {
      NoneMet(im, seen);
    } else {
      MetNext(im, stack, seen);
      var (n, p) := stack[|stack| - 1];
      var rest := stack[..|stack| - 1];
      if !IsInode(im, n) || n in seen {
        MetRight(im, order, rest, seen);
      } else {
        UnseenLess(im, seen, n);
        MetHere(im, order, n, p, seen);
        ChildrenListed(EntsOf(im, n), n);
        GrownFromOrder(im, order, stack, seen);
        MetRight(im, order, rest + Children(EntsOf(im, n), n), seen + {n});
      }
    }
  }

  lemma MetHere(im: Image, order: seq<nat>, n: nat, p: nat, seen: set<nat>)
    requires Shaped(im) && Consistent(im, order) && IsInode(im, n) && n !in seen
    requires (seen == {} && n == 1 && p == 1) || (1 in seen && p in order && Lists(im, p, n))
    ensures RightAt(im, n, p) && n in order
  {
    hide EntsOf, Lists, InodesClean, ZonesClean;
    RootFirst(im, order);
    if n == 1 {
      assert Placed(im, order, 0);
    } else {
      var k :| 0 <= k < |order| && order[k] == n;
      assert Placed(im, order, k);
    }
  }

  lemma GrownFromOrder(im: Image, order: seq<nat>, stack: seq<(nat, nat)>, seen: set<nat>)
    requires Shaped(im) && FromOrder(im, order, stack, seen) && |stack| > 0
    requires stack[|stack| - 1].0 in order && stack[|stack| - 1].0 !in seen
    ensures var n := stack[|stack| - 1].0;
            FromOrder(im, order, stack[..|stack| - 1] + Children(EntsOf(im, n), n), seen + {n})
  {
    hide EntsOf, Children;
    var n := stack[|stack| - 1].0;
    var rest, kids := stack[..|stack| - 1], Children(EntsOf(im, n), n);
    ChildrenListed(EntsOf(im, n), n);
    var stack', seen' := rest + kids, seen + {n};
    forall i | 0 <= i < |stack'|
      ensures stack'[i].0 in seen' || (1 in seen' && stack'[i].1 in order && Lists(im, stack'[i].1, stack'[i].0))
    {
      if i < |rest| {
        assert stack'[i] == stack[i];
      } else {
        assert stack'[i] == kids[i - |rest|];
      }
    }
  }

  lemma ConsistentRight(im: Image, order: seq<nat>)
    requires Shaped(im) && Consistent(im, order)
    ensures ComesRight(im)
  {
    hide Consistent, Met, Lists;
    assert FromOrder(im, order, [(1, 1)], {});
    MetRight(im, order, [(1, 1)], {});
  }

  /** What comes off the stack in a clean image, met where it should be, gives no problem. */
  lemma NextFine(im: Image, order: seq<nat>, used: seq<nat>, n: nat, p: nat, owner: map<nat, nat>)
    requires Shaped(im) && Clean(im, order) && RightAt(im, n, p) && (forall k :: k in used ==> k in order)
    requires Ordered(im, used) && StackAt(im, used, n, p) && n !in used && OwnersOk(im, used, owner)
    ensures n in order && IsInode(im, n)
    ensures HasZones(im.inodes[n - 1]) ==> ZonesOf(im, im.inodes[n - 1]).Some?
    ensures NoneBeyond(im, im.inodes[n - 1]) && ClaimsOk(im, Covered(im, im.inodes[n - 1]), owner)
    ensures TypeOf(im.inodes[n - 1]) == I_DIRECTORY ==> DirFine(im, n, p, EntsOf(im, n))
  {
    hide ZonesOf, Covered, DirFine, EntsOf, OwnersOk, ClaimsOk, Uses, Lists, Ordered, RightAt, EntryCount;
    NextListed(im, order, used, n, p);
    ClaimsFree(im, order, used, n, owner);
  }

  /** It is an inode of the image, in its place. */
  lemma NextListed(im: Image, order: seq<nat>, used: seq<nat>, n: nat, p: nat)
    requires Shaped(im) && Clean(im, order) && RightAt(im, n, p) && (forall k :: k in used ==> k in order)
    requires Ordered(im, used) && StackAt(im, used, n, p) && n !in used
    ensures n in order && IsInode(im, n)
    ensures TypeOf(im.inodes[n - 1]) == I_DIRECTORY ==> DirFine(im, n, p, EntsOf(im, n))
  {
    hide EntsOf, Lists, InodesClean, ZonesClean, LastNamed;
    if used == [] {
      assert Placed(im, order, 0);
      assert order[0] in order;
    } else {
      RootFirst(im, used);
      assert n in order;
      var k :| 0 <= k < |order| && order[k] == n;
      assert Placed(im, order, k);
      var q :| PlacedBy(im, order, k, q);
      if TypeOf(im.inodes[n - 1]) == I_DIRECTORY {
        RootFirst(im, order);
        assert n != 1 && k > 0 && q in order;
      }
    }
  }

  lemma RootFirst(im: Image, order: seq<nat>)
    requires Shaped(im) && Ordered(im, order) && order != []
    ensures order[0] == 1 && 1 in order
  {
    assert Placed(im, order, 0);
  }

  lemma ClaimsFree(im: Image, order: seq<nat>, used: seq<nat>, n: nat, owner: map<nat, nat>)
    requires Shaped(im) && InodesClean(im, order) && ZonesClean(im, order) && (forall k :: k in used ==> k in order)
    requires n in order && n !in used && OwnersOk(im, used, owner)
    ensures IsInode(im, n) && NoneBeyond(im, im.inodes[n - 1]) && ClaimsOk(im, Covered(im, im.inodes[n - 1]), owner)
    ensures HasZones(im.inodes[n - 1]) ==> ZonesOf(im, im.inodes[n - 1]).Some?
  {
    hide ZonesOf, Covered, EntryCount, HasZones;
    var zones := Covered(im, im.inodes[n - 1]);
    assert ZonesFine(im, im.inodes[n - 1]);
    forall k | 0 <= k < |zones| && zones[k] != 0
      ensures zones[k] !in owner
    {
      var z: nat := zones[k];
      assert Uses(im, n, z);
      if z in owner {
        assert false;
      }
    }
  }

  /** The walk comes to every inode of a clean image. */
  lemma {:induction false} AllSeen(im: Image, order: seq<nat>, used: seq<nat>, k: nat)
    requires Shaped(im) && Ordered(im, order) && Closed(im, used, []) && k < |order|
    ensures order[k] in used
    decreases k
  {
    hide Lists, DirFine;
    assert Placed(im, order, k);
    var p :| PlacedBy(im, order, k, p);
    if k > 0 {
      var j :| 0 <= j < k && order[j] == p;
      AllSeen(im, order, used, j);
    }
  }

  lemma {:induction false} SameCount(im: Image, a: seq<nat>, b: seq<nat>, k: nat, x: nat)
    requires Shaped(im) && forall n :: n in a <==> n in b
    ensures EntryCount(im, a, k, x) == EntryCount(im, b, k, x)
    decreases k
  {
    hide EntsOf, CountEnts;
    if k > 0 {
      SameCount(im, a, b, k - 1, x);
    }
  }

  /** After the walk of a clean image the maps and counts are right. */
  lemma CleanUsed(im: Image, order: seq<nat>, used: seq<nat>, owner: map<nat, nat>, links0: map<nat, nat>,
                       links: map<nat, nat>)
    requires Shaped(im) && Clean(im, order) && Walking(im, used, [], owner, links0)
    requires forall n :: n in used ==> n in order
    requires 1 in links0 && links0[1] >= 1 && links == links0[1 := links0[1] - 1]
    ensures forall k :: 0 <= k < |used| ==>
              IsInode(im, used[k]) && im.inodes[used[k] - 1].nlinks == LinksOf(links, used[k]) && im.inodeMap[used[k]]
    ensures forall n :: 1 <= n <= im.ninodes && im.inodeMap[n] ==> n in used
    ensures forall z :: im.first <= z < im.nzones ==> (im.zoneMap[z - im.first + 1] <==> z in owner)
  {
    hide Closed, Ordered, EntryCount, Uses, ZonesFine, Lists;
    forall n | n in order
      ensures n in used
    {
      var k :| 0 <= k < |order| && order[k] == n;
      AllSeen(im, order, used, k);
    }
    forall n | n in used
      ensures IsInode(im, n) && im.inodes[n - 1].nlinks == LinksOf(links, n) && im.inodeMap[n]
    {
      SameCount(im, order, used, im.ninodes, n);
      assert LinksOf(links0, n) == LinksOf(links, n) + if n == 1 then 1 else 0;
    }
    forall z | im.first <= z < im.nzones
      ensures InUse(im, order, z) <==> z in owner
    {
      if z in owner {
        assert Uses(im, owner[z], z);
      }
    }
  }

  lemma InodesSeen(im: Image, seen: set<nat>)
    requires forall n :: n in seen ==> 1 <= n <= im.ninodes
    ensures |seen| <= im.ninodes
  {
    var all := Below(im.ninodes + 1);
    SubsetSize(seen + {0}, all);
  }

  /** The stack loop. */
  method Walk(im: Image, ghost order: seq<nat>)
    returns (crashed: bool, used: seq<nat>, owner: map<nat, nat>, links: map<nat, nat>, problems: seq<Problem>)
    requires Shaped(im) && im.ninodes > 0
    ensures 1 in links && links[1] >= 1
    ensures forall k :: 0 <= k < |used| ==> IsInode(im, used[k])
    ensures !crashed && problems == [] ==> Walking(im, used, [], owner, links) && ComesRight(im)
    ensures Clean(im, order) && ComesRight(im) ==> !crashed && problems == [] && forall n :: n in used ==> n in order
  {
    hide Ordered, AllFine, StackAt, OwnersOk, LinksOk, Closed, NoneBeyond, ClaimsOk, DirFine, EntsOf, Claimed,
         CountedIn, Children, Covered, ZonesOf, Clean, MetSoFar, RightAt, ComesRight;
    ghost var met: seq<(nat, nat)> := [];
    var stack, seen: set<nat> := [(1, 1)], {};
    crashed, used, owner, links, problems := false, [], map[], map[1 := 1], [];
    WalkStarts(im);
    MetStart(im);
    while |stack| > 0
      invariant forall i :: 0 <= i < |stack| ==> 1 <= stack[i].0 <= im.ninodes
      invariant forall n :: n in seen <==> n in used
      invariant forall n :: n in used ==> IsInode(im, n)
      invariant 1 in links && links[1] >= 1
      invariant problems == [] ==> Walking(im, used, stack, owner, links)
      invariant problems == [] ==> MetSoFar(im, met, stack, seen)
      invariant Clean(im, order) && ComesRight(im) ==> problems == [] && forall n :: n in used ==> n in order
      decreases im.ninodes - |seen|, |stack|
    {
      var (n, parent) := stack[|stack| - 1];
      InodesSeen(im, seen);
      if n in seen {
        if problems == [] {
          MetSkip(im, met, stack, seen);
          SkipSeen(im, used, stack);
        }
        stack := stack[..|stack| - 1];
      } else {
        InodesSeen(im, seen + {n});
        ghost var stack0, owner0, links0, problems0 := stack, owner, links, problems;
        if Clean(im, order) && ComesRight(im) {
          MetThis(im, met, stack, seen);
          NextFine(im, order, used, n, parent, owner);
        }
        crashed, owner, links, stack, problems := Visit(im, n, parent, owner, links, stack[..|stack| - 1], problems);
        if crashed {
          return;
        }
        if problems == [] {
          VisitWalking(im, used, stack0, owner0, owner, links0, links);
          FineRight(im, n, parent);
          MetMore(im, met, stack0, seen);
          met := met + [(n, parent)];
        }
        seen := seen + {n};
        used := used + [n];
      }
    }
    assert stack == [];
    if problems == [] {
      MetAll(im, met, seen);
    }
  }

  lemma FineRight(im: Image, n: nat, p: nat)
    requires Shaped(im) && IsInode(im, n)
    requires TypeOf(im.inodes[n - 1]) == I_DIRECTORY ==> DirFine(im, n, p, EntsOf(im, n))
    ensures RightAt(im, n, p)
  {
  }

  lemma NoneMet(im: Image, seen: set<nat>)
    requires Shaped(im)
    ensures Met(im, [], seen) == []
  {
  }

  /** Link counts and the inode map, for the inodes seen. */
  method CheckUsed(im: Image, used: seq<nat>, links: map<nat, nat>, problems0: seq<Problem>)
    returns (problems: seq<Problem>)
    requires Shaped(im) && forall k :: 0 <= k < |used| ==> IsInode(im, used[k])
    ensures problems0 <= problems
    ensures problems == problems0 <==>
            forall k :: 0 <= k < |used| ==>
                IsInode(im, used[k]) && im.inodes[used[k] - 1].nlinks == LinksOf(links, used[k]) && im.inodeMap[used[k]]
  {
    problems := problems0;
    var i := 0;
    while i < |used|
      invariant 0 <= i <= |used| && problems0 <= problems
      invariant problems == problems0 <==>
                forall k :: 0 <= k < i ==>
                    IsInode(im, used[k]) && im.inodes[used[k] - 1].nlinks == LinksOf(links, used[k])
                      && im.inodeMap[used[k]]
    {
      var n := used[i];
      if im.inodes[n - 1].nlinks != LinksOf(links, n) {
        problems := problems + [LinkCount(n)];
      }
      if !im.inodeMap[n] {
        problems := problems + [InodeNotMarked(n)];
      }
      i := i + 1;
    }
  }

  /** Inodes in the map that nothing refers to. */
  method CheckInodeMap(im: Image, used: seq<nat>, problems0: seq<Problem>) returns (problems: seq<Problem>)
    requires Shaped(im)
    ensures problems0 <= problems
    ensures problems == problems0 <==> forall n :: 1 <= n <= im.ninodes && im.inodeMap[n] ==> n in used
  {
    problems := problems0;
    var n := 1;
    while n <= im.ninodes
      invariant 1 <= n <= im.ninodes + 1 && problems0 <= problems
      invariant problems == problems0 <==> forall k :: 1 <= k < n && im.inodeMap[k] ==> k in used
    {
      if im.inodeMap[n] && n !in used {
        problems := problems + [InodeNotReferenced(n)];
      }
      n := n + 1;
    }
  }

  method CheckZoneMap(im: Image, owner: map<nat, nat>, problems0: seq<Problem>) returns (problems: seq<Problem>)
    requires Shaped(im)
    ensures problems0 <= problems
    ensures problems == problems0 <==>
              forall z :: im.first <= z < im.nzones ==> (im.zoneMap[z - im.first + 1] <==> z in owner)
  {
    problems := problems0;
    var z := im.first;
    while z < im.nzones
      invariant im.first <= z && (z <= im.nzones || z == im.first) && problems0 <= problems
      invariant problems == problems0 <==>
                  forall k :: im.first <= k < z ==> (im.zoneMap[k - im.first + 1] <==> k in owner)
    {
      if z in owner && !im.zoneMap[z - im.first + 1] {
        problems := problems + [ZoneNotMarked(z)];
      }
      if im.zoneMap[z - im.first + 1] && z !in owner {
        problems := problems + [ZoneNotUsed(z)];
      }
      z := z + 1;
    }
  }

  lemma WalkClean(im: Image, used: seq<nat>, owner: map<nat, nat>, links0: map<nat, nat>, links: map<nat, nat>)
    requires Shaped(im) && Walking(im, used, [], owner, links0)
    requires 1 in links0 && links0[1] >= 1 && links == links0[1 := links0[1] - 1]
    requires forall k :: 0 <= k < |used| ==>
               IsInode(im, used[k]) && im.inodes[used[k] - 1].nlinks == LinksOf(links, used[k]) && im.inodeMap[used[k]]
    requires forall n :: 1 <= n <= im.ninodes && im.inodeMap[n] ==> n in used
    requires forall z :: im.first <= z < im.nzones ==> (im.zoneMap[z - im.first + 1] <==> z in owner)
    ensures Clean(im, used)
  {
    hide Ordered, ZonesFine, Lists, EntryCount, Uses;
    assert used != [];
    forall n | n in used
      ensures im.inodes[n - 1].nlinks == EntryCount(im, used, im.ninodes, n)
    {
      assert LinksOf(links0, n) == LinksOf(links, n) + if n == 1 then 1 else 0;
    }
    forall z | im.first <= z < im.nzones
      ensures z in owner <==> InUse(im, used, z)
    {
      if z in owner {
        assert Uses(im, owner[z], z);
      }
    }
  }

  /** cmd_check(): a report without problems means a clean file system in which every directory
      names the one it is met in as its parent, and every such file system gets that report.  Where
      no directory is listed twice it is always met in its parent. */
  method Check(im: Image) returns (r: Report)
    requires Shaped(im)
    ensures r == NoInodes <==> im.ninodes == 0
    ensures r == Problems([]) <==> ComesRight(im) && exists order :: Clean(im, order)
    ensures (exists order :: Consistent(im, order)) ==> r == Problems([])
  {
    hide Walking, Consistent, Clean, ComesRight;
    forall order | Consistent(im, order)
      ensures Clean(im, order) && ComesRight(im)
    {
      ConsistentRight(im, order);
      ConsistentClean(im, order);
    }
    if im.ninodes == 0 {
      NoneClean(im);
      return NoInodes;
    }
    ghost var order := [];
    if order1 :| Clean(im, order1) {
      order := order1;
    }
    var crashed, used, owner, links, problems := Walk(im, order);
    if crashed {
      return Crashed;
    }
    ghost var links0 := links;
    links := links[1 := links[1] - 1];
    if Clean(im, order) && ComesRight(im) {
      CleanUsed(im, order, used, owner, links0, links);
    }
    problems := CheckUsed(im, used, links, problems);
    problems := CheckInodeMap(im, used, problems);
    problems := CheckZoneMap(im, owner, problems);
    if problems == [] {
      WalkClean(im, used, owner, links0, links);
    }
    r := Problems(problems);
  }

  lemma ConsistentClean(im: Image, order: seq<nat>)
    requires Shaped(im) && Consistent(im, order)
    ensures Clean(im, order)
  {
  }

  lemma NoneClean(im: Image)
    requires Shaped(im) && im.ninodes == 0
    ensures !exists order :: Clean(im, order)
  {
    forall order: seq<nat>
      ensures !Clean(im, order)
    {
      if Clean(im, order) {
        RootIsInode(im, order);
        assert false;
      }
    }
  }

  lemma RootIsInode(im: Image, order: seq<nat>)
    requires Shaped(im) && Ordered(im, order) && order != []
    ensures im.ninodes > 0
  {
    assert Placed(im, order, 0);
  }
}
