/** src/commands/readfs.c: the block cache and finding the blocks of a file. */
module Readfs {
  import opened Common
  import opened MinixImage
  import opened MinixModel
  import opened MinixSteps
  import opened Mkfs
  import opened MinixSettled
  import opened MinixRead
  import opened MinixCheck
  import opened MkfsCheck

  const NR_CACHES := 2
  const NR_CBLOCKS := 5
  const MAXBLOCKS := NR_DZONE + NR_INDIRECTS + NR_INDIRECTS * NR_INDIRECTS
  const B_INDIRECT := 1
  const B_DATA := 2   // beyond the caches

  /** get_rawblock(): None when the block is behind the end of the disk. */
  function Raw(disk: seq<Block>, b: nat): Option<Block> {
    if b < |disk| then Some(disk[b]) else None
  }

  /** A read that comes to the end of the disk has filled the front of the buffer by then. */
  function Overlaid(buf: Block, tail: seq<byte>): Block
    requires |tail| < BLOCK
  {
    tail + buf[|tail|..]
  }

  // ----- least recently used, as a list -----

  /** The block numbers a cache holds, the last used first; 0 stands for an unused slot. */
  type Recent = r: seq<nat> | |r| == NR_CBLOCKS witness [0, 0, 0, 0, 0]

  function IndexOf(s: seq<nat>, x: nat): (i: nat)
    requires x in s
    ensures i < |s| && s[i] == x && x !in s[..i]
  {
    if s[0] == x then 0 else 1 + IndexOf(s[1..], x)
  }

  function MoveFirst<T>(s: seq<T>, j: nat): (r: seq<T>)
    requires j < |s|
    ensures |r| == |s|
  {
    [s[j]] + s[..j] + s[j + 1..]
  }

  /** Block b is used: it becomes the first, and if it was not there the last one goes. */
  function Touch(r: Recent, b: nat): Recent {
    if b in r then MoveFirst(r, IndexOf(r, b)) else [b] + r[..NR_CBLOCKS - 1]
  }

  // ----- the cache -----

  datatype Slot = Slot(block: nat, access: nat, buf: Block)

  /** order lists the slots, each once. */
  ghost predicate AllSlots(order: seq<nat>) {
    && |order| == NR_CBLOCKS && (forall k :: 0 <= k < NR_CBLOCKS ==> order[k] < NR_CBLOCKS)
    && (forall v: nat :: v < NR_CBLOCKS ==> v in order)
    && (forall j, k :: 0 <= j < k < NR_CBLOCKS ==> order[j] != order[k])
  }

  /** The last used comes first; slots not used yet come last. */
  ghost predicate ByAccess(slots: seq<Slot>, order: seq<nat>)
    requires |slots| == NR_CBLOCKS && AllSlots(order)
  {
    forall j, k :: 0 <= j < k < NR_CBLOCKS ==>
      slots[order[j]].access > slots[order[k]].access || slots[order[j]].access == slots[order[k]].access == 0
  }

  ghost predicate Shows(slots: seq<Slot>, order: seq<nat>, recent: Recent)
    requires |slots| == NR_CBLOCKS && AllSlots(order)
  {
    forall k :: 0 <= k < NR_CBLOCKS ==> slots[order[k]].block == recent[k]
  }

  ghost predicate NoneTwice(slots: seq<Slot>) {
    forall i, j :: 0 <= i < j < |slots| && slots[i].block != 0 ==> slots[i].block != slots[j].block
  }

  ghost predicate SlotsOk(disk: seq<Block>, slots: seq<Slot>, counter: nat) {
    forall i :: 0 <= i < |slots| ==> SlotOk(disk, slots[i], counter)
  }

  /** One of the caches: order lists its slots, the last used first. */
  ghost predicate Row(disk: seq<Block>, slots: seq<Slot>, counter: nat, order: seq<nat>, recent: Recent) {
    && |slots| == NR_CBLOCKS && AllSlots(order) && ByAccess(slots, order) && Shows(slots, order, recent)
    && SlotsOk(disk, slots, counter) && NoneTwice(slots)
  }

  /** A slot in use holds what is on the disk. */
  ghost predicate SlotOk(disk: seq<Block>, slot: Slot, counter: nat) {
    && (slot.block == 0 <==> slot.access == 0) && slot.access <= counter
    && (slot.block != 0 ==> Raw(disk, slot.block) == Some(slot.buf))
  }

  /** A hit in slot order[j]. */
  lemma HitRow(disk: seq<Block>, slots: seq<Slot>, counter: nat, order: seq<nat>, recent: Recent, i: nat, j: nat)
    requires Row(disk, slots, counter, order, recent) && i < NR_CBLOCKS && j < NR_CBLOCKS && order[j] == i
             && slots[i].block != 0
    ensures Row(disk, slots[i := slots[i].(access := counter + 1)], counter + 1, MoveFirst(order, j),
            Touch(recent, slots[i].block))
  {
    hide AllSlots, ByAccess, Raw;
    var b := slots[i].block;
    assert recent[j] == b;
    FirstPlace(slots, order, recent, b, j);
    assert SlotOk(disk, slots[i], counter);
    NewRow(disk, slots, counter, order, recent, i, j, b, slots[i].buf);
    assert MoveFirst(recent, j) == MoveFirst(recent, j)[0 := b];
  }

  lemma FirstPlace(slots: seq<Slot>, order: seq<nat>, recent: Recent, b: nat, j: nat)
    requires |slots| == NR_CBLOCKS && AllSlots(order) && Shows(slots, order, recent) && NoneTwice(slots)
    requires j < NR_CBLOCKS && recent[j] == b != 0
    ensures IndexOf(recent, b) == j
  {
    var k := IndexOf(recent, b);
    assert slots[order[k]].block == slots[order[j]].block;
  }

  lemma MoveAt<T>(s: seq<T>, j: nat)
    requires j < |s|
    ensures var r := MoveFirst(s, j);
            && r[0] == s[j]
            && (forall k {:trigger r[k]} :: 0 < k <= j ==> r[k] == s[k - 1])
            && (forall k {:trigger r[k]} :: j < k < |s| ==> r[k] == s[k])
  {
  }

  lemma MoveSlots(order: seq<nat>, j: nat)
    requires AllSlots(order) && j < NR_CBLOCKS
    ensures AllSlots(MoveFirst(order, j))
  {
    MoveAt(order, j);
    var order' := MoveFirst(order, j);
    forall v: nat | v < NR_CBLOCKS
      ensures v in order'
    {
      assert v in order;
      var k := IndexOf(order, v);
      assert order'[if k == j then 0 else if k < j then k + 1 else k] == v;
    }
  }

  lemma MoveAccess(slots: seq<Slot>, order: seq<nat>, j: nat, slot: Slot)
    requires |slots| == NR_CBLOCKS && AllSlots(order) && ByAccess(slots, order) && j < NR_CBLOCKS
    requires forall i :: 0 <= i < NR_CBLOCKS ==> slots[i].access < slot.access
    ensures AllSlots(MoveFirst(order, j)) && ByAccess(slots[order[j] := slot], MoveFirst(order, j))
  {
    MoveSlots(order, j);
    MoveAt(order, j);
  }

  /** Slot order[j] gets block b and becomes the first. */
  lemma NewRow(disk: seq<Block>, slots: seq<Slot>, counter: nat, order: seq<nat>, recent: Recent, i: nat, j: nat,
               b: nat, buf: Block)
    requires Row(disk, slots, counter, order, recent) && i < NR_CBLOCKS && j < NR_CBLOCKS && order[j] == i
    requires b != 0 && Raw(disk, b) == Some(buf) && forall k :: 0 <= k < NR_CBLOCKS && k != i ==> slots[k].block != b
    ensures Row(disk, slots[i := Slot(b, counter + 1, buf)], counter + 1, MoveFirst(order, j),
            MoveFirst(recent, j)[0 := b])
  {
    hide ByAccess, AllSlots, Raw;
    var slot := Slot(b, counter + 1, buf);
    assert forall k :: 0 <= k < NR_CBLOCKS ==> slots[k].access < slot.access by {
      assert forall k :: 0 <= k < NR_CBLOCKS ==> SlotOk(disk, slots[k], counter);
    }
    MoveAccess(slots, order, j, slot);
    MoveShows(slots, order, recent, j, slot);
  }

  lemma MoveShows(slots: seq<Slot>, order: seq<nat>, recent: Recent, j: nat, slot: Slot)
    requires |slots| == NR_CBLOCKS && AllSlots(order) && Shows(slots, order, recent) && j < NR_CBLOCKS
    ensures AllSlots(MoveFirst(order, j))
            && Shows(slots[order[j] := slot], MoveFirst(order, j), MoveFirst(recent, j)[0 := slot.block])
  {
    MoveSlots(order, j);
    MoveAt(order, j);
    MoveAt(recent, j);
  }

  /** A miss: slot i was used least recently, or not at all. */
  lemma MissRow(disk: seq<Block>, slots: seq<Slot>, counter: nat, order: seq<nat>, recent: Recent, i: nat, b: nat,
                buf: Block)
    requires Row(disk, slots, counter, order, recent) && i < NR_CBLOCKS
    requires forall k :: 0 <= k < NR_CBLOCKS ==> slots[i].access <= slots[k].access
    requires b != 0 && b !in recent && Raw(disk, b) == Some(buf)
    ensures i in order
    ensures Row(disk, slots[i := Slot(b, counter + 1, buf)], counter + 1, MoveFirst(order, IndexOf(order, i)),
            Touch(recent, b))
  {
    hide ByAccess, Shows, SlotsOk, NoneTwice, Raw, IndexOf;
    assert i in order;
    var j := IndexOf(order, i);
    hide AllSlots;
    InRecent(disk, slots, counter, order, recent);
    NewRow(disk, slots, counter, order, recent, i, j, b, buf);
    LastOnes(disk, slots, counter, order, recent, j);
    LastGoes(recent, j, b);
  }

  lemma LastGoes(recent: Recent, j: nat, b: nat)
    requires j < NR_CBLOCKS && (j < NR_CBLOCKS - 1 ==> forall k :: j <= k < NR_CBLOCKS ==> recent[k] == 0)
    ensures MoveFirst(recent, j)[0 := b] == [b] + recent[..NR_CBLOCKS - 1]
  {
    MoveAt(recent, j);
  }

  /** Behind the oldest slot there are only unused ones. */
  lemma LastOnes(disk: seq<Block>, slots: seq<Slot>, counter: nat, order: seq<nat>, recent: Recent, j: nat)
    requires Row(disk, slots, counter, order, recent) && j < NR_CBLOCKS
    requires forall k :: 0 <= k < NR_CBLOCKS ==> slots[order[j]].access <= slots[k].access
    ensures j < NR_CBLOCKS - 1 ==> forall k :: j <= k < NR_CBLOCKS ==> recent[k] == 0
  {
    forall k | j <= k < NR_CBLOCKS && j < NR_CBLOCKS - 1
      ensures recent[k] == 0
    {
      var l := if k == j then k + 1 else k;
      assert slots[order[j]].access <= slots[order[l]].access;
      assert SlotOk(disk, slots[order[k]], counter);
    }
  }

  /** The list has what the slots have. */
  lemma InRecent(disk: seq<Block>, slots: seq<Slot>, counter: nat, order: seq<nat>, recent: Recent)
    requires Row(disk, slots, counter, order, recent)
    ensures forall b :: b in recent <==> exists i :: 0 <= i < NR_CBLOCKS && slots[i].block == b
  {
    forall i: nat | i < NR_CBLOCKS
      ensures slots[i].block in recent
    {
      assert i in order;
      assert recent[IndexOf(order, i)] == slots[i].block;
    }
    forall b | b in recent
      ensures exists i :: 0 <= i < NR_CBLOCKS && slots[i].block == b
    {
      assert slots[order[IndexOf(recent, b)]].block == b;
    }
  }

  /** What a cache would serve changes for a block it does not hold. */
  lemma OtherRow(disk: seq<Block>, slots: seq<Slot>, counter: nat, order: seq<nat>, recent: Recent, b: nat, buf: Block)
    requires Row(disk, slots, counter, order, recent) && b !in recent && b < |disk|
    ensures Row(disk[b := buf], slots, counter, order, recent)
  {
    hide ByAccess, AllSlots, Shows;
    InRecent(disk, slots, counter, order, recent);
    forall i | 0 <= i < |slots|
      ensures SlotOk(disk[b := buf], slots[i], counter)
    {
      assert SlotOk(disk, slots[i], counter) && slots[i].block != b;
    }
  }

  /** The buffer of the oldest slot changes under its block. */
  lemma SpoiltRow(disk: seq<Block>, slots: seq<Slot>, counter: nat, order: seq<nat>, recent: Recent, i: nat, buf: Block)
    requires Row(disk, slots, counter, order, recent) && i < NR_CBLOCKS
    requires forall k :: 0 <= k < NR_CBLOCKS ==> slots[i].access <= slots[k].access
    ensures slots[i].block == recent[NR_CBLOCKS - 1]
    ensures slots[i].block != 0 ==> slots[i].block < |disk| && slots[i].buf == disk[slots[i].block]
    ensures var disk' := if slots[i].block == 0 then disk else disk[slots[i].block := buf];
            Row(disk', slots[i := slots[i].(buf := buf)], counter, order, recent)
  {
    assert i in order;
    var j := IndexOf(order, i);
    LastOnes(disk, slots, counter, order, recent, j);
    assert slots[order[j]].block == recent[j];
    assert SlotOk(disk, slots[i], counter);
    var b := slots[i].block;
    var disk', slots' := if b == 0 then disk else disk[b := buf], slots[i := slots[i].(buf := buf)];
    hide AllSlots;
    SameRest(slots, slots', order, recent);
    forall k | 0 <= k < |slots|
      ensures SlotOk(disk', slots'[k], counter)
    {
      assert SlotOk(disk, slots[k], counter);
    }
  }

  lemma SameRest(slots: seq<Slot>, slots': seq<Slot>, order: seq<nat>, recent: Recent)
    requires |slots| == |slots'| == NR_CBLOCKS && AllSlots(order)
    requires ByAccess(slots, order) && Shows(slots, order, recent) && NoneTwice(slots)
    requires forall k :: 0 <= k < NR_CBLOCKS ==>
               slots'[k].block == slots[k].block && slots'[k].access == slots[k].access
    ensures ByAccess(slots', order) && Shows(slots', order, recent) && NoneTwice(slots')
  {
  }

  lemma LaterRow(disk: seq<Block>, slots: seq<Slot>, counter: nat, order: seq<nat>, recent: Recent)
    requires Row(disk, slots, counter, order, recent)
    ensures Row(disk, slots, counter + 1, order, recent)
  {
  }

  const UNUSED := Slot(0, 0, Zeros(BLOCK))

  lemma NewRows(disk: seq<Block>)
    ensures Row(disk, Repeat(NR_CBLOCKS, UNUSED), 0, [0, 1, 2, 3, 4], [0, 0, 0, 0, 0])
  {
    var order: seq<nat> := [0, 1, 2, 3, 4];
    assert order[0] == 0 && order[1] == 1 && order[2] == 2 && order[3] == 3 && order[4] == 4;
  }

  /** What a cache would serve of each block after block b was asked for: a new block comes from
      the disk, and a read that fails in the middle of a block spoils the oldest one. */
  function ServedAfter(view: seq<Block>, disk: seq<Block>, tail: seq<byte>, recent: Recent, b: nat): (r: seq<Block>)
    requires |view| == |disk| && |tail| < BLOCK
    ensures |r| == |view|
  {
    var oldest := recent[NR_CBLOCKS - 1];
    if b == 0 || b in recent then view
    else if b < |disk| then view[b := disk[b]]
    else if b == |disk| && 0 < oldest < |view| then view[oldest := Overlaid(view[oldest], tail)]
    else view
  }

  /** The call of get_block that leaves a wrong block in a cache. */
  predicate Spoils(disk: seq<Block>, tail: seq<byte>, recent: Recent, b: nat) {
    var oldest := recent[NR_CBLOCKS - 1];
    |tail| < BLOCK && b == |disk| && b != 0 && b !in recent && 0 < oldest < |disk| && disk[oldest][..|tail|] != tail
  }

  lemma SpoilsExactly(disk: seq<Block>, tail: seq<byte>, recent: Recent, b: nat)
    requires |tail| < BLOCK
    ensures ServedAfter(disk, disk, tail, recent, b) == disk <==> !Spoils(disk, tail, recent, b)
  {
    var oldest := recent[NR_CBLOCKS - 1];
    if 0 < oldest < |disk| {
      var x := disk[oldest];
      assert Overlaid(x, tail)[..|tail|] == tail;
      assert x == x[..|tail|] + x[|tail|..];
      assert disk[oldest := Overlaid(x, tail)][oldest] == Overlaid(x, tail);
    }
  }

  class Cache {
    const disk: seq<Block>
    /** What the disk has behind its last whole block. */
    const tail: seq<byte>
    const cache: array2<Slot>
    var counter: nat

    ghost var order: seq<seq<nat>>
    /** What each cache holds. */
    ghost var recent: seq<Recent>
    /** What each cache would serve of each block if it holds it. */
    ghost var view: seq<seq<Block>>
    /** How often the disk was read. */
    ghost var rawReads: nat

    ghost function Slots(t: nat): (s: seq<Slot>)
      requires cache.Length0 == NR_CACHES && cache.Length1 == NR_CBLOCKS && t < NR_CACHES
      reads cache
      ensures |s| == NR_CBLOCKS && forall i :: 0 <= i < NR_CBLOCKS ==> s[i] == cache[t, i]
    {
      seq(NR_CBLOCKS, i requires 0 <= i < NR_CBLOCKS reads cache => cache[t, i])
    }

    ghost predicate Valid()
      reads this, cache
    {
      && cache.Length0 == NR_CACHES && cache.Length1 == NR_CBLOCKS && |order| == NR_CACHES && |recent| == NR_CACHES
      && |tail| < BLOCK && |view| == NR_CACHES && |view[0]| == |view[1]| == |disk|
      && forall t: nat :: t < NR_CACHES ==> Row(view[t], Slots(t), counter, order[t], recent[t])
    }

    /** The caches serve what is on the disk. */
    ghost predicate Clean()
      reads this
    {
      view == [disk, disk]
    }

    constructor (disk: seq<Block>, tail: seq<byte>)
      requires |tail| < BLOCK
      ensures Valid() && Clean() && this.disk == disk && this.tail == tail && fresh(cache) && rawReads == 0
      ensures forall t :: 0 <= t < NR_CACHES ==> recent[t] == [0, 0, 0, 0, 0]
    {
      this.disk, this.tail := disk, tail;
      view := [disk, disk];
      cache := new Slot[NR_CACHES, NR_CBLOCKS]((_, _) => UNUSED);
      counter := 0;
      order := [[0, 1, 2, 3, 4], [0, 1, 2, 3, 4]];
      recent := [[0, 0, 0, 0, 0], [0, 0, 0, 0, 0]];
      rawReads := 0;
      new;
      NewRows(disk);
      assert Slots(0) == Repeat(NR_CBLOCKS, UNUSED) && Slots(1) == Repeat(NR_CBLOCKS, UNUSED);
    }

    /** The slot of cache t that holds a block; NR_CBLOCKS if there is none. */
    method Find(t: nat, block: nat) returns (i: nat)
      requires Valid() && t < NR_CACHES
      ensures i <= NR_CBLOCKS && (i < NR_CBLOCKS ==> cache[t, i].block == block)
      ensures i == NR_CBLOCKS ==> forall k :: 0 <= k < NR_CBLOCKS ==> cache[t, k].block != block
    {
      i := 0;
      while i < NR_CBLOCKS && cache[t, i].block != block
        invariant 0 <= i <= NR_CBLOCKS
        invariant forall k :: 0 <= k < i ==> cache[t, k].block != block
      {
        i := i + 1;
      }
    }

    /** The oldest slot of cache t. */
    method Oldest(t: nat) returns (cp: nat)
      requires Valid() && t < NR_CACHES
      ensures cp < NR_CBLOCKS && forall k :: 0 <= k < NR_CBLOCKS ==> cache[t, cp].access <= cache[t, k].access
    {
      cp := 0;
      var i := 0;
      while i < NR_CBLOCKS
        invariant 0 <= i <= NR_CBLOCKS && 0 <= cp < NR_CBLOCKS
        invariant forall k :: 0 <= k < i ==> cache[t, cp].access <= cache[t, k].access
      {
        if cache[t, i].access < cache[t, cp].access {
          cp := i;
        }
        i := i + 1;
      }
    }

    /** The block of the oldest slot. */
    method OldestBlock(t: nat) returns (b: nat)
      requires Valid() && t < NR_CACHES
      ensures b == recent[t][NR_CBLOCKS - 1]
    {
      var cp := Oldest(t);
      SpoiltRow(view[t], Slots(t), counter, order[t], recent[t], cp, cache[t, cp].buf);
      b := cache[t, cp].block;
    }

    lemma RowRecent(t: nat)
      requires Valid() && t < NR_CACHES
      ensures forall b :: b in recent[t] <==> exists i :: 0 <= i < NR_CBLOCKS && cache[t, i].block == b
    {
      hide Row;
      InRecent(view[t], Slots(t), counter, order[t], recent[t]);
      assert forall i :: 0 <= i < NR_CBLOCKS ==> Slots(t)[i] == cache[t, i];
    }

    /** The block is in slot cp. */
    method Hit(block: nat, t: nat, cp: nat) returns (r: Option<Block>)
      requires Valid() && t < NR_CACHES && block != 0 && cp < NR_CBLOCKS && cache[t, cp].block == block
      modifies this, cache
      ensures Valid() && r == Raw(view[t], block) && r.Some? && rawReads == old(rawReads) && view == old(view)
      ensures recent == old(recent)[t := Touch(old(recent)[t], block)]
    {
      hide AllSlots, ByAccess, Shows, SlotsOk, Touch, MoveFirst;
      ghost var j := Place(t, cp);
      HitRow(view[t], Slots(t), counter, order[t], recent[t], cp, j);
      hide Row;
      Store(t, cp, cache[t, cp].(access := counter + 1), counter + 1, MoveFirst(order[t], j), Touch(recent[t], block),
        view[t]);
      r := Some(cache[t, cp].buf);
    }

    /** The block is in no slot. */
    method Miss(block: nat, t: nat) returns (r: Option<Block>)
      requires Valid() && t < NR_CACHES && block != 0 && block !in recent[t]
      modifies this, cache
      ensures Valid() && r == Raw(disk, block) && rawReads == old(rawReads) + 1
      ensures recent == if r.Some? then old(recent)[t := Touch(old(recent)[t], block)] else old(recent)
      ensures view == old(view)[t := ServedAfter(old(view)[t], disk, tail, old(recent)[t], block)]
    {
      hide Row;
      var cp := Oldest(t);
      r := Raw(disk, block);
      rawReads := rawReads + 1;
      if r.None? {
        SpoiltRow(view[t], Slots(t), counter, order[t], recent[t], cp, Overlaid(cache[t, cp].buf, tail));
        if block == |disk| {
          ghost var view1 := ServedAfter(view[t], disk, tail, recent[t], block);
          Store(t, cp, cache[t, cp].(buf := Overlaid(cache[t, cp].buf, tail)), counter, order[t], recent[t], view1);
        }
        return;
      }
      ghost var view1 := view[t][block := r.value];
      OtherRow(view[t], Slots(t), counter, order[t], recent[t], block, r.value);
      MissRow(view1, Slots(t), counter, order[t], recent[t], cp, block, r.value);
      Store(t, cp, Slot(block, counter + 1, r.value), counter + 1, MoveFirst(order[t], IndexOf(order[t], cp)),
        Touch(recent[t], block), view1);
    }

    ghost method Place(t: nat, cp: nat) returns (j: nat)
      requires Valid() && t < NR_CACHES && cp < NR_CBLOCKS
      ensures j < NR_CBLOCKS && |order[t]| == NR_CBLOCKS && order[t][j] == cp
      ensures cache[t, cp].block != 0 ==> Raw(view[t], cache[t, cp].block) == Some(cache[t, cp].buf)
    {
      assert Row(view[t], Slots(t), counter, order[t], recent[t]);
      assert cp in order[t];
      j := IndexOf(order[t], cp);
      assert SlotOk(view[t], Slots(t)[cp], counter);
    }

    /** Put a slot back. */
    method Store(t: nat, cp: nat, slot: Slot, now: nat, ghost order1: seq<nat>, ghost recent1: Recent,
                 ghost view1: seq<Block>)
      requires Valid() && t < NR_CACHES && cp < NR_CBLOCKS && counter <= now <= counter + 1 && |view1| == |disk|
      requires Row(view1, Slots(t)[cp := slot], now, order1, recent1)
      modifies this, cache
      ensures Valid() && cache[t, cp] == slot && rawReads == old(rawReads)
      ensures recent == old(recent)[t := recent1] && view == old(view)[t := view1]
    {
      hide Row;
      ghost var u: nat := 1 - t;
      ghost var mine, other := Slots(t)[cp := slot], Slots(u);
      LaterRow(view[u], other, counter, order[u], recent[u]);
      counter := now;
      cache[t, cp] := slot;
      order, recent, view := order[t := order1], recent[t := recent1], view[t := view1];
      assert Slots(t) == mine && Slots(u) == other;
    }

    /** get_block(): a block that is held, or a raw read; as few raw reads as a list of the least
        recently used blocks needs.  Block 0 is never served. */
    method GetBlock(block: nat, t: nat) returns (r: Option<Block>)
      requires Valid()
      modifies this, cache
      ensures Valid() && |old(recent)| == |old(view)| == NR_CACHES
      ensures r == if block == 0 then None
                   else if t < NR_CACHES && block in old(recent)[t] then Raw(old(view)[t], block) else Raw(disk, block)
      ensures recent == if r.Some? && t < NR_CACHES then old(recent)[t := Touch(old(recent)[t], block)] else old(recent)
      ensures view == if t < NR_CACHES
                      then old(view)[t := ServedAfter(old(view)[t], disk, tail, old(recent)[t], block)] else old(view)
      ensures rawReads == old(rawReads) + if block == 0 || (t < NR_CACHES && block in old(recent)[t]) then 0 else 1
      ensures old(Clean()) ==> r == if block == 0 then None else Raw(disk, block)
      ensures old(Clean()) ==> (Clean() <==> !(t < NR_CACHES && Spoils(disk, tail, old(recent)[t], block)))
    {
      if t < NR_CACHES {
        SpoilsExactly(disk, tail, recent[t], block);
      }
      if block == 0 {
        return None;
      }
      if t >= NR_CACHES {
        rawReads := rawReads + 1;
        return Raw(disk, block);
      }
      hide Row, Spoils;
      var cp := Find(t, block);
      RowRecent(t);
      if cp < NR_CBLOCKS {
        r := Hit(block, t, cp);
      } else {
        r := Miss(block, t);
      }
    }
  }

  /** A block that is on the disk and not held yet, read by way of the first cache. */
  method ReadNew(c: Cache, b: nat, ghost recent: Recent) returns (r: Option<Block>)
    requires c.Valid() && c.Clean() && |c.recent| == NR_CACHES && c.recent[0] == recent
    requires 0 < b < |c.disk| && b !in recent
    modifies c, c.cache
    ensures c.Valid() && c.Clean() && r == Raw(c.disk, b)
    ensures |c.recent| == NR_CACHES && c.recent[0] == [b] + recent[..NR_CBLOCKS - 1]
  {
    hide Cache.Valid, Cache.Clean, ServedAfter;
    r := c.GetBlock(b, 0);
  }

  /** After a call that spoils, the block that was oldest is served wrong. */
  method ReadSpoilt(c: Cache, block: nat, t: nat) returns (failed: Option<Block>, oldest: nat, again: Option<Block>)
    requires c.Valid() && c.Clean() && t < NR_CACHES == |c.recent| && Spoils(c.disk, c.tail, c.recent[t], block)
    modifies c, c.cache
    ensures failed == None && oldest == old(c.recent)[t][NR_CBLOCKS - 1] && 0 < oldest < |c.disk|
    ensures again.Some? && again != Raw(c.disk, oldest)
  {
    hide Cache.Valid, Touch, Overlaid;
    ghost var recent := c.recent[t];
    oldest := c.OldestBlock(t);
    SpoiltBlock(c.disk[oldest], c.tail);
    failed := c.GetBlock(block, t);
    assert recent[NR_CBLOCKS - 1] in recent;
    again := c.GetBlock(oldest, t);
  }

  /** The blocks 1 to 5, read by way of the first cache. */
  method ReadFive(c: Cache) returns (first: Option<Block>)
    requires c.Valid() && c.Clean() && |c.recent| == NR_CACHES && c.recent[0] == [0, 0, 0, 0, 0] && |c.disk| > 5
    modifies c, c.cache
    ensures c.Valid() && c.Clean() && first == Raw(c.disk, 1)
    ensures |c.recent| == NR_CACHES && c.recent[0] == [5, 4, 3, 2, 1]
  {
    hide Cache.Valid, Cache.Clean;
    first := ReadNew(c, 1, [0, 0, 0, 0, 0]);
    var other := ReadNew(c, 2, [1, 0, 0, 0, 0]);
    other := ReadNew(c, 3, [2, 1, 0, 0, 0]);
    other := ReadNew(c, 4, [3, 2, 1, 0, 0]);
    other := ReadNew(c, 5, [4, 3, 2, 1, 0]);
  }

  /** A disk of seven whole blocks and one byte more: block 1 is read, four others after it, then
      the last part of the disk, and block 1 again comes out of the cache changed. */
  method SpoiltExample() returns (disk: seq<Block>, first: Option<Block>, again: Option<Block>)
    ensures Raw(disk, 1).Some? && first == Raw(disk, 1) && again.Some? && again != Raw(disk, 1)
  {
    hide Cache.Valid, Cache.Clean;
    disk := Repeat(7, Zeros(BLOCK));
    var c := new Cache(disk, [1]);
    CachesThere(c);
    first := ReadFive(c);
    assert disk[1][..1][0] == 0;
    var failed, oldest;
    failed, oldest, again := ReadSpoilt(c, 7, 0);
  }

  lemma SpoiltBlock(buf: Block, tail: seq<byte>)
    requires |tail| < BLOCK && buf[..|tail|] != tail
    ensures Overlaid(buf, tail) != buf
  {
    assert Overlaid(buf, tail)[..|tail|] == tail;
  }

  // ----- the blocks of a file -----

  lemma CachesThere(c: Cache)
    requires c.Valid()
    ensures |c.recent| == NR_CACHES
  {
  }

  /** get_fileblock() with zones of 2^shift blocks.  The zone number has 16 bits, the block number
      more.  Only indirect blocks go through a cache. */
  method GetFileBlock(c: Cache, big: bool, shift: nat, ino: Inode, b: nat) returns (r: Option<Block>)
    requires c.Valid() && c.Clean() && |ino.zone| == 9
    modifies c, c.cache
    ensures c.Valid() && r == FileBlock(c.disk, big, shift, ino, b) && (c.tail == [] || r.Some? ==> c.Clean())
    ensures |c.recent| == |old(c.recent)| == NR_CACHES && c.recent[0] == old(c.recent)[0]
    ensures CutZone(b, shift) < NR_DZONE ==> c.recent == old(c.recent)
  {
    CachesThere(c);
    hide Cache.Valid, Cache.Clean, Entry16, Touch, ServedAfter, CutZone, IndexInZone, FirstOf;
    var zone := CutZone(b, shift);
    var zoneIndex := IndexInZone(b, shift);
    if zone < NR_DZONE {
      zone := ino.zone[zone];
    } else {
      var found := GetIndirect(c, big, shift, ino, zone);
      if found.None? {
        return None;
      }
      zone := found.value;
    }
    r := c.GetBlock(FirstOf(zone, shift) + zoneIndex, B_DATA);
  }

  /** The zone that is not a direct one. */
  method GetIndirect(c: Cache, big: bool, shift: nat, ino: Inode, zone: nat) returns (r: Option<nat>)
    requires c.Valid() && c.Clean() && |ino.zone| == 9 && NR_DZONE <= zone < WORD16
    modifies c, c.cache
    ensures c.Valid() && r == TreeZone(c.disk, big, shift, ino, zone) && (c.tail == [] || r.Some? ==> c.Clean())
    ensures |c.recent| == |old(c.recent)| == NR_CACHES && c.recent[0] == old(c.recent)[0]
  {
    CachesThere(c);
    hide Cache.Valid, Cache.Clean, Entry16, Touch, ServedAfter, FirstOf;
    var index, ind := zone - NR_DZONE, ino.zone[NR_DZONE];
    if index >= NR_INDIRECTS {
      index := index - NR_INDIRECTS;
      var found := GetEntry(c, big, FirstOf(ino.zone[NR_DZONE + 1], shift), index / NR_INDIRECTS);
      if found.None? {
        return None;
      }
      ind, index := found.value, index % NR_INDIRECTS;
    }
    r := GetEntry(c, big, FirstOf(ind, shift), index);
  }

  /** A zone number out of an indirect block. */
  method GetEntry(c: Cache, big: bool, ind: nat, i: nat) returns (r: Option<nat>)
    requires c.Valid() && c.Clean() && i < NR_INDIRECTS
    modifies c, c.cache
    ensures c.Valid() && r == Entry16(c.disk, big, ind, i) && (c.tail == [] || r.Some? ==> c.Clean())
    ensures |c.recent| == |old(c.recent)| == NR_CACHES && c.recent[0] == old(c.recent)[0]
  {
    CachesThere(c);
    hide Cache.Valid, Cache.Clean, Word, Touch, ServedAfter;
    var blk := c.GetBlock(ind, B_INDIRECT);
    if blk.None? {
      return None;
    }
    r := Some(Word(big, blk.value, i));
  }

  /** A block that is not block 0. */
  function Served(disk: seq<Block>, b: nat): Option<Block> {
    if b == 0 then None else Raw(disk, b)
  }

  /** The zone number in word i of a block. */
  function Entry16(disk: seq<Block>, big: bool, ind: nat, i: nat): Option<nat>
    requires i < NR_INDIRECTS
  {
    match Served(disk, ind)
    case None => None
    case Some(blk) => Some(Word(big, blk, i))
  }

  /** The zone of block b, in a 16-bit number. */
  function CutZone(b: nat, shift: nat): (zone: nat)
    ensures zone < WORD16
  {
    Pow2Positive(shift);
    b / Pow2(shift) % WORD16
  }

  /** What is left of the block number. */
  function IndexInZone(b: nat, shift: nat): nat {
    Pow2Positive(shift);
    CutBelow(b, shift);
    b - FirstOf(CutZone(b, shift), shift)
  }

  function FirstOf(zone: nat, shift: nat): nat {
    zone * Pow2(shift)
  }

  lemma CutBelow(b: nat, shift: nat)
    ensures FirstOf(CutZone(b, shift), shift) <= b
  {
    hide Pow2;
    Pow2Positive(shift);
    WholeZones(b, Pow2(shift));
    CutDown(b / Pow2(shift));
    MultiplyBoth(CutZone(b, shift), b / Pow2(shift), Pow2(shift));
  }

  lemma CutDown(q: nat)
    ensures q % WORD16 <= q
  {
  }

  lemma WholeZones(b: nat, p: nat)
    requires p > 0
    ensures b / p * p <= b
  {
    assert b == p * (b / p) + b % p;
  }

  lemma MultiplyBoth(a: nat, b: nat, p: nat)
    requires a <= b
    ensures a * p <= b * p
  {
  }

  /** Zone and index make up the block number as long as the zone number fits 16 bits. */
  lemma ZoneSplit(b: nat, shift: nat)
    requires b / Size(shift) < WORD16
    ensures CutZone(b, shift) * Size(shift) + IndexInZone(b, shift) == b && IndexInZone(b, shift) < Size(shift)
  {
    hide Pow2;
    var q, p := b / Size(shift), Size(shift);
    assert b == p * q + b % p;
    assert q % WORD16 == q;
  }

  /** The blocks of a zone. */
  function Size(shift: nat): (n: nat)
    ensures n >= 1
  {
    Pow2Positive(shift);
    Pow2(shift)
  }

  /** Block b of a file, looked up in the zone tree of its inode. */
  function FileBlock(disk: seq<Block>, big: bool, shift: nat, ino: Inode, b: nat): Option<Block>
    requires |ino.zone| == 9
  {
    match TreeZone(disk, big, shift, ino, CutZone(b, shift))
    case None => None
    case Some(z) => Served(disk, FirstOf(z, shift) + IndexInZone(b, shift))
  }

  /** The number of a file's zone in the zone tree. */
  function TreeZone(disk: seq<Block>, big: bool, shift: nat, ino: Inode, zone: nat): Option<nat>
    requires |ino.zone| == 9 && zone < MAXBLOCKS
  {
    if zone < NR_DZONE then Some(ino.zone[zone])
    else if zone < NR_DZONE + NR_INDIRECTS then Entry16(disk, big, FirstOf(ino.zone[NR_DZONE], shift), zone - NR_DZONE)
    else
      var i := zone - NR_DZONE - NR_INDIRECTS;
      match Entry16(disk, big, FirstOf(ino.zone[NR_DZONE + 1], shift), i / NR_INDIRECTS)
      case None => None
      case Some(ind) => Entry16(disk, big, FirstOf(ind, shift), i % NR_INDIRECTS)
  }

  /** What block b would be if its number were not cut, with zones of one block. */
  function TreeBlock(disk: seq<Block>, big: bool, ino: Inode, b: nat): Option<Block>
    requires |ino.zone| == 9 && b < MAXBLOCKS
  {
    match TreeZone(disk, big, 0, ino, b)
    case None => None
    case Some(z) => Served(disk, z)
  }

  /** Blocks below 65536 are found where they are; behind these the rest of the number is added to
      a zone number and points behind every disk that 16-bit zone numbers can describe. */
  lemma CutExactly(disk: seq<Block>, big: bool, ino: Inode, b: nat)
    requires |ino.zone| == 9
    ensures b < WORD16 ==> FileBlock(disk, big, 0, ino, b) == TreeBlock(disk, big, ino, b)
    ensures b >= WORD16 && |disk| <= WORD16 ==> FileBlock(disk, big, 0, ino, b) == None
  {
    hide TreeZone;
    assert Pow2(0) == 1;
    assert CutZone(b, 0) == b % WORD16 && IndexInZone(b, 0) == b - b % WORD16;
  }

  /** No indirect level is left out below one that is there. */
  predicate Aligned(ino: Inode)
    requires |ino.zone| == 9
  {
    ino.zone[NR_DZONE + 1] != 0 ==> ino.zone[NR_DZONE] != 0
  }

  /** Zone k behind the double indirect words. */
  lemma {:induction false} DoubleAt(im: Image, words: seq<nat>, k: nat)
    requires DoubleZones(im, words).Some? && k < NR_INDIRECTS * |words|
    ensures var z := DoubleZones(im, words).value.0;
            && |z| == NR_INDIRECTS * |words|
            && (words[k / NR_INDIRECTS] == 0 ==> z[k] == 0)
            && (words[k / NR_INDIRECTS] != 0 ==>
                  words[k / NR_INDIRECTS] < |im.blocks|
                    && z[k] == Word(im.big, im.blocks[words[k / NR_INDIRECTS]], k % NR_INDIRECTS))
    decreases |words|
  {
    hide Word;
    DoubleLength(im, words);
    if k >= NR_INDIRECTS {
      assert words[1..][(k - NR_INDIRECTS) / NR_INDIRECTS] == words[k / NR_INDIRECTS];
      DoubleAt(im, words[1..], k - NR_INDIRECTS);
    }
  }

  lemma {:induction false} DoubleLength(im: Image, words: seq<nat>)
    requires DoubleZones(im, words).Some?
    ensures |DoubleZones(im, words).value.0| == NR_INDIRECTS * |words|
    decreases |words|
  {
    hide Word;
    if words != [] {
      DoubleLength(im, words[1..]);
    }
  }

  /** get_fileblock(b) reads the b-th zone that FS.zones lists, and fails exactly where that is a
      hole or lies behind the disk, for blocks below 65536. */
  lemma ReadersAgree(im: Image, ino: Inode, b: nat)
    requires |ino.zone| == 9 && ZonesOf(im, ino).Some? && Aligned(ino) && b < |ZonesOf(im, ino).value.0| && b < WORD16
    ensures FileBlock(im.blocks, im.big, 0, ino, b) == Served(im.blocks, ZonesOf(im, ino).value.0[b])
  {
    hide TreeBlock, FileBlock, ZonesOf;
    TreeAgrees(im, ino, b);
    CutExactly(im.blocks, im.big, ino, b);
  }

  /** The zone tree and FS.zones say the same. */
  lemma TreeAgrees(im: Image, ino: Inode, b: nat)
    requires |ino.zone| == 9 && ZonesOf(im, ino).Some? && Aligned(ino) && b < |ZonesOf(im, ino).value.0|
    ensures b < MAXBLOCKS
    ensures TreeBlock(im.blocks, im.big, ino, b) == Served(im.blocks, ZonesOf(im, ino).value.0[b])
  {
    hide Word;
    var double := ino.zone[NR_DZONE + 1];
    if double != 0 {
      var words := Words(im.big, im.blocks[double]);
      DoubleLength(im, words);
      if b >= NR_DZONE + NR_INDIRECTS {
        DoubleAt(im, words, b - NR_DZONE - NR_INDIRECTS);
      }
    }
  }

  /** The zones behind the double indirect block. */
  function BehindDouble(im: Image, ino: Inode): (z: seq<nat>)
    requires |ino.zone| == 9 && ZonesOf(im, ino).Some? && ino.zone[NR_DZONE + 1] != 0
  {
    DoubleZones(im, Words(im.big, im.blocks[ino.zone[NR_DZONE + 1]])).value.0
  }

  /** None of these zones is a block of the disk. */
  ghost predicate NoneServed(disk: seq<Block>, zones: seq<nat>) {
    forall k :: 0 <= k < |zones| ==> Served(disk, zones[k]) == None
  }

  /** Without a single indirect block FS.zones lists the double indirect zones directly behind
      the direct ones; the zone tree has no block for the next 512 and these after them. */
  lemma GapReads(im: Image, ino: Inode, b: nat)
    requires |ino.zone| == 9 && ZonesOf(im, ino).Some? && !Aligned(ino) && b < |ZonesOf(im, ino).value.0|
    ensures var z, z2 := ZonesOf(im, ino).value.0, BehindDouble(im, ino);
            && |z2| == NR_INDIRECTS * NR_INDIRECTS && |z| == NR_DZONE + |z2| < MAXBLOCKS
            && (b >= NR_DZONE ==> z[b] == z2[b - NR_DZONE])
            && TreeBlock(im.blocks, im.big, ino, b)
               == if b < NR_DZONE then Served(im.blocks, z[b])
                  else if b < NR_DZONE + NR_INDIRECTS then None
                  else Served(im.blocks, z2[b - NR_DZONE - NR_INDIRECTS])
  {
    hide Word;
    var words := Words(im.big, im.blocks[ino.zone[NR_DZONE + 1]]);
    DoubleLength(im, words);
    if b >= NR_DZONE + NR_INDIRECTS {
      DoubleAt(im, words, b - NR_DZONE - NR_INDIRECTS);
    }
  }

  ghost predicate AgreeAt(im: Image, ino: Inode, b: nat)
    requires |ino.zone| == 9 && ZonesOf(im, ino).Some? && b < |ZonesOf(im, ino).value.0|
  {
    FileBlock(im.blocks, im.big, 0, ino, b) == Served(im.blocks, ZonesOf(im, ino).value.0[b])
  }

  /** No zone from place 65536 on is a block of the disk. */
  ghost predicate NoneFar(disk: seq<Block>, zones: seq<nat>) {
    forall k :: WORD16 <= k < |zones| ==> Served(disk, zones[k]) == None
  }

  /** The two readers agree on all blocks if and only if there is no gap, or nothing behind it, and
      nothing is to be served from block 65536 on. */
  lemma ReadersAgreeExactly(im: Image, ino: Inode)
    requires |ino.zone| == 9 && ZonesOf(im, ino).Some? && |im.blocks| <= WORD16
    ensures (forall b: nat :: b < |ZonesOf(im, ino).value.0| ==> AgreeAt(im, ino, b))
       <==> (Aligned(ino) || NoneServed(im.blocks, BehindDouble(im, ino)))
            && NoneFar(im.blocks, ZonesOf(im, ino).value.0)
  {
    hide ZonesOf, FileBlock, TreeBlock, DoubleZones, BehindDouble, Served, AgreeAt;
    var z := ZonesOf(im, ino).value.0;
    FarAgree(im, ino);
    if Aligned(ino) {
      forall b: nat | b < |z| && b < WORD16
        ensures AgreeAt(im, ino, b)
      {
        NearAgree(im, ino, b);
        TreeAgrees(im, ino, b);
      }
    } else {
      GapAgrees(im, ino);
    }
  }

  lemma NearAgree(im: Image, ino: Inode, b: nat)
    requires |ino.zone| == 9 && ZonesOf(im, ino).Some? && b < |ZonesOf(im, ino).value.0| && b < WORD16
    ensures AgreeAt(im, ino, b) <==>
              TreeBlock(im.blocks, im.big, ino, b) == Served(im.blocks, ZonesOf(im, ino).value.0[b])
  {
    hide ZonesOf, FileBlock, TreeBlock;
    CutExactly(im.blocks, im.big, ino, b);
  }

  lemma FarAgree(im: Image, ino: Inode)
    requires |ino.zone| == 9 && ZonesOf(im, ino).Some? && |im.blocks| <= WORD16
    ensures var z := ZonesOf(im, ino).value.0;
            NoneFar(im.blocks, z) <==> forall b: nat :: WORD16 <= b < |z| ==> AgreeAt(im, ino, b)
  {
    hide ZonesOf, FileBlock, TreeBlock, Served;
    var z := ZonesOf(im, ino).value.0;
    forall b: nat | WORD16 <= b < |z|
      ensures AgreeAt(im, ino, b) <==> Served(im.blocks, z[b]) == None
    {
      CutExactly(im.blocks, im.big, ino, b);
    }
  }

  lemma GapAgrees(im: Image, ino: Inode)
    requires |ino.zone| == 9 && ZonesOf(im, ino).Some? && !Aligned(ino) && |im.blocks| <= WORD16
    ensures (forall b: nat :: b < |ZonesOf(im, ino).value.0| ==> AgreeAt(im, ino, b)) <==>
              NoneServed(im.blocks, BehindDouble(im, ino)) && NoneFar(im.blocks, ZonesOf(im, ino).value.0)
  {
    hide ZonesOf, FileBlock, TreeBlock, DoubleZones, BehindDouble, Served, AgreeAt;
    var z, z2 := ZonesOf(im, ino).value.0, BehindDouble(im, ino);
    FarAgree(im, ino);
    if NoneServed(im.blocks, z2) && NoneFar(im.blocks, z) {
      forall b: nat | b < |z| && b < WORD16
        ensures AgreeAt(im, ino, b)
      {
        NearAgree(im, ino, b);
        GapReads(im, ino, b);
      }
    }
    if forall b: nat :: b < |z| ==> AgreeAt(im, ino, b) {
      GapNone(im, ino, z2);
    }
  }

  lemma GapNone(im: Image, ino: Inode, z2: seq<nat>)
    requires |ino.zone| == 9 && ZonesOf(im, ino).Some? && !Aligned(ino) && z2 == BehindDouble(im, ino)
    requires |im.blocks| <= WORD16
    requires forall b: nat :: b < |ZonesOf(im, ino).value.0| ==> AgreeAt(im, ino, b)
    ensures NoneServed(im.blocks, z2)
  {
    hide ZonesOf, FileBlock, TreeBlock, DoubleZones, BehindDouble, Served, AgreeAt;
    GapLength(im, ino);
    forall k | 0 <= k < |z2|
      ensures Served(im.blocks, z2[k]) == None
    {
      GapNoneAt(im, ino, z2, k);
    }
  }

  lemma GapLength(im: Image, ino: Inode)
    requires |ino.zone| == 9 && ZonesOf(im, ino).Some? && !Aligned(ino)
    ensures |BehindDouble(im, ino)| == NR_INDIRECTS * NR_INDIRECTS
    ensures |ZonesOf(im, ino).value.0| == NR_DZONE + NR_INDIRECTS * NR_INDIRECTS
  {
    hide Word;
    DoubleLength(im, Words(im.big, im.blocks[ino.zone[NR_DZONE + 1]]));
  }

  lemma {:induction false} GapNoneAt(im: Image, ino: Inode, z2: seq<nat>, k: nat)
    requires |ino.zone| == 9 && ZonesOf(im, ino).Some? && !Aligned(ino) && z2 == BehindDouble(im, ino) && k < |z2|
    requires |im.blocks| <= WORD16
    requires forall b: nat :: b < |ZonesOf(im, ino).value.0| ==> AgreeAt(im, ino, b)
    ensures Served(im.blocks, z2[k]) == None
    decreases k
  {
    hide ZonesOf, FileBlock, TreeBlock, DoubleZones, BehindDouble, Served, AgreeAt;
    GapLength(im, ino);
    var b := NR_DZONE + k;
    GapReads(im, ino, b);
    assert AgreeAt(im, ino, b);
    if b >= WORD16 {
      FarAgree(im, ino);
    } else {
      NearAgree(im, ino, b);
      if k >= NR_INDIRECTS {
        GapNoneAt(im, ino, z2, k - NR_INDIRECTS);
      }
    }
  }

  /** An inode the readers disagree on: one data block behind a double indirect block alone. */
  lemma GapExample()
    ensures var big := true;
            var zero: Block := Zeros(BLOCK);
            var double: Block, ind: Block := PutWord(big, zero, 0, 2), PutWord(big, zero, 0, 3);
            var im := Image(big, 0, 4, 1, [true], [true], [], [zero, double, ind, zero]);
            var ino := Inode(I_REGULAR, 0, BLOCK * 8, 0, 0, 1, ZeroZones(8) + [1]);
            && ZonesOf(im, ino).Some? && ZonesOf(im, ino).value.0[7] == 3
            && Served(im.blocks, 3) == Some(zero) && FileBlock(im.blocks, big, 0, ino, 7) == None
  {
    var big := true;
    var zero: Block := Zeros(BLOCK);
    var double: Block, ind: Block := PutWord(big, zero, 0, 2), PutWord(big, zero, 0, 3);
    var im := Image(big, 0, 4, 1, [true], [true], [], [zero, double, ind, zero]);
    var ino := Inode(I_REGULAR, 0, BLOCK * 8, 0, 0, 1, ZeroZones(8) + [1]);
    var words := Words(big, double);
    forall i: nat | 1 <= i < NR_INDIRECTS
      ensures words[i] == 0
    {
      WordFrame(big, double, zero, i);
    }
    SmallDouble(im, words);
    DoubleAt(im, words, 0);
    GapReads(im, ino, 7);
    CutExactly(im.blocks, big, ino, 7);
  }

  function AllWords(big: bool, v: nat): (b: Block)
    requires v < WORD16
    ensures forall i :: 0 <= i < NR_INDIRECTS ==> Word(big, b, i) == v
  {
    var pair: seq<byte> := if big then [v / 256, v % 256] else [v % 256, v / 256];
    seq(BLOCK, k => pair[k % 2])
  }

  /** Another: a file of more than 64 MB made of one block.  FS.zones lists that at every place,
      and readfs fails at block 65536. */
  lemma FarExample(big: bool)
    ensures var zero: Block := Zeros(BLOCK);
            var im := Image(big, 0, 4, 1, [true], [true], [], [zero, zero, AllWords(big, 1), AllWords(big, 2)]);
            var ino := Inode(I_REGULAR, 0, BLOCK * (WORD16 + 1), 0, 0, 1, [1, 1, 1, 1, 1, 1, 1, 2, 3]);
            && Aligned(ino) && ZonesOf(im, ino).Some? && WORD16 < |ZonesOf(im, ino).value.0|
            && ZonesOf(im, ino).value.0[WORD16] == 1 && Served(im.blocks, 1) == Some(zero)
            && FileBlock(im.blocks, big, 0, ino, WORD16) == None
            && forall b: nat :: b < WORD16 ==> FileBlock(im.blocks, big, 0, ino, b) == Some(zero)
  {
    hide Word, FileBlock;
    var zero: Block := Zeros(BLOCK);
    var im := Image(big, 0, 4, 1, [true], [true], [], [zero, zero, AllWords(big, 1), AllWords(big, 2)]);
    var ino := Inode(I_REGULAR, 0, BLOCK * (WORD16 + 1), 0, 0, 1, [1, 1, 1, 1, 1, 1, 1, 2, 3]);
    var words := Words(big, AllWords(big, 2));
    SmallDouble(im, words);
    DoubleAt(im, words, WORD16 - NR_DZONE - NR_INDIRECTS);
    CutExactly(im.blocks, big, ino, WORD16);
    forall b: nat | b < WORD16
      ensures FileBlock(im.blocks, big, 0, ino, b) == Some(zero)
    {
      CutExactly(im.blocks, big, ino, b);
    }
  }

  lemma {:induction false} SmallDouble(im: Image, words: seq<nat>)
    requires forall i :: 0 <= i < |words| ==> words[i] < |im.blocks|
    ensures DoubleZones(im, words).Some?
    decreases |words|
  {
    if words != [] {
      SmallDouble(im, words[1..]);
    }
  }

  /** Block b of every regular file on an image that mkfs completed is block b of its data. */
  lemma FileBlocksReadBack(im: Image, m: Model, n: nat, b: nat)
    requires Finished(im, m) && m.Has(n) && m.At(n).kind == Regular && BLOCK * b < |m.At(n).data|
    ensures n <= |im.inodes| && |im.inodes[n - 1].zone| == 9
    ensures FileBlock(im.blocks, im.big, 0, im.inodes[n - 1], b) == Some(ChunkBlock(m.At(n).data, b))
  {
    hide Links, ZonesOf, FileBlock, Word, Rep;
    assert NodeSettled(m, n);
    NodeRep(im, m, n);
    ZonesOfNode(im, m, n);
    NodeZones(im, m, n);
    OwnedParts(m.At(n));
    ReadersAgree(im, im.inodes[n - 1], b);
  }
}
