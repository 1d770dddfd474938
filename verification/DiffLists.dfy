/**
 The line records of diff as they are in memory: for both files a linked list
 with the window and one with the lines put aside, and one list of free
 records that both files take from and give back to.
 */
module DiffLists {
  import opened Diff

  /** The list a record is in. */
  datatype Place = Free | Win(id: nat) | Rest(id: nat) | Loose

  /** struct line */
  class Record {
    var item: Item
    var next: Record?
    ghost var place: Place

    constructor ()
      ensures next == null && place == Loose
    {
      item, next, place := Eof, null, Loose;
    }
  }

  function RecordAt(s: seq<Record>, i: int): Record? {
    if 0 <= i < |s| then s[i] else null
  }

  /** The records of a linked list from its first to its last. */
  ghost predicate Listed(s: seq<Record>, p: Place)
    reads s
  {
    && (forall i :: 0 <= i < |s| ==> s[i].place == p && s[i].next == RecordAt(s, i + 1))
    && (forall i, j :: 0 <= i < j < |s| ==> s[i] != s[j])
  }

  ghost function Items(s: seq<Record>): (r: seq<Item>)
    reads s
    ensures |r| == |s| && forall i :: 0 <= i < |s| ==> r[i] == s[i].item
  {
    seq(|s|, i requires 0 <= i < |s| reads s => s[i].item)
  }

  /** freelist, and the records there are. */
  class Pool {
    var freelist: Record?
    ghost var free: seq<Record>
    ghost var made: set<Record>

    constructor ()
      ensures freelist == null && free == [] && made == {}
    {
      freelist, free, made := null, [], {};
    }

    ghost predicate Valid()
      reads this, free
    {
      Listed(free, Free) && freelist == RecordAt(free, 0)
    }
  }

  /** struct f */
  class File {
    const file: seq<string>
    ghost const id: nat
    var pos: nat
    var bwin: Record?
    var ewin: Record?
    var aside: Record?
    var linecnt: nat
    ghost var win: seq<Record>
    ghost var rest: seq<Record>

    constructor (file: seq<string>, ghost id: nat)
      ensures this.file == file && this.id == id && Valid() && win == [] && rest == []
      ensures Now() == View(file, 0, [], [], 0)
    {
      this.file, this.id := file, id;
      pos, linecnt, bwin, ewin, aside := 0, 0, null, null, null;
      win, rest := [], [];
    }

    ghost predicate Valid()
      reads this, win, rest
    {
      && Listed(win, Win(id)) && bwin == RecordAt(win, 0) && ewin == RecordAt(win, |win| - 1)
      && Listed(rest, Rest(id)) && aside == RecordAt(rest, 0)
    }

    ghost function Now(): View
      reads this, win, rest
    {
      View(file, pos, Items(win), Items(rest), linecnt)
    }
  }

  ghost function Members(s: seq<Record>): set<Record> {
    set r | r in s
  }

  /** The records there are: those in the lists and the loose ones. */
  ghost predicate Covered(made: set<Record>, free: seq<Record>, a: seq<Record>, b: seq<Record>,
                          c: seq<Record>, d: seq<Record>, loose: set<Record>)
  {
    made == Members(free) + Members(a) + Members(b) + Members(c) + Members(d) + loose
  }

  /** All lists are sound, and every record is in one of them or loose. */
  ghost predicate Sound(pool: Pool, f: File, g: File, loose: set<Record>)
    reads pool, pool.free, f, f.win, f.rest, g, g.win, g.rest, loose
  {
    && f != g && f.id != g.id && pool.Valid() && f.Valid() && g.Valid()
    && (forall r :: r in loose ==> r.place == Loose)
    && Covered(pool.made, pool.free, f.win, f.rest, g.win, g.rest, loose)
  }

  lemma PlaceOf(s: seq<Record>, p: Place, r: Record)
    requires Listed(s, p)
    ensures r in s ==> r.place == p
  {
  }

  /** A record is in the list its place says and in no other. */
  lemma OnlyThere(pool: Pool, f: File, g: File, loose: set<Record>, r: Record)
    requires Sound(pool, f, g, loose)
    ensures r in pool.free ==> r.place == Free
    ensures r in f.win ==> r.place == Win(f.id)
    ensures r in f.rest ==> r.place == Rest(f.id)
    ensures r in g.win ==> r.place == Win(g.id)
    ensures r in g.rest ==> r.place == Rest(g.id)
    ensures r in loose ==> r.place == Loose
  {
    hide Listed, Members;
    PlaceOf(pool.free, Free, r);
    PlaceOf(f.win, Win(f.id), r);
    PlaceOf(f.rest, Rest(f.id), r);
    PlaceOf(g.win, Win(g.id), r);
    PlaceOf(g.rest, Rest(g.id), r);
  }

  /** No record is in two lists, and none is lost. */
  lemma OneList(pool: Pool, f: File, g: File, r: Record)
    requires Sound(pool, f, g, {}) && r in pool.made
    ensures var lists := [pool.free, f.win, f.rest, g.win, g.rest];
            exists i :: 0 <= i < 5 && r in lists[i] && forall j :: 0 <= j < 5 && j != i ==> r !in lists[j]
  {
    hide Listed;
    var lists := [pool.free, f.win, f.rest, g.win, g.rest];
    OnlyThere(pool, f, g, {}, r);
    var i := if r in pool.free then 0 else if r in f.win then 1 else if r in f.rest then 2 else if r in g.win then 3
      else 4;
    assert r in lists[i];
    assert forall j :: 0 <= j < 5 && j != i ==> r !in lists[j];
  }

  lemma ListedTail(s: seq<Record>, p: Place)
    requires Listed(s, p) && s != []
    ensures Listed(s[1..], p) && s[0] !in s[1..] && s[0].next == RecordAt(s[1..], 0)
  {
    assert s == [s[0]] + s[1..];
  }

  lemma ListedCons(l: Record, s: seq<Record>, p: Place)
    requires Listed(s, p) && l !in s && l.place == p && l.next == RecordAt(s, 0)
    ensures Listed([l] + s, p)
  {
  }

  lemma CoveredTake(made: set<Record>, free: seq<Record>, a: seq<Record>, b: seq<Record>, c: seq<Record>,
                    d: seq<Record>)
    requires Covered(made, free, a, b, c, d, {})
    ensures free != [] ==> Covered(made, free[1..], a, b, c, d, {free[0]})
    ensures b != [] ==> Covered(made, free, a, b[1..], c, d, {b[0]})
    ensures a != [] ==> Covered(made, free, a[1..], b, c, d, {a[0]})
  {
    assert free != [] ==> free == [free[0]] + free[1..];
    assert a != [] ==> a == [a[0]] + a[1..];
    assert b != [] ==> b == [b[0]] + b[1..];
  }

  lemma CoveredPut(made: set<Record>, free: seq<Record>, a: seq<Record>, b: seq<Record>, c: seq<Record>, d: seq<Record>,
                   l: Record)
    requires Covered(made, free, a, b, c, d, {l})
    ensures Covered(made, [l] + free, a, b, c, d, {}) && Covered(made, free, a + [l], b, c, d, {})
  {
  }

  lemma CoveredNew(made: set<Record>, free: seq<Record>, a: seq<Record>, b: seq<Record>, c: seq<Record>, d: seq<Record>,
                   l: Record)
    requires Covered(made, free, a, b, c, d, {})
    ensures Covered(made + {l}, free, a, b, c, d, {l})
  {
  }

  /** new_line(): a free record, or a new one. */
  method NewLine(pool: Pool, ghost f: File, ghost g: File) returns (l: Record)
    requires Sound(pool, f, g, {})
    modifies pool, pool.free
    ensures Sound(pool, f, g, {l}) && f.Now() == old(f.Now()) && g.Now() == old(g.Now())
    ensures old(pool.free) != [] ==> l in old(pool.free) && pool.made == old(pool.made)
    ensures old(pool.free) == [] ==> fresh(l)
  {
    hide Listed, Covered, Items, File.Valid, File.Now;
    assert pool.free != [] ==> pool.freelist in pool.free;
    if pool.freelist != null {
      l := pool.freelist;
      OnlyThere(pool, f, g, {}, l);
      ListedTail(pool.free, Free);
      CoveredTake(pool.made, pool.free, f.win, f.rest, g.win, g.rest);
      pool.freelist := l.next;
      pool.free := pool.free[1..];
      l.place := Loose;
    } else {
      l := new Record();
      CoveredNew(pool.made, pool.free, f.win, f.rest, g.win, g.rest, l);
      pool.made := pool.made + {l};
    }
  }

  /** free_line() */
  method FreeLine(pool: Pool, l: Record, ghost f: File, ghost g: File)
    requires Sound(pool, f, g, {l})
    modifies pool, l
    ensures Sound(pool, f, g, {}) && f.Now() == old(f.Now()) && g.Now() == old(g.Now())
    ensures pool.made == old(pool.made) && pool.free == [l] + old(pool.free)
  {
    hide Listed, Covered, Items, File.Valid, File.Now;
    OnlyThere(pool, f, g, {l}, l);
    l.next := pool.freelist;
    l.place := Free;
    ListedCons(l, pool.free, Free);
    CoveredPut(pool.made, pool.free, f.win, f.rest, g.win, g.rest, l);
    pool.freelist := l;
    pool.free := [l] + pool.free;
  }

  /** What File.Valid and File.Now say, for one file. */
  lemma Parts(f: File)
    ensures f.Valid() <==> && Listed(f.win, Win(f.id)) && f.bwin == RecordAt(f.win, 0)
                           && f.ewin == RecordAt(f.win, |f.win| - 1)
                           && Listed(f.rest, Rest(f.id)) && f.aside == RecordAt(f.rest, 0)
    ensures f.Now() == View(f.file, f.pos, Items(f.win), Items(f.rest), f.linecnt)
  {
  }

  /** Text and link of a loose record. */
  method Fill(ghost pool: Pool, l: Record, item: Item, ghost f: File, ghost g: File)
    requires Sound(pool, f, g, {l})
    modifies l
    ensures Sound(pool, f, g, {l}) && l.item == item && l.next == null
    ensures f.Now() == old(f.Now()) && g.Now() == old(g.Now())
  {
    hide Listed, Covered, Items, File.Valid, File.Now;
    OnlyThere(pool, f, g, {l}, l);
    l.item, l.next := item, null;
  }

  /** read_line(): the next line of the file, or the end-of-file mark. */
  method ReadLine(pool: Pool, f: File, ghost g: File) returns (l: Record)
    requires Sound(pool, f, g, {})
    modifies pool, pool.free, f
    ensures Sound(pool, f, g, {l}) && l.next == null && l.item == ItemAt(f.file, old(f.pos))
    ensures f.Now() == old(f.Now()).(pos := if old(f.pos) < |f.file| then old(f.pos) + 1 else old(f.pos))
    ensures f.win == old(f.win) && f.rest == old(f.rest) && g.Now() == old(g.Now())
    ensures l in old(pool.free) || fresh(l)
    ensures f.bwin == old(f.bwin) && f.ewin == old(f.ewin)
  {
    hide Listed, Covered, Items, File.Valid, File.Now;
    l := NewLine(pool, f, g);
    Fill(pool, l, ItemAt(f.file, f.pos), f, g);
    Parts(f);
    if f.pos < |f.file| {
      f.pos := f.pos + 1;
    }
    Parts(f);
  }

  lemma ItemsTail(s: seq<Record>)
    requires s != []
    ensures Items(s[1..]) == Items(s)[1..]
  {
  }

  /** The first of the records put aside. */
  method TakeAside(ghost pool: Pool, f: File, ghost g: File) returns (l: Record)
    requires Sound(pool, f, g, {}) && f.aside != null
    modifies f, f.rest
    ensures Sound(pool, f, g, {l}) && l.next == null && |old(f.rest)| > 0 && l.item == old(f.Now()).aside[0]
    ensures f.Now() == old(f.Now()).(aside := old(f.Now()).aside[1..]) && g.Now() == old(g.Now())
    ensures f.win == old(f.win) && f.bwin == old(f.bwin) && f.ewin == old(f.ewin) && l in old(f.rest)
  {
    hide Listed, Covered, Items, File.Valid, File.Now;
    Parts(f);
    l := f.aside;
    OnlyThere(pool, f, g, {}, l);
    ListedTail(f.rest, Rest(f.id));
    ItemsTail(f.rest);
    CoveredTake(pool.made, pool.free, f.win, f.rest, g.win, g.rest);
    f.aside := l.next;
    f.rest := f.rest[1..];
    l.next, l.place := null, Loose;
    Parts(f);
  }

  lemma ListedSnoc(s: seq<Record>, l: Record, p: Place)
    requires l !in s && l.place == p && l.next == null
    requires forall i :: 0 <= i < |s| ==> s[i].place == p && s[i].next == RecordAt(s + [l], i + 1)
    requires forall i, j :: 0 <= i < j < |s| ==> s[i] != s[j]
    ensures Listed(s + [l], p) && Items(s + [l]) == Items(s) + [l.item]
  {
    var t := s + [l];
    forall i | 0 <= i < |t|
      ensures t[i].place == p && t[i].next == RecordAt(t, i + 1)
    {
      assert i < |s| ==> t[i] == s[i];
    }
  }

  /** Link a record behind the last one of a list. */
  method LinkLast(last: Record, l: Record, ghost s: seq<Record>, ghost p: Place)
    requires Listed(s, p) && s != [] && last == s[|s| - 1] && l !in s && l.next == null
    modifies last`next, l`place
    ensures Listed(s + [l], p) && Items(s + [l]) == old(Items(s)) + [l.item]
  {
    last.next := l;
    l.place := p;
    ListedSnoc(s, l, p);
  }

  /** The end of next(): a loose record goes behind the window. */
  method Append(ghost pool: Pool, f: File, l: Record, ghost g: File)
    requires Sound(pool, f, g, {l}) && l.next == null
    modifies f, f.win, l
    ensures Sound(pool, f, g, {}) && g.Now() == old(g.Now())
    ensures f.Now() == old(f.Now()).(win := old(f.Now()).win + [old(l.item)])
  {
    hide Listed, Covered, Items, File.Valid, File.Now;
    if f.bwin == null {
      AppendFirst(pool, f, l, g);
    } else {
      AppendLast(pool, f, l, g);
    }
  }

  method AppendFirst(ghost pool: Pool, f: File, l: Record, ghost g: File)
    requires Sound(pool, f, g, {l}) && l.next == null && f.bwin == null
    modifies f, l
    ensures Sound(pool, f, g, {}) && g.Now() == old(g.Now())
    ensures f.Now() == old(f.Now()).(win := old(f.Now()).win + [old(l.item)])
  {
    hide Listed, Covered, Items, File.Valid, File.Now;
    Parts(f);
    OnlyThere(pool, f, g, {l}, l);
    CoveredPut(pool.made, pool.free, f.win, f.rest, g.win, g.rest, l);
    f.bwin, f.ewin := l, l;
    l.place := Win(f.id);
    OneListed(l);
    f.win := f.win + [l];
    Parts(f);
  }

  method AppendLast(ghost pool: Pool, f: File, l: Record, ghost g: File)
    requires Sound(pool, f, g, {l}) && l.next == null && f.bwin != null
    modifies f, f.win, l
    ensures Sound(pool, f, g, {}) && g.Now() == old(g.Now())
    ensures f.Now() == old(f.Now()).(win := old(f.Now()).win + [old(l.item)])
  {
    hide Listed, Covered, Items, File.Valid, File.Now;
    Parts(f);
    OnlyThere(pool, f, g, {l}, l);
    assert f.ewin in f.win;
    OnlyThere(pool, f, g, {l}, f.ewin);
    CoveredPut(pool.made, pool.free, f.win, f.rest, g.win, g.rest, l);
    LinkLast(f.ewin, l, f.win, Win(f.id));
    f.ewin := l;
    f.win := f.win + [l];
    Parts(f);
  }

  lemma OneListed(l: Record)
    requires l.next == null
    ensures Listed([] + [l], l.place) && Items([] + [l]) == Items([]) + [l.item]
  {
  }

  /** What the pointers of a file show. */
  lemma Ends(pool: Pool, f: File, g: File, loose: set<Record>)
    requires Sound(pool, f, g, loose)
    ensures var v := f.Now();
            && v.file == f.file && v.pos == f.pos && (f.aside == null <==> v.aside == [])
               && (f.bwin == null <==> v.win == [])
            && (f.bwin == null <==> f.ewin == null) && (f.ewin != null ==> f.ewin.item == v.win[|v.win| - 1])
  {
  }

  /** next() */
  method Next(pool: Pool, f: File, ghost g: File)
    requires Sound(pool, f, g, {})
    modifies pool, pool.free, f, f.win, f.rest
    ensures Sound(pool, f, g, {}) && f.Now() == NextView(old(f.Now())) && g.Now() == old(g.Now())
  {
    hide Listed, Covered, Items, File.Valid, File.Now, Sound;
    Ends(pool, f, g, {});
    var l;
    if f.aside != null {
      l := TakeAside(pool, f, g);
    } else {
      l := ReadLine(pool, f, g);
    }
    Ends(pool, f, g, {l});
    if f.bwin != null && f.ewin.item.Eof? && l.item.Eof? {
      FreeLine(pool, l, f, g);
      return;
    }
    Append(pool, f, l, g);
  }

  /** advance(): the first record of the window becomes free. */
  method Advance(pool: Pool, f: File, ghost g: File)
    requires Sound(pool, f, g, {})
    modifies pool, f, f.win
    ensures Sound(pool, f, g, {}) && f.Now() == AdvanceView(old(f.Now())) && g.Now() == old(g.Now())
    ensures pool.made == old(pool.made)
  {
    hide Listed, Covered, Items, File.Valid, File.Now, Sound;
    Ends(pool, f, g, {});
    if f.bwin != null {
      var l := Detach(pool, f, g);
      FreeLine(pool, l, f, g);
    }
  }

  /** The first record of the window, taken out of it. */
  method Detach(ghost pool: Pool, f: File, ghost g: File) returns (l: Record)
    requires Sound(pool, f, g, {}) && f.bwin != null
    modifies f, f.win
    ensures Sound(pool, f, g, {l}) && f.Now() == AdvanceView(old(f.Now())) && g.Now() == old(g.Now())
    ensures l in old(f.win)
  {
    hide Listed, Covered, Items, File.Valid, File.Now;
    Parts(f);
    l := f.bwin;
    OnlyThere(pool, f, g, {}, l);
    ListedTail(f.win, Win(f.id));
    ItemsTail(f.win);
    LastIsFirst(f.win, Win(f.id));
    CoveredTake(pool.made, pool.free, f.win, f.rest, g.win, g.rest);
    if f.ewin == l {
      f.bwin, f.ewin := null, null;
    } else {
      f.bwin := l.next;
    }
    f.win := f.win[1..];
    l.place := Loose;
    f.linecnt := f.linecnt + 1;
    Parts(f);
  }

  lemma LastIsFirst(s: seq<Record>, p: Place)
    requires Listed(s, p) && s != []
    ensures s[|s| - 1] == s[0] <==> |s| == 1
  {
  }

  /** Two lists where one was cut and the rest put in front of t. */
  lemma CutLists(s: seq<Record>, k: nat, t: seq<Record>, p: Place, q: Place)
    requires k + 1 < |s| && Listed(t, q) && (forall i, j :: 0 <= i < j < |s| ==> s[i] != s[j])
    requires forall i :: 0 <= i < |t| ==> t[i] !in s
    requires forall i :: 0 <= i <= k ==> s[i].place == p && s[i].next == RecordAt(s[..k + 1], i + 1)
    requires forall i :: k < i < |s| ==> s[i].place == q && s[i].next == RecordAt(s + t, i + 1)
    ensures Listed(s[..k + 1], p) && Listed(s[k + 1..] + t, q)
  {
    var b := s[k + 1..] + t;
    forall i | 0 <= i < |b|
      ensures b[i].place == q && b[i].next == RecordAt(b, i + 1)
    {
      var x := i + (k + 1);
      if x < |s| {
        assert b[i] == s[x] && RecordAt(b, i + 1) == RecordAt(s + t, x + 1);
      } else {
        assert b[i] == t[x - |s|];
      }
    }
  }

  /** Cut list s behind record k and put what is behind it in front of list t. */
  method Splice(l: Record, last: Record, head: Record?, ghost s: seq<Record>, ghost k: nat, ghost t: seq<Record>,
                ghost p: Place, ghost q: Place) returns (first: Record?)
    requires Listed(s, p) && Listed(t, q) && p != q && k + 1 < |s|
    requires l == s[k] && last == s[|s| - 1] && head == RecordAt(t, 0)
    modifies s
    ensures Listed(s[..k + 1], p) && Listed(s[k + 1..] + t, q) && first == s[k + 1]
    ensures forall i :: 0 <= i < |s| ==> s[i].item == old(s[i].item)
  {
    hide RecordAt;
    Strangers(s, p, t, q);
    first := Relink(l, last, head, s, k, t, p);
    forall i | k < i < |s| {
      s[i].place := q;
    }
    CutLists(s, k, t, p, q);
  }

  method Relink(l: Record, last: Record, head: Record?, ghost s: seq<Record>, ghost k: nat, ghost t: seq<Record>,
                ghost p: Place) returns (first: Record?)
    requires Listed(s, p) && k + 1 < |s| && l == s[k] && last == s[|s| - 1] && head == RecordAt(t, 0)
    modifies l`next, last`next
    ensures first == s[k + 1]
    ensures forall i :: 0 <= i <= k ==> s[i].next == RecordAt(s[..k + 1], i + 1)
    ensures forall i :: k < i < |s| ==> s[i].next == RecordAt(s + t, i + 1)
  {
    last.next := head;
    first := l.next;
    l.next := null;
  }

  lemma Strangers(s: seq<Record>, p: Place, t: seq<Record>, q: Place)
    requires Listed(s, p) && Listed(t, q) && p != q
    ensures forall i :: 0 <= i < |t| ==> t[i] !in s
  {
  }

  /** The last record of the window, found from record k on. */
  method FindLast(f: File, l: Record, ghost k: nat) returns (last: Record)
    requires f.Valid() && k + 1 < |f.win| && l == f.win[k]
    ensures last == f.win[|f.win| - 1]
  {
    last := l.next;
    ghost var i := k + 1;
    while last.next != null
      invariant k < i < |f.win| && last == f.win[i]
      decreases |f.win| - i
    {
      last := last.next;
      i := i + 1;
    }
  }

  lemma CoveredCut(made: set<Record>, free: seq<Record>, a: seq<Record>, b: seq<Record>, c: seq<Record>, d: seq<Record>,
                   k: nat)
    requires Covered(made, free, a, b, c, d, {}) && k <= |a|
    ensures Covered(made, free, a[..k], a[k..] + b, c, d, {})
  {
    assert a == a[..k] + a[k..];
    assert Members(a) == Members(a[..k]) + Members(a[k..]);
    assert Members(a[k..] + b) == Members(a[k..]) + Members(b);
  }

  /** aside(): the window ends at record l, which is its k-th. */
  method Aside(ghost pool: Pool, f: File, l: Record, ghost k: nat, ghost g: File)
    requires Sound(pool, f, g, {}) && k < |f.win| && l == f.win[k]
    modifies f, f.win
    ensures Sound(pool, f, g, {}) && f.Now() == AsideView(old(f.Now()), k) && g.Now() == old(g.Now())
  {
    hide Listed, Covered, Items, File.Valid, File.Now;
    Parts(f);
    LinkOf(f.win, Win(f.id), k);
    if l.next != null {
      CutWindow(pool, f, l, k, g);
    } else {
      assert f.Now().win[..k + 1] == f.Now().win && f.Now().win[k + 1..] + f.Now().aside == f.Now().aside;
    }
  }

  method CutWindow(ghost pool: Pool, f: File, l: Record, ghost k: nat, ghost g: File)
    requires Sound(pool, f, g, {}) && k + 1 < |f.win| && l == f.win[k]
    modifies f, f.win
    ensures Sound(pool, f, g, {}) && f.Now() == AsideView(old(f.Now()), k) && g.Now() == old(g.Now())
  {
    hide Listed, Covered, Items, File.Valid, File.Now, RecordAt;
    Parts(f);
    CoveredCut(pool.made, pool.free, f.win, f.rest, g.win, g.rest, k + 1);
    var first := SpliceWindow(pool, f, l, k, g);
    CutEnds(f.win, k, f.rest);
    f.aside := first;
    f.ewin := l;
    f.rest := f.win[k + 1..] + f.rest;
    f.win := f.win[..k + 1];
    Parts(f);
  }

  /** What aside() does to the records. */
  method SpliceWindow(ghost pool: Pool, f: File, l: Record, ghost k: nat, ghost g: File) returns (first: Record?)
    requires Sound(pool, f, g, {}) && k + 1 < |f.win| && l == f.win[k]
    modifies f.win
    ensures pool.Valid() && g.Valid() && g.Now() == old(g.Now()) && first == f.win[k + 1]
    ensures Listed(f.win[..k + 1], Win(f.id)) && Listed(f.win[k + 1..] + f.rest, Rest(f.id))
    ensures Items(f.win[..k + 1]) == old(f.Now()).win[..k + 1]
    ensures Items(f.win[k + 1..] + f.rest) == old(f.Now()).win[k + 1..] + old(f.Now()).aside
  {
    hide Listed, Covered, Items, File.Valid, File.Now;
    Parts(f);
    var last := FindLast(f, l, k);
    WindowOnly(pool, f, g);
    first := Splice(l, last, f.aside, f.win, k, f.rest, Win(f.id), Rest(f.id));
    assert Items(f.win) == old(Items(f.win));
    CutItems(f.win, k, f.rest);
  }

  lemma CutEnds(s: seq<Record>, k: nat, t: seq<Record>)
    requires k + 1 < |s|
    ensures RecordAt(s[..k + 1], 0) == RecordAt(s, 0) && RecordAt(s[..k + 1], k) == s[k]
    ensures RecordAt(s[k + 1..] + t, 0) == s[k + 1]
  {
  }

  lemma LinkOf(s: seq<Record>, p: Place, k: nat)
    requires Listed(s, p) && k < |s|
    ensures s[k].next == null <==> k + 1 == |s|
  {
  }

  lemma CutItems(s: seq<Record>, k: nat, t: seq<Record>)
    requires k < |s|
    ensures Items(s[..k + 1]) == Items(s)[..k + 1] && Items(s[k + 1..] + t) == Items(s)[k + 1..] + Items(t)
  {
  }

  ghost predicate Apart(s: seq<Record>, t: seq<Record>) {
    forall i :: 0 <= i < |s| ==> s[i] !in t
  }

  lemma WindowOnly(pool: Pool, f: File, g: File)
    requires Sound(pool, f, g, {})
    ensures Apart(pool.free, f.win) && Apart(f.rest, f.win) && Apart(g.win, f.win) && Apart(g.rest, f.win)
  {
    hide Listed, Covered, File.Valid;
    forall r | r in f.win
      ensures r !in pool.free && r !in f.rest && r !in g.win && r !in g.rest
    {
      OnlyThere(pool, f, g, {}, r);
    }
  }

  /** init_f() for both files. */
  method Start(file1: seq<string>, file2: seq<string>) returns (pool: Pool, f: File, g: File)
    ensures fresh(pool) && fresh(f) && fresh(g) && Sound(pool, f, g, {}) && pool.made == {}
    ensures f.Now() == View(file1, 0, [], [], 0) && g.Now() == View(file2, 0, [], [], 0)
  {
    pool := new Pool();
    f := new File(file1, 1);
    g := new File(file2, 2);
  }
}
