/**
 diff(1).  The lists of line records are sequences here, and pointers into a
 window are positions in it; DiffLists has the records themselves.
 */
module Diff {
  import opened Common
  import opened TextLines
  import opened EditScript

  const LINELEN := 128

  /** A line record: a line with its newline, or the end-of-file mark. */
  datatype Item = Line(text: string) | Eof

  function ItemAt(file: seq<string>, i: nat): Item {
    if i < |file| then Line(file[i]) else Eof
  }

  /** What is in the lists of a file, and how far it has been read. */
  datatype View = View(file: seq<string>, pos: nat, win: seq<Item>, aside: seq<Item>, linecnt: nat)

  /** A record that was put aside, or else a new one. */
  function Fetched(v: View): Item {
    if v.aside != [] then v.aside[0] else ItemAt(v.file, v.pos)
  }

  function FetchView(v: View): View {
    if v.aside != [] then v.(aside := v.aside[1..]) else if v.pos < |v.file| then v.(pos := v.pos + 1) else v
  }

  /** next(): such a record goes behind the window; a second end-of-file record does not. */
  function NextView(v: View): View {
    if v.win != [] && v.win[|v.win| - 1].Eof? && Fetched(v).Eof? then FetchView(v)
    else FetchView(v).(win := v.win + [Fetched(v)])
  }

  /** aside(): the records behind k go in front of those put aside before. */
  function AsideView(v: View, k: nat): View
    requires k < |v.win|
  {
    v.(win := v.win[..k + 1], aside := v.win[k + 1..] + v.aside)
  }

  /** advance() */
  function AdvanceView(v: View): View {
    if v.win == [] then v else v.(win := v.win[1..], linecnt := v.linecnt + 1)
  }

  /** The lists hold the lines behind those advanced over, in order, up to where the file was read. */
  ghost predicate Sane(v: View) {
    var end := v.linecnt + |v.win| + |v.aside|;
    && (forall j :: 0 <= j < |v.win| ==> v.win[j] == ItemAt(v.file, v.linecnt + j))
    && (forall j :: 0 <= j < |v.aside| ==> v.aside[j] == ItemAt(v.file, v.linecnt + |v.win| + j))
    && v.pos == Min(end, |v.file|)
    && v.linecnt <= |v.file| + 1
    && (end <= |v.file| + 1 || (v.linecnt == |v.file| + 1 && |v.win| == 1 && v.aside == []))
  }

  lemma FetchedIs(v: View)
    requires Sane(v)
    ensures Fetched(v) == ItemAt(v.file, v.linecnt + |v.win|)
  {
    if v.aside != [] {
      assert v.aside[0] == ItemAt(v.file, v.linecnt + |v.win| + 0);
    }
  }

  /** The window grows by the next line, unless it ends already. */
  lemma NextSane(v: View)
    requires Sane(v) && (v.win == [] || v.linecnt <= |v.file|)
    ensures Sane(NextView(v))
    ensures NextView(v).win == if v.win != [] && v.win[|v.win| - 1] == Eof then v.win
                               else v.win + [ItemAt(v.file, v.linecnt + |v.win|)]
  {
    hide Fetched;
    FetchedIs(v);
    var w, n := NextView(v), |v.win|;
    if w.win == v.win {
      assert w.aside == [];
    } else {
      forall j | 0 <= j < |w.aside|
        ensures w.aside[j] == ItemAt(v.file, v.linecnt + |w.win| + j)
      {
        assert w.aside[j] == v.aside[j + 1];
      }
    }
  }

  lemma PrintNext(mark: string, file: seq<string>, a: nat, b: nat)
    requires a <= b < |file|
    ensures Prefixed(mark, file[a..b + 1]) == Prefixed(mark, file[a..b]) + [mark + file[b]]
  {
    PrefixedSnoc(mark, file[a..b], file[b]);
    assert file[a..b + 1] == file[a..b] + [file[b]];
  }

  lemma FirstRecord(v: View)
    requires Sane(v) && |v.win| > 1 && v.linecnt + |v.win| <= |v.file| + 1
    ensures v.linecnt < |v.file| && v.win[0] == Line(v.file[v.linecnt])
  {
    assert v.win[0] == ItemAt(v.file, v.linecnt + 0);
  }

  /** The part of a file diff looks at: the window, and behind it lines that were read
      ahead and put aside. */
  class Window {
    const file: seq<string>
    var pos: nat
    var win: seq<Item>
    var aside: seq<Item>
    var linecnt: nat

    ghost predicate Valid()
      reads this
    {
      Sane(Now())
    }

    ghost function Now(): View
      reads this
    {
      View(file, pos, win, aside, linecnt)
    }

    /** The window reaches the end of the file. */
    ghost predicate Ends()
      reads this
    {
      win != [] && win[|win| - 1] == Eof
    }

    constructor (file: seq<string>)
      ensures Valid() && this.file == file && win == [] && linecnt == 0
    {
      this.file := file;
      pos, win, aside, linecnt := 0, [], [], 0;
    }

    /** The next record. */
    method Fetch() returns (l: Item)
      modifies this
      ensures l == Fetched(old(Now())) && Now() == FetchView(old(Now()))
    {
      if aside != [] {
        l := aside[0];
        aside := aside[1..];
      } else if pos < |file| {
        l := Line(file[pos]);
        pos := pos + 1;
      } else {
        l := Eof;
      }
    }

    /** next(), whatever the lists hold. */
    method Append()
      modifies this
      ensures Now() == NextView(old(Now()))
    {
      var l := Fetch();
      if win == [] {
        win := [l];
      } else if win[|win| - 1].Eof? && l.Eof? {
        return;
      } else {
        win := win + [l];
      }
    }

    /** next(): one more line into the window, unless it ends already. */
    method Next()
      requires Valid() && (win == [] || linecnt <= |file|)
      modifies this
      ensures Valid() && linecnt == old(linecnt)
      ensures Now() == NextView(old(Now()))
      ensures win == if old(Ends()) then old(win) else old(win) + [ItemAt(file, linecnt + |old(win)|)]
    {
      hide Sane;
      NextSane(Now());
      Append();
    }

    /** The one record of the window is passed over. */
    method Pass()
      requires Valid() && |win| == 1 && linecnt <= |file|
      modifies this
      ensures Valid() && |win| == 1 && linecnt == old(linecnt) + 1
      ensures old(win[0]) == Eof ==> win == [Eof]
    {
      hide NextView, AdvanceView;
      Advance();
      Next();
    }

    /** aside(): end the window at record k. */
    method Aside(k: nat)
      requires Valid() && k < |win| && linecnt <= |file|
      modifies this
      ensures Now() == AsideView(old(Now()), k)
      ensures Valid() && linecnt == old(linecnt) && win == old(win)[..k + 1]
    {
      if k + 1 < |win| {
        aside := win[k + 1..] + aside;
        win := win[..k + 1];
      }
    }

    /** advance(): drop the first record. */
    method Advance()
      requires Valid() && linecnt <= |file| && win != []
      modifies this
      ensures Now() == AdvanceView(old(Now()))
      ensures Valid() && linecnt == old(linecnt) + 1 && win == old(win)[1..]
    {
      win := win[1..];
      linecnt := linecnt + 1;
    }

    /** update(): print and drop all records but the last. */
    method Update(mark: string) returns (out: seq<string>)
      requires Valid() && win != [] && linecnt + |win| <= |file| + 1
      modifies this
      ensures Valid() && linecnt == old(linecnt + |win| - 1) && win == old(win)[|old(win)| - 1..]
      ensures out == Prefixed(mark, file[old(linecnt)..linecnt])
    {
      hide Prefixed, AdvanceView, Sane;
      out := [];
      ghost var start, all := linecnt, win;
      assert file[start..start] == [] && Prefixed(mark, []) == [];
      while |win| > 1
        invariant Valid() && start <= linecnt && |win| >= 1 && linecnt + |win| == start + |all|
        invariant win == all[linecnt - start..]
        invariant out == Prefixed(mark, file[start..linecnt])
      {
        FirstRecord(Now());
        ghost var c := linecnt;
        PrintNext(mark, file, start, c);
        assert all[c - start..][1..] == all[c + 1 - start..];
        out := out + [mark + win[0].text];
        Advance();
      }
    }
  }

  /** stepup(): the next record, the same one at end of file, none behind the window. */
  function StepUp(w: seq<Item>, i: int): int {
    if 0 <= i < |w| then if w[i].Eof? then i else if i + 1 < |w| then i + 1 else -1 else -1
  }

  predicate EqualLine(a: seq<Item>, i: int, b: seq<Item>, j: int) {
    0 <= i < |a| && 0 <= j < |b| && a[i] == b[j]
  }

  /** equal_3(): this and the next two records are equal. */
  predicate Equal3(a: seq<Item>, i: int, b: seq<Item>, j: int) {
    && EqualLine(a, i, b, j)
    && EqualLine(a, StepUp(a, i), b, StepUp(b, j))
    && EqualLine(a, StepUp(a, StepUp(a, i)), b, StepUp(b, StepUp(b, j)))
  }

  /** Three records agree, in terms of the files: behind the end there are only end marks. */
  predicate Agree3(file1: seq<string>, i: nat, file2: seq<string>, j: nat) {
    && ItemAt(file1, i) == ItemAt(file2, j)
    && ItemAt(file1, i + 1) == ItemAt(file2, j + 1)
    && ItemAt(file1, i + 2) == ItemAt(file2, j + 2)
  }

  /** They do i lines behind line c1 and j behind c2. */
  predicate Agrees(file1: seq<string>, c1: nat, i: nat, file2: seq<string>, c2: nat, j: nat) {
    Agree3(file1, c1 + i, file2, c2 + j)
  }

  /** The window shows the record at k and the two behind it. */
  ghost predicate Shows3(f: Window, k: nat)
    reads f
  {
    k < |f.win| && (|f.win| >= k + 3 || f.Ends())
  }

  lemma Equal3Agrees(fa: Window, i: nat, fb: Window, j: nat)
    requires fa.Valid() && fb.Valid() && fa.linecnt <= |fa.file| && fb.linecnt <= |fb.file|
    requires i < |fa.win| && Shows3(fb, j)
    ensures Equal3(fa.win, i, fb.win, j) ==> Agrees(fa.file, fa.linecnt, i, fb.file, fb.linecnt, j)
    ensures Shows3(fa, i) ==> (Equal3(fa.win, i, fb.win, j) <==> Agrees(fa.file, fa.linecnt, i, fb.file, fb.linecnt, j))
  {
    StepUpShows(fa, i);
    StepUpShows(fb, j);
  }

  lemma StepUpShows(f: Window, k: nat)
    requires f.Valid() && f.linecnt <= |f.file| && k < |f.win|
    ensures var a, b := StepUp(f.win, k), StepUp(f.win, StepUp(f.win, k));
            && f.win[k] == ItemAt(f.file, f.linecnt + k)
            && (a >= 0 ==> a < |f.win| && f.win[a] == ItemAt(f.file, f.linecnt + k + 1))
            && (b >= 0 ==> b < |f.win| && f.win[b] == ItemAt(f.file, f.linecnt + k + 2))
            && (Shows3(f, k) ==> a >= 0 && b >= 0)
  {
  }

  /** The search for the first record of a from which three equal those of b from j on. */
  method Scan(a: seq<Item>, b: seq<Item>, j: nat) returns (found: bool, i: nat)
    requires a != [] && j < |b|
    requires forall k :: 0 <= k < |a| - 1 ==> !a[k].Eof?
    ensures found ==> i < |a| && Equal3(a, i, b, j) && forall k :: 0 <= k < i ==> !Equal3(a, k, b, j)
    ensures !found ==> forall k :: 0 <= k < |a| ==> !Equal3(a, k, b, j)
  {
    i := 0;
    while true
      invariant i < |a|
      invariant forall k :: 0 <= k < i ==> !Equal3(a, k, b, j)
      decreases |a| - i
    {
      if Equal3(a, i, b, j) {
        return true, i;
      }
      if a[i].Eof? {
        return false, i;
      }
      var next := StepUp(a, i);
      if next < 0 {
        return false, i;
      }
      i := next;
    }
  }

  /** What differs before the last records of the two windows. */
  ghost function HunkOf(f1: Window, f2: Window): (h: Hunk)
    reads f1, f2
    requires f1.win != [] && f2.win != []
    requires f1.linecnt + |f1.win| <= |f1.file| + 1 && f2.linecnt + |f2.win| <= |f2.file| + 1
  {
    var o, n := f1.linecnt, f2.linecnt;
    Hunk(o, f1.file[o..o + |f1.win| - 1], n, f2.file[n..n + |f2.win| - 1])
  }

  /** A length that is not too large is 0 in an int only if it is 0. */
  lemma IntLength(n: nat)
    requires n < WORD16
    ensures Int16(n) == 0 <==> n == 0
  {
  }

  lemma SameRange(a: int, b: int, c: int, d: int)
    requires Int16(a) == Int16(c) && Int16(b) == Int16(d)
    ensures Range(a, b) == Range(c, d) && Decimal(a) == Decimal(c)
  {
  }

  /** Sums of ints print as the line numbers they stand for. */
  lemma SameHeader(h: Hunk, cnt1: int, len1: int, cnt2: int, len2: int)
    requires cnt1 == Int16(h.o) && len1 == Int16(|h.dels|) && cnt2 == Int16(h.n) && len2 == Int16(|h.adds|)
    ensures Range(cnt1 + 1, cnt1 + len1) == Range(h.o + 1, h.OldEnd()) && Decimal(cnt1) == Decimal(h.o)
    ensures Range(cnt2 + 1, cnt2 + len2) == Range(h.n + 1, h.NewEnd()) && Decimal(cnt2) == Decimal(h.n)
  {
    hide Range, Decimal, Int16;
    Int16Sum(h.o, 1);
    Int16Sum(h.o, |h.dels|);
    Int16Sum(h.o, 0);
    Int16Sum(h.n, 1);
    Int16Sum(h.n, |h.adds|);
    Int16Sum(h.n, 0);
    SameRange(cnt1 + 1, cnt1 + len1, h.o + 1, h.OldEnd());
    SameRange(cnt2 + 1, cnt2 + len2, h.n + 1, h.NewEnd());
    SameRange(cnt1, cnt1, h.o, h.o);
    SameRange(cnt2, cnt2, h.n, h.n);
  }

  /** The command line that differ() prints. */
  method PrintHeader(cnt1: int, len1: int, cnt2: int, len2: int, ghost h: Hunk) returns (out: string)
    requires cnt1 == Int16(h.o) && len1 == Int16(|h.dels|) && cnt2 == Int16(h.n) && len2 == Int16(|h.adds|)
    requires Moderate(h)
    ensures out == Header(h)
  {
    hide Int16, Range, Decimal;
    IntLength(|h.dels|);
    IntLength(|h.adds|);
    SameHeader(h, cnt1, len1, cnt2, len2);
    if len1 == 0 {
      out := Decimal(cnt1) + "a" + Range(cnt2 + 1, cnt2 + len2) + "\n";
    } else if len2 == 0 {
      out := Range(cnt1 + 1, cnt1 + len1) + "d" + Decimal(cnt2) + "\n";
    } else {
      out := Range(cnt1 + 1, cnt1 + len1) + "c" + Range(cnt2 + 1, cnt2 + len2) + "\n";
    }
  }

  /** differ(): print the hunk before the last records of the two windows. */
  method Differ(f1: Window, f2: Window) returns (out: seq<string>, ghost h: Hunk)
    requires f1 != f2 && f1.Valid() && f2.Valid() && f1.win != [] && f2.win != []
    requires f1.linecnt + |f1.win| <= |f1.file| + 1 && f2.linecnt + |f2.win| <= |f2.file| + 1
    requires (|f1.win| > 1 || |f2.win| > 1) && |f1.win| <= WORD16 && |f2.win| <= WORD16
    modifies f1, f2
    ensures f1.Valid() && f2.Valid()
    ensures f1.win == old(f1.win)[|old(f1.win)| - 1..] && f2.win == old(f2.win)[|old(f2.win)| - 1..]
    ensures h == old(HunkOf(f1, f2)) && f1.linecnt == h.OldEnd() && f2.linecnt == h.NewEnd()
    ensures out == HunkText(h)
  {
    h := HunkOf(f1, f2);
    var len1, len2 := Int16(|f1.win| - 1), Int16(|f2.win| - 1);
    IntLength(|f1.win| - 1);
    IntLength(|f2.win| - 1);
    var header := PrintHeader(Int16(f1.linecnt), len1, Int16(f2.linecnt), len2, h);
    hide Int16, Header;
    var gone, come := [], [];
    if len1 != 0 {
      gone := f1.Update("< ");
    }
    if len2 != 0 {
      come := f2.Update("> ");
    }
    out := [header] + gone + (if len1 != 0 && len2 != 0 then ["---\n"] else []) + come;
  }

  /** Two end-of-file records always match, so the search ends. */
  lemma EofsMatch(a: seq<Item>, i: int, b: seq<Item>, j: int)
    requires 0 <= i < |a| && 0 <= j < |b| && a[i] == Eof && b[j] == Eof
    ensures Equal3(a, i, b, j)
  {
  }

  /** The window holds the record at b and, unless the file ends first, two more. */
  ghost predicate Ahead(f: Window, b: nat)
    reads f
  {
    && f.Valid() && f.linecnt <= |f.file|
    && b < |f.win| && (|f.win| >= b + 3 || f.Ends())
  }

  /** How far b is from the end of the file. */
  ghost function Left(f: Window, b: nat): nat
    reads f
  {
    if f.linecnt + b <= |f.file| then |f.file| - (f.linecnt + b) else 0
  }

  /** A record at the end of the file is in the window's last place. */
  lemma LeftNone(f: Window, b: nat)
    requires Ahead(f, b) && Left(f, b) == 0
    ensures f.Ends()
  {
    assert f.win[b] == ItemAt(f.file, f.linecnt + b);
  }

  /** Read several more lines. */
  method ReadMore(f: Window)
    requires f.Valid() && |f.win| == 1 && f.linecnt <= |f.file|
    modifies f
    ensures Ahead(f, 0) && f.linecnt == old(f.linecnt) && f.win != [] && f.win[0] == old(f.win[0])
  {
    f.Next();
    f.Next();
  }

  /** The windows end at equal records, at least one of which is not the first. */
  ghost predicate Matched(f1: Window, f2: Window)
    reads f1, f2
  {
    && f1.Valid() && f2.Valid()
    && f1.win != [] && f2.win != [] && f1.win[|f1.win| - 1] == f2.win[|f2.win| - 1]
    && (|f1.win| > 1 || |f2.win| > 1)
    && f1.linecnt + |f1.win| <= |f1.file| + 1 && f2.linecnt + |f2.win| <= |f2.file| + 1
  }

  /** The windows end where a search for the records at b of the second one led: nowhere before
      in the first one do three records agree with these. */
  ghost predicate FoundAt(fa: Window, fb: Window, b: nat)
    reads fa, fb
  {
    && |fb.win| == b + 1
    && (forall k :: 0 <= k < |fa.win| - 1 ==> !Agrees(fa.file, fa.linecnt, k, fb.file, fb.linecnt, b))
  }

  /** None of the records the first window shows agree with those at b of the second file. */
  ghost predicate NotSeen(fa: Window, fb: Window, b: nat)
    reads fa, fb
  {
    forall k :: 0 <= k && Shows3(fa, k) ==> !Agrees(fa.file, fa.linecnt, k, fb.file, fb.linecnt, b)
  }

  /** Half a round of the search: widen one window, look in the other for the lines at b
      of the widened one, and move on. */
  method Look(fa: Window, fb: Window, b: nat) returns (found: bool, next: nat)
    requires fa != fb && Ahead(fa, 0) && Ahead(fb, b)
    requires fa.win != [] && fb.win != [] && fa.win[0] != fb.win[0]
    modifies fa, fb
    ensures fa.linecnt == old(fa.linecnt) && fb.linecnt == old(fb.linecnt)
    ensures found ==> Matched(fa, fb) && FoundAt(fa, fb, b) && next == b
    ensures found ==> Agrees(fa.file, fa.linecnt, |fa.win| - 1, fb.file, fb.linecnt, |fb.win| - 1)
    ensures !found ==> unchanged(fa) && fb.win != [] && Ahead(fb, 0) && Ahead(fb, next) && fb.win[0] == old(fb.win[0])
    ensures !found ==> Left(fb, next) < Left(fb, b) || (next == b && Left(fb, b) == 0 && !fa.Ends())
    ensures !found ==> NotSeen(fa, fb, b) && next == (if Left(fb, b) == 0 then b else b + 1)
    ensures !found ==> |fb.win| == (if old(fb.Ends()) then |old(fb.win)| else |old(fb.win)| + 1)
  {
    hide Equal3, Agrees;
    fb.Next();
    var i;
    found, i := Scan(fa.win, fb.win, b);
    if found {
      TakeFound(fa, fb, i, b);
      next := b;
    } else {
      NotFound(fa, fb, b);
      next := StepUp(fb.win, b);
    }
  }

  /** The search has found record i of one window to agree with record b of the other. */
  method TakeFound(fa: Window, fb: Window, i: nat, b: nat)
    requires fa != fb && fa.Valid() && fb.Valid() && fa.linecnt <= |fa.file| && fb.linecnt <= |fb.file|
    requires i < |fa.win| && Shows3(fb, b) && fa.win[0] != fb.win[0]
    requires Equal3(fa.win, i, fb.win, b) && forall k :: 0 <= k < i ==> !Equal3(fa.win, k, fb.win, b)
    modifies fa, fb
    ensures fa.linecnt == old(fa.linecnt) && fb.linecnt == old(fb.linecnt)
    ensures Matched(fa, fb) && FoundAt(fa, fb, b)
    ensures Agrees(fa.file, fa.linecnt, |fa.win| - 1, fb.file, fb.linecnt, |fb.win| - 1)
  {
    hide Equal3, Agrees;
    Equal3First(fa.win, i, fb.win, b);
    ScanAgrees(fa, fb, b);
    ShowsBefore(fa, i);
    fa.Aside(i);
    fb.Aside(b);
  }

  lemma ShowsBefore(f: Window, i: nat)
    requires Shows3(f, i)
    ensures forall k: nat :: k <= i ==> Shows3(f, k)
  {
  }

  /** It has not: then the end of one file is not in sight or not reached in the other. */
  lemma NotFound(fa: Window, fb: Window, b: nat)
    requires fa.Valid() && fb.Valid() && fa.linecnt <= |fa.file| && fb.linecnt <= |fb.file| && Shows3(fb, b)
             && fa.win != []
    requires forall k :: 0 <= k < |fa.win| ==> !Equal3(fa.win, k, fb.win, b)
    ensures NotSeen(fa, fb, b) && !(fa.Ends() && fb.win[b] == Eof)
  {
    hide Equal3, Agrees;
    ScanAgrees(fa, fb, b);
    if fa.Ends() && fb.win[b] == Eof {
      EofsMatch(fa.win, |fa.win| - 1, fb.win, b);
      assert false;
    }
  }

  lemma ScanAgrees(fa: Window, fb: Window, b: nat)
    requires fa.Valid() && fb.Valid() && fa.linecnt <= |fa.file| && fb.linecnt <= |fb.file| && Shows3(fb, b)
    ensures forall k :: 0 <= k && Shows3(fa, k) ==>
              (Equal3(fa.win, k, fb.win, b) <==> Agrees(fa.file, fa.linecnt, k, fb.file, fb.linecnt, b))
    ensures forall k :: 0 <= k < |fa.win| && Equal3(fa.win, k, fb.win, b) ==>
              Agrees(fa.file, fa.linecnt, k, fb.file, fb.linecnt, b) && Shows3(fa, k)
  {
    hide Agrees, Equal3;
    forall k | 0 <= k < |fa.win|
      ensures Shows3(fa, k) ==>
                (Equal3(fa.win, k, fb.win, b) <==> Agrees(fa.file, fa.linecnt, k, fb.file, fb.linecnt, b))
      ensures Equal3(fa.win, k, fb.win, b) ==> Agrees(fa.file, fa.linecnt, k, fb.file, fb.linecnt, b) && Shows3(fa, k)
    {
      Equal3Agrees(fa, k, fb, b);
      if Equal3(fa.win, k, fb.win, b) {
        Equal3Shows(fa, k, fb, b);
      }
    }
  }

  lemma Equal3Shows(fa: Window, i: nat, fb: Window, j: nat)
    requires fa.Valid() && fa.linecnt <= |fa.file| && i < |fa.win| && Equal3(fa.win, i, fb.win, j)
    ensures Shows3(fa, i)
  {
    StepUpShows(fa, i);
  }

  /** Behind the end of a file nothing changes any more. */
  lemma AgreePast(file1: seq<string>, i: nat, file2: seq<string>, j: nat)
    ensures i >= |file1| ==> (Agree3(file1, i, file2, j) <==> Agree3(file1, |file1|, file2, j))
    ensures j >= |file2| ==> (Agree3(file1, i, file2, j) <==> Agree3(file1, i, file2, |file2|))
    ensures Agree3(file1, i, file2, j) <==> Agree3(file2, j, file1, i)
  {
  }

  /** No place among the first n lines of both files where three lines agree. */
  ghost predicate NoneWithin(file1: seq<string>, c1: nat, file2: seq<string>, c2: nat, n: nat) {
    forall i, j :: 0 <= i < n && 0 <= j < n ==> !Agrees(file1, c1, i, file2, c2, j)
  }

  /** How the search came to the place x lines on in the first and y in the second file.  It
      compares the lines at 0, 1, 2, ... of one file with those of the other that are no further
      on, the second file first: within that distance nothing else agrees. */
  ghost predicate Nearest(file1: seq<string>, c1: nat, x: nat, file2: seq<string>, c2: nat, y: nat) {
    && Agrees(file1, c1, x, file2, c2, y)
    && (|| (&& NoneWithin(file1, c1, file2, c2, y)
            && forall i :: 0 <= i < x ==> !Agrees(file1, c1, i, file2, c2, y))
        || (&& NoneWithin(file1, c1, file2, c2, x)
            && (forall i :: 0 <= i <= x ==> !Agrees(file1, c1, i, file2, c2, x))
            && forall j :: 0 <= j < y ==> !Agrees(file1, c1, x, file2, c2, j)))
  }

  /** Where the search is after t rounds. */
  ghost predicate Round(f1: Window, f2: Window, t: nat, b1: nat, b2: nat)
    reads f1, f2
  {
    && Ahead(f1, b1) && Ahead(f2, b2) && Ahead(f1, 0) && Ahead(f2, 0)
    && f1.win[0] != f2.win[0]
    && b1 == Min(t, |f1.file| - f1.linecnt) && b2 == Min(t, |f2.file| - f2.linecnt)
    && NoneWithin(f1.file, f1.linecnt, f2.file, f2.linecnt, t)
  }

  /** Nothing was seen in the first half of a round: no line up to t agrees with line t of the
      second file. */
  lemma FirstHalf(f1: Window, f2: Window, t: nat, b1: nat, b2: nat, i: nat)
    requires Ahead(f1, b1) && b1 == Min(t, |f1.file| - f1.linecnt) && b2 == Min(t, |f2.file| - f2.linecnt)
    requires NotSeen(f1, f2, b2) && i <= t && f2.linecnt <= |f2.file|
    ensures !Agrees(f1.file, f1.linecnt, i, f2.file, f2.linecnt, t)
  {
    hide Agree3;
    var k := Min(i, b1);
    assert Shows3(f1, k);
    AgreePast(f1.file, f1.linecnt + i, f2.file, f2.linecnt + t);
    AgreePast(f1.file, f1.linecnt + k, f2.file, f2.linecnt + t);
    AgreePast(f1.file, f1.linecnt + k, f2.file, f2.linecnt + b2);
  }

  /** The same with the files exchanged. */
  lemma SecondHalf(f1: Window, f2: Window, t: nat, b1: nat, b2: nat, j: nat)
    requires Ahead(f2, b2) && Min(t, |f2.file| - f2.linecnt) <= b2 && b1 == Min(t, |f1.file| - f1.linecnt)
    requires NotSeen(f2, f1, b1) && j <= t && f1.linecnt <= |f1.file|
    ensures !Agrees(f1.file, f1.linecnt, t, f2.file, f2.linecnt, j)
  {
    hide Agree3;
    var k := Min(j, |f2.file| - f2.linecnt);
    assert Shows3(f2, k);
    AgreePast(f1.file, f1.linecnt + t, f2.file, f2.linecnt + j);
    AgreePast(f1.file, f1.linecnt + t, f2.file, f2.linecnt + k);
    AgreePast(f2.file, f2.linecnt + k, f1.file, f1.linecnt + t);
    AgreePast(f2.file, f2.linecnt + k, f1.file, f1.linecnt + b1);
  }

  lemma OneRound(file1: seq<string>, c1: nat, file2: seq<string>, c2: nat, t: nat)
    requires NoneWithin(file1, c1, file2, c2, t)
    requires forall i :: 0 <= i <= t ==> !Agrees(file1, c1, i, file2, c2, t)
    requires forall j :: 0 <= j <= t ==> !Agrees(file1, c1, t, file2, c2, j)
    ensures NoneWithin(file1, c1, file2, c2, t + 1)
  {
    hide Agrees;
  }

  /** The search of diff() for the next place where three lines agree. */
  method Search(f1: Window, f2: Window)
    requires f1 != f2 && f1.Valid() && f2.Valid() && |f1.win| == 1 == |f2.win|
    requires f1.linecnt <= |f1.file| && f2.linecnt <= |f2.file|
    requires f1.win[0] != f2.win[0]
    modifies f1, f2
    ensures f1.linecnt == old(f1.linecnt) && f2.linecnt == old(f2.linecnt)
    ensures Matched(f1, f2)
    ensures Nearest(f1.file, f1.linecnt, |f1.win| - 1, f2.file, f2.linecnt, |f2.win| - 1)
  {
    hide Ahead, Agrees, NoneWithin, Nearest;
    var b1: nat, b2: nat := 0, 0;
    ghost var t: nat := 0;
    ReadMore(f1);
    ReadMore(f2);
    NoneYet(f1.file, f1.linecnt, f2.file, f2.linecnt);
    while true
      invariant f1.linecnt == old(f1.linecnt) && f2.linecnt == old(f2.linecnt)
      invariant Round(f1, f2, t, b1, b2)
      decreases Left(f1, b1) + Left(f2, b2)
    {
      var found, next2 := LookFirst(f1, f2, t, b1, b2);
      if found {
        return;
      }
      var next1;
      found, next1 := LookSecond(f1, f2, t, b1, b2, next2);
      if found {
        return;
      }
      b1, b2, t := next1, next2, t + 1;
    }
  }

  /** Between the halves of round t. */
  ghost predicate HalfRound(f1: Window, f2: Window, t: nat, b1: nat, b2: nat, next2: nat)
    reads f1, f2
  {
    && Ahead(f1, b1) && Ahead(f2, next2) && Ahead(f1, 0) && Ahead(f2, 0)
    && f1.win[0] != f2.win[0]
    && b1 == Min(t, |f1.file| - f1.linecnt) && b2 == Min(t, |f2.file| - f2.linecnt)
    && next2 == Min(t + 1, |f2.file| - f2.linecnt)
    && NoneWithin(f1.file, f1.linecnt, f2.file, f2.linecnt, t)
    && (forall i :: 0 <= i <= t ==> !Agrees(f1.file, f1.linecnt, i, f2.file, f2.linecnt, t))
    && (Left(f2, next2) < Left(f2, b2) || (next2 == b2 && Left(f2, b2) == 0 && !f1.Ends()))
  }

  /** The first half: the lines at b2 of the second file in the window of the first. */
  method LookFirst(f1: Window, f2: Window, ghost t: nat, ghost b1: nat, b2: nat) returns (found: bool, next2: nat)
    requires f1 != f2 && Round(f1, f2, t, b1, b2)
    modifies f1, f2
    ensures f1.linecnt == old(f1.linecnt) && f2.linecnt == old(f2.linecnt)
    ensures found ==> Matched(f1, f2) && Nearest(f1.file, f1.linecnt, |f1.win| - 1, f2.file, f2.linecnt, |f2.win| - 1)
    ensures !found ==> HalfRound(f1, f2, t, b1, b2, next2) && Left(f1, b1) == old(Left(f1, b1))
  {
    hide Ahead, Agrees, NoneWithin, Nearest;
    AheadValid(f1, b1);
    AheadValid(f2, b2);
    found, next2 := Look(f1, f2, b2);
    if found {
      FoundFirst(f1, f2, t, b2);
      return;
    }
    forall i: nat | i <= t
      ensures !Agrees(f1.file, f1.linecnt, i, f2.file, f2.linecnt, t)
    {
      FirstHalf(f1, f2, t, b1, b2, i);
    }
  }

  /** The second half: the lines at b1 of the first file in the window of the second. */
  method LookSecond(f1: Window, f2: Window, ghost t: nat, b1: nat, ghost b2: nat, ghost next2: nat)
    returns (found: bool, next1: nat)
    requires f1 != f2 && HalfRound(f1, f2, t, b1, b2, next2)
    modifies f1, f2
    ensures f1.linecnt == old(f1.linecnt) && f2.linecnt == old(f2.linecnt)
    ensures found ==> Matched(f1, f2) && Nearest(f1.file, f1.linecnt, |f1.win| - 1, f2.file, f2.linecnt, |f2.win| - 1)
    ensures !found ==> Round(f1, f2, t + 1, next1, next2)
    ensures !found ==> Left(f1, next1) + Left(f2, next2) < Left(f1, b1) + Left(f2, b2)
  {
    hide Ahead, Agrees, NoneWithin, Nearest;
    AheadValid(f1, b1);
    AheadValid(f2, next2);
    if Left(f1, b1) == 0 {
      LeftNone(f1, b1);
    }
    found, next1 := Look(f2, f1, b1);
    if found {
      AgreeBoth(f2.file, f2.linecnt, |f2.win| - 1, f1.file, f1.linecnt, |f1.win| - 1);
      FoundSecond(f1, f2, t, b1);
      return;
    }
    forall j: nat | j <= t
      ensures !Agrees(f1.file, f1.linecnt, t, f2.file, f2.linecnt, j)
    {
      SecondHalf(f1, f2, t, b1, next2, j);
    }
    OneRound(f1.file, f1.linecnt, f2.file, f2.linecnt, t);
  }

  lemma AgreeBoth(file1: seq<string>, c1: nat, i: nat, file2: seq<string>, c2: nat, j: nat)
    ensures Agrees(file1, c1, i, file2, c2, j) <==> Agrees(file2, c2, j, file1, c1, i)
  {
  }

  lemma NoneYet(file1: seq<string>, c1: nat, file2: seq<string>, c2: nat)
    ensures NoneWithin(file1, c1, file2, c2, 0)
  {
  }

  lemma AheadValid(f: Window, b: nat)
    requires Ahead(f, b)
    ensures f.Valid() && f.linecnt <= |f.file| && f.win != []
  {
  }

  lemma FoundFirst(f1: Window, f2: Window, t: nat, b2: nat)
    requires Matched(f1, f2) && FoundAt(f1, f2, b2) && b2 <= t
             && NoneWithin(f1.file, f1.linecnt, f2.file, f2.linecnt, t)
    requires Agrees(f1.file, f1.linecnt, |f1.win| - 1, f2.file, f2.linecnt, |f2.win| - 1)
    ensures Nearest(f1.file, f1.linecnt, |f1.win| - 1, f2.file, f2.linecnt, |f2.win| - 1)
  {
    hide Agrees;
  }

  lemma FoundSecond(f1: Window, f2: Window, t: nat, b1: nat)
    requires Matched(f1, f2) && FoundAt(f2, f1, b1) && b1 <= t
             && NoneWithin(f1.file, f1.linecnt, f2.file, f2.linecnt, t)
    requires Agrees(f1.file, f1.linecnt, |f1.win| - 1, f2.file, f2.linecnt, |f2.win| - 1)
    requires forall i :: 0 <= i <= t ==> !Agrees(f1.file, f1.linecnt, i, f2.file, f2.linecnt, t)
    ensures Nearest(f1.file, f1.linecnt, |f1.win| - 1, f2.file, f2.linecnt, |f2.win| - 1)
  {
    hide Agree3;
    var y := |f2.win| - 1;
    forall j: nat | j < y
      ensures !Agrees(f1.file, f1.linecnt, b1, f2.file, f2.linecnt, j)
    {
      assert !Agrees(f2.file, f2.linecnt, j, f1.file, f1.linecnt, b1);
      AgreePast(f2.file, f2.linecnt + j, f1.file, f1.linecnt + b1);
    }
    if b1 == t {
      assert forall i :: 0 <= i <= b1 ==> !Agrees(f1.file, f1.linecnt, i, f2.file, f2.linecnt, b1);
    }
  }

  /** The windows end at equal records: what is before these is a hunk. */
  lemma FoundHunk(f1: Window, f2: Window)
    requires Matched(f1, f2) && ItemAt(f1.file, f1.linecnt) != ItemAt(f2.file, f2.linecnt)
    ensures var h := HunkOf(f1, f2);
            && Fits(f1.file, f2.file, h) && h.o == f1.linecnt && h.n == f2.linecnt
            && |h.dels| == |f1.win| - 1 && |h.adds| == |f2.win| - 1
            && h.OldEnd() <= |f1.file| && h.NewEnd() <= |f2.file|
            && (Moderate(h) <==> |f1.win| <= WORD16 && |f2.win| <= WORD16)
  {
  }

  /** Find and print the hunk that starts where the files differ.  ok is false for one whose
      records need more memory than there is. */
  method NextHunk(f1: Window, f2: Window) returns (ok: bool, out: seq<string>, ghost h: Hunk)
    requires f1 != f2 && f1.Valid() && f2.Valid() && |f1.win| == 1 == |f2.win|
    requires f1.linecnt <= |f1.file| && f2.linecnt <= |f2.file|
    requires f1.win[0] != f2.win[0]
    modifies f1, f2
    ensures h.o == old(f1.linecnt) && h.n == old(f2.linecnt) && (ok <==> Moderate(h))
    ensures Fits(f1.file, f2.file, h) && NearestHunk(f1.file, f2.file, h)
    ensures ok ==> f1.Valid() && f2.Valid() && |f1.win| == 1 == |f2.win| && f1.win == f2.win
    ensures ok ==> f1.linecnt == h.OldEnd() <= |f1.file| && f2.linecnt == h.NewEnd() <= |f2.file| && out == HunkText(h)
  {
    hide HunkText, Nearest, Fits;
    assert f1.win[0] == ItemAt(f1.file, f1.linecnt) && f2.win[0] == ItemAt(f2.file, f2.linecnt);
    Search(f1, f2);
    ok, out, h := PrintFound(f1, f2);
  }

  /** The windows end where the search led. */
  method PrintFound(f1: Window, f2: Window) returns (ok: bool, out: seq<string>, ghost h: Hunk)
    requires f1 != f2 && Matched(f1, f2) && ItemAt(f1.file, f1.linecnt) != ItemAt(f2.file, f2.linecnt)
    modifies f1, f2
    ensures h == old(HunkOf(f1, f2)) && Fits(f1.file, f2.file, h) && (ok <==> Moderate(h))
    ensures ok ==> f1.Valid() && f2.Valid() && |f1.win| == 1 == |f2.win| && f1.win == f2.win
    ensures ok ==> f1.linecnt == h.OldEnd() <= |f1.file| && f2.linecnt == h.NewEnd() <= |f2.file| && out == HunkText(h)
  {
    hide HunkText, Fits, Sane;
    FoundHunk(f1, f2);
    ok := |f1.win| <= WORD16 && |f2.win| <= WORD16;
    if !ok {
      return ok, [], HunkOf(f1, f2);
    }
    out, h := Differ(f1, f2);
  }

  /** The hunk ends at the nearest place where three lines agree. */
  ghost predicate NearestHunk(file1: seq<string>, file2: seq<string>, h: Hunk) {
    Nearest(file1, h.o, |h.dels|, file2, h.n, |h.adds|)
  }

  lemma Equal3First(a: seq<Item>, i: int, b: seq<Item>, j: int)
    requires Equal3(a, i, b, j)
    ensures 0 <= i < |a| && 0 <= j < |b| && a[i] == b[j]
  {
  }

  /** What diff has printed so far is a script for the lines it has passed. */
  ghost predicate Printed(f1: Window, f2: Window, hunks: seq<Hunk>, out: seq<string>)
    reads f1, f2
  {
    && Covers(f1.file, f2.file, hunks, Min(f1.linecnt, |f1.file|), Min(f2.linecnt, |f2.file|))
    && Separated(hunks)
    && out == Text(hunks)
  }

  /** The next hunk leaves at least one unchanged line after the previous one. */
  ghost predicate Apart(hunks: seq<Hunk>, i: nat, j: nat) {
    hunks != [] ==> hunks[|hunks| - 1].OldEnd() < i && hunks[|hunks| - 1].NewEnd() < j
  }

  lemma AddHunk(old1: seq<string>, new1: seq<string>, hunks: seq<Hunk>, h: Hunk)
    requires Covers(old1, new1, hunks, h.o, h.n) && Fits(old1, new1, h)
    requires Separated(hunks) && Apart(hunks, h.o, h.n)
    ensures Covers(old1, new1, hunks + [h], h.OldEnd(), h.NewEnd()) && Separated(hunks + [h])
    ensures Text(hunks + [h]) == Text(hunks) + HunkText(h)
  {
    hide Covers, Fits, Text, HunkText;
    CoversHunk(old1, new1, hunks, h);
    TextSnoc(hunks, h);
  }

  /** Pass over two equal records. */
  method PassEqual(f1: Window, f2: Window, ghost hunks: seq<Hunk>)
    requires f1 != f2 && f1.Valid() && f2.Valid() && |f1.win| == 1 == |f2.win| && f1.win == f2.win
    requires f1.linecnt <= |f1.file| && f2.linecnt <= |f2.file|
    requires Covers(f1.file, f2.file, hunks, f1.linecnt, f2.linecnt)
    requires hunks != [] ==> hunks[|hunks| - 1].OldEnd() <= f1.linecnt && hunks[|hunks| - 1].NewEnd() <= f2.linecnt
    modifies f1, f2
    ensures f1.Valid() && f2.Valid() && |f1.win| == 1 == |f2.win|
    ensures f1.linecnt == old(f1.linecnt) + 1 && f2.linecnt == old(f2.linecnt) + 1
    ensures old(f1.win[0]) == Eof ==> f1.win == [Eof] && f2.win == [Eof]
    ensures Covers(f1.file, f2.file, hunks, Min(f1.linecnt, |f1.file|), Min(f2.linecnt, |f2.file|))
    ensures Apart(hunks, f1.linecnt, f2.linecnt)
  {
    hide Covers;
    ghost var c1, c2 := f1.linecnt, f2.linecnt;
    assert f1.win[0] == ItemAt(f1.file, c1) && f2.win[0] == ItemAt(f2.file, c2);
    if f1.win[0].Line? {
      CoversEqualLine(f1.file, f2.file, hunks, c1, c2);
    }
    assert Covers(f1.file, f2.file, hunks, Min(c1 + 1, |f1.file|), Min(c2 + 1, |f2.file|));
    hide Window.Valid;
    f1.Pass();
    f2.Pass();
  }

  /** A difference that diff cannot print: it has run out of memory before. */
  ghost predicate TooLarge(file1: seq<string>, file2: seq<string>, h: Hunk) {
    Fits(file1, file2, h) && NearestHunk(file1, file2, h) && !Moderate(h)
  }

  /** diff(): prints a script that turns the first file into the second, each hunk as short as
      the search makes it. */
  method Diff(text1: string, text2: string) returns (out: Option<string>)
    requires TextFile(text1, LINELEN) && TextFile(text2, LINELEN)
    ensures out.Some? ==> exists hunks :: DiffScript(Split(text1), Split(text2), hunks) && AllModerate(hunks)
                                          && out.value == Printout(hunks)
    ensures out.None? ==> exists h :: TooLarge(Split(text1), Split(text2), h)
  {
    hide TextFile, Split, Concat, Passed, DiffScript, TooLarge, AllModerate;
    var file1 := ReadLines(text1);
    var file2 := ReadLines(text2);
    var f1 := new Window(file1);
    var f2 := new Window(file2);
    var printed := [];
    ghost var hunks := [];
    f1.Next();
    f2.Next();
    NothingPassed(f1, f2);
    while !(f1.win[0].Eof? && f2.win[0].Eof?)
      invariant fresh(f1) && fresh(f2) && f1 != f2 && f1.win != [] && f2.win != []
      invariant f1.file == file1 && f2.file == file2 && Passed(f1, f2, hunks, printed)
      decreases 2 + |file1| - f1.linecnt
    {
      var ok;
      ok, printed, hunks := Proceed(f1, f2, printed, hunks);
      if !ok {
        return None;
      }
    }
    AllPassed(f1, f2, hunks, printed);
    out := Some(Concat(printed));
  }

  /** Where the main loop is: the two windows, the hunks so far and what was printed. */
  ghost predicate Passed(f1: Window, f2: Window, hunks: seq<Hunk>, printed: seq<string>)
    reads f1, f2
  {
    && f1.Valid() && f2.Valid() && |f1.win| == 1 == |f2.win|
    && Printed(f1, f2, hunks, printed) && Apart(hunks, f1.linecnt, f2.linecnt)
    && (f1.linecnt > |f1.file| || f2.linecnt > |f2.file| ==> f1.win[0].Eof? && f2.win[0].Eof?)
    && (forall k :: 0 <= k < |hunks| ==> NearestHunk(f1.file, f2.file, hunks[k])) && AllModerate(hunks)
  }

  lemma NothingPassed(f1: Window, f2: Window)
    requires f1.Valid() && f2.Valid() && |f1.win| == 1 == |f2.win| && f1.linecnt == 0 == f2.linecnt
    ensures Passed(f1, f2, [], [])
  {
    NoHunks(f1.file, f2.file);
  }

  lemma AllPassed(f1: Window, f2: Window, hunks: seq<Hunk>, printed: seq<string>)
    requires Passed(f1, f2, hunks, printed) && f1.win[0].Eof? && f2.win[0].Eof?
    ensures DiffScript(f1.file, f2.file, hunks) && AllModerate(hunks) && printed == Text(hunks)
  {
    hide Covers, Text, Separated, ScriptFrom, NearestHunk;
    CoversScript(f1.file, f2.file, hunks, |f1.file|, |f2.file|, []);
    assert hunks + [] == hunks;
  }

  /** One turn of the main loop: a hunk if the records differ, then the equal records. */
  method Proceed(f1: Window, f2: Window, printed: seq<string>, ghost hunks: seq<Hunk>)
    returns (ok: bool, printed': seq<string>, ghost hunks': seq<Hunk>)
    requires f1 != f2 && Passed(f1, f2, hunks, printed) && !(f1.win[0].Eof? && f2.win[0].Eof?)
    modifies f1, f2
    ensures ok ==> Passed(f1, f2, hunks', printed') && f1.linecnt > old(f1.linecnt)
    ensures ok ==> f1.linecnt <= |f1.file| + 1 && f1.win != [] && f2.win != []
    ensures !ok ==> exists h :: TooLarge(f1.file, f2.file, h)
  {
    hide Covers, Text, HunkText, Separated, NearestHunk, Printed, Moderate, Fits;
    ok, printed', hunks' := true, printed, hunks;
    if f1.win[0] != f2.win[0] {
      PrintedCovers(f1, f2, hunks, printed);
      var text;
      ghost var h;
      ok, text, h := NextHunk(f1, f2);
      if !ok {
        assert TooLarge(f1.file, f2.file, h);
        return;
      }
      AddHunk(f1.file, f2.file, hunks, h);
      printed' := printed + text;
      hunks' := hunks + [h];
      assert Covers(f1.file, f2.file, hunks', f1.linecnt, f2.linecnt) && Separated(hunks') && printed' == Text(hunks');
    } else {
      PrintedCovers(f1, f2, hunks, printed);
    }
    PassEqual(f1, f2, hunks');
    PrintedAgain(f1, f2, hunks', printed');
  }

  lemma PrintedCovers(f1: Window, f2: Window, hunks: seq<Hunk>, printed: seq<string>)
    requires Printed(f1, f2, hunks, printed) && f1.linecnt <= |f1.file| && f2.linecnt <= |f2.file|
    ensures Covers(f1.file, f2.file, hunks, f1.linecnt, f2.linecnt) && Separated(hunks) && printed == Text(hunks)
  {
  }

  lemma PrintedAgain(f1: Window, f2: Window, hunks: seq<Hunk>, printed: seq<string>)
    requires Covers(f1.file, f2.file, hunks, Min(f1.linecnt, |f1.file|), Min(f2.linecnt, |f2.file|))
    requires Separated(hunks) && printed == Text(hunks)
    ensures Printed(f1, f2, hunks, printed)
  {
  }

  /** The script diff makes: its hunks end at the nearest agreement. */
  ghost predicate DiffScript(file1: seq<string>, file2: seq<string>, hunks: seq<Hunk>) {
    Script(file1, file2, hunks) && forall k :: 0 <= k < |hunks| ==> NearestHunk(file1, file2, hunks[k])
  }

  lemma NoHunks(file1: seq<string>, file2: seq<string>)
    ensures Covers(file1, file2, [], 0, 0) && Separated([]) && Text([]) == []
  {
  }
}
