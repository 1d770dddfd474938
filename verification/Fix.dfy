/** fix(1): apply the output of diff(1) to a file. */
module Fix {
  import opened Common
  import opened TextLines
  import opened EditScript

  // ----- strwcmp(): comparison that ignores white space -----

  predicate White(c: char) {
    c == ' ' || c == '\n' || c == '\r' || c == '\t'
  }

  function SkipWhite(s: string): (r: string)
    ensures |r| <= |s|
    ensures r != [] ==> !White(r[0])
  {
    if s != [] && White(s[0]) then SkipWhite(s[1..]) else s
  }

  /** Drop the common start of two strings. */
  function DropCommon(a: string, b: string): (r: (string, string))
    ensures |r.0| <= |a| && |r.1| <= |b|
    ensures r.0 != [] && r.1 != [] ==> r.0[0] != r.1[0]
  {
    if a != [] && b != [] && a[0] == b[0] then DropCommon(a[1..], b[1..]) else (a, b)
  }

  function WhiteEqualFrom(a: string, b: string): bool
    decreases |a| + |b|
  {
    var (a1, b1) := DropCommon(a, b);
    var a2, b2 := SkipWhite(a1), SkipWhite(b1);
    if a2 != [] && b2 != [] && a2[0] == b2[0] then WhiteEqualFrom(a2, b2) else a2 == [] && b2 == []
  }

  /** strwcmp(a, b) == 0 */
  predicate WhiteEqual(a: string, b: string) {
    WhiteEqualFrom(SkipWhite(a), SkipWhite(b))
  }

  /** A line without its blanks, tabs, newlines and carriage returns. */
  function NoWhite(s: string): string {
    if s == [] then []
    else if s[0] == ' ' || s[0] == '\t' || s[0] == '\n' || s[0] == '\r' then NoWhite(s[1..])
    else [s[0]] + NoWhite(s[1..])
  }

  lemma {:induction false} NoWhiteSkip(s: string)
    ensures NoWhite(SkipWhite(s)) == NoWhite(s)
    ensures SkipWhite(s) == [] <==> NoWhite(s) == []
    ensures SkipWhite(s) != [] ==> NoWhite(s) == [SkipWhite(s)[0]] + NoWhite(SkipWhite(s)[1..])
  {
    if s != [] && White(s[0]) {
      NoWhiteSkip(s[1..]);
    }
  }

  lemma {:induction false} NoWhiteCommon(a: string, b: string)
    ensures NoWhite(a) == NoWhite(b) <==> NoWhite(DropCommon(a, b).0) == NoWhite(DropCommon(a, b).1)
  {
    if a != [] && b != [] && a[0] == b[0] {
      NoWhiteCommon(a[1..], b[1..]);
      assert ([a[0]] + NoWhite(a[1..]))[1..] == NoWhite(a[1..]) && ([a[0]] + NoWhite(b[1..]))[1..] == NoWhite(b[1..]);
    }
  }

  lemma {:induction false} WhiteEqualFromMeans(a: string, b: string)
    ensures WhiteEqualFrom(a, b) <==> NoWhite(a) == NoWhite(b)
    decreases |a| + |b|
  {
    hide NoWhite;
    var (a1, b1) := DropCommon(a, b);
    var a2, b2 := SkipWhite(a1), SkipWhite(b1);
    NoWhiteCommon(a, b);
    NoWhiteSkip(a1);
    NoWhiteSkip(b1);
    if a2 != [] && b2 != [] {
      if a2[0] == b2[0] {
        WhiteEqualFromMeans(a2, b2);
      } else {
        assert NoWhite(a1)[0] != NoWhite(b1)[0];
      }
    }
  }

  /** Two lines are equal for strwcmp exactly if they are without their white characters. */
  lemma WhiteEqualMeans(a: string, b: string)
    ensures WhiteEqual(a, b) <==> NoWhite(a) == NoWhite(b)
  {
    NoWhiteSkip(a);
    NoWhiteSkip(b);
    WhiteEqualFromMeans(SkipWhite(a), SkipWhite(b));
  }

  lemma WhiteEqualSame(a: string)
    ensures WhiteEqual(a, a)
  {
    WhiteEqualMeans(a, a);
  }

  // ----- command lines -----

  predicate IsDigit(c: char) {
    '0' <= c <= '9'
  }

  /** The digits at the start of s, as an int behind v. */
  function Num(s: string, v: int): (int, string) {
    if s != [] && IsDigit(s[0]) then Num(s[1..], Int16(10 * v + (s[0] - '0') as int)) else (v, s)
  }

  /** range() of fix.c; None is its "illegal range" error. */
  function ReadRange(s: string): (r: Option<(int, int, string)>)
    ensures r.Some? ==> r.value.0 <= r.value.1
  {
    var (v1, s1) := Num(s, 0);
    var (v2, s2) := if s1 != [] && s1[0] == ',' then Num(s1[1..], 0) else (v1, s1);
    if v1 > v2 then None else Some((v1, v2, s2))
  }

  datatype Command = Command(o1: int, o2: int, cmd: char, n1: int, n2: int)

  function CharAt(s: string, i: nat): char {
    if i < |s| then s[i] else '\0'
  }

  /** getcommand(); None is one of its errors. */
  function ReadCommand(s: string): (r: Option<Command>)
    ensures r.Some? ==> r.value.cmd in "acd" && r.value.o1 <= r.value.o2 && r.value.n1 <= r.value.n2
  {
    match ReadRange(s)
    case None => None
    case Some((o1, o2, s1)) =>
      var cmd := CharAt(s1, 0);
      if cmd != 'a' && cmd != 'c' && cmd != 'd' then None
      else
        match ReadRange(s1[1..])
        case None => None
        case Some((n1, n2, s2)) =>
          if CharAt(s2, 0) != '\n' && CharAt(s2, 1) != '\0' then None
          else Some(Command(o1, o2, cmd, n1, n2))
  }

  lemma {:induction false} NumDec(n: nat, rest: string)
    requires n <= INT_MAX
    ensures Num(Dec(n) + rest, 0) == Num(rest, n)
  {
    var last := [Digit(n % 10)];
    assert (last + rest)[1..] == rest;
    if n < 10 {
      assert Dec(n) == last;
    } else {
      NumDec(n / 10, last + rest);
      assert Dec(n) + rest == Dec(n / 10) + (last + rest);
    }
  }

  lemma NumStops(rest: string, v: int)
    requires rest != [] && !IsDigit(rest[0])
    ensures Num(rest, v) == (v, rest)
  {
  }

  /** A number that was printed reads back, and nothing of it if it is negative. */
  lemma NumDecimal(x: int, rest: string)
    requires rest != [] && !IsDigit(rest[0])
    ensures Int16(x) >= 0 ==> Num(Decimal(x) + rest, 0) == (Int16(x), rest)
    ensures Int16(x) < 0 ==> Num(Decimal(x) + rest, 0) == (0, Decimal(x) + rest) && Minus(Decimal(x) + rest)
  {
    hide Dec, Num, Int16;
    if Int16(x) >= 0 {
      NumDec(Int16(x), rest);
      NumStops(rest, Int16(x));
    } else {
      DecStarts(-Int16(x));
      NumStops(Decimal(x) + rest, 0);
    }
  }

  /** A minus sign and a digit, where a number or a command is expected. */
  ghost predicate Minus(s: string) {
    |s| >= 2 && s[0] == '-' && IsDigit(s[1])
  }

  lemma {:induction false} DecStarts(n: nat)
    ensures IsDigit(Dec(n)[0])
  {
    if n >= 10 {
      DecStarts(n / 10);
    }
  }

  /** A range reads back exactly if it is in order and has no negative number; otherwise there is
      an error, here or at the minus sign. */
  lemma ReadRangeRange(a: int, b: int, rest: string)
    requires rest != [] && !IsDigit(rest[0]) && rest[0] != ','
    ensures var r := ReadRange(Range(a, b) + rest);
            if 0 <= Int16(a) <= Int16(b) then r == Some((Int16(a), Int16(b), rest))
            else r == None || (r.value.0 == r.value.1 == 0 && Minus(r.value.2))
  {
    hide Num, Decimal, Int16;
    NumDecimal(b, rest);
    if Int16(a) == Int16(b) {
      SameDecimal(a, b);
    } else {
      var tail := "," + (Decimal(b) + rest);
      assert Range(a, b) + rest == Decimal(a) + tail;
      NumDecimal(a, tail);
      assert tail[1..] == Decimal(b) + rest;
    }
  }

  lemma SameDecimal(a: int, b: int)
    requires Int16(a) == Int16(b)
    ensures Decimal(a) == Decimal(b) && Range(a, b) == Decimal(a)
  {
  }

  /** The numbers in the command line of a hunk. */
  function CommandOf(h: Hunk): Command {
    Command(Int16(if h.dels == [] then h.o else h.o + 1), Int16(h.OldEnd()),
            if h.dels == [] then 'a' else if h.adds == [] then 'd' else 'c',
            Int16(if h.adds == [] then h.n else h.n + 1), Int16(h.NewEnd()))
  }

  /** None is negative, and ranges are in order. */
  predicate Legible(c: Command) {
    0 <= c.o1 <= c.o2 && 0 <= c.n1 <= c.n2
  }

  /** The command line of a hunk reads back as its line numbers if these are legible, and is an
      error if they are not. */
  lemma ReadHeader(h: Hunk)
    requires h.dels != [] || h.adds != []
    ensures ReadCommand(Header(h)) == if Legible(CommandOf(h)) then Some(CommandOf(h)) else None
  {
    hide ReadRange, Range, Decimal, Int16;
    var (o1, o2) := if h.dels == [] then (h.o, h.o) else (h.o + 1, h.OldEnd());
    var (n1, n2) := if h.adds == [] then (h.n, h.n) else (h.n + 1, h.NewEnd());
    var cmd := if h.dels == [] then "a" else if h.adds == [] then "d" else "c";
    var tail := cmd + Range(n1, n2) + "\n";
    assert Header(h) == Range(o1, o2) + tail by { SameDecimal(h.o, h.o); SameDecimal(h.n, h.n); }
    ReadRangeRange(o1, o2, tail);
    assert tail[1..] == Range(n1, n2) + "\n";
    ReadRangeRange(n1, n2, "\n");
  }

  // ----- one chunk -----

  function Drop2(s: string): string {
    if |s| < 2 then [] else s[2..]
  }

  predicate Marked(s: string, c: char) {
    s != [] && s[0] == c
  }

  /** Check k deleted lines against the file; the rest of the difflist, or an error. */
  function Dels(file: seq<string>, here: nat, dl: seq<string>, k: nat): Option<seq<string>>
    decreases k
  {
    if k == 0 then Some(dl)
    else if here >= |file| || dl == [] || !Marked(dl[0], '<') || !WhiteEqual(file[here], Drop2(dl[0])) then None
    else Dels(file, here + 1, dl[1..], k - 1)
  }

  /** Take k added lines. */
  function Adds(dl: seq<string>, k: nat): Option<(seq<string>, seq<string>)>
    decreases k
  {
    if k == 0 then Some(([], dl))
    else if dl == [] || !Marked(dl[0], '>') then None
    else
      match Adds(dl[1..], k - 1)
      case None => None
      case Some((text, rest)) => Some(([Drop2(dl[0])] + text, rest))
  }

  /** What one chunk prints, the lines of the file it leaves, and the rest of the difflist. */
  datatype Done = Done(out: seq<string>, here: nat, rest: seq<string>)

  /** Lines n1 to n2 are added.  With n2 the largest int the loop does not end before an error. */
  function AddsAfter(out: seq<string>, here: nat, dl: seq<string>, n1: int, n2: int): Option<Done>
    requires n1 <= n2
  {
    if n2 == INT_MAX then None
    else
      match Adds(dl, n2 - n1 + 1)
      case None => None
      case Some((text, rest)) => Some(Done(out + text, here, rest))
  }

  /** The line fix copies up to: here counts the lines read in an int. */
  function Start(here: nat, o1: int): (s: nat)
    ensures s >= here
  {
    if Int16(here) < Int16(o1 - 1) then here + Int16(o1 - 1) - Int16(here) else here
  }

  function Chunk(file: seq<string>, here: nat, dl: seq<string>): (r: Option<Done>)
    requires here <= |file| && dl != []
  {
    match ReadCommand(dl[0])
    case None => None
    case Some(c) =>
      var start := Start(here, c.o1);
      if start > |file| then None
      else if c.cmd == 'a' then
        if c.o1 != c.o2 || start >= |file| then None
        else AddsAfter(file[here..start + 1], start + 1, dl[1..], c.n1, c.n2)
      else
        var k := c.o2 - c.o1 + 1;
        if (c.cmd == 'd' && c.n1 != c.n2) || c.o2 == INT_MAX then None
        else
          match Dels(file, start, dl[1..], k)
          case None => None
          case Some(rest) =>
            if c.cmd == 'd' then Some(Done(file[here..start], start + k, rest))
            else if rest == [] || !WhiteEqual(rest[0], "---\n") then None
            else AddsAfter(file[here..start], start + k, rest[1..], c.n1, c.n2)
  }

  lemma {:induction false} DelsShrinks(file: seq<string>, here: nat, dl: seq<string>, k: nat)
    requires Dels(file, here, dl, k).Some? && here <= |file|
    ensures |Dels(file, here, dl, k).value| <= |dl| && here + k <= |file|
    decreases k
  {
    if k > 0 {
      DelsShrinks(file, here + 1, dl[1..], k - 1);
    }
  }

  /** The difflist has k lines marked < that are, but for white characters, those of the file. */
  ghost predicate Deletes(file: seq<string>, here: nat, dl: seq<string>, k: nat) {
    && here + k <= |file| && k <= |dl|
    && forall i :: 0 <= i < k ==> DeletedLine(file[here + i], dl[i])
  }

  ghost predicate DeletedLine(line: string, entry: string) {
    entry != "" && entry[0] == '<' && NoWhite(line) == NoWhite(if |entry| < 2 then "" else entry[2..])
  }

  /** Deletion fails exactly if a line is missing, is not marked, or is not that of the file. */
  lemma {:induction false} DelsExactly(file: seq<string>, here: nat, dl: seq<string>, k: nat)
    requires here <= |file|
    ensures Dels(file, here, dl, k) == if Deletes(file, here, dl, k) then Some(dl[k..]) else None
    decreases k
  {
    hide WhiteEqual, NoWhite;
    if k > 0 && here < |file| && dl != [] {
      WhiteEqualMeans(file[here], Drop2(dl[0]));
      assert file[here + 0] == file[here];
      if DeletedLine(file[here], dl[0]) {
        DelsExactly(file, here + 1, dl[1..], k - 1);
        DeletesStep(file, here, dl, k);
      }
    }
  }

  lemma DeletesStep(file: seq<string>, here: nat, dl: seq<string>, k: nat)
    requires k > 0 && here < |file| && dl != [] && DeletedLine(file[here], dl[0])
    ensures Deletes(file, here, dl, k) <==> Deletes(file, here + 1, dl[1..], k - 1)
    ensures k <= |dl| ==> dl[1..][k - 1..] == dl[k..]
  {
    hide DeletedLine;
    var more := dl[1..];
    if Deletes(file, here, dl, k) {
      forall i | 0 <= i < k - 1
        ensures DeletedLine(file[here + 1 + i], more[i])
      {
        assert DeletedLine(file[here + (i + 1)], dl[i + 1]);
      }
    } else if Deletes(file, here + 1, more, k - 1) {
      forall i | 0 <= i < k
        ensures DeletedLine(file[here + i], dl[i])
      {
        if i > 0 {
          assert DeletedLine(file[here + 1 + (i - 1)], more[i - 1]);
        }
      }
    }
  }

  lemma {:induction false} AddsShrinks(dl: seq<string>, k: nat)
    requires Adds(dl, k).Some?
    ensures |Adds(dl, k).value.1| <= |dl|
    decreases k
  {
    if k > 0 {
      AddsShrinks(dl[1..], k - 1);
    }
  }

  lemma ChunkShrinks(file: seq<string>, here: nat, dl: seq<string>)
    requires here <= |file| && dl != [] && Chunk(file, here, dl).Some?
    ensures |Chunk(file, here, dl).value.rest| < |dl| && Chunk(file, here, dl).value.here <= |file|
  {
    hide Start;
    var c := ReadCommand(dl[0]).value;
    var start := Start(here, c.o1);
    var k := c.o2 - c.o1 + 1;
    if c.cmd == 'a' {
      AddsShrinks(dl[1..], c.n2 - c.n1 + 1);
    } else {
      DelsShrinks(file, start, dl[1..], k);
      if c.cmd == 'c' {
        AddsShrinks(Dels(file, start, dl[1..], k).value[1..], c.n2 - c.n1 + 1);
      }
    }
  }

  /** fix from line here of the file on; None: it stops with an error. */
  function FixFrom(file: seq<string>, here: nat, dl: seq<string>): Option<seq<string>>
    requires here <= |file|
    decreases |dl|
  {
    if dl == [] then Some(file[here..])
    else if Chunk(file, here, dl).None? then None
    else
      ChunkShrinks(file, here, dl);
      var d := Chunk(file, here, dl).value;
      match FixFrom(file, d.here, d.rest)
      case None => None
      case Some(rest) => Some(d.out + rest)
  }

  // ----- fix undoes diff -----

  lemma {:induction false} DelsOfHunk(file: seq<string>, here: nat, k: nat, dl: seq<string>, tail: seq<string>)
    requires here + k <= |file| && dl == Prefixed("< ", file[here..here + k]) + tail
    ensures Dels(file, here, dl, k) == Some(tail)
    decreases k
  {
    if k == 0 {
      assert dl == tail;
    } else {
      assert dl[0] == "< " + file[here] && Drop2(dl[0]) == file[here];
      WhiteEqualSame(file[here]);
      assert dl[1..] == Prefixed("< ", file[here + 1..here + 1 + (k - 1)]) + tail;
      DelsOfHunk(file, here + 1, k - 1, dl[1..], tail);
    }
  }

  lemma {:induction false} AddsOfHunk(adds: seq<string>, dl: seq<string>, tail: seq<string>)
    requires dl == Prefixed("> ", adds) + tail
    ensures Adds(dl, |adds|) == Some((adds, tail))
    decreases |adds|
  {
    if adds == [] {
      assert dl == tail;
    } else {
      assert dl[0] == "> " + adds[0] && Drop2(dl[0]) == adds[0];
      assert dl[1..] == Prefixed("> ", adds[1..]) + tail;
      AddsOfHunk(adds[1..], dl[1..], tail);
      assert [adds[0]] + adds[1..] == adds;
    }
  }

  lemma HunkTextParts(h: Hunk, tail: seq<string>)
    ensures var dl := HunkText(h) + tail;
            var adds := Prefixed("> ", h.adds) + tail;
            && dl[0] == Header(h)
            && (h.dels == [] ==> dl[1..] == adds)
            && (h.dels != [] && h.adds == [] ==> dl[1..] == Prefixed("< ", h.dels) + tail)
            && (h.dels != [] && h.adds != [] ==> dl[1..] == Prefixed("< ", h.dels) + (["---\n"] + adds))
  {
    hide Header;
  }

  /** Line numbers fit an int, and so does the one behind every range. */
  predicate Small(h: Hunk) {
    && h.OldEnd() <= INT_MAX && h.NewEnd() <= INT_MAX
    && (h.dels != [] ==> h.OldEnd() < INT_MAX) && (h.adds != [] ==> h.NewEnd() < INT_MAX)
  }

  ghost predicate AllSmall(hunks: seq<Hunk>) {
    forall k :: 0 <= k < |hunks| ==> Small(hunks[k])
  }

  /** fix can read the command line, and its loops over the ranges end. */
  predicate Readable(h: Hunk) {
    var c := CommandOf(h);
    Legible(c) && (h.dels != [] ==> c.o2 < INT_MAX) && (h.adds != [] ==> c.n2 < INT_MAX)
  }

  /** The line numbers do not come round to small ones. */
  predicate InWord(h: Hunk) {
    h.OldEnd() < WORD16 && h.NewEnd() < WORD16
  }

  lemma ReadableSmall(h: Hunk)
    ensures Small(h) ==> Readable(h) && Moderate(h)
    ensures InWord(h) ==> (Readable(h) <==> Small(h)) && Moderate(h)
  {
  }

  /** A command line that can be read says how many lines there are. */
  lemma CommandCounts(h: Hunk)
    requires Legible(CommandOf(h)) && Moderate(h)
    ensures var c := CommandOf(h);
            && (if h.dels == [] then c.o1 == c.o2 else c.o2 - c.o1 + 1 == |h.dels|)
            && (if h.adds == [] then c.n1 == c.n2 else c.n2 - c.n1 + 1 == |h.adds|)
  {
    if h.dels != [] {
      IntDistance(h.o + 1, h.OldEnd());
    }
    if h.adds != [] {
      IntDistance(h.n + 1, h.NewEnd());
    }
  }

  lemma IntDistance(a: nat, b: nat)
    requires a <= b < a + WORD16 && Int16(a) <= Int16(b)
    ensures Int16(b) - Int16(a) == b - a
  {
    Int16Near(a);
    Int16Near(b);
    var k := (b - Int16(b)) / WORD16 - (a - Int16(a)) / WORD16;
    assert (b - a) - (Int16(b) - Int16(a)) == WORD16 * k;
    SmallMultiple(WORD16, k);
  }

  lemma SmallCommand(h: Hunk, here: nat)
    requires Small(h) && here <= h.o
    ensures Legible(CommandOf(h)) && CommandOf(h).o2 == h.OldEnd() && CommandOf(h).n2 == h.NewEnd()
    ensures CommandOf(h).o1 == (if h.dels == [] then h.o else h.o + 1)
    ensures CommandOf(h).n1 == (if h.adds == [] then h.n else h.n + 1)
    ensures Start(here, CommandOf(h).o1) == (if h.dels == [] && here < h.o then h.o - 1 else h.o)
  {
  }

  /** The chunk of a hunk copies the lines before it and makes its change, unless it is
      an append with no unchanged line left to copy before it. */
  lemma ChunkOfHunk(file: seq<string>, here: nat, h: Hunk, tail: seq<string>)
    requires here <= h.o && h.OldEnd() <= |file| && h.dels == file[h.o..h.OldEnd()]
    requires h.dels != [] || h.adds != []
    requires (h.dels == [] ==> here < h.o) && Small(h)
    ensures HunkText(h) != []
    ensures Chunk(file, here, HunkText(h) + tail) == Some(Done(file[here..h.o] + h.adds, h.OldEnd(), tail))
  {
    hide ReadCommand, Header, Adds, Dels, HunkText, WhiteEqual, Prefixed, Start, Int16, CommandOf;
    ReadHeader(h);
    SmallCommand(h, here);
    CommandKind(h);
    HunkTextNonempty(h);
    HunkTextParts(h, tail);
    var adds := Prefixed("> ", h.adds) + tail;
    AddsOfHunk(h.adds, adds, tail);
    if h.dels != [] {
      if h.adds == [] {
        DelsOfHunk(file, h.o, |h.dels|, Prefixed("< ", h.dels) + tail, tail);
        assert file[here..h.o] + h.adds == file[here..h.o];
      } else {
        var dl := ["---\n"] + adds;
        DelsOfHunk(file, h.o, |h.dels|, Prefixed("< ", h.dels) + dl, dl);
        WhiteEqualSame("---\n");
        assert dl[1..] == adds;
      }
    }
  }

  lemma CommandKind(h: Hunk)
    ensures CommandOf(h).cmd == if h.dels == [] then 'a' else if h.adds == [] then 'd' else 'c'
    ensures CommandOf(h).o2 <= INT_MAX && CommandOf(h).n2 <= INT_MAX
  {
  }

  lemma {:induction false} FixScript(old1: seq<string>, new1: seq<string>, i: nat, j: nat, hunks: seq<Hunk>)
    requires i <= |old1| && j <= |new1| && ScriptFrom(old1, new1, i, j, hunks) && Separated(hunks)
    requires AllSmall(hunks) && (hunks != [] && hunks[0].dels == [] ==> i < hunks[0].o)
    ensures FixFrom(old1, i, Text(hunks)) == Some(new1[j..])
    decreases |hunks|
  {
    if hunks == [] {
      assert Text(hunks) == [];
    } else {
      hide Chunk, HunkText, FixFrom, Fits, Separated, Small;
      var h := hunks[0];
      var tail := Text(hunks[1..]);
      SeparatedTail(hunks);
      HunkFits(old1, new1, h);
      ChunkOfHunk(old1, i, h, tail);
      HunkTextNonempty(h);
      FixScript(old1, new1, h.OldEnd(), h.NewEnd(), hunks[1..]);
      FixStep(old1, i, HunkText(h) + tail, new1[h.NewEnd()..]);
      Pieces(new1, j, h.n, h.NewEnd());
    }
  }

  lemma Pieces(s: seq<string>, a: nat, b: nat, c: nat)
    requires a <= b <= c <= |s|
    ensures s[a..] == s[a..b] + s[b..c] + s[c..]
  {
  }

  lemma HunkFits(old1: seq<string>, new1: seq<string>, h: Hunk)
    requires Fits(old1, new1, h)
    ensures h.OldEnd() <= |old1| && h.NewEnd() <= |new1|
    ensures h.dels == old1[h.o..h.OldEnd()] && h.adds == new1[h.n..h.NewEnd()]
    ensures h.dels != [] || h.adds != []
  {
  }

  lemma SeparatedTail(hunks: seq<Hunk>)
    requires Separated(hunks) && hunks != []
    ensures Separated(hunks[1..])
    ensures |hunks| > 1 ==> hunks[0].OldEnd() < hunks[1].o
  {
    forall k | 0 <= k < |hunks[1..]| - 1
      ensures hunks[1..][k].OldEnd() < hunks[1..][k + 1].o && hunks[1..][k].NewEnd() < hunks[1..][k + 1].n
    {
      assert hunks[1..][k] == hunks[k + 1] && hunks[1..][k + 1] == hunks[(k + 1) + 1];
    }
  }

  lemma FixStep(file: seq<string>, here: nat, dl: seq<string>, rest: seq<string>)
    requires here <= |file| && dl != [] && Chunk(file, here, dl).Some?
    requires var d := Chunk(file, here, dl).value;
             d.here <= |file| && FixFrom(file, d.here, d.rest) == Some(rest)
    ensures FixFrom(file, here, dl) == Some(Chunk(file, here, dl).value.out + rest)
  {
    hide Chunk;
  }

  lemma HunkTextNonempty(h: Hunk)
    ensures HunkText(h) != []
  {
  }

  /** The difflist starts with an append before the first line. */
  ghost predicate StartsWithAppendAtZero(hunks: seq<Hunk>) {
    hunks != [] && hunks[0].o == 0 && hunks[0].dels == []
  }

  // ----- the program -----

  /** Text already printed, and what follows it. */
  function After(out: seq<string>, r: Option<seq<string>>): Option<seq<string>> {
    match r
    case None => None
    case Some(rest) => Some(out + rest)
  }

  function AddsAfterText(text: seq<string>, r: Option<(seq<string>, seq<string>)>): Option<(seq<string>, seq<string>)> {
    match r
    case None => None
    case Some((more, rest)) => Some((text + more, rest))
  }

  lemma AddsStep(text: seq<string>, dl: seq<string>, k: nat)
    requires k > 0 && dl != [] && Marked(dl[0], '>')
    ensures AddsAfterText(text, Adds(dl, k)) == AddsAfterText(text + [Drop2(dl[0])], Adds(dl[1..], k - 1))
  {
    var r := Adds(dl[1..], k - 1);
    if r.Some? {
      assert text + ([Drop2(dl[0])] + r.value.0) == text + [Drop2(dl[0])] + r.value.0;
    }
  }

  /** The loop that checks deleted lines. */
  method CheckDels(file: seq<string>, here0: nat, dl: seq<string>, p0: nat, o1: int, o2: int)
    returns (ok: bool, here: nat, p: nat)
    requires here0 <= |file| && p0 <= |dl| && -INT_MAX - 1 <= o1 <= o2 <= INT_MAX
    ensures ok <==> o2 < INT_MAX && Dels(file, here0, dl[p0..], o2 - o1 + 1).Some?
    ensures ok ==> p0 <= p <= |dl| && Dels(file, here0, dl[p0..], o2 - o1 + 1) == Some(dl[p..])
    ensures ok ==> here == here0 + (o2 - o1 + 1)
    ensures ok <==> o2 < INT_MAX && Deletes(file, here0, dl[p0..], o2 - o1 + 1)
  {
    hide WhiteEqual, Marked, Drop2, Deletes;
    DelsExactly(file, here0, dl[p0..], o2 - o1 + 1);
    here, p := here0, p0;
    var o := o1;
    while o <= o2
      invariant p0 <= p <= |dl| && here == here0 + (p - p0) && o <= INT_MAX
      invariant o2 < INT_MAX ==> o == o1 + (p - p0) && o <= o2 + 1
      invariant o2 < INT_MAX ==> Dels(file, here0, dl[p0..], o2 - o1 + 1) == Dels(file, here, dl[p..], o2 + 1 - o)
      decreases |dl| - p
    {
      if here >= |file| || p >= |dl| {
        return false, here, p;
      }
      assert dl[p..][0] == dl[p] && dl[p..][1..] == dl[p + 1..];
      if !Marked(dl[p], '<') || !WhiteEqual(file[here], Drop2(dl[p])) {
        return false, here, p;
      }
      here, p, o := here + 1, p + 1, Int16(o + 1);
    }
    ok := true;
  }

  /** The loop that copies added lines. */
  method TakeAdds(dl: seq<string>, p0: nat, n1: int, n2: int) returns (ok: bool, text: seq<string>, p: nat)
    requires p0 <= |dl| && -INT_MAX - 1 <= n1 <= n2 <= INT_MAX
    ensures ok <==> n2 < INT_MAX && Adds(dl[p0..], n2 - n1 + 1).Some?
    ensures ok ==> p0 <= p <= |dl| && Adds(dl[p0..], n2 - n1 + 1) == Some((text, dl[p..]))
  {
    hide Adds;
    text, p := [], p0;
    var n := n1;
    AddsNothing(Adds(dl[p0..], n2 - n1 + 1));
    while n <= n2
      invariant p0 <= p <= |dl| && n <= INT_MAX
      invariant n2 < INT_MAX ==> n == n1 + (p - p0) && n <= n2 + 1
      invariant n2 < INT_MAX ==> Adds(dl[p0..], n2 - n1 + 1) == AddsAfterText(text, Adds(dl[p..], n2 + 1 - n))
      decreases |dl| - p
    {
      if p >= |dl| || !Marked(dl[p], '>') {
        if n2 < INT_MAX {
          AddsFails(dl[p..], n2 + 1 - n);
        }
        return false, text, p;
      }
      assert dl[p..][0] == dl[p] && dl[p..][1..] == dl[p + 1..];
      if n2 < INT_MAX {
        AddsStep(text, dl[p..], n2 + 1 - n);
      }
      text := text + [Drop2(dl[p])];
      p, n := p + 1, Int16(n + 1);
    }
    AddsZero(dl[p..]);
    assert text + [] == text;
    ok := true;
  }

  lemma AddsNothing(r: Option<(seq<string>, seq<string>)>)
    ensures AddsAfterText([], r) == r
  {
    if r.Some? {
      assert [] + r.value.0 == r.value.0;
    }
  }

  lemma AddsFails(dl: seq<string>, k: nat)
    requires k > 0 && (dl == [] || !Marked(dl[0], '>'))
    ensures Adds(dl, k) == None
  {
  }

  lemma AddsZero(dl: seq<string>)
    ensures Adds(dl, 0) == Some(([], dl))
  {
  }

  /** One round of the main loop. */
  method RunChunk(file: seq<string>, here0: nat, dl: seq<string>, p0: nat)
    returns (ok: bool, out: seq<string>, here: nat, p: nat)
    requires here0 <= |file| && p0 < |dl|
    ensures ok <==> Chunk(file, here0, dl[p0..]).Some?
    ensures ok ==> p <= |dl| && Chunk(file, here0, dl[p0..]) == Some(Done(out, here, dl[p..]))
  {
    hide Adds, Dels, ReadCommand, WhiteEqual, Int16;
    out, here, p := [], here0, p0 + 1;
    assert dl[p0..][0] == dl[p0] && dl[p0..][1..] == dl[p..];
    var cmd := ReadCommand(dl[p0]);
    if cmd.None? {
      return false, out, here, p;
    }
    var Command(o1, o2, c, n1, n2) := cmd.value;
    CommandInts(dl[p0]);
    while Int16(here) < Int16(o1 - 1)
      invariant here0 <= here <= |file| && out == file[here0..here] && Start(here, o1) == Start(here0, o1)
      decreases |file| - here
    {
      StartStep(here, o1);
      if here >= |file| {
        return false, out, here, p;
      }
      out := out + [file[here]];
      here := here + 1;
    }
    if c == 'a' {
      if o1 != o2 || here >= |file| {
        return false, out, here, p;
      }
      out := out + [file[here]];
      here := here + 1;
      assert out == file[here0..here];
    } else {
      if c == 'd' && n1 != n2 {
        return false, out, here, p;
      }
      ok, here, p := CheckDels(file, here, dl, p, o1, o2);
      if !ok || c == 'd' {
        return;
      }
      if p >= |dl| || !WhiteEqual(dl[p], "---\n") {
        return false, out, here, p;
      }
      assert dl[p..][0] == dl[p] && dl[p..][1..] == dl[p + 1..];
      p := p + 1;
    }
    var text;
    ok, text, p := TakeAdds(dl, p, n1, n2);
    out := out + text;
  }

  lemma StartStep(here: nat, o1: int)
    requires Int16(here) < Int16(o1 - 1)
    ensures Start(here, o1) > here && Start(here + 1, o1) == Start(here, o1)
  {
    Int16Sum(here, 1);
  }

  predicate IsInt(x: int) {
    -INT_MAX - 1 <= x <= INT_MAX
  }

  /** All numbers of a command are ints. */
  lemma CommandInts(s: string)
    ensures var r := ReadCommand(s);
            r.Some? ==> IsInt(r.value.o1) && IsInt(r.value.o2) && IsInt(r.value.n1) && IsInt(r.value.n2)
  {
    hide Num;
    RangeInts(s);
    if ReadRange(s).Some? && ReadRange(s).value.2 != [] {
      RangeInts(ReadRange(s).value.2[1..]);
    }
  }

  lemma RangeInts(s: string)
    ensures ReadRange(s).Some? ==> IsInt(ReadRange(s).value.0) && IsInt(ReadRange(s).value.1)
  {
    hide Num;
    NumInt(s, 0);
    var (_, s1) := Num(s, 0);
    if s1 != [] {
      NumInt(s1[1..], 0);
    }
  }

  lemma {:induction false} NumInt(s: string, v: int)
    requires IsInt(v)
    ensures IsInt(Num(s, v).0)
    decreases |s|
  {
    if s != [] && IsDigit(s[0]) {
      NumInt(s[1..], Int16(10 * v + (s[0] - '0') as int));
    }
  }

  const LINELEN := 1024

  /** What fix makes of a file and a difflist, both as text. */
  function FixText(text: string, difflist: string): Option<string> {
    match FixFrom(Split(text), 0, Split(difflist))
    case None => None
    case Some(lines) => Some(Concat(lines))
  }

  /** fix: the whole program. */
  method Fix(text: string, difflist: string) returns (r: Option<string>)
    requires TextFile(text, LINELEN - 2) && TextFile(difflist, LINELEN - 2)
    ensures r == FixText(text, difflist)
  {
    hide TextFile, FixFrom, Split;
    var file := ReadLines(text);
    var dl := ReadLines(difflist);
    var lines := Replay(file, dl);
    match lines
    case None => return None;
    case Some(out) => return Some(Concat(out));
  }

  /** The main loop and what follows it. */
  method Replay(file: seq<string>, dl: seq<string>) returns (r: Option<seq<string>>)
    ensures r == FixFrom(file, 0, dl)
  {
    hide Chunk;
    var out: seq<string>, here: nat, p: nat := [], 0, 0;
    assert dl[0..] == dl;
    AfterNothing(FixFrom(file, 0, dl));
    while p < |dl|
      invariant here <= |file| && p <= |dl|
      invariant FixFrom(file, 0, dl) == After(out, FixFrom(file, here, dl[p..]))
      decreases |dl| - p
    {
      var ok, text, here1, p1 := RunChunk(file, here, dl, p);
      if !ok {
        return None;
      }
      ChunkShrinks(file, here, dl[p..]);
      Regroup(out, text, FixFrom(file, here1, dl[p1..]));
      out, here, p := out + text, here1, p1;
    }
    while here < |file|
      invariant here <= |file|
      invariant FixFrom(file, 0, dl) == Some(out + file[here..])
    {
      assert file[here..] == [file[here]] + file[here + 1..];
      assert out + ([file[here]] + file[here + 1..]) == out + [file[here]] + file[here + 1..];
      out := out + [file[here]];
      here := here + 1;
    }
    assert out + file[here..] == out;
    return Some(out);
  }

  lemma AfterNothing(r: Option<seq<string>>)
    ensures After([], r) == r
  {
    if r.Some? {
      assert [] + r.value == r.value;
    }
  }

  lemma Regroup(out: seq<string>, text: seq<string>, r: Option<seq<string>>)
    ensures After(out, After(text, r)) == After(out + text, r)
  {
    if r.Some? {
      assert out + (text + r.value) == out + text + r.value;
    }
  }
}
