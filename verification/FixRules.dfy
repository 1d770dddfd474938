/**
 fix(1): what a command line is and what a chunk does, without the steps of the program.
 */
module FixRules {
  import opened Common
  import opened Fix

  // ----- numbers -----

  ghost predicate AllDigits(t: string) {
    forall i :: 0 <= i < |t| ==> '0' <= t[i] <= '9'
  }

  /** The number that digits stand for. */
  function Value(t: string): int {
    if t == [] then 0 else 10 * Value(t[..|t| - 1]) + t[|t| - 1] as int - '0' as int
  }

  /** The next digit of a number that may have come round already. */
  lemma NextDigit(x: int, d: int)
    ensures Int16(10 * Int16(x) + d) == Int16(10 * x + d)
  {
    hide Int16;
    Int16Near(x);
    Int16Round(10 * x + d, 10 * ((x - Int16(x)) / WORD16));
  }

  lemma {:induction false} NumPrefix(s: string, k: nat)
    requires k <= |s| && AllDigits(s[..k])
    ensures Num(s, 0) == Num(s[k..], Int16(Value(s[..k])))
  {
    hide Int16;
    if k == 0 {
      assert s[0..] == s;
    } else {
      var c := s[k - 1];
      assert c == s[..k][k - 1] && s[..k][..k - 1] == s[..k - 1];
      assert AllDigits(s[..k - 1]) by {
        assert forall i :: 0 <= i < k - 1 ==> s[..k - 1][i] == s[..k][i];
      }
      NumPrefix(s, k - 1);
      NextDigit(Value(s[..k - 1]), (c - '0') as int);
      assert s[k - 1..][0] == c && s[k - 1..][1..] == s[k..];
    }
  }

  /** Nothing behind them continues the digits. */
  predicate NoDigit(rest: string) {
    rest == "" || !('0' <= rest[0] <= '9')
  }

  lemma {:induction false} NumEnds(s: string, v: int)
    ensures var rest := Num(s, v).1;
            |rest| <= |s| && s[|s| - |rest|..] == rest && NoDigit(rest) && AllDigits(s[..|s| - |rest|])
  {
    if s != [] && IsDigit(s[0]) {
      var v' := Int16(10 * v + (s[0] - '0') as int);
      NumEnds(s[1..], v');
      var rest := Num(s[1..], v').1;
      var k := |s| - |rest|;
      assert s[k..] == s[1..][k - 1..] && s[..k] == [s[0]] + s[1..][..k - 1];
    } else {
      assert s[0..] == s && s[..0] == [];
    }
  }

  /** A number is read up to the last digit. */
  lemma NumExactly(s: string, v: int, rest: string)
    ensures Num(s, 0) == (v, rest) <==>
              |rest| <= |s| && s[|s| - |rest|..] == rest && NoDigit(rest) && AllDigits(s[..|s| - |rest|])
              && v == Int16(Value(s[..|s| - |rest|]))
  {
    hide Int16, Num;
    NumEnds(s, 0);
    var r := Num(s, 0).1;
    var k := |s| - |r|;
    NumPrefix(s, k);
    NoDigitStops(r, Int16(Value(s[..k])));
    if |rest| <= |s| && s[|s| - |rest|..] == rest && NoDigit(rest) && AllDigits(s[..|s| - |rest|]) {
      NumPrefix(s, |s| - |rest|);
      NoDigitStops(rest, Int16(Value(s[..|s| - |rest|])));
    }
  }

  lemma NoDigitStops(rest: string, v: int)
    requires NoDigit(rest)
    ensures Num(rest, v) == (v, rest)
  {
  }

  // ----- command lines -----

  /** The text of a number, and what follows it. */
  ghost predicate Number(t: string, v: int, rest: string) {
    AllDigits(t) && v == Int16(Value(t)) && NoDigit(rest)
  }

  lemma NumReads(t: string, v: int, rest: string)
    requires Number(t, v, rest)
    ensures Num(t + rest, 0) == (v, rest)
  {
    hide Int16, Num;
    var s := t + rest;
    assert s[|t|..] == rest && s[..|t|] == t;
    NumExactly(s, v, rest);
  }

  lemma NumSplits(s: string) returns (t: string, v: int, rest: string)
    ensures s == t + rest && Number(t, v, rest) && Num(s, 0) == (v, rest)
  {
    hide Int16, Num;
    v, rest := Num(s, 0).0, Num(s, 0).1;
    NumExactly(s, v, rest);
    t := s[..|s| - |rest|];
  }

  /** A range is a number, or two with a comma between them; digits may be missing. */
  ghost predicate RangeIs(t: string, a: int, b: int, rest: string) {
    || (Number(t, a, rest) && a == b && (rest == "" || rest[0] != ','))
    || (exists x, y :: t == x + "," + y && Number(x, a, "," + y) && Number(y, b, rest))
  }

  lemma RangeReads(t: string, a: int, b: int, rest: string)
    requires RangeIs(t, a, b, rest)
    ensures ReadRange(t + rest) == if a > b then None else Some((a, b, rest))
  {
    hide Int16, Num, Number;
    if Number(t, a, rest) && a == b && (rest == "" || rest[0] != ',') {
      NumReads(t, a, rest);
    } else {
      var x, y :| t == x + "," + y && Number(x, a, "," + y) && Number(y, b, rest);
      var tail := "," + (y + rest);
      assert t + rest == x + tail;
      assert Number(x, a, tail) by { NumberTail(x, a, "," + y, tail); }
      NumReads(x, a, tail);
      assert tail[1..] == y + rest;
      NumReads(y, b, rest);
    }
  }

  lemma NumberTail(x: string, a: int, rest: string, rest': string)
    requires Number(x, a, rest) && rest != "" && rest' != "" && rest'[0] == rest[0]
    ensures Number(x, a, rest')
  {
  }

  /** Every string starts with a range, which may be empty. */
  lemma RangeSplits(s: string) returns (t: string, a: int, b: int, rest: string)
    ensures s == t + rest && RangeIs(t, a, b, rest)
  {
    hide Int16, Num, Number;
    var x, v, s1 := NumSplits(s);
    if s1 != "" && s1[0] == ',' {
      var y, w, s2 := NumSplits(s1[1..]);
      t, a, b, rest := x + "," + y, v, w, s2;
      assert s1 == "," + s1[1..];
      NumberTail(x, v, s1, "," + y);
      assert s == t + rest;
    } else {
      t, a, b, rest := x, v, v, s1;
    }
  }

  /** The line consists of a range, a letter and a range, both in order.  A character that is not a
      newline may follow if it is the last one; a newline may be followed by anything. */
  ghost predicate Composed(s: string, c: Command, x: string, y: string, rest: string) {
    && s == x + ([c.cmd] + (y + rest))
    && RangeIs(x, c.o1, c.o2, [c.cmd]) && RangeIs(y, c.n1, c.n2, rest)
    && (c.cmd == 'a' || c.cmd == 'c' || c.cmd == 'd') && c.o1 <= c.o2 && c.n1 <= c.n2
    && (|rest| <= 1 || rest[0] == '\n' || rest[1] == '\0')
  }

  ghost predicate IsCommand(s: string, c: Command) {
    exists x, y, rest :: Composed(s, c, x, y, rest)
  }

  lemma RangeTail(t: string, a: int, b: int, rest: string, rest': string)
    requires RangeIs(t, a, b, rest) && rest != "" && rest' != "" && rest'[0] == rest[0]
    ensures RangeIs(t, a, b, rest')
  {
  }

  /** getcommand accepts these lines and no others. */
  lemma CommandExactly(s: string, c: Command)
    ensures ReadCommand(s) == Some(c) <==> IsCommand(s, c)
  {
    if ReadCommand(s) == Some(c) {
      CommandRead(s, c);
    }
    if IsCommand(s, c) {
      CommandReads(s, c);
    }
  }

  lemma CommandReads(s: string, c: Command)
    requires IsCommand(s, c)
    ensures ReadCommand(s) == Some(c)
  {
    hide RangeIs, ReadRange;
    var x, y, rest :| Composed(s, c, x, y, rest);
    var tail := [c.cmd] + (y + rest);
    assert tail[0] == c.cmd && tail[1..] == y + rest;
    RangeTail(x, c.o1, c.o2, [c.cmd], tail);
    RangeReads(x, c.o1, c.o2, tail);
    RangeReads(y, c.n1, c.n2, rest);
  }

  lemma CommandRead(s: string, c: Command)
    requires ReadCommand(s) == Some(c)
    ensures IsCommand(s, c)
  {
    hide RangeIs, ReadRange;
    var x, o1, o2, tail := RangeSplits(s);
    RangeReads(x, o1, o2, tail);
    var y, n1, n2, rest := RangeSplits(tail[1..]);
    RangeReads(y, n1, n2, rest);
    assert tail == [c.cmd] + (y + rest);
    RangeTail(x, o1, o2, tail, [c.cmd]);
    assert Composed(s, c, x, y, rest);
  }

  // ----- chunks -----

  /** Lines are copied while the count of those read, an int, is less than o1 - 1. */
  ghost predicate CopiesTo(here: nat, o1: int, start: nat) {
    here <= start && Int16(o1 - 1) <= Int16(start) && forall q :: here <= q < start ==> Int16(q) < Int16(o1 - 1)
  }

  lemma StartExactly(here: nat, o1: int, start: nat)
    ensures Start(here, o1) == start <==> CopiesTo(here, o1, start)
  {
    hide Start;
    StartCopies(here, o1);
    var s := Start(here, o1);
    assert CopiesTo(here, o1, start) && start < s ==> Int16(start) < Int16(o1 - 1);
  }

  lemma {:induction false} StartCopies(here: nat, o1: int)
    ensures CopiesTo(here, o1, Start(here, o1))
    decreases Start(here, o1) - here
  {
    hide Int16;
    if Int16(here) < Int16(o1 - 1) {
      StartStep(here, o1);
      StartCopies(here + 1, o1);
    }
  }

  /** The difflist has k lines marked >, and text is what they hold. */
  ghost predicate AddsLines(dl: seq<string>, k: nat, text: seq<string>) {
    && k <= |dl| && |text| == k
    && forall i :: 0 <= i < k ==> AddedLine(dl[i], text[i])
  }

  ghost predicate AddedLine(entry: string, line: string) {
    entry != "" && entry[0] == '>' && line == if |entry| < 2 then "" else entry[2..]
  }

  lemma {:induction false} AddsExactly(dl: seq<string>, k: nat, text: seq<string>, rest: seq<string>)
    ensures Adds(dl, k) == Some((text, rest)) <==> AddsLines(dl, k, text) && rest == dl[k..]
    decreases k
  {
    if k > 0 && dl != [] && Marked(dl[0], '>') {
      var one := Drop2(dl[0]);
      if text != [] {
        AddsExactly(dl[1..], k - 1, text[1..], rest);
        AddsLinesStep(dl, k, text);
        assert text[0] == one ==> [one] + text[1..] == text;
      }
      var r := Adds(dl[1..], k - 1);
      if r.Some? && text == [one] + r.value.0 {
        assert text[1..] == r.value.0;
      }
    } else if k > 0 && dl != [] && text != [] {
      assert AddsLines(dl, k, text) ==> AddedLine(dl[0], text[0]);
    }
  }

  lemma AddsLinesStep(dl: seq<string>, k: nat, text: seq<string>)
    requires k > 0 && dl != [] && text != []
    ensures AddsLines(dl, k, text) <==> AddedLine(dl[0], text[0]) && AddsLines(dl[1..], k - 1, text[1..])
    ensures k <= |dl| ==> dl[1..][k - 1..] == dl[k..]
  {
    hide AddedLine;
    if AddedLine(dl[0], text[0]) && AddsLines(dl[1..], k - 1, text[1..]) {
      forall i | 0 <= i < k
        ensures AddedLine(dl[i], text[i])
      {
        if i > 0 {
          assert AddedLine(dl[1..][i - 1], text[1..][i - 1]);
        }
      }
    } else if AddsLines(dl, k, text) {
      forall i | 0 <= i < k - 1
        ensures AddedLine(dl[1..][i], text[1..][i])
      {
        assert AddedLine(dl[i + 1], text[i + 1]);
      }
    }
  }

  /** What is printed behind the copied lines is what the next n2 - n1 + 1 lines of dl add. */
  ghost predicate AddsTo(copied: seq<string>, dl: seq<string>, n1: int, n2: int, d: Done)
    requires n1 <= n2
  {
    var k := n2 - n1 + 1;
    n2 < INT_MAX && copied <= d.out && AddsLines(dl, k, d.out[|copied|..]) && d.rest == dl[k..]
  }

  /** The effect of a command whose lines are dl: the file is copied up to start. */
  ghost predicate Performs(file: seq<string>, here: nat, dl: seq<string>, c: Command, start: nat, d: Done)
    requires here <= |file| && c.o1 <= c.o2 && c.n1 <= c.n2
  {
    var k := c.o2 - c.o1 + 1;
    && CopiesTo(here, c.o1, start) && start <= |file|
    && (c.cmd == 'a' ==>
          && c.o1 == c.o2 && start < |file| && d.here == start + 1
          && AddsTo(file[here..start + 1], dl, c.n1, c.n2, d))
    && (c.cmd != 'a' ==> c.o2 < INT_MAX && Deletes(file, start, dl, k) && d.here == start + k)
    && (c.cmd == 'd' ==> c.n1 == c.n2 && d.out == file[here..start] && d.rest == dl[k..])
    && (c.cmd == 'c' ==>
          && k < |dl| && NoWhite(dl[k]) == "---"
          && AddsTo(file[here..start], dl[k + 1..], c.n1, c.n2, d))
  }

  /** One chunk: its command line, and what it does. */
  ghost predicate Step(file: seq<string>, here: nat, dl: seq<string>, d: Done)
    requires here <= |file|
  {
    exists c: Command, start: nat ::
      && dl != [] && IsCommand(dl[0], c) && c.o1 <= c.o2 && c.n1 <= c.n2
      && Performs(file, here, dl[1..], c, start, d)
  }

  lemma AddsAfterExactly(out: seq<string>, here: nat, dl: seq<string>, n1: int, n2: int, d: Done)
    requires n1 <= n2 <= INT_MAX
    ensures AddsAfter(out, here, dl, n1, n2) == Some(d) <==> AddsTo(out, dl, n1, n2, d) && d.here == here
  {
    hide Adds, AddsLines;
    var k := n2 - n1 + 1;
    var r := Adds(dl, k);
    if AddsAfter(out, here, dl, n1, n2) == Some(d) {
      var (text, rest) := r.value;
      AddsExactly(dl, k, text, rest);
      assert d == Done(out + text, here, rest);
      assert d.out[|out|..] == text;
    }
    if AddsTo(out, dl, n1, n2, d) && d.here == here {
      var text := d.out[|out|..];
      AddsExactly(dl, k, text, d.rest);
      assert out + text == d.out;
      assert d == Done(out + text, here, d.rest);
    }
  }

  lemma PerformsAppend(file: seq<string>, here: nat, dl: seq<string>, c: Command, d: Done)
    requires here <= |file| && dl != [] && ReadCommand(dl[0]) == Some(c) && c.cmd == 'a'
    ensures Chunk(file, here, dl) == Some(d) <==> Performs(file, here, dl[1..], c, Start(here, c.o1), d)
  {
    hide ReadCommand, Start, AddsAfter, AddsTo, CopiesTo, Deletes, Dels;
    var start := Start(here, c.o1);
    StartExactly(here, c.o1, start);
    CommandInts(dl[0]);
    if start < |file| {
      AddsAfterExactly(file[here..start + 1], start + 1, dl[1..], c.n1, c.n2, d);
    }
  }

  lemma PerformsDelete(file: seq<string>, here: nat, dl: seq<string>, c: Command, d: Done)
    requires here <= |file| && dl != [] && ReadCommand(dl[0]) == Some(c) && c.cmd == 'd'
    ensures Chunk(file, here, dl) == Some(d) <==> Performs(file, here, dl[1..], c, Start(here, c.o1), d)
  {
    hide ReadCommand, Start, AddsTo, Dels, Deletes, CopiesTo;
    var start := Start(here, c.o1);
    StartExactly(here, c.o1, start);
    CommandInts(dl[0]);
    if start <= |file| {
      DelsExactly(file, start, dl[1..], c.o2 - c.o1 + 1);
    }
  }

  lemma PerformsChange(file: seq<string>, here: nat, dl: seq<string>, c: Command, d: Done)
    requires here <= |file| && dl != [] && ReadCommand(dl[0]) == Some(c) && c.cmd == 'c'
    ensures Chunk(file, here, dl) == Some(d) <==> Performs(file, here, dl[1..], c, Start(here, c.o1), d)
  {
    hide ReadCommand, Start, AddsTo, AddsAfter, Dels, Deletes, CopiesTo, WhiteEqual, NoWhite;
    var start, k, more := Start(here, c.o1), c.o2 - c.o1 + 1, dl[1..];
    StartExactly(here, c.o1, start);
    CommandInts(dl[0]);
    if start <= |file| {
      DelsExactly(file, start, more, k);
      if Deletes(file, start, more, k) {
        DeletesLength(file, start, more, k);
        if k < |more| {
          var rest := more[k..];
          assert rest[0] == more[k] && rest[1..] == more[k + 1..];
          WhiteEqualMeans(rest[0], "---\n");
          DashesNoWhite();
          AddsAfterExactly(file[here..start], start + k, rest[1..], c.n1, c.n2, d);
        }
      }
    }
  }

  lemma DeletesLength(file: seq<string>, here: nat, dl: seq<string>, k: nat)
    requires Deletes(file, here, dl, k)
    ensures k <= |dl| && here + k <= |file|
  {
  }

  lemma DashesNoWhite()
    ensures NoWhite("---\n") == "---"
  {
    var s := "---\n";
    assert s[1..] == "--\n" && s[1..][1..] == "-\n" && s[1..][1..][1..] == "\n" && s[1..][1..][1..][1..] == "";
  }

  /** A chunk is accepted exactly by these rules, with this effect. */
  lemma ChunkExactly(file: seq<string>, here: nat, dl: seq<string>, d: Done)
    requires here <= |file| && dl != []
    ensures Chunk(file, here, dl) == Some(d) <==> Step(file, here, dl, d)
  {
    hide ReadCommand, Chunk, IsCommand, Performs, Start;
    forall c | IsCommand(dl[0], c)
      ensures ReadCommand(dl[0]) == Some(c)
    {
      CommandExactly(dl[0], c);
    }
    forall c: Command, start: nat | c.o1 <= c.o2 && c.n1 <= c.n2 && Performs(file, here, dl[1..], c, start, d)
      ensures start == Start(here, c.o1)
    {
      PerformsStart(file, here, dl[1..], c, start, d);
    }
    if ReadCommand(dl[0]).Some? {
      var c := ReadCommand(dl[0]).value;
      CommandExactly(dl[0], c);
      if c.cmd == 'a' {
        PerformsAppend(file, here, dl, c, d);
      } else if c.cmd == 'd' {
        PerformsDelete(file, here, dl, c, d);
      } else {
        PerformsChange(file, here, dl, c, d);
      }
    } else {
      NoCommand(file, here, dl);
    }
  }

  lemma PerformsStart(file: seq<string>, here: nat, dl: seq<string>, c: Command, start: nat, d: Done)
    requires here <= |file| && c.o1 <= c.o2 && c.n1 <= c.n2 && Performs(file, here, dl, c, start, d)
    ensures start == Start(here, c.o1)
  {
    StartExactly(here, c.o1, start);
  }

  lemma NoCommand(file: seq<string>, here: nat, dl: seq<string>)
    requires here <= |file| && dl != [] && ReadCommand(dl[0]) == None
    ensures Chunk(file, here, dl) == None
  {
  }

  // ----- the whole run -----

  /** Chunk after chunk to the end of the difflist, and then the rest of the file. */
  ghost predicate Replayed(file: seq<string>, here: nat, dl: seq<string>, steps: seq<Done>, out: seq<string>)
    requires here <= |file|
    decreases |steps|
  {
    if steps == [] then dl == [] && out == file[here..]
    else
      var d := steps[0];
      && Step(file, here, dl, d) && d.here <= |file| && d.out <= out
      && Replayed(file, d.here, d.rest, steps[1..], out[|d.out|..])
  }

  lemma {:induction false} FixPrints(file: seq<string>, here: nat, dl: seq<string>, out: seq<string>)
    returns (steps: seq<Done>)
    requires here <= |file| && FixFrom(file, here, dl) == Some(out)
    ensures Replayed(file, here, dl, steps, out)
    decreases |dl|
  {
    hide Step, Chunk;
    if dl == [] {
      steps := [];
    } else {
      var d := Chunk(file, here, dl).value;
      ChunkShrinks(file, here, dl);
      ChunkExactly(file, here, dl, d);
      var rest := FixFrom(file, d.here, d.rest).value;
      assert out == d.out + rest && out[|d.out|..] == rest;
      var more := FixPrints(file, d.here, d.rest, rest);
      steps := [d] + more;
      assert steps[1..] == more;
    }
  }

  lemma {:induction false} ReplayedPrints(file: seq<string>, here: nat, dl: seq<string>, steps: seq<Done>,
                                          out: seq<string>)
    requires here <= |file| && Replayed(file, here, dl, steps, out)
    ensures FixFrom(file, here, dl) == Some(out)
    decreases |steps|
  {
    hide Step, Chunk, FixFrom;
    if steps == [] {
      FixEnds(file, here);
    } else {
      var d := steps[0];
      StepNonempty(file, here, dl, d);
      ChunkExactly(file, here, dl, d);
      ReplayedPrints(file, d.here, d.rest, steps[1..], out[|d.out|..]);
      FixStep(file, here, dl, out[|d.out|..]);
      assert out == d.out + out[|d.out|..];
    }
  }

  lemma FixEnds(file: seq<string>, here: nat)
    requires here <= |file|
    ensures FixFrom(file, here, []) == Some(file[here..])
  {
  }

  lemma StepNonempty(file: seq<string>, here: nat, dl: seq<string>, d: Done)
    requires here <= |file| && Step(file, here, dl, d)
    ensures dl != []
  {
  }

  /** fix succeeds exactly when the difflist is a list of chunks that the rules accept in turn, and
      prints what they make. */
  lemma FixExactly(file: seq<string>, dl: seq<string>, out: seq<string>)
    ensures FixFrom(file, 0, dl) == Some(out) <==> exists steps :: Replayed(file, 0, dl, steps, out)
  {
    hide Replayed, FixFrom;
    if FixFrom(file, 0, dl) == Some(out) {
      var _ := FixPrints(file, 0, dl, out);
    }
    if steps :| Replayed(file, 0, dl, steps, out) {
      ReplayedPrints(file, 0, dl, steps, out);
    }
  }

  /** fix does not go past a line it is to delete that is not, but for white characters, the one
      in the difflist. */
  lemma ConflictStops(file: seq<string>, here: nat, dl: seq<string>, c: Command, start: nat, i: nat)
    requires here <= |file| && dl != [] && IsCommand(dl[0], c) && c.cmd != 'a' && CopiesTo(here, c.o1, start)
    requires i <= c.o2 - c.o1 && start + i < |file| && i + 1 < |dl| && !DeletedLine(file[start + i], dl[i + 1])
    ensures FixFrom(file, here, dl) == None
  {
    hide IsCommand, CopiesTo, ReadCommand, Dels, AddsAfter, DeletedLine, WhiteEqual, Start;
    CommandExactly(dl[0], c);
    StartExactly(here, c.o1, start);
    DelsExactly(file, start, dl[1..], c.o2 - c.o1 + 1);
    assert dl[1..][i] == dl[i + 1];
    assert Chunk(file, here, dl) == None;
  }
}
