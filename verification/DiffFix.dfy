/** diff(1) and then fix(1), with the text that goes between them. */
module DiffFix {
  import opened Common
  import opened TextLines
  import opened EditScript
  import opened Fix
  import D = Diff
  import F = Fix

  // ----- the printed lines -----

  lemma {:induction false} DecDigits(n: nat)
    ensures forall i :: 0 <= i < |Dec(n)| ==> IsDigit(Dec(n)[i])
  {
    if n >= 10 {
      DecDigits(n / 10);
    }
  }

  lemma DecimalPlain(x: int)
    ensures NL !in Decimal(x) && NUL !in Decimal(x) && |Decimal(x)| <= 6
  {
    hide Dec, Int16;
    var n := if Int16(x) < 0 then -Int16(x) else Int16(x);
    DecDigits(n);
    DecShort(n, 5);
  }

  lemma RangePlain(a: int, b: int)
    ensures NL !in Range(a, b) && NUL !in Range(a, b) && |Range(a, b)| <= 13
  {
    hide Decimal;
    DecimalPlain(a);
    DecimalPlain(b);
  }

  /** The command line without its newline. */
  lemma HeaderLine(h: Hunk) returns (body: string)
    ensures Header(h) == body + "\n" && NL !in body && NUL !in body && |body| <= 27
  {
    hide Decimal, Range;
    RangePlain(h.o + 1, h.OldEnd());
    RangePlain(h.n + 1, h.NewEnd());
    DecimalPlain(h.o);
    DecimalPlain(h.n);
    body := if h.dels == [] then Decimal(h.o) + "a" + Range(h.n + 1, h.NewEnd())
            else if h.adds == [] then Range(h.o + 1, h.OldEnd()) + "d" + Decimal(h.n)
            else Range(h.o + 1, h.OldEnd()) + "c" + Range(h.n + 1, h.NewEnd());
  }

  lemma HeaderEnded(h: Hunk)
    ensures Ended(Header(h))
  {
    hide Header;
    var body := HeaderLine(h);
    assert (body + "\n")[..|body|] == body;
  }

  lemma MarkedEnded(mark: string, line: string)
    requires NL !in mark
    ensures Ended(line) ==> Ended(mark + line)
    ensures Open(line) ==> Open(mark + line)
  {
    if Ended(line) {
      assert (mark + line)[..|mark + line| - 1] == mark + line[..|line| - 1];
    }
  }

  lemma PrefixedEnded(mark: string, lines: seq<string>)
    requires NL !in mark && AllEnded(lines)
    ensures AllEnded(Prefixed(mark, lines))
  {
    forall i | 0 <= i < |lines|
      ensures Ended(mark + lines[i])
    {
      MarkedEnded(mark, lines[i]);
    }
  }

  lemma RuleEnded()
    ensures Ended("---\n")
  {
    assert "---\n"[..3] == "---";
  }

  lemma HunkEnded(h: Hunk)
    requires AllEnded(h.dels) && AllEnded(h.adds)
    ensures AllEnded(HunkText(h))
  {
    hide Header, Ended;
    HeaderEnded(h);
    PrefixedEnded("< ", h.dels);
    PrefixedEnded("> ", h.adds);
    RuleEnded();
  }

  lemma {:induction false} TextEnded(hunks: seq<Hunk>)
    requires forall k :: 0 <= k < |hunks| ==> AllEnded(hunks[k].dels) && AllEnded(hunks[k].adds)
    ensures AllEnded(Text(hunks))
    decreases |hunks|
  {
    hide HunkText, Ended;
    if hunks != [] {
      HunkEnded(hunks[0]);
      TextEnded(hunks[1..]);
    }
  }

  // ----- scripts of texts -----

  /** The last hunk changes a last line that has no newline. */
  ghost predicate CutShort(hunks: seq<Hunk>) {
    && hunks != []
    && var h := hunks[|hunks| - 1];
       h.dels != [] && h.adds != [] && Open(h.dels[|h.dels| - 1])
  }

  /** Only the last hunk can have lines without a newline, at the ends of what goes and comes. */
  lemma {:induction false} ScriptEnded(old1: seq<string>, new1: seq<string>, i: nat, j: nat, hunks: seq<Hunk>)
    requires i <= |old1| && j <= |new1| && ScriptFrom(old1, new1, i, j, hunks) && Separated(hunks)
    requires Proper(old1) && Proper(new1)
    ensures forall k :: 0 <= k < |hunks| - 1 ==> AllEnded(hunks[k].dels) && AllEnded(hunks[k].adds)
    ensures hunks != [] ==> Proper(hunks[|hunks| - 1].dels) && Proper(hunks[|hunks| - 1].adds)
    decreases |hunks|
  {
    hide Ended, Open;
    if hunks != [] {
      var h := hunks[0];
      SeparatedTail(hunks);
      ScriptEnded(old1, new1, h.OldEnd(), h.NewEnd(), hunks[1..]);
      if |hunks| > 1 {
        assert Fits(old1, new1, hunks[1..][0]);
        assert hunks[0].OldEnd() < hunks[1].o && hunks[0].NewEnd() < hunks[1].n;
        PieceEnded(old1, h.o, h.OldEnd());
        PieceEnded(new1, h.n, h.NewEnd());
        assert hunks[1..][|hunks| - 2] == hunks[|hunks| - 1];
        forall k | 1 <= k < |hunks| - 1
          ensures AllEnded(hunks[k].dels) && AllEnded(hunks[k].adds)
        {
          assert hunks[k] == hunks[1..][k - 1];
        }
      } else {
        PieceProper(old1, h.o, h.OldEnd());
        PieceProper(new1, h.n, h.NewEnd());
      }
    }
  }

  lemma PieceEnded(lines: seq<string>, a: nat, b: nat)
    requires Proper(lines) && a <= b < |lines|
    ensures AllEnded(lines[a..b])
  {
    hide Ended, Open;
  }

  lemma PieceProper(lines: seq<string>, a: nat, b: nat)
    requires Proper(lines) && a <= b <= |lines|
    ensures Proper(lines[a..b])
  {
    hide Ended, Open;
  }

  /** Unless it is cut short, a script splits into the lines that were printed. */
  lemma {:induction false} SplitPrintout(hunks: seq<Hunk>)
    requires forall k :: 0 <= k < |hunks| - 1 ==> AllEnded(hunks[k].dels) && AllEnded(hunks[k].adds)
    requires hunks != [] ==> Proper(hunks[|hunks| - 1].dels) && Proper(hunks[|hunks| - 1].adds)
    requires !CutShort(hunks)
    ensures Split(Printout(hunks)) == Text(hunks)
  {
    hide Open, Split, HunkText, Text, AllEnded, Proper;
    if hunks == [] {
      NoText();
      SplitConcat([]);
    } else {
      var n := |hunks| - 1;
      var pre, h := hunks[..n], hunks[n];
      assert hunks == pre + [h];
      TextSnoc(pre, h);
      TextEnded(pre);
      LastProper(h);
      ProperAfter(Text(pre), HunkText(h));
      SplitConcat(Text(hunks));
    }
  }

  lemma NoText()
    ensures Text([]) == [] && Proper([])
  {
  }

  lemma ProperAfter(a: seq<string>, b: seq<string>)
    requires AllEnded(a) && Proper(b)
    ensures Proper(a + b)
  {
    hide Ended, Open;
  }

  lemma LastProper(h: Hunk)
    requires Proper(h.dels) && Proper(h.adds) && !(h.dels != [] && h.adds != [] && Open(h.dels[|h.dels| - 1]))
    ensures Proper(HunkText(h))
  {
    hide Ended, Open, Header;
    HeaderEnded(h);
    RuleEnded();
    forall i | 0 <= i < |h.dels|
      ensures Ended(h.dels[i]) ==> Ended("< " + h.dels[i])
      ensures Open(h.dels[i]) ==> Open("< " + h.dels[i])
    {
      MarkedEnded("< ", h.dels[i]);
    }
    forall i | 0 <= i < |h.adds|
      ensures Ended(h.adds[i]) ==> Ended("> " + h.adds[i])
      ensures Open(h.adds[i]) ==> Open("> " + h.adds[i])
    {
      MarkedEnded("> ", h.adds[i]);
    }
  }

  // ----- a script that is cut short -----

  /** Its last hunk as fix reads it: the rule between old and new lines is part of the last old
      line. */
  function CutChunk(h: Hunk): seq<string>
    requires h.dels != []
  {
    var n := |h.dels| - 1;
    [Header(h)] + Prefixed("< ", h.dels[..n]) + ["< " + h.dels[n] + "---\n"] + Split(Concat(Prefixed("> ", h.adds)))
  }

  lemma CutSplit(h: Hunk)
    requires h.dels != [] && h.adds != [] && AllEnded(h.dels[..|h.dels| - 1]) && Open(h.dels[|h.dels| - 1])
    ensures Split(Concat(HunkText(h))) == CutChunk(h)
  {
    hide Header, Ended, Open, Split;
    var n := |h.dels| - 1;
    var last := h.dels[n];
    var ended := [Header(h)] + Prefixed("< ", h.dels[..n]) + ["< " + last + "---\n"];
    var adds := Prefixed("> ", h.adds);
    HeaderEnded(h);
    PrefixedEnded("< ", h.dels[..n]);
    CutEnded(last);
    assert AllEnded(ended);
    SplitEnded(ended, Concat(adds));
    CutSame(h);
  }

  lemma CutEnded(line: string)
    requires Open(line)
    ensures Ended("< " + line + "---\n")
  {
    var s := "< " + line + "---\n";
    assert s[..|s| - 1] == "< " + line + "---";
  }

  lemma CutSame(h: Hunk)
    requires h.dels != [] && h.adds != []
    ensures var n := |h.dels| - 1;
            Concat(HunkText(h)) == Concat([Header(h)] + Prefixed("< ", h.dels[..n]) + ["< " + h.dels[n] + "---\n"])
                + Concat(Prefixed("> ", h.adds))
  {
    hide Header;
    var n := |h.dels| - 1;
    var a, adds := [Header(h)] + Prefixed("< ", h.dels[..n]), Prefixed("> ", h.adds);
    var last := "< " + h.dels[n];
    assert h.dels == h.dels[..n] + [h.dels[n]];
    PrefixedSnoc("< ", h.dels[..n], h.dels[n]);
    assert HunkText(h) == a + ([last] + ["---\n"]) + adds;
    hide Prefixed, HunkText, Concat;
    ConcatCat(a + ([last] + ["---\n"]), adds);
    ConcatCat(a, [last] + ["---\n"]);
    ConcatCat([last], ["---\n"]);
    ConcatOne(last);
    ConcatOne("---\n");
    ConcatCat(a, [last + "---\n"]);
    ConcatOne(last + "---\n");
  }

  /** A line is not equal to itself with a rule behind it, whatever white space does. */
  lemma {:induction false} RuleDiffers(line: string)
    ensures !WhiteEqual(line, line + "---\n")
  {
    SkipRule(line);
    var a := SkipWhite(line);
    DropRule(a);
    assert SkipWhite("---\n") == "---\n";
    assert SkipWhite("") == "";
  }

  lemma {:induction false} SkipRule(line: string)
    ensures SkipWhite(line + "---\n") == SkipWhite(line) + "---\n"
    decreases |line|
  {
    if line == "" {
      assert line + "---\n" == "---\n";
    } else {
      assert (line + "---\n")[1..] == line[1..] + "---\n";
      if White(line[0]) {
        SkipRule(line[1..]);
      }
    }
  }

  lemma {:induction false} DropRule(a: string)
    ensures DropCommon(a, a + "---\n") == ("", "---\n")
    decreases |a|
  {
    if a == "" {
      assert a + "---\n" == "---\n";
    } else {
      assert (a + "---\n")[1..] == a[1..] + "---\n";
      DropRule(a[1..]);
    }
  }

  /** fix stops at the joined line, or before. */
  lemma {:induction false} DelsCut(file: seq<string>, start: nat, k: nat, dels: seq<string>, tail: seq<string>)
    requires 1 <= k == |dels| && k <= |file| && dels == file[|file| - k..] && start + k >= |file|
    ensures Dels(file, start, Prefixed("< ", dels[..k - 1]) + ["< " + dels[k - 1] + "---\n"] + tail, k) == None
    decreases k
  {
    hide WhiteEqual;
    var dl := Prefixed("< ", dels[..k - 1]) + ["< " + dels[k - 1] + "---\n"] + tail;
    if start < |file| && WhiteEqual(file[start], Drop2(dl[0])) {
      if k == 1 {
        assert Drop2(dl[0]) == dels[0] + "---\n" && file[start] == dels[0];
        RuleDiffers(dels[0]);
      } else {
        assert dels[1..][..k - 2] == dels[..k - 1][1..];
        assert dl[1..] == Prefixed("< ", dels[1..][..k - 2]) + ["< " + dels[1..][k - 2] + "---\n"] + tail;
        DelsCut(file, start + 1, k - 1, dels[1..], tail);
      }
    }
  }

  lemma CutChunkFails(file: seq<string>, here: nat, h: Hunk)
    requires here <= |file| && h.dels != [] && h.adds != [] && h.OldEnd() == |file| && h.dels == file[h.o..]
    requires Small(h)
    ensures Chunk(file, here, CutChunk(h)) == None
  {
    hide ReadCommand, Header, Dels, WhiteEqual, Prefixed, Split, Concat;
    ReadHeader(h);
    SmallCommand(h, 0);
    var n := |h.dels| - 1;
    var tail := Split(Concat(Prefixed("> ", h.adds)));
    var dl := Prefixed("< ", h.dels[..n]) + ["< " + h.dels[n] + "---\n"] + tail;
    assert CutChunk(h)[0] == Header(h) && CutChunk(h)[1..] == dl;
    var start := if here < h.o then h.o else here;
    DelsCut(file, start, |h.dels|, h.dels, tail);
  }

  // ----- chunks take their own lines, whatever they find in the file -----

  lemma {:induction false} DelsTake(file: seq<string>, here: nat, dl: seq<string>, k: nat)
    requires Dels(file, here, dl, k).Some?
    ensures k <= |dl| && Dels(file, here, dl, k).value == dl[k..] && (k > 0 ==> here + k <= |file|)
    decreases k
  {
    hide WhiteEqual;
    if k > 0 {
      DelsTake(file, here + 1, dl[1..], k - 1);
    }
  }

  lemma ChunkTakes(file: seq<string>, here: nat, h: Hunk, tail: seq<string>)
    requires here <= |file| && (h.dels != [] || h.adds != []) && Moderate(h)
    ensures HunkText(h) != []
    ensures var d := Chunk(file, here, HunkText(h) + tail);
            d.Some? ==> d.value.rest == tail && d.value.here <= |file|
  {
    hide ReadCommand, Header, Adds, Dels, HunkText, WhiteEqual, Prefixed, Start, CommandOf, Moderate;
    ReadHeader(h);
    CommandKind(h);
    if Legible(CommandOf(h)) {
      CommandCounts(h);
    }
    HunkTextNonempty(h);
    HunkTextParts(h, tail);
    var dl := HunkText(h) + tail;
    var adds := Prefixed("> ", h.adds) + tail;
    AddsOfHunk(h.adds, adds, tail);
    if Chunk(file, here, dl).Some? && h.dels != [] {
      var start := Start(here, CommandOf(h).o1);
      DelsTake(file, start, dl[1..], |h.dels|);
      if h.adds == [] {
        assert (Prefixed("< ", h.dels) + tail)[|h.dels|..] == tail;
      } else {
        var rest := ["---\n"] + adds;
        assert (Prefixed("< ", h.dels) + rest)[|h.dels|..] == rest && rest[1..] == adds;
      }
    }
  }

  /** So fix always comes to the last chunk, if it does not stop before. */
  lemma {:induction false} LastFails(file: seq<string>, here: nat, pre: seq<Hunk>, last: seq<string>)
    requires here <= |file| && last != [] && AllModerate(pre)
    requires forall k :: 0 <= k < |pre| ==> pre[k].dels != [] || pre[k].adds != []
    requires forall i: nat :: i <= |file| ==> Chunk(file, i, last) == None
    ensures FixFrom(file, here, Text(pre) + last) == None
    decreases |pre|
  {
    hide Chunk, HunkText, Moderate;
    if pre == [] {
      assert Text(pre) + last == last;
      assert Chunk(file, here, last) == None;
    } else {
      var h := pre[0];
      var tail := Text(pre[1..]) + last;
      ChunkTakes(file, here, h, tail);
      assert Text(pre) + last == HunkText(h) + tail;
      var d := Chunk(file, here, HunkText(h) + tail);
      if d.Some? {
        LastFails(file, d.value.here, pre[1..], last);
      }
    }
  }

  lemma {:induction false} HunksFit(old1: seq<string>, new1: seq<string>, i: nat, j: nat, hunks: seq<Hunk>)
    requires i <= |old1| && j <= |new1| && ScriptFrom(old1, new1, i, j, hunks)
    ensures forall k :: 0 <= k < |hunks| ==> Fits(old1, new1, hunks[k])
    decreases |hunks|
  {
    hide Fits;
    if hunks != [] {
      var h := hunks[0];
      assert Fits(old1, new1, h);
      HunkFits(old1, new1, h);
      HunksFit(old1, new1, h.OldEnd(), h.NewEnd(), hunks[1..]);
      forall k | 1 <= k < |hunks|
        ensures Fits(old1, new1, hunks[k])
      {
        assert hunks[k] == hunks[1..][k - 1];
      }
    }
  }

  /** How a script that is cut short splits. */
  lemma CutPrintout(old1: seq<string>, new1: seq<string>, hunks: seq<Hunk>)
    requires Script(old1, new1, hunks) && Proper(old1) && Proper(new1) && CutShort(hunks)
    ensures var n := |hunks| - 1;
            Split(Printout(hunks)) == Text(hunks[..n]) + CutChunk(hunks[n]) && Proper(hunks[n].adds)
  {
    hide Ended, Open, Split, HunkText, Text, Concat, ScriptFrom, Separated, Fits;
    var n := |hunks| - 1;
    var pre, h := hunks[..n], hunks[n];
    ScriptEnded(old1, new1, 0, 0, hunks);
    HunksFit(old1, new1, 0, 0, hunks);
    HunkFits(old1, new1, h);
    assert hunks == pre + [h];
    TextSnoc(pre, h);
    ConcatCat(Text(pre), HunkText(h));
    TextEnded(pre);
    SplitEnded(Text(pre), Concat(HunkText(h)));
    OpenLast(old1, h);
    CutSplit(h);
  }

  /** A changed last line without newline always makes fix stop. */
  lemma CutFails(old1: seq<string>, new1: seq<string>, hunks: seq<Hunk>)
    requires Script(old1, new1, hunks) && Proper(old1) && Proper(new1) && CutShort(hunks)
    requires AllModerate(hunks) && Small(hunks[|hunks| - 1])
    ensures FixFrom(old1, 0, Split(Printout(hunks))) == None
  {
    hide Ended, Open, Split, HunkText, Text, Concat, ScriptFrom, Separated, Chunk, Fits, Moderate, Small;
    var n := |hunks| - 1;
    var pre, h := hunks[..n], hunks[n];
    ScriptEnded(old1, new1, 0, 0, hunks);
    HunksFit(old1, new1, 0, 0, hunks);
    HunkFits(old1, new1, h);
    CutPrintout(old1, new1, hunks);
    OpenLast(old1, h);
    forall i: nat | i <= |old1|
      ensures Chunk(old1, i, CutChunk(h)) == None
    {
      CutChunkFails(old1, i, h);
    }
    forall k | 0 <= k < |pre|
      ensures pre[k].dels != [] || pre[k].adds != []
    {
      HunkFits(old1, new1, hunks[k]);
    }
    LastFails(old1, 0, pre, CutChunk(h));
  }

  lemma OpenLast(old1: seq<string>, h: Hunk)
    requires Proper(old1) && h.dels != [] && h.OldEnd() <= |old1| && h.dels == old1[h.o..h.OldEnd()]
    requires Open(h.dels[|h.dels| - 1])
    ensures h.OldEnd() == |old1| && h.dels == old1[h.o..] && AllEnded(h.dels[..|h.dels| - 1])
  {
    var n := |h.dels| - 1;
    assert h.dels[n] == old1[h.o + n];
    OpenNotEnded(h.dels[n]);
    forall i | 0 <= i < n
      ensures Ended(h.dels[i])
    {
      assert h.dels[i] == old1[h.o + i];
    }
  }

  lemma OpenNotEnded(line: string)
    ensures !(Open(line) && Ended(line))
  {
  }

  // ----- a script that begins with an append after line 0 -----

  /** It has at least one line of the old file behind it, unless that is empty. */
  lemma AppendGoesOn(old1: seq<string>, new1: seq<string>, hunks: seq<Hunk>)
    requires Script(old1, new1, hunks) && StartsWithAppendAtZero(hunks) && old1 != []
    ensures var h := hunks[0];
            && h.n == 0 && 0 < |h.adds| < |new1| && h.adds == new1[..|h.adds|] && old1[0] != new1[0]
  {
    var h := hunks[0];
    assert Fits(old1, new1, h);
    SeparatedTail(hunks);
    assert ScriptFrom(old1, new1, 0, h.NewEnd(), hunks[1..]);
    if |hunks| > 1 {
      assert hunks[1..][0] == hunks[1];
    }
  }

  /** fix prints the first old line first, and that is not how the new file begins. */
  lemma AppendTextFails(old1: seq<string>, new1: seq<string>, hunks: seq<Hunk>, dl: seq<string>, lines: seq<string>)
    requires Script(old1, new1, hunks) && StartsWithAppendAtZero(hunks) && Proper(old1) && Proper(new1)
    requires dl == Text(hunks) && FixFrom(old1, 0, dl) == Some(lines) && Moderate(hunks[0])
    ensures Concat(lines) != Concat(new1)
  {
    hide Ended, Open, Split, HunkText, Text, Concat, ScriptFrom, Separated, Chunk, Fits, FixFrom, Script;
    var h := hunks[0];
    AppendChunk(old1, new1, hunks);
    AppendGoesOn(old1, new1, hunks);
    var out := [old1[0]] + h.adds;
    assert out <= lines;
    var more := lines[|out|..];
    assert lines == [old1[0]] + ([new1[0]] + (h.adds[1..] + more));
    var rest := h.adds[1..] + more;
    ConcatCat([old1[0]], [new1[0]] + rest);
    ConcatCat([new1[0]], rest);
    ConcatOne(old1[0]);
    ConcatOne(new1[0]);
    assert new1 == [new1[0]] + new1[1..];
    ConcatCat([new1[0]], new1[1..]);
    assert Ended(new1[0]);
    FirstDiffers(old1[0], new1[0], Concat(rest), Concat(new1[1..]));
  }

  lemma FirstDiffers(a: string, b: string, x: string, y: string)
    requires (Ended(a) || Open(a)) && Ended(b) && a != b
    ensures a + (b + x) != b + y
  {
    FirstLineLen(b, y);
    assert (b + y)[..|b|] == b;
    if Ended(a) {
      FirstLineLen(a, b + x);
      assert (a + (b + x))[..|a|] == a;
    } else {
      JoinedEnded(a, b);
      FirstLineLen(a + b, x);
      assert a + (b + x) == (a + b) + x;
    }
  }

  lemma JoinedEnded(a: string, b: string)
    requires Open(a) && Ended(b)
    ensures Ended(a + b)
  {
    assert (a + b)[..|a + b| - 1] == a + b[..|b| - 1];
  }

  /** What fix has printed after the first chunk. */
  lemma AppendChunk(old1: seq<string>, new1: seq<string>, hunks: seq<Hunk>)
    requires Script(old1, new1, hunks) && StartsWithAppendAtZero(hunks) && Moderate(hunks[0])
    ensures var r := FixFrom(old1, 0, Text(hunks));
            r.Some? ==> old1 != [] && [old1[0]] + hunks[0].adds <= r.value
  {
    hide ReadCommand, Header, Adds, Dels, HunkText, WhiteEqual, Prefixed, Separated, CommandOf;
    var h := hunks[0];
    assert Fits(old1, new1, h);
    var tail := Text(hunks[1..]);
    var dl := HunkText(h) + tail;
    ReadHeader(h);
    CommandKind(h);
    ZeroCommand(h);
    HunkTextNonempty(h);
    HunkTextParts(h, tail);
    AddsOfHunk(h.adds, Prefixed("> ", h.adds) + tail, tail);
    if old1 == [] || !Readable(h) {
      assert Chunk(old1, 0, dl) == None;
    } else {
      CommandCounts(h);
      assert old1[0..1] == [old1[0]];
      assert Chunk(old1, 0, dl) == Some(Done([old1[0]] + h.adds, 1, tail));
    }
  }

  lemma ZeroCommand(h: Hunk)
    requires h.o == 0 && h.dels == []
    ensures CommandOf(h).o1 == CommandOf(h).o2 == 0 && Start(0, CommandOf(h).o1) == 0
  {
  }

  // ----- line numbers that do not fit -----

  /** A command line fix cannot read, or a range its loops do not come out of. */
  lemma UnreadableChunk(file: seq<string>, here: nat, h: Hunk, tail: seq<string>)
    requires here <= |file| && (h.dels != [] || h.adds != []) && !Readable(h)
    ensures Chunk(file, here, [Header(h)] + tail) == None
  {
    hide ReadCommand, Header, Adds, Dels, WhiteEqual, CommandOf, Start;
    ReadHeader(h);
    CommandKind(h);
  }

  /** The printed text up to some hunk, and the command line of that. */
  lemma {:induction false} UpToHunk(old1: seq<string>, new1: seq<string>, hunks: seq<Hunk>, k: nat)
    returns (tail: seq<string>)
    requires Script(old1, new1, hunks) && Proper(old1) && Proper(new1) && k < |hunks|
    ensures Split(Printout(hunks)) == Text(hunks[..k]) + ([Header(hunks[k])] + tail)
  {
    hide Ended, Open, Split, HunkText, Text, Concat, Script, Header, Prefixed, Printout, Proper;
    var n := |hunks| - 1;
    if CutShort(hunks) && k == n {
      CutPrintout(old1, new1, hunks);
      var cut := CutChunk(hunks[n]);
      assert cut == [Header(hunks[n])] + cut[1..];
      return cut[1..];
    }
    var last := if CutShort(hunks) then CutChunk(hunks[n]) else [];
    var end := if CutShort(hunks) then n else n + 1;
    assert Split(Printout(hunks)) == Text(hunks[..end]) + last by {
      if CutShort(hunks) {
        CutPrintout(old1, new1, hunks);
      } else {
        WholePrintout(old1, new1, hunks);
        assert hunks[..end] == hunks;
      }
    }
    hide CutShort, CutChunk;
    var text := TextAround(hunks[..end], k);
    assert hunks[..end][..k] == hunks[..k];
    tail := text + last;
    assert Text(hunks[..k]) + ([Header(hunks[k])] + text) + last == Text(hunks[..k]) + ([Header(hunks[k])] + tail);
  }

  /** A hunk in the middle of a text begins with its command line. */
  lemma {:induction false} TextAround(hunks: seq<Hunk>, k: nat) returns (tail: seq<string>)
    requires k < |hunks|
    ensures Text(hunks) == Text(hunks[..k]) + ([Header(hunks[k])] + tail)
  {
    hide HunkText, Text, Header;
    var h, rest := hunks[k], hunks[k + 1..];
    assert hunks == hunks[..k] + ([h] + rest);
    TextCat(hunks[..k], [h] + rest);
    TextCat([h], rest);
    var text := HeaderFirst(h);
    tail := text + Text(rest);
    assert [Header(h)] + text + Text(rest) == [Header(h)] + tail;
  }

  lemma HeaderFirst(h: Hunk) returns (text: seq<string>)
    ensures Text([h]) == [Header(h)] + text
  {
    hide Header;
    assert [h][1..] == [];
    text := HunkText(h)[1..];
  }

  lemma {:induction false} TextCat(a: seq<Hunk>, b: seq<Hunk>)
    ensures Text(a + b) == Text(a) + Text(b)
    decreases |a|
  {
    hide HunkText;
    if a == [] {
      assert a + b == b;
    } else {
      TextCat(a[1..], b);
      assert (a + b)[1..] == a[1..] + b;
    }
  }

  ghost predicate AllReadable(hunks: seq<Hunk>) {
    forall k :: 0 <= k < |hunks| ==> Readable(hunks[k])
  }

  ghost predicate AllInWord(hunks: seq<Hunk>) {
    forall k :: 0 <= k < |hunks| ==> InWord(hunks[k])
  }

  /** One such hunk and fix stops with an error, there or before. */
  lemma UnreadableFails(old1: seq<string>, new1: seq<string>, hunks: seq<Hunk>)
    requires Script(old1, new1, hunks) && Proper(old1) && Proper(new1)
    requires AllModerate(hunks) && !AllReadable(hunks)
    ensures FixFrom(old1, 0, Split(Printout(hunks))) == None
  {
    hide Split, Text, ScriptFrom, Separated, Proper, Readable, Moderate, Chunk, Header, Printout, Fits;
    var k :| 0 <= k < |hunks| && !Readable(hunks[k]);
    var tail := UpToHunk(old1, new1, hunks, k);
    HunksFit(old1, new1, 0, 0, hunks);
    forall j | 0 <= j < |hunks|
      ensures hunks[j].dels != [] || hunks[j].adds != []
    {
      HunkFits(old1, new1, hunks[j]);
    }
    forall i: nat | i <= |old1|
      ensures Chunk(old1, i, [Header(hunks[k])] + tail) == None
    {
      UnreadableChunk(old1, i, hunks[k], tail);
    }
    LastFails(old1, 0, hunks[..k], [Header(hunks[k])] + tail);
  }

  // ----- exactly when fix replays diff -----

  /** All line numbers fit an int, and neither of the two other ways to fail. */
  ghost predicate Replays(hunks: seq<Hunk>) {
    AllSmall(hunks) && !StartsWithAppendAtZero(hunks) && !CutShort(hunks)
  }

  /** What fix makes of a script for a new text. */
  ghost predicate Outcome(hunks: seq<Hunk>, new1: string, r: Option<string>) {
    && (Replays(hunks) ==> r == Some(new1))
    && (AllInWord(hunks) ==> (r == Some(new1) <==> Replays(hunks)))
    && (AllModerate(hunks) && !AllReadable(hunks) ==> r == None)
  }

  /** fix makes the new text out of the old one and what diff printed, if and only if no line
      number is too large, the script does not begin with an append after line 0, and it does not
      change a last line that has no newline.  From line 65536 on numbers come round to small
      ones, and only the first half holds. */
  lemma FixUndoesDiff(old1: string, new1: string, hunks: seq<Hunk>)
    requires Script(Split(old1), Split(new1), hunks)
    ensures Outcome(hunks, new1, FixText(old1, Printout(hunks)))
  {
    hide Split, Text, Concat, FixFrom, Script, StartsWithAppendAtZero, CutShort, Small, Readable, InWord, Moderate;
    hide Printout;
    var a, b := Split(old1), Split(new1);
    SplitProper(old1);
    SplitProper(new1);
    WordsReadable(hunks);
    if AllModerate(hunks) && !AllReadable(hunks) {
      UnreadableFails(a, b, hunks);
    } else if AllSmall(hunks) {
      SmallUndoesDiff(old1, new1, hunks);
    }
  }

  lemma WordsReadable(hunks: seq<Hunk>)
    ensures AllSmall(hunks) ==> AllReadable(hunks) && AllModerate(hunks)
    ensures AllInWord(hunks) ==> AllModerate(hunks) && (AllReadable(hunks) <==> AllSmall(hunks))
  {
    hide Small, Readable, InWord, Moderate;
    forall k | 0 <= k < |hunks|
      ensures Small(hunks[k]) ==> Readable(hunks[k]) && Moderate(hunks[k])
      ensures InWord(hunks[k]) ==> (Readable(hunks[k]) <==> Small(hunks[k])) && Moderate(hunks[k])
    {
      ReadableSmall(hunks[k]);
    }
  }

  lemma SmallUndoesDiff(old1: string, new1: string, hunks: seq<Hunk>)
    requires Script(Split(old1), Split(new1), hunks) && AllSmall(hunks)
    ensures FixText(old1, Printout(hunks)) == Some(new1) <==> Replays(hunks)
  {
    hide Split, Text, Concat, FixFrom, Script, StartsWithAppendAtZero, CutShort, Small, Moderate;
    var a, b := Split(old1), Split(new1);
    SplitProper(old1);
    SplitProper(new1);
    WordsReadable(hunks);
    if CutShort(hunks) {
      LastSmall(hunks);
      CutFails(a, b, hunks);
    } else {
      WholePrintout(a, b, hunks);
      if StartsWithAppendAtZero(hunks) {
        var r := FixFrom(a, 0, Text(hunks));
        FirstModerate(hunks);
        if r.Some? {
          AppendTextFails(a, b, hunks, Text(hunks), r.value);
        }
      } else {
        LinesReplay(a, b, hunks);
      }
    }
  }

  lemma LastSmall(hunks: seq<Hunk>)
    requires AllSmall(hunks) && CutShort(hunks)
    ensures hunks != [] && Small(hunks[|hunks| - 1])
  {
  }

  lemma FirstModerate(hunks: seq<Hunk>)
    requires AllModerate(hunks) && StartsWithAppendAtZero(hunks)
    ensures hunks != [] && Moderate(hunks[0])
  {
  }

  lemma WholePrintout(old1: seq<string>, new1: seq<string>, hunks: seq<Hunk>)
    requires Script(old1, new1, hunks) && Proper(old1) && Proper(new1) && !CutShort(hunks)
    ensures Split(Printout(hunks)) == Text(hunks)
  {
    hide Split, Text, Concat, ScriptFrom, Separated, CutShort, Proper, AllEnded;
    ScriptEnded(old1, new1, 0, 0, hunks);
    SplitPrintout(hunks);
  }

  lemma LinesReplay(old1: seq<string>, new1: seq<string>, hunks: seq<Hunk>)
    requires Script(old1, new1, hunks) && !StartsWithAppendAtZero(hunks) && AllSmall(hunks)
    ensures FixFrom(old1, 0, Text(hunks)) == Some(new1)
  {
    hide Text, FixFrom, Separated, ScriptFrom;
    assert new1[0..] == new1;
    FixScript(old1, new1, 0, 0, hunks);
  }

  /** Files that share their first line and whose old version ends in a newline, or is not changed
      at its end, are fine. */
  lemma SameFirstLine(old1: string, new1: string, hunks: seq<Hunk>)
    requires Script(Split(old1), Split(new1), hunks) && !CutShort(hunks) && AllSmall(hunks)
    requires old1 != "" && new1 != "" && Split(old1)[0] == Split(new1)[0]
    ensures FixText(old1, Printout(hunks)) == Some(new1)
  {
    hide FixText, Printout, Separated, CutShort, Small;
    var a, b := Split(old1), Split(new1);
    assert a != [] && b != [];
    if hunks != [] {
      assert Fits(a, b, hunks[0]) && hunks[0].o == hunks[0].n;
    }
    FixUndoesDiff(old1, new1, hunks);
  }

  /** An old file that ends in a newline is never cut short. */
  lemma EndedNotCut(old1: string, new1: string, hunks: seq<Hunk>)
    requires Script(Split(old1), Split(new1), hunks) && (old1 == "" || old1[|old1| - 1] == NL)
    ensures !CutShort(hunks)
  {
    hide Split, ScriptFrom, Separated, Ended, Concat;
    var a, b := Split(old1), Split(new1);
    SplitProper(old1);
    SplitProper(new1);
    if hunks != [] {
      var h := hunks[|hunks| - 1];
      HunksFit(a, b, 0, 0, hunks);
      if h.dels != [] && Open(h.dels[|h.dels| - 1]) {
        OpenLast(a, h);
        LastOpen(a);
        assert false;
      }
    }
  }

  lemma LastOpen(lines: seq<string>)
    requires lines != [] && Open(lines[|lines| - 1])
    ensures Concat(lines) != "" && Concat(lines)[|Concat(lines)| - 1] != NL
  {
    var n := |lines| - 1;
    assert lines == lines[..n] + [lines[n]];
    ConcatCat(lines[..n], [lines[n]]);
    ConcatOne(lines[n]);
  }

  // ----- the programs one after the other -----

  lemma {:induction false} NoLeadingZero(n: nat)
    requires n > 0
    ensures Dec(n)[0] != '0'
  {
    if n >= 10 {
      NoLeadingZero(n / 10);
    }
  }

  lemma DecimalStarts(x: int)
    ensures Decimal(x)[0] == '0' <==> Int16(x) == 0
    ensures Int16(x) == 0 ==> Decimal(x) == "0"
  {
    hide Int16;
    if Int16(x) > 0 {
      NoLeadingZero(Int16(x));
    }
  }

  /** An append after line 0 shows in the first two characters. */
  lemma ZeroAppendShows(h: Hunk)
    ensures |Header(h)| >= 2
    ensures Header(h)[..2] == "0a" <==> Int16(h.o) == 0 && h.dels == []
  {
    hide Decimal, Int16;
    if h.dels == [] {
      DecimalStarts(h.o);
      assert Header(h)[..2][0] == Decimal(h.o)[0];
    } else {
      DecimalStarts(h.o + 1);
      assert Header(h)[0] == Decimal(h.o + 1)[0];
      if Int16(h.o + 1) == 0 {
        assert Header(h)[1] != 'a';
        assert Header(h)[..2][1] == Header(h)[1];
      } else {
        assert Header(h)[..2][0] == Header(h)[0];
      }
    }
  }

  predicate BeginsWithZeroAppend(difflist: string) {
    |difflist| >= 2 && difflist[..2] == "0a"
  }

  lemma PrintoutBegins(hunks: seq<Hunk>)
    ensures BeginsWithZeroAppend(Printout(hunks)) <==> hunks != [] && hunks[0].dels == [] && Int16(hunks[0].o) == 0
    ensures Printout(hunks) == "" <==> hunks == []
  {
    hide Header, HunkText;
    if hunks == [] {
      NoText();
    } else {
      var h := hunks[0];
      HunkTextParts(h, Text(hunks[1..]));
      ZeroAppendShows(h);
      HunkTextNonempty(h);
      var t := Text(hunks);
      assert t[0] == Header(h);
      assert Concat(t) == Header(h) + Concat(t[1..]);
      assert (Header(h) + Concat(t[1..]))[..2] == Header(h)[..2];
    }
  }

  // ----- the difflist fits the buffers of fix -----

  function Pow10(k: nat): nat {
    if k == 0 then 1 else 10 * Pow10(k - 1)
  }

  lemma {:induction false} DecShort(n: nat, k: nat)
    requires k >= 1 && n < Pow10(k)
    ensures |Dec(n)| <= k
    decreases k
  {
    if n >= 10 {
      DecShort(n / 10, k - 1);
    }
  }

  lemma HeaderFits(h: Hunk)
    ensures LineFits(Header(h), 100)
  {
    hide Header;
    var body := HeaderLine(h);
  }

  lemma MarkedFits(mark: string, line: string, max: nat)
    requires LineFits(line, max) && NUL !in mark && NL !in mark
    ensures LineFits(mark + line, max + |mark|)
  {
    if line == "" && mark != "" {
      assert mark[|mark| - 1] in mark;
    }
  }

  lemma PrefixedFit(mark: string, lines: seq<string>, max: nat)
    requires LinesFit(lines, max) && NUL !in mark && NL !in mark
    ensures LinesFit(Prefixed(mark, lines), max + |mark|)
  {
    forall i | 0 <= i < |lines|
      ensures LineFits(mark + lines[i], max + |mark|)
    {
      MarkedFits(mark, lines[i], max);
    }
  }

  lemma FitsMore(lines: seq<string>, a: nat, b: nat)
    requires LinesFit(lines, a) && a <= b
    ensures LinesFit(lines, b)
  {
  }

  lemma TextFitsMore(text: string, a: nat, b: nat)
    requires TextFile(text, a) && a <= b
    ensures TextFile(text, b)
  {
    hide Split;
    FitsMore(Split(text), a, b);
  }

  lemma FitBoth(a: seq<string>, b: seq<string>, max: nat)
    requires LinesFit(a, max) && LinesFit(b, max)
    ensures LinesFit(a + b, max)
  {
    hide LineFits;
  }

  lemma HunkTextFits(h: Hunk)
    requires LinesFit(h.dels, 128) && LinesFit(h.adds, 128)
    ensures LinesFit(HunkText(h), 1000)
  {
    hide Header, LineFits, Prefixed;
    HeaderFits(h);
    assert LinesFit([Header(h)], 100);
    FitsMore([Header(h)], 100, 1000);
    PrefixedFit("< ", h.dels, 128);
    PrefixedFit("> ", h.adds, 128);
    FitsMore(Prefixed("< ", h.dels), 130, 1000);
    FitsMore(Prefixed("> ", h.adds), 130, 1000);
    RuleFits();
    FitBoth([Header(h)], Prefixed("< ", h.dels), 1000);
    var rule := if h.dels != [] && h.adds != [] then ["---\n"] else [];
    FitBoth([Header(h)] + Prefixed("< ", h.dels), rule, 1000);
    FitBoth([Header(h)] + Prefixed("< ", h.dels) + rule, Prefixed("> ", h.adds), 1000);
  }

  lemma RuleFits()
    ensures LineFits("---\n", 1000)
  {
  }

  lemma {:induction false} TextFits(hunks: seq<Hunk>)
    requires forall k :: 0 <= k < |hunks| ==> LinesFit(hunks[k].dels, 128) && LinesFit(hunks[k].adds, 128)
    ensures LinesFit(Text(hunks), 1000)
    decreases |hunks|
  {
    hide HunkText, LineFits;
    if hunks != [] {
      HunkTextFits(hunks[0]);
      TextFits(hunks[1..]);
    }
  }

  /** fix can read what diff prints. */
  lemma DifflistFits(old1: string, new1: string, hunks: seq<Hunk>)
    requires TextFile(old1, 128) && TextFile(new1, 128)
    requires Script(Split(old1), Split(new1), hunks)
    ensures TextFile(Printout(hunks), 1022)
  {
    hide Split, ScriptFrom, Separated, LinesFit, Text, Concat, CutShort, Proper, AllEnded, Printout;
    var a, b := Split(old1), Split(new1);
    SplitProper(old1);
    SplitProper(new1);
    HunksFit(a, b, 0, 0, hunks);
    forall k | 0 <= k < |hunks|
      ensures LinesFit(hunks[k].dels, 128) && LinesFit(hunks[k].adds, 128)
    {
      HunkFits(a, b, hunks[k]);
      PieceFits(a, hunks[k].o, hunks[k].OldEnd());
      PieceFits(b, hunks[k].n, hunks[k].NewEnd());
    }
    if CutShort(hunks) {
      CutFits(a, b, hunks);
    } else {
      WholePrintout(a, b, hunks);
      TextFits(hunks);
      FitsMore(Text(hunks), 1000, 1022);
    }
  }

  lemma PieceFits(lines: seq<string>, a: nat, b: nat)
    requires LinesFit(lines, 128) && a <= b <= |lines|
    ensures LinesFit(lines[a..b], 128)
  {
    hide LineFits;
  }

  lemma CutFits(old1: seq<string>, new1: seq<string>, hunks: seq<Hunk>)
    requires Script(old1, new1, hunks) && Proper(old1) && Proper(new1) && CutShort(hunks)
    requires forall k :: 0 <= k < |hunks| ==> LinesFit(hunks[k].dels, 128) && LinesFit(hunks[k].adds, 128)
    ensures LinesFit(Split(Printout(hunks)), 1022)
  {
    hide Ended, Open, Split, HunkText, Text, Concat, ScriptFrom, Separated, Fits, LinesFit;
    var n := |hunks| - 1;
    var pre, h := hunks[..n], hunks[n];
    CutPrintout(old1, new1, hunks);
    TextFits(pre);
    CutChunkFits(h);
    FitBoth(Text(pre), CutChunk(h), 1000);
    FitsMore(Text(pre) + CutChunk(h), 1000, 1022);
  }

  lemma CutChunkFits(h: Hunk)
    requires LinesFit(h.dels, 128) && LinesFit(h.adds, 128)
    requires h.dels != [] && Proper(h.adds)
    ensures LinesFit(CutChunk(h), 1000)
  {
    hide Header, LineFits, Prefixed, Split, Concat, Proper;
    var n := |h.dels| - 1;
    var adds := Prefixed("> ", h.adds);
    HeaderFits(h);
    assert LinesFit([Header(h)], 100);
    FitsMore([Header(h)], 100, 1000);
    PrefixedFit("< ", h.dels[..n], 128);
    PrefixedFit("> ", h.adds, 128);
    FitsMore(Prefixed("< ", h.dels[..n]), 130, 1000);
    FitsMore(adds, 130, 1000);
    PrefixedProper("> ", h.adds);
    SplitConcat(adds);
    CutLineFits(h.dels[n]);
    FitBoth([Header(h)], Prefixed("< ", h.dels[..n]), 1000);
    FitBoth([Header(h)] + Prefixed("< ", h.dels[..n]), ["< " + h.dels[n] + "---\n"], 1000);
    FitBoth([Header(h)] + Prefixed("< ", h.dels[..n]) + ["< " + h.dels[n] + "---\n"], adds, 1000);
  }

  lemma CutLineFits(line: string)
    requires LineFits(line, 128)
    ensures LineFits("< " + line + "---\n", 1000)
  {
  }

  lemma PrefixedProper(mark: string, lines: seq<string>)
    requires NL !in mark && Proper(lines)
    ensures Proper(Prefixed(mark, lines))
  {
    hide Ended, Open;
    forall i | 0 <= i < |lines|
      ensures (Ended(lines[i]) ==> Ended(mark + lines[i])) && (Open(lines[i]) ==> Open(mark + lines[i]))
    {
      MarkedEnded(mark, lines[i]);
    }
  }

  /** Every line number fits an int, and so does the next. */
  ghost predicate Short(text: string) {
    |Split(text)| < INT_MAX
  }

  /** What diff prints and what fix then makes of it.  For files of fewer than 32767 lines, the old
      one ended by a newline, fix makes the new one exactly if the difflist does not begin with
      "0a". */
  method DiffThenFix(old1: string, new1: string) returns (difflist: Option<string>, r: Option<string>)
    requires TextFile(old1, D.LINELEN) && TextFile(new1, D.LINELEN)
    ensures difflist.None? ==> exists h :: D.TooLarge(Split(old1), Split(new1), h)
    ensures difflist.Some? ==> (difflist.value == "" <==> old1 == new1)
    ensures difflist.Some? ==> exists hunks :: D.DiffScript(Split(old1), Split(new1), hunks) && AllModerate(hunks)
                                               && difflist.value == Printout(hunks) && Outcome(hunks, new1, r)
    ensures difflist.Some? && Short(old1) && Short(new1) && (old1 == "" || old1[|old1| - 1] == NL) ==>
              (r == Some(new1) <==> !BeginsWithZeroAppend(difflist.value))
    ensures difflist.Some? && |Split(old1)| < WORD16 && |Split(new1)| < WORD16 ==>
              (BeginsWithZeroAppend(difflist.value) ==> r != Some(new1))
  {
    hide Split, Printout, Script, TextFile, FixText, Outcome, BeginsWithZeroAppend, D.NearestHunk, AllModerate;
    hide D.TooLarge, Short;
    difflist := D.Diff(old1, new1);
    if difflist.None? {
      return difflist, None;
    }
    ghost var hunks :| D.DiffScript(Split(old1), Split(new1), hunks) && AllModerate(hunks)
                       && difflist.value == Printout(hunks);
    FixUndoesDiff(old1, new1, hunks);
    PrintoutEmpty(hunks);
    SameTexts(old1, new1, hunks);
    DifflistFits(old1, new1, hunks);
    TextFitsMore(old1, D.LINELEN, F.LINELEN - 2);
    r := F.Fix(old1, difflist.value);
    ShortOutcome(old1, new1, hunks, r);
  }

  lemma PrintoutEmpty(hunks: seq<Hunk>)
    ensures Printout(hunks) == "" <==> hunks == []
  {
    hide Printout;
    PrintoutBegins(hunks);
  }

  /** What the outcome is for files that are not too long. */
  lemma {:induction false} ShortOutcome(old1: string, new1: string, hunks: seq<Hunk>, r: Option<string>)
    requires Script(Split(old1), Split(new1), hunks) && Outcome(hunks, new1, r)
    ensures Short(old1) && Short(new1) && (old1 == "" || old1[|old1| - 1] == NL) ==>
              (r == Some(new1) <==> !BeginsWithZeroAppend(Printout(hunks)))
    ensures |Split(old1)| < WORD16 && |Split(new1)| < WORD16 && BeginsWithZeroAppend(Printout(hunks)) ==>
              r != Some(new1)
  {
    hide Split, Script, Printout, CutShort, StartsWithAppendAtZero, AllSmall, AllInWord, BeginsWithZeroAppend;
    hide AllReadable, AllModerate;
    ShortHunks(Split(old1), Split(new1), hunks);
    if AllInWord(hunks) {
      BeginsExactly(hunks);
    }
    if old1 == "" || old1[|old1| - 1] == NL {
      EndedNotCut(old1, new1, hunks);
    }
  }

  lemma BeginsExactly(hunks: seq<Hunk>)
    requires AllInWord(hunks)
    ensures BeginsWithZeroAppend(Printout(hunks)) <==> StartsWithAppendAtZero(hunks)
  {
    hide Printout;
    PrintoutBegins(hunks);
  }

  lemma {:induction false} ShortHunks(old1: seq<string>, new1: seq<string>, hunks: seq<Hunk>)
    requires Script(old1, new1, hunks)
    ensures |old1| < INT_MAX && |new1| < INT_MAX ==> AllSmall(hunks)
    ensures |old1| < WORD16 && |new1| < WORD16 ==> AllInWord(hunks)
  {
    hide ScriptFrom, Separated, Small, InWord, Fits;
    HunksFit(old1, new1, 0, 0, hunks);
    forall k | 0 <= k < |hunks|
      ensures |old1| < INT_MAX && |new1| < INT_MAX ==> Small(hunks[k])
      ensures |old1| < WORD16 && |new1| < WORD16 ==> InWord(hunks[k])
    {
      HunkFits(old1, new1, hunks[k]);
      ShortHunk(hunks[k], |old1|, |new1|);
    }
  }

  lemma ShortHunk(h: Hunk, a: nat, b: nat)
    requires h.OldEnd() <= a && h.NewEnd() <= b
    ensures a < INT_MAX && b < INT_MAX ==> Small(h)
    ensures a < WORD16 && b < WORD16 ==> InWord(h)
  {
  }

  lemma SameTexts(old1: string, new1: string, hunks: seq<Hunk>)
    requires Script(Split(old1), Split(new1), hunks)
    ensures hunks == [] <==> old1 == new1
  {
    hide Split, Concat, ScriptFrom, Separated;
    SplitProper(old1);
    SplitProper(new1);
    EmptyScript(Split(old1), Split(new1), hunks);
  }

  // ----- two pairs of files for which it fails -----

  lemma SplitTwo(a: string, b: string)
    requires Ended(a) && (Ended(b) || Open(b))
    ensures Split(a + b) == [a, b]
  {
    ConcatCat([a], [b]);
    ConcatOne(a);
    ConcatOne(b);
    assert [a] + [b] == [a, b];
    SplitConcat([a, b]);
  }

  lemma SplitOne(a: string)
    requires Ended(a) || Open(a)
    ensures Split(a) == [a]
  {
    ConcatOne(a);
    SplitConcat([a]);
  }

  lemma ShortLines()
    ensures Ended("a\n") && Ended("b\n") && Open("b") && Open("c")
  {
    assert "a\n"[..1] == "a" && "b\n"[..1] == "b";
  }

  lemma SmallLines()
    ensures LineFits("a\n", 128) && LineFits("b\n", 128) && LineFits("b", 128) && LineFits("c", 128)
  {
  }

  /** For "b" and "a", "b" diff appends after line 0. */
  lemma ZeroAppendOnly(hunks: seq<Hunk>)
    requires D.DiffScript(["b\n"], ["a\n", "b\n"], hunks)
    ensures hunks == [Hunk(0, [], 0, ["a\n"])]
  {
    var old1, new1 := ["b\n"], ["a\n", "b\n"];
    assert hunks != [];
    var h := hunks[0];
    hide D.NearestHunk, ScriptFrom, Separated;
    FirstHunk(old1, new1, hunks);
    assert old1[0] == "b\n" && new1[0] == "a\n" && new1[1] == "b\n" && "a\n" != "b\n";
    assert h.o == 0 && h.n == 0 && |hunks| == 1;
    assert D.NearestHunk(old1, new1, h);
    if |h.dels| == 1 {
      NotBothLines(h);
    }
    assert |h.dels| == 0 && |h.adds| == 1;
    assert h.adds == ["a\n"];
  }

  /** The search does not run past the common line to the ends of the files. */
  lemma NotBothLines(h: Hunk)
    requires h.o == 0 == h.n && |h.dels| == 1
    ensures |h.adds| == 2 ==> !D.NearestHunk(["b\n"], ["a\n", "b\n"], h)
  {
    assert D.Agrees(["b\n"], 0, 0, ["a\n", "b\n"], 0, 1);
  }

  /** What is known of the first hunk of a script and of the next. */
  lemma FirstHunk(old1: seq<string>, new1: seq<string>, hunks: seq<Hunk>)
    requires Script(old1, new1, hunks) && hunks != []
    ensures var h := hunks[0];
            && Fits(old1, new1, h) && h.o == h.n && (forall i :: 0 <= i < h.o ==> old1[i] == new1[i])
            && (|hunks| > 1 ==> h.OldEnd() < |old1| && h.NewEnd() < |new1|)
            && (|hunks| == 1 ==> old1[h.OldEnd()..] == new1[h.NewEnd()..])
            && (|hunks| > 1 ==> Fits(old1, new1, hunks[1]) && h.OldEnd() < hunks[1].o
                                && hunks[1].o - h.OldEnd() == hunks[1].n - h.NewEnd()
                                && (forall i :: h.OldEnd() <= i < hunks[1].o ==>
                                     old1[i] == new1[i - h.OldEnd() + h.NewEnd()]))
  {
    var h := hunks[0];
    SeparatedTail(hunks);
    assert forall i :: 0 <= i < h.o ==> old1[0..h.o][i] == old1[i] && new1[0..h.n][i] == new1[i];
    assert ScriptFrom(old1, new1, h.OldEnd(), h.NewEnd(), hunks[1..]);
    if |hunks| > 1 {
      var g := hunks[1];
      assert hunks[1..][0] == g && Fits(old1, new1, g);
      var a, b := old1[h.OldEnd()..g.o], new1[h.NewEnd()..g.n];
      forall i | h.OldEnd() <= i < g.o
        ensures old1[i] == new1[i - h.OldEnd() + h.NewEnd()]
      {
        assert a[i - h.OldEnd()] == old1[i] && b[i - h.OldEnd()] == new1[i - h.OldEnd() + h.NewEnd()];
      }
    }
  }

  lemma {:induction false} ZeroAppendOutcome(hunks: seq<Hunk>, r: Option<string>)
    requires D.DiffScript(["b\n"], ["a\n", "b\n"], hunks) && Outcome(hunks, "a\nb\n", r)
    ensures Printout(hunks) == "0a1\n> a\n" && r != Some("a\nb\n")
  {
    hide Printout, Script, Outcome, D.NearestHunk;
    ZeroAppendOnly(hunks);
    ZeroAppendText();
    ShortHunks(["b\n"], ["a\n", "b\n"], hunks);
    assert StartsWithAppendAtZero(hunks);
    NotReplayed(hunks, "a\nb\n", r);
  }

  /** And fix does not make the second file. */
  method ZeroAppendExample() returns (difflist: Option<string>, r: Option<string>)
    ensures difflist == Some("0a1\n> a\n") && r != Some("a\nb\n")
  {
    ShortLines();
    SplitOne("b\n");
    SplitTwo("a\n", "b\n");
    assert "a\n" + "b\n" == "a\nb\n";
    SmallLines();
    NotTooLarge(["b\n"], ["a\n", "b\n"]);
    hide Split, Printout, Outcome, LineFits, D.DiffScript, Ended, Open, D.TooLarge, AllModerate, Short;
    difflist, r := DiffThenFix("b\n", "a\nb\n");
    ghost var found :| D.DiffScript(["b\n"], ["a\n", "b\n"], found) && difflist.value == Printout(found)
                       && Outcome(found, "a\nb\n", r);
    ZeroAppendOutcome(found, r);
  }

  lemma NotTooLarge(file1: seq<string>, file2: seq<string>)
    requires |file1| < WORD16 && |file2| < WORD16
    ensures !exists h :: D.TooLarge(file1, file2, h)
  {
    hide D.NearestHunk;
  }

  lemma ZeroAppendText()
    ensures Printout([Hunk(0, [], 0, ["a\n"])]) == "0a1\n> a\n"
  {
    var h := Hunk(0, [], 0, ["a\n"]);
    assert Header(h) == "0a1\n";
    assert "> " + "a\n" == "> a\n" && Prefixed("> ", ["a\n"]) == ["> a\n"];
    assert HunkText(h) == ["0a1\n", "> a\n"];
    assert [h][1..] == [];
    assert Text([h]) == ["0a1\n"] + ["> a\n"];
    ConcatCat(["0a1\n"], ["> a\n"]);
    ConcatOne("0a1\n");
    ConcatOne("> a\n");
  }

  /** A last line without newline that changes. */
  lemma CutOnly(hunks: seq<Hunk>)
    requires Script(["a\n", "b"], ["a\n", "c"], hunks)
    ensures hunks == [Hunk(1, ["b"], 1, ["c"])]
  {
    var old1, new1 := ["a\n", "b"], ["a\n", "c"];
    assert hunks != [];
    var h := hunks[0];
    FirstHunk(old1, new1, hunks);
    assert old1[0] == new1[0] && old1[1] != new1[1];
    assert h.o == 1 && |hunks| == 1;
    assert |h.dels| == 1 && |h.adds| == 1;
    assert h.dels == ["b"] && h.adds == ["c"];
  }

  lemma CutText()
    ensures Printout([Hunk(1, ["b"], 1, ["c"])]) == "2c2\n< b---\n> c"
  {
    var h := Hunk(1, ["b"], 1, ["c"]);
    assert Header(h) == "2c2\n";
    assert "> " + "c" == "> c" && Prefixed("> ", ["c"]) == ["> c"];
    assert "< " + "b" == "< b" && Prefixed("< ", ["b"]) == ["< b"];
    assert HunkText(h) == ["2c2\n", "< b", "---\n", "> c"];
    assert [h][1..] == [];
    var t := HunkText(h);
    assert Text([h]) == t;
    assert t == ["2c2\n"] + ["< b"] + ["---\n"] + ["> c"];
    ConcatCat(["2c2\n"] + ["< b"] + ["---\n"], ["> c"]);
    ConcatCat(["2c2\n"] + ["< b"], ["---\n"]);
    ConcatCat(["2c2\n"], ["< b"]);
    ConcatOne("2c2\n");
    ConcatOne("< b");
    ConcatOne("---\n");
    ConcatOne("> c");
  }

  lemma {:induction false} CutOutcome(hunks: seq<Hunk>, r: Option<string>)
    requires Script(["a\n", "b"], ["a\n", "c"], hunks) && Outcome(hunks, "a\nc", r)
    ensures Printout(hunks) == "2c2\n< b---\n> c" && r != Some("a\nc")
  {
    hide Printout, Script, Outcome;
    CutOnly(hunks);
    CutText();
    ShortHunks(["a\n", "b"], ["a\n", "c"], hunks);
    assert CutShort(hunks) by {
      assert Open("b");
    }
    NotReplayed(hunks, "a\nc", r);
  }

  lemma NotReplayed(hunks: seq<Hunk>, new1: string, r: Option<string>)
    requires AllInWord(hunks) && !Replays(hunks) && Outcome(hunks, new1, r)
    ensures r != Some(new1)
  {
  }

  /** fix stops at the line that the rule has run into. */
  method CutExample() returns (difflist: Option<string>, r: Option<string>)
    ensures difflist == Some("2c2\n< b---\n> c") && r != Some("a\nc")
  {
    ShortLines();
    SplitTwo("a\n", "b");
    SplitTwo("a\n", "c");
    assert "a\n" + "b" == "a\nb" && "a\n" + "c" == "a\nc";
    SmallLines();
    NotTooLarge(["a\n", "b"], ["a\n", "c"]);
    hide Split, Printout, LineFits, Ended, Open, D.NearestHunk, D.TooLarge, Outcome, Script, AllModerate;
    difflist, r := DiffThenFix("a\nb", "a\nc");
    ghost var found :| D.DiffScript(["a\n", "b"], ["a\n", "c"], found) && difflist.value == Printout(found)
                       && Outcome(found, "a\nc", r);
    CutOutcome(found, r);
  }

  // ----- files with many lines -----

  function Many(n: nat): (s: seq<string>)
    ensures |s| == n && forall i :: 0 <= i < n ==> s[i] == "a\n"
  {
    seq(n, _ => "a\n")
  }

  /** The only script for two files that differ in their last lines alone. */
  lemma {:induction false} LastOnly(s: seq<string>, x: string, y: string, hunks: seq<Hunk>)
    requires x != y && Script(s + [x], s + [y], hunks)
    ensures hunks == [Hunk(|s|, [x], |s|, [y])]
  {
    hide ScriptFrom, Separated;
    var old1, new1 := s + [x], s + [y];
    assert old1[|s|] == x && new1[|s|] == y;
    EmptyScript(old1, new1, hunks);
    FirstHunk(old1, new1, hunks);
    var h := hunks[0];
    assert forall i :: 0 <= i < |s| ==> old1[i] == new1[i];
    assert h.o == |s| == h.n && |hunks| == 1;
    assert |h.dels| == 1 == |h.adds|;
    assert h.dels == [x] && h.adds == [y];
  }

  /** The only script that takes away a last line. */
  lemma {:induction false} LessOnly(s: seq<string>, x: string, hunks: seq<Hunk>)
    requires Script(s + [x], s, hunks)
    ensures hunks == [Hunk(|s|, [x], |s|, [])]
  {
    hide ScriptFrom, Separated;
    var old1 := s + [x];
    assert |old1| != |s|;
    EmptyScript(old1, s, hunks);
    FirstHunk(old1, s, hunks);
    var h := hunks[0];
    assert forall i :: 0 <= i < |s| ==> old1[i] == s[i];
    assert h.n == |s| == h.o && |hunks| == 1;
    assert old1[h.OldEnd()..] == s[h.NewEnd()..];
    assert |h.dels| == 1 && h.adds == [];
    assert h.dels[0] == old1[|s|] == x;
    assert h.dels == [x];
  }

  /** n lines and one more. */
  lemma {:induction false} ManyLines(n: nat, x: string)
    requires Ended(x) && LineFits(x, D.LINELEN)
    ensures Split(Concat(Many(n) + [x])) == Many(n) + [x] && TextFile(Concat(Many(n) + [x]), D.LINELEN)
  {
    hide Split, Concat, LineFits, Ended;
    ShortLines();
    SmallLines();
    SplitConcat(Many(n) + [x]);
  }

  /** The last of n + 1 lines is changed. */
  lemma {:induction false} LongOutcome(n: nat, hunks: seq<Hunk>, new1: string, r: Option<string>)
    requires n + 1 < WORD16 && Script(Many(n) + ["b\n"], Many(n) + ["c\n"], hunks) && Outcome(hunks, new1, r)
    ensures hunks == [Hunk(n, ["b\n"], n, ["c\n"])]
    ensures r == Some(new1) <==> n + 1 < INT_MAX
    ensures n + 1 >= INT_MAX ==> r == None
  {
    hide Script, Outcome;
    assert "b\n"[0] != "c\n"[0];
    LastOnly(Many(n), "b\n", "c\n", hunks);
    var h := hunks[0];
    assert AllInWord(hunks);
    assert AllSmall(hunks) <==> n + 1 < INT_MAX by {
      assert Small(h) <==> n + 1 < INT_MAX;
    }
    assert !CutShort(hunks) by {
      ShortLines();
      OpenNotEnded("b\n");
    }
    WordsReadable(hunks);
    WordOutcome(hunks, new1, r);
  }

  lemma WordOutcome(hunks: seq<Hunk>, new1: string, r: Option<string>)
    requires AllInWord(hunks) && AllModerate(hunks) && Outcome(hunks, new1, r)
    ensures r == Some(new1) <==> Replays(hunks)
    ensures !AllReadable(hunks) ==> r == None
  {
  }

  /** For every number of lines up to 65535: files that differ in the last line alone come out of
      diff and fix as they should exactly if they have fewer than 32767 lines.  With 32768 lines
      diff prints negative numbers. */
  method LongExample(n: nat) returns (old1: string, new1: string, difflist: Option<string>, r: Option<string>)
    requires n + 1 < WORD16
    ensures old1 == Concat(Many(n) + ["b\n"]) && new1 == Concat(Many(n) + ["c\n"]) && difflist.Some?
    ensures r == Some(new1) <==> n + 1 < INT_MAX
    ensures n + 1 >= INT_MAX ==> r == None
    ensures n == INT_MAX ==> "-32768c-32768\n" <= difflist.value
  {
    old1, new1 := Concat(Many(n) + ["b\n"]), Concat(Many(n) + ["c\n"]);
    ShortLines();
    SmallLines();
    ManyLines(n, "b\n");
    ManyLines(n, "c\n");
    NotTooLarge(Many(n) + ["b\n"], Many(n) + ["c\n"]);
    hide Split, Concat, TextFile, Printout, Outcome, Script, Many, D.NearestHunk, D.TooLarge, AllModerate, Short;
    difflist, r := DiffThenFix(old1, new1);
    ghost var found :| D.DiffScript(Many(n) + ["b\n"], Many(n) + ["c\n"], found)
                       && difflist.value == Printout(found) && Outcome(found, new1, r);
    LongOutcome(n, found, new1, r);
    if n == INT_MAX {
      LongHeader();
    }
  }

  lemma LongHeader()
    ensures "-32768c-32768\n" <= Printout([Hunk(INT_MAX, ["b\n"], INT_MAX, ["c\n"])])
  {
    var h := Hunk(INT_MAX, ["b\n"], INT_MAX, ["c\n"]);
    MinusText();
    assert Range(INT_MAX + 1, h.OldEnd()) == "-32768" == Range(INT_MAX + 1, h.NewEnd());
    assert Header(h) == "-32768" + "c" + "-32768" + "\n" == "-32768c-32768\n";
    hide Header;
    var text := HeaderFirst(h);
    ConcatCat([Header(h)], text);
    ConcatOne(Header(h));
  }

  lemma MinusText()
    ensures Decimal(INT_MAX + 1) == "-32768"
  {
    hide Dec;
    OneDigit(3);
    OneMoreDigit(32);
    OneMoreDigit(327);
    OneMoreDigit(3276);
    OneMoreDigit(32768);
    assert "3" + "2" + "7" + "6" + "8" == "32768" && "-" + "32768" == "-32768";
  }

  lemma OneDigit(n: nat)
    requires n < 10
    ensures Dec(n) == [Digit(n)]
  {
  }

  lemma OneMoreDigit(n: nat)
    requires n >= 10
    ensures Dec(n) == Dec(n / 10) + [Digit(n % 10)]
  {
  }

  /** Where numbers come round: one of many equal lines is taken away at the end, the number is cut
      to a small one, and fix takes away another of them, which makes the same file. */
  lemma {:induction false} RoundExample(n: nat, hunks: seq<Hunk>)
    requires n >= WORD16 && 0 <= Int16(n) < INT_MAX - 1 && Script(Many(n) + ["a\n"], Many(n), hunks)
    ensures !AllInWord(hunks) && !Replays(hunks)
    ensures FixText(Concat(Many(n) + ["a\n"]), Printout(hunks)) == Some(Concat(Many(n)))
  {
    hide Script, Concat, Split, Text, HunkText, Chunk, FixFrom;
    var old1, h := Many(n) + ["a\n"], Hunk(n, ["a\n"], n, []);
    LessOnly(Many(n), "a\n", hunks);
    assert !InWord(hunks[0]) && !Small(hunks[0]);
    RoundSplit(n, h);
    RoundChunk(n, h);
    var s := Int16(n);
    assert old1[s + 1..] == Many(n - s);
    FixEnd(old1, s + 1);
    FixStep(old1, 0, HunkText(h), old1[s + 1..]);
    assert old1[0..s] + old1[s + 1..] == Many(n);
  }

  lemma FixEnd(file: seq<string>, here: nat)
    requires here <= |file|
    ensures FixFrom(file, here, []) == Some(file[here..])
  {
  }

  lemma {:induction false} RoundSplit(n: nat, h: Hunk)
    requires h == Hunk(n, ["a\n"], n, [])
    ensures Split(Concat(Many(n) + ["a\n"])) == Many(n) + ["a\n"]
    ensures HunkText(h) != [] && Split(Printout([h])) == HunkText(h)
  {
    hide Split, Concat, HunkText, Ended;
    ShortLines();
    SmallLines();
    ManyLines(n, "a\n");
    OneText(h);
    HunkTextNonempty(h);
    HunkEnded(h);
    SplitConcat(HunkText(h));
  }

  lemma OneText(h: Hunk)
    ensures Text([h]) == HunkText(h)
  {
    hide HunkText;
    assert [h][1..] == [];
  }

  lemma {:induction false} RoundChunk(n: nat, h: Hunk)
    requires h == Hunk(n, ["a\n"], n, []) && 0 <= Int16(n) < INT_MAX - 1
    ensures HunkText(h) != []
    ensures var old1, s := Many(n) + ["a\n"], Int16(n);
            s <= n && Chunk(old1, 0, HunkText(h)) == Some(Done(old1[0..s], s + 1, []))
  {
    hide ReadCommand, Header, Adds, Dels, HunkText, WhiteEqual, Prefixed;
    var old1, s := Many(n) + ["a\n"], Int16(n);
    Int16Sum(n, 1);
    ReadHeader(h);
    HunkTextNonempty(h);
    HunkTextParts(h, []);
    assert HunkText(h) + [] == HunkText(h);
    assert s <= n;
    assert old1[s..s + 1] == ["a\n"];
    DelsOfHunk(old1, s, 1, Prefixed("< ", h.dels) + [], []);
  }
}
