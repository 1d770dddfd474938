/** Text files, and the lines fgets() makes of them. */
module TextLines {

  const NL := '\n'
  const NUL := '\0'

  /** The length of the first line, its newline included. */
  function LineLen(text: string): (n: nat)
    ensures n <= |text| && (text != "" ==> n > 0)
  {
    if text == "" then 0 else if text[0] == NL then 1 else 1 + LineLen(text[1..])
  }

  /** The lines of a text.  Only the last one may lack its newline. */
  function Split(text: string): seq<string>
    decreases |text|
  {
    if text == "" then [] else [text[..LineLen(text)]] + Split(text[LineLen(text)..])
  }

  function Concat(lines: seq<string>): string {
    if lines == [] then "" else lines[0] + Concat(lines[1..])
  }

  /** A line with its newline. */
  ghost predicate Ended(line: string) {
    line != "" && line[|line| - 1] == NL && NL !in line[..|line| - 1]
  }

  /** A line without one. */
  ghost predicate Open(line: string) {
    line != "" && NL !in line
  }

  ghost predicate AllEnded(lines: seq<string>) {
    forall i :: 0 <= i < |lines| ==> Ended(lines[i])
  }

  /** What a text splits into. */
  ghost predicate Proper(lines: seq<string>) {
    forall i :: 0 <= i < |lines| ==> Ended(lines[i]) || (i == |lines| - 1 && Open(lines[i]))
  }

  lemma {:induction false} ConcatCat(a: seq<string>, b: seq<string>)
    ensures Concat(a + b) == Concat(a) + Concat(b)
    decreases |a|
  {
    if a == [] {
      assert a + b == b;
    } else {
      assert (a + b)[1..] == a[1..] + b;
      ConcatCat(a[1..], b);
    }
  }

  lemma ConcatOne(line: string)
    ensures Concat([line]) == line
  {
    assert [line][1..] == [];
  }

  lemma {:induction false} LineLenIs(text: string)
    requires text != ""
    ensures var line := text[..LineLen(text)];
            if NL in text then Ended(line) else Open(line) && line == text
    decreases |text|
  {
    if text[0] != NL && |text| > 1 {
      var rest := text[1..];
      LineLenIs(rest);
      var n := LineLen(rest);
      assert text[..n + 1] == [text[0]] + rest[..n];
      var line := text[..n + 1];
      if NL in rest {
        assert line[..n] == [text[0]] + rest[..n][..n - 1];
      }
    } else {
      assert text[..1] == [text[0]] && text[..1][..0] == [];
    }
  }

  /** A text is its lines. */
  lemma {:induction false} SplitProper(text: string)
    ensures Proper(Split(text)) && Concat(Split(text)) == text
    decreases |text|
  {
    if text != "" {
      var n := LineLen(text);
      LineLenIs(text);
      SplitProper(text[n..]);
      assert text[..n] + text[n..] == text;
      assert Split(text)[1..] == Split(text[n..]);
    }
  }

  lemma {:induction false} FirstLineLen(line: string, rest: string)
    requires Ended(line) || (Open(line) && rest == "")
    ensures LineLen(line + rest) == |line|
    decreases |line|
  {
    if |line| == 1 {
      if Open(line) {
        assert line + rest == line;
      }
    } else {
      assert (line + rest)[0] == line[0] && (line + rest)[1..] == line[1..] + rest;
      if Ended(line) {
        assert line[0] == line[..|line| - 1][0];
        assert line[1..][..|line| - 2] == line[..|line| - 1][1..];
      }
      FirstLineLen(line[1..], rest);
    }
  }

  lemma NotEmpty(line: string)
    requires Ended(line)
    ensures line != ""
  {
  }

  /** Lines that end split off whatever follows them. */
  lemma {:induction false} SplitEnded(lines: seq<string>, rest: string)
    requires AllEnded(lines)
    ensures Split(Concat(lines) + rest) == lines + Split(rest)
    decreases |lines|
  {
    hide Ended, LineLen;
    if lines == [] {
      assert Concat(lines) + rest == rest;
    } else {
      var line, tail := lines[0], Concat(lines[1..]) + rest;
      SplitEnded(lines[1..], rest);
      FirstLineLen(line, tail);
      assert Concat(lines) + rest == line + tail;
      assert line != "" by {
        NotEmpty(line);
      }
      assert (line + tail)[..|line|] == line && (line + tail)[|line|..] == tail;
      assert [line] + (lines[1..] + Split(rest)) == lines + Split(rest);
    }
  }

  /** Proper lines come back from their text. */
  lemma SplitConcat(lines: seq<string>)
    requires Proper(lines)
    ensures Split(Concat(lines)) == lines
  {
    if lines == [] || Ended(lines[|lines| - 1]) {
      SplitEnded(lines, "");
      assert Concat(lines) + "" == Concat(lines);
    } else {
      var n := |lines| - 1;
      var last := lines[n];
      assert lines == lines[..n] + [last];
      ConcatCat(lines[..n], [last]);
      ConcatOne(last);
      SplitEnded(lines[..n], last);
      SplitOpen(last);
    }
  }

  lemma SplitOpen(line: string)
    requires Open(line)
    ensures Split(line) == [line]
  {
    FirstLineLen(line, "");
    assert line + "" == line;
    assert line[..|line|] == line && line[|line|..] == "";
  }

  /** fgets() until end of file. */
  method ReadLines(text: string) returns (lines: seq<string>)
    ensures lines == Split(text)
  {
    hide LineLen;
    lines := [];
    var pos := 0;
    assert text[0..] == text;
    while pos < |text|
      invariant 0 <= pos <= |text| && Split(text) == lines + Split(text[pos..])
      decreases |text| - pos
    {
      var end := LineEnd(text, pos);
      ghost var n := LineLen(text[pos..]);
      assert text[pos..][..n] == text[pos..end] && text[pos..][n..] == text[end..];
      lines := lines + [text[pos..end]];
      pos := end;
    }
  }

  /** fgets(): the end of the line that begins at pos. */
  method LineEnd(text: string, pos: nat) returns (end: nat)
    requires pos < |text|
    ensures end == pos + LineLen(text[pos..])
  {
    end := pos;
    while end < |text| && text[end] != NL
      invariant pos <= end <= |text| && LineLen(text[pos..]) == (end - pos) + LineLen(text[end..])
    {
      assert text[end..][0] == text[end] && text[end..][1..] == text[end + 1..];
      end := end + 1;
    }
    if end < |text| {
      assert text[end..][0] == NL;
      end := end + 1;
    }
  }

  /** The length of a line without its newline. */
  function Length(line: string): nat {
    if line != "" && line[|line| - 1] == NL then |line| - 1 else |line|
  }

  /** A line that is read as it is: no NUL, which ends a C string, and no longer than the buffer. */
  ghost predicate LineFits(line: string, max: nat) {
    NUL !in line && Length(line) <= max
  }

  ghost predicate LinesFit(lines: seq<string>, max: nat) {
    forall i :: 0 <= i < |lines| ==> LineFits(lines[i], max)
  }

  /** A text whose lines are all such lines. */
  ghost predicate TextFile(text: string, max: nat) {
    LinesFit(Split(text), max)
  }
}
