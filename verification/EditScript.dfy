/** What diff(1) prints and what fix(1) reads: hunks, as data and as text. */
module EditScript {
  import opened Common
  import opened TextLines

  /** Lines o + 1 .. of the old file go, lines n + 1 .. of the new file come. */
  datatype Hunk = Hunk(o: nat, dels: seq<string>, n: nat, adds: seq<string>) {
    function OldEnd(): nat { o + |dels| }
    function NewEnd(): nat { n + |adds| }
  }

  /** The lines of the hunk can be counted in an int without coming round to 0. */
  predicate Moderate(h: Hunk) {
    |h.dels| < WORD16 && |h.adds| < WORD16
  }

  ghost predicate AllModerate(hunks: seq<Hunk>) {
    forall k :: 0 <= k < |hunks| ==> Moderate(hunks[k])
  }

  /** h describes a piece of both files, starting at two lines that differ. */
  ghost predicate Fits(old1: seq<string>, new1: seq<string>, h: Hunk) {
    && h.OldEnd() <= |old1| && h.NewEnd() <= |new1|
    && h.dels == old1[h.o..h.OldEnd()] && h.adds == new1[h.n..h.NewEnd()]
    && (h.dels != [] || h.adds != [])
    && (h.o < |old1| && h.n < |new1| ==> old1[h.o] != new1[h.n])
  }

  /** From lines i and j on, the files are equal but for the hunks. */
  ghost predicate ScriptFrom(old1: seq<string>, new1: seq<string>, i: nat, j: nat, hunks: seq<Hunk>)
    requires i <= |old1| && j <= |new1|
    decreases |hunks|
  {
    if hunks == [] then old1[i..] == new1[j..]
    else
      var h := hunks[0];
      && Fits(old1, new1, h)
      && i <= h.o && h.o - i == h.n - j
      && old1[i..h.o] == new1[j..h.n]
      && ScriptFrom(old1, new1, h.OldEnd(), h.NewEnd(), hunks[1..])
  }

  /** Hunks come in increasing order, with an unchanged line between any two. */
  ghost predicate Separated(hunks: seq<Hunk>) {
    forall k :: 0 <= k < |hunks| - 1 ==> hunks[k].OldEnd() < hunks[k + 1].o && hunks[k].NewEnd() < hunks[k + 1].n
  }

  /** hunks turn old1 into new1. */
  ghost predicate Script(old1: seq<string>, new1: seq<string>, hunks: seq<Hunk>) {
    ScriptFrom(old1, new1, 0, 0, hunks) && Separated(hunks)
  }

  /** Editing the old file from line i on. */
  function Apply(old1: seq<string>, i: nat, hunks: seq<Hunk>): Option<seq<string>>
    requires i <= |old1|
    decreases |hunks|
  {
    if hunks == [] then Some(old1[i..])
    else
      var h := hunks[0];
      if h.o < i || h.OldEnd() > |old1| || old1[h.o..h.OldEnd()] != h.dels then None
      else
        match Apply(old1, h.OldEnd(), hunks[1..])
        case None => None
        case Some(rest) => Some(old1[i..h.o] + h.adds + rest)
  }

  /** A script edits the old file into the new one. */
  lemma {:induction false} ScriptApplies(old1: seq<string>, new1: seq<string>, i: nat, j: nat, hunks: seq<Hunk>)
    requires i <= |old1| && j <= |new1| && ScriptFrom(old1, new1, i, j, hunks)
    ensures Apply(old1, i, hunks) == Some(new1[j..])
    decreases |hunks|
  {
    if hunks != [] {
      var h := hunks[0];
      ScriptApplies(old1, new1, h.OldEnd(), h.NewEnd(), hunks[1..]);
      assert new1[j..] == new1[j..h.n] + new1[h.n..h.NewEnd()] + new1[h.NewEnd()..];
    }
  }

  /** A script is empty exactly when there is nothing to change. */
  lemma EmptyScript(old1: seq<string>, new1: seq<string>, hunks: seq<Hunk>)
    requires Script(old1, new1, hunks)
    ensures hunks == [] <==> old1 == new1
  {
    if hunks == [] {
      assert old1[0..] == old1 && new1[0..] == new1;
    }
  }

  // ----- building a script from the left -----

  /** The hunks cover lines 1 .. i of the old and 1 .. j of the new file. */
  ghost predicate Covers(old1: seq<string>, new1: seq<string>, hunks: seq<Hunk>, i: nat, j: nat)
  {
    && i <= |old1| && j <= |new1|
    && if hunks == [] then i == j && old1[..i] == new1[..j]
       else
         var h := hunks[|hunks| - 1];
         && Fits(old1, new1, h)
         && h.OldEnd() <= i && i - h.OldEnd() == j - h.NewEnd()
         && old1[h.OldEnd()..i] == new1[h.NewEnd()..j]
         && Covers(old1, new1, hunks[..|hunks| - 1], h.o, h.n)
  }

  lemma CoversEqualLine(old1: seq<string>, new1: seq<string>, hunks: seq<Hunk>, i: nat, j: nat)
    requires Covers(old1, new1, hunks, i, j) && i < |old1| && j < |new1| && old1[i] == new1[j]
    ensures Covers(old1, new1, hunks, i + 1, j + 1)
  {
    if hunks == [] {
      assert old1[..i + 1] == old1[..i] + [old1[i]] && new1[..j + 1] == new1[..j] + [new1[j]];
    } else {
      var h := hunks[|hunks| - 1];
      assert old1[h.OldEnd()..i + 1] == old1[h.OldEnd()..i] + [old1[i]];
      assert new1[h.NewEnd()..j + 1] == new1[h.NewEnd()..j] + [new1[j]];
    }
  }

  lemma CoversHunk(old1: seq<string>, new1: seq<string>, hunks: seq<Hunk>, h: Hunk)
    requires Covers(old1, new1, hunks, h.o, h.n) && Fits(old1, new1, h)
    ensures Covers(old1, new1, hunks + [h], h.OldEnd(), h.NewEnd())
  {
    assert (hunks + [h])[..|hunks|] == hunks;
  }

  /** A script may start at equal lines before its first hunk, or with a hunk before it. */
  lemma ScriptStarts(old1: seq<string>, new1: seq<string>, i: nat, j: nat, h: Hunk, tail: seq<Hunk>)
    requires i <= |old1| && j <= |new1| && Fits(old1, new1, h)
    requires h.OldEnd() <= i && i - h.OldEnd() == j - h.NewEnd()
    requires old1[h.OldEnd()..i] == new1[h.NewEnd()..j]
    requires if tail == [] then i == |old1| && j == |new1|
             else i == tail[0].o && j == tail[0].n && ScriptFrom(old1, new1, i, j, tail)
    ensures ScriptFrom(old1, new1, h.o, h.n, [h] + tail)
  {
    assert ([h] + tail)[1..] == tail;
    assert old1[h.o..h.o] == [] && new1[h.n..h.n] == [];
    if tail == [] {
      assert old1[h.OldEnd()..i] == old1[h.OldEnd()..] && new1[h.NewEnd()..j] == new1[h.NewEnd()..];
    } else {
      assert ScriptFrom(old1, new1, h.OldEnd(), h.NewEnd(), tail);
    }
  }

  lemma EqualStart(old1: seq<string>, new1: seq<string>, i: nat, tail: seq<Hunk>)
    requires i <= |old1| && i <= |new1| && old1[..i] == new1[..i]
    requires if tail == [] then i == |old1| == |new1|
             else i == tail[0].o == tail[0].n && ScriptFrom(old1, new1, i, i, tail)
    ensures ScriptFrom(old1, new1, 0, 0, tail)
  {
    assert old1[0..i] == old1[..i] && new1[0..i] == new1[..i];
    if tail == [] {
      assert old1[0..] == old1[..i] && new1[0..] == new1[..i];
    }
  }

  lemma {:induction false} CoversScript(old1: seq<string>, new1: seq<string>, hunks: seq<Hunk>, i: nat, j: nat,
                                        tail: seq<Hunk>)
    requires Covers(old1, new1, hunks, i, j)
    requires if tail == [] then i == |old1| && j == |new1|
             else i == tail[0].o && j == tail[0].n && ScriptFrom(old1, new1, i, j, tail)
    ensures ScriptFrom(old1, new1, 0, 0, hunks + tail)
    decreases |hunks|
  {
    hide ScriptFrom, Fits;
    if hunks == [] {
      assert hunks + tail == tail;
      EqualStart(old1, new1, i, tail);
    } else {
      var k := |hunks| - 1;
      var h := hunks[k];
      ScriptStarts(old1, new1, i, j, h, tail);
      CoversScript(old1, new1, hunks[..k], h.o, h.n, [h] + tail);
      assert hunks[..k] + ([h] + tail) == hunks + tail;
    }
  }

  // ----- the text form -----

  function Digit(d: nat): char
    requires d < 10
  {
    '0' + d as char
  }

  function Dec(n: nat): (s: string)
    ensures s != []
  {
    if n < 10 then [Digit(n)] else Dec(n / 10) + [Digit(n % 10)]
  }

  /** printf %d of an int */
  function Decimal(x: int): (s: string)
    ensures s != []
  {
    if Int16(x) < 0 then "-" + Dec(-Int16(x)) else Dec(Int16(x))
  }

  /** range(a, b) of diff.c */
  function Range(a: int, b: int): string {
    if Int16(a) == Int16(b) then Decimal(a) else Decimal(a) + "," + Decimal(b)
  }

  function Header(h: Hunk): string {
    if h.dels == [] then Decimal(h.o) + "a" + Range(h.n + 1, h.NewEnd()) + "\n"
    else if h.adds == [] then Range(h.o + 1, h.OldEnd()) + "d" + Decimal(h.n) + "\n"
    else Range(h.o + 1, h.OldEnd()) + "c" + Range(h.n + 1, h.NewEnd()) + "\n"
  }

  function Prefixed(mark: string, lines: seq<string>): (r: seq<string>)
    ensures |r| == |lines|
    ensures forall i :: 0 <= i < |lines| ==> r[i] == mark + lines[i]
  {
    seq(|lines|, i requires 0 <= i < |lines| => mark + lines[i])
  }

  lemma PrefixedSnoc(mark: string, lines: seq<string>, x: string)
    ensures Prefixed(mark, lines + [x]) == Prefixed(mark, lines) + [mark + x]
  {
  }

  function HunkText(h: Hunk): seq<string> {
    [Header(h)] + Prefixed("< ", h.dels)
    + (if h.dels != [] && h.adds != [] then ["---\n"] else [])
    + Prefixed("> ", h.adds)
  }

  function Text(hunks: seq<Hunk>): seq<string> {
    if hunks == [] then [] else HunkText(hunks[0]) + Text(hunks[1..])
  }

  lemma {:induction false} TextSnoc(hunks: seq<Hunk>, h: Hunk)
    ensures Text(hunks + [h]) == Text(hunks) + HunkText(h)
  {
    if hunks == [] {
      assert [h][1..] == [];
    } else {
      TextSnoc(hunks[1..], h);
      assert (hunks + [h])[1..] == hunks[1..] + [h];
    }
  }

  /** What is printed, as one text. */
  function Printout(hunks: seq<Hunk>): string {
    Concat(Text(hunks))
  }
}
