/** src/commands/fgrep.c: searching a line with a table of skips. */
module Fgrep {
  import opened Common

  ghost predicate MatchAt(line: seq<byte>, word: seq<byte>, k: nat) {
    k + |word| <= |line| && line[k..k + |word|] == word
  }

  ghost predicate Occurs(line: seq<byte>, word: seq<byte>) {
    exists k :: MatchAt(line, word, k)
  }

  /** table[c] is how far the last c is from the end of the word, or its length if there is none. */
  ghost predicate SkipTable(word: seq<byte>, table: seq<nat>) {
    && |table| == 256
    && forall c :: 0 <= c < 256 ==> SkipFor(word, c, table[c])
  }

  ghost predicate SkipFor(word: seq<byte>, c: int, skip: nat) {
    && skip <= |word|
    && (forall j :: |word| - skip <= j < |word| ==> word[j] != c)
    && (skip < |word| ==> word[|word| - 1 - skip] == c)
  }

  /** maktbl(): skips fit an unsigned char because words have at most 255 characters. */
  method MakTbl(word: seq<byte>) returns (table: seq<nat>)
    requires |word| <= 255
    ensures SkipTable(word, table) && forall c :: 0 <= c < 256 ==> table[c] < 256
  {
    var tbl := new nat[256](_ => |word|);
    var i := 0;
    while i < |word|
      invariant 0 <= i <= |word|
      invariant forall c :: 0 <= c < 256 ==> FilledFor(word, i, c, tbl[c])
    {
      tbl[word[i]] := |word| - i - 1;
      i := i + 1;
    }
    table := tbl[..];
  }

  /** The entry for c after the first i characters. */
  ghost predicate FilledFor(word: seq<byte>, i: nat, c: int, skip: nat)
    requires i <= |word|
  {
    if forall j :: 0 <= j < i ==> word[j] != c then skip == |word|
    else
      && |word| - i <= skip < |word| && word[|word| - 1 - skip] == c
      && forall j :: |word| - skip <= j < i ==> word[j] != c
  }

  /** With character c of the line under the end of the word, nearer matches cannot be. */
  lemma SkipSafe(line: seq<byte>, word: seq<byte>, offset: nat, skip: nat, k: nat)
    requires |word| > 0 && offset + |word| <= |line| && SkipFor(word, line[offset + |word| - 1], skip)
    requires offset <= k < offset + skip
    ensures !MatchAt(line, word, k)
  {
    if k + |word| <= |line| {
      var j := offset + |word| - 1 - k;
      assert line[k..k + |word|][j] == line[k + j] && word[j] != line[k + j];
    }
  }

  /** find(): whether the word is somewhere in the line. */
  method Find(line: seq<byte>, word: seq<byte>, table: seq<nat>) returns (found: bool)
    requires |word| >= 1 && SkipTable(word, table)
    ensures found <==> Occurs(line, word)
  {
    var boundary, last := |line| - |word|, |word| - 1;
    var offset := 0;
    while offset <= boundary
      invariant 0 <= offset
      invariant forall k :: 0 <= k < offset ==> !MatchAt(line, word, k)
      decreases |line| - offset
    {
      var tmp := table[line[offset + last]];
      assert SkipFor(word, line[offset + last], tmp);
      forall k | offset <= k < offset + tmp
        ensures !MatchAt(line, word, k)
      {
        SkipSafe(line, word, offset, tmp, k);
      }
      if tmp != 0 {
        offset := offset + tmp;
      } else {
        var k := last - 1;
        while k >= 0 && line[k + offset] == word[k]
          invariant -1 <= k < last
          invariant forall j :: k < j <= last ==> line[j + offset] == word[j]
        {
          k := k - 1;
        }
        if k < 0 {
          assert line[offset..offset + |word|] == word;
          assert MatchAt(line, word, offset);
          return true;
        }
        assert line[offset..offset + |word|][k] == line[k + offset];
        offset := offset + 1;
      }
    }
    found := false;
  }

  /** Table and search together. */
  method Search(line: seq<byte>, word: seq<byte>) returns (found: bool)
    requires 1 <= |word| <= 255 && forall i :: 0 <= i < |line| ==> line[i] < 128
    ensures found <==> Occurs(line, word)
  {
    var table := MakTbl(word);
    found := Find(line, word, table);
  }
}
