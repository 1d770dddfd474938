/**
 tools/build.py: the boot block gets a table of the sectors written and left
 out for each program, and a word that makes its checksum right.
 */
module BootBlock {
  import opened Common
  import opened BootImage

  const PROGRAMS := 5
  const WORDS := 256
  const CHECKSUM := 0x1234

  // ----- big-endian words -----

  function WordAt(s: seq<byte>, p: nat): (w: nat)
    requires p + 2 <= |s|
    ensures w < WORD16
  {
    var x: nat, y: nat := s[p], s[p + 1];
    256 * x + y
  }

  function Stored(s: seq<byte>, p: nat, v: nat): (r: seq<byte>)
    requires p + 2 <= |s| && v < WORD16
    ensures |r| == |s|
  {
    s[p := v / 256][p + 1 := v % 256]
  }

  lemma StoredWord(s: seq<byte>, p: nat, v: nat, q: nat)
    requires p + 2 <= |s| && q + 2 <= |s| && v < WORD16 && p % 2 == q % 2
    ensures WordAt(Stored(s, p, v), q) == if p == q then v else WordAt(s, q)
  {
  }

  /** The sum of the first n words. */
  function WordSum(s: seq<byte>, n: nat): nat
    requires 2 * n <= |s|
  {
    if n == 0 then 0 else WordSum(s, n - 1) + WordAt(s, 2 * (n - 1))
  }

  lemma {:induction false} StoredSum(s: seq<byte>, k: nat, v: nat, n: nat)
    requires 2 * n <= |s| && 2 * k + 2 <= |s| && v < WORD16
    ensures WordSum(Stored(s, 2 * k, v), n) == if k < n then WordSum(s, n) + v - WordAt(s, 2 * k) else WordSum(s, n)
  {
    hide WordAt, Stored;
    if n > 0 {
      StoredSum(s, k, v, n - 1);
      StoredWord(s, 2 * k, v, 2 * (n - 1));
    }
  }

  // ----- the patched block -----

  /** The entries of the first n programs are in the table. */
  ghost predicate TableOf(s: seq<byte>, secs: seq<nat>, nulls: seq<nat>, n: nat)
    requires |s| == SECTOR && |secs| == |nulls| && n <= |secs| <= PROGRAMS
  {
    forall i :: 0 <= i < n ==> WordAt(s, 480 + 4 * i) == secs[i] % WORD16 && WordAt(s, 482 + 4 * i) == nulls[i] % WORD16
  }

  /** The size of everything in sectors, and where the menu starts in clicks. */
  ghost predicate EndOf(s: seq<byte>, sectors: nat, clicks: nat)
    requires |s| == SECTOR
  {
    && WordAt(s, 504) == sectors % WORD16 && WordAt(s, 506) == clicks % WORD16
    && WordAt(s, 508) == 0 && WordAt(s, 510) == clicks % WORD16
  }

  lemma TableStays(s: seq<byte>, p: nat, v: nat, secs: seq<nat>, nulls: seq<nat>, n: nat, sectors: nat, clicks: nat)
    requires |s| == SECTOR && |secs| == |nulls| && n <= |secs| <= PROGRAMS && v < WORD16
    requires p % 2 == 0 && 480 + 4 * n <= p < 504 && TableOf(s, secs, nulls, n) && EndOf(s, sectors, clicks)
    ensures TableOf(Stored(s, p, v), secs, nulls, n) && EndOf(Stored(s, p, v), sectors, clicks)
    ensures Stored(s, p, v)[..480] == s[..480]
  {
    hide WordAt;
    var r := Stored(s, p, v);
    forall i | 0 <= i < n
      ensures WordAt(r, 480 + 4 * i) == secs[i] % WORD16 && WordAt(r, 482 + 4 * i) == nulls[i] % WORD16
    {
      StoredWord(s, p, v, 480 + 4 * i);
      StoredWord(s, p, v, 482 + 4 * i);
    }
    StoredWord(s, p, v, 504);
    StoredWord(s, p, v, 506);
    StoredWord(s, p, v, 508);
    StoredWord(s, p, v, 510);
  }

  method PutWord(block: array<byte>, p: nat, v: nat)
    requires p + 2 <= block.Length && v < WORD16
    modifies block
    ensures block[..] == Stored(old(block[..]), p, v)
  {
    block[p] := v / 256;
    block[p + 1] := v % 256;
  }

  /** The four words at the end of the block. */
  method PutEnd(block: array<byte>, sectors: nat, clicks: nat)
    requires block.Length == SECTOR
    modifies block
    ensures EndOf(block[..], sectors, clicks) && block[..480] == old(block[..480])
  {
    PutWord(block, 504, sectors % WORD16);
    PutWord(block, 506, clicks % WORD16);
    PutWord(block, 508, 0);
    PutWord(block, 510, clicks % WORD16);
    assert block[..480] == block[..][..480];
  }

  /** Patch 1 of build: the table, and the checksum. */
  method Patch(block: array<byte>, sectors: nat, clicks: nat, secs: seq<nat>, nulls: seq<nat>)
    requires block.Length == SECTOR && |secs| == |nulls| == PROGRAMS
    modifies block
    ensures TableOf(block[..], secs, nulls, PROGRAMS) && EndOf(block[..], sectors, clicks)
    ensures block[..480] == old(block[..480]) && WordAt(block[..], 500) == 0
    ensures WordSum(block[..], WORDS) % WORD16 == CHECKSUM
  {
    hide TableOf, EndOf, WordAt, Stored;
    PutEnd(block, sectors, clicks);
    var i := 0;
    EmptyTable(block[..], secs, nulls);
    while i < PROGRAMS
      invariant 0 <= i <= PROGRAMS && TableOf(block[..], secs, nulls, i) && EndOf(block[..], sectors, clicks)
      invariant block[..][..480] == old(block[..480])
    {
      ghost var s := block[..];
      PutWord(block, 480 + 4 * i, secs[i] % WORD16);
      ghost var s1 := block[..];
      PutWord(block, 482 + 4 * i, nulls[i] % WORD16);
      OneMore(s, s1, block[..], i, secs, nulls, sectors, clicks);
      i := i + 1;
    }
    TableStays(block[..], 500, 0, secs, nulls, PROGRAMS, sectors, clicks);
    StoredWord(block[..], 500, 0, 500);
    PutWord(block, 500, 0);
    ghost var s := block[..];
    var total := WordSum(block[..], WORDS) % WORD16;
    var old1 := WordAt(block[..], 502);
    var v := (old1 - total + CHECKSUM) % WORD16;
    StoredSum(s, 251, v, WORDS);
    StoredWord(s, 502, v, 500);
    TableStays(s, 502, v, secs, nulls, PROGRAMS, sectors, clicks);
    PutWord(block, 502, v);
  }

  lemma EmptyTable(s: seq<byte>, secs: seq<nat>, nulls: seq<nat>)
    requires |s| == SECTOR && |secs| == |nulls| <= PROGRAMS
    ensures TableOf(s, secs, nulls, 0)
  {
  }

  lemma OneMore(s: seq<byte>, s1: seq<byte>, s2: seq<byte>, i: nat, secs: seq<nat>, nulls: seq<nat>, sectors: nat,
                clicks: nat)
    requires |s| == SECTOR && |secs| == |nulls| == PROGRAMS && i < PROGRAMS
    requires TableOf(s, secs, nulls, i) && EndOf(s, sectors, clicks)
    requires s1 == Stored(s, 480 + 4 * i, secs[i] % WORD16) && s2 == Stored(s1, 482 + 4 * i, nulls[i] % WORD16)
    ensures TableOf(s2, secs, nulls, i + 1) && EndOf(s2, sectors, clicks) && s2[..480] == s[..480]
  {
    hide WordAt, Stored, EndOf;
    TableStays(s, 480 + 4 * i, secs[i] % WORD16, secs, nulls, i, sectors, clicks);
    TableStays(s1, 482 + 4 * i, nulls[i] % WORD16, secs, nulls, i, sectors, clicks);
    StoredWord(s, 480 + 4 * i, secs[i] % WORD16, 480 + 4 * i);
    StoredWord(s1, 482 + 4 * i, nulls[i] % WORD16, 480 + 4 * i);
    StoredWord(s1, 482 + 4 * i, nulls[i] % WORD16, 482 + 4 * i);
  }

  // ----- the whole image -----

  /** The file with another first sector. */
  function WithBoot(file: seq<byte>, block: seq<byte>): (r: seq<byte>)
    requires |block| == SECTOR <= |file|
    ensures |r| == |file|
  {
    block + file[SECTOR..]
  }

  lemma {:induction false} SameRebuilt(file: seq<byte>, block: seq<byte>, secs: seq<nat>, nulls: seq<nat>)
    requires |block| == SECTOR && |secs| == |nulls| && SECTOR * (1 + Sum(secs)) <= |file|
    ensures Rebuilt(WithBoot(file, block), secs, nulls) == Rebuilt(file, secs, nulls)
    decreases |secs|
  {
    if secs != [] {
      var n := |secs| - 1;
      SameRebuilt(file, block, secs[..n], nulls[..n]);
      var a, k := 1 + Sum(secs[..n]), secs[n];
      assert Sectors(WithBoot(file, block), a, k) == Sectors(file, a, k);
    }
  }

  /** What the boot block reads from its own table. */
  function ReadTable(s: seq<byte>, at: nat): (t: seq<nat>)
    requires |s| >= SECTOR && 480 <= at <= 482
    ensures |t| == PROGRAMS
  {
    [WordAt(s, at), WordAt(s, at + 4), WordAt(s, at + 8), WordAt(s, at + 12), WordAt(s, at + 16)]
  }

  /** The image of five programs tells by itself how it is to be loaded: with the numbers from its
      table, the programs come out of it, up to the last partial sector. */
  ghost predicate Bootable(file: seq<byte>, ps: seq<Program>) {
    && |file| >= SECTOR && WordSum(file[..SECTOR], WORDS) % WORD16 == CHECKSUM
    && var secs, nulls := ReadTable(file, 480), ReadTable(file, 482);
    && SECTOR * (1 + Sum(secs)) <= |file|
    && Rebuilt(file, secs, nulls) == Memory(ps)[..|Memory(ps)| - |Memory(ps)| % SECTOR]
  }

  ghost predicate AllWords(t: seq<nat>) {
    forall i :: 0 <= i < |t| ==> t[i] < WORD16
  }

  /** The numbers as far as a word of the table holds them. */
  function Cut(t: seq<nat>): (r: seq<nat>)
    ensures |r| == |t| && forall i :: 0 <= i < |t| ==> r[i] == t[i] % WORD16
  {
    seq<nat>(|t|, i requires 0 <= i < |t| => t[i] % WORD16)
  }

  lemma {:induction false} CutSum(t: seq<nat>)
    ensures Sum(Cut(t)) <= Sum(t) && (Sum(Cut(t)) == Sum(t) <==> AllWords(t))
    decreases |t|
  {
    hide AllWords;
    if t == [] {
      AllWordsStep([], 0);
    } else {
      var n := |t| - 1;
      CutSum(t[..n]);
      assert Cut(t)[..n] == Cut(t[..n]);
      assert t == t[..n] + [t[n]];
      AllWordsStep(t[..n], t[n]);
      SmallRest(t[n]);
    }
  }

  lemma AllWordsStep(t: seq<nat>, x: nat)
    ensures AllWords([]) && (AllWords(t + [x]) <==> AllWords(t) && x < WORD16)
  {
    if AllWords(t + [x]) {
      assert (t + [x])[|t|] == x;
      assert forall i :: 0 <= i < |t| ==> t[i] == (t + [x])[i];
    }
  }

  lemma SmallRest(x: nat)
    ensures x % WORD16 <= x && (x % WORD16 == x <==> x < WORD16)
  {
  }

  lemma CutSame(t: seq<nat>)
    requires AllWords(t)
    ensures Cut(t) == t
  {
  }

  lemma TableReads(s: seq<byte>, file: seq<byte>, secs: seq<nat>, nulls: seq<nat>)
    requires |s| == SECTOR && |secs| == |nulls| == PROGRAMS && TableOf(s, secs, nulls, PROGRAMS) && s <= file
    ensures ReadTable(file, 480) == Cut(secs) && ReadTable(file, 482) == Cut(nulls)
  {
    assert forall p :: 480 <= p < 504 ==> file[p] == s[p];
    forall i: nat | i < PROGRAMS
      ensures WordAt(file, 480 + 4 * i) == Cut(secs)[i] && WordAt(file, 482 + 4 * i) == Cut(nulls)[i]
    {
      assert WordAt(s, 480 + 4 * i) == secs[i] % WORD16 && WordAt(s, 482 + 4 * i) == nulls[i] % WORD16;
    }
    hide WordAt;
    assert WordAt(file, 480 + 4 * 0) == Cut(secs)[0] && WordAt(file, 482 + 4 * 0) == Cut(nulls)[0];
    assert WordAt(file, 480 + 4 * 1) == Cut(secs)[1] && WordAt(file, 482 + 4 * 1) == Cut(nulls)[1];
    assert WordAt(file, 480 + 4 * 2) == Cut(secs)[2] && WordAt(file, 482 + 4 * 2) == Cut(nulls)[2];
    assert WordAt(file, 480 + 4 * 3) == Cut(secs)[3] && WordAt(file, 482 + 4 * 3) == Cut(nulls)[3];
    assert WordAt(file, 480 + 4 * 4) == Cut(secs)[4] && WordAt(file, 482 + 4 * 4) == Cut(nulls)[4];
  }

  /** A number too large for its word loses sectors. */
  lemma BootableExactly(file: seq<byte>, ps: seq<Program>, secs: seq<nat>, nulls: seq<nat>)
    requires |secs| == |nulls| && SECTOR * (1 + Sum(secs)) <= |file|
             && WordSum(file[..SECTOR], WORDS) % WORD16 == CHECKSUM
    requires ReadTable(file, 480) == Cut(secs) && ReadTable(file, 482) == Cut(nulls)
    requires Rebuilt(file, secs, nulls) == Memory(ps)[..|Memory(ps)| - |Memory(ps)| % SECTOR]
    ensures Bootable(file, ps) <==> AllWords(secs) && AllWords(nulls)
  {
    hide Rebuilt, Memory, WordSum, Sum, ReadTable, AllWords;
    CutSum(secs);
    CutSum(nulls);
    RebuiltLength(file, secs, nulls);
    RebuiltLength(file, Cut(secs), Cut(nulls));
    if AllWords(secs) && AllWords(nulls) {
      CutSame(secs);
      CutSame(nulls);
    }
  }

  /** build, up to the words it patches in the programs. */
  method Build(boot: seq<byte>, ps: seq<Program>) returns (file: seq<byte>)
    requires 1 <= |boot| <= SECTOR && |ps| == PROGRAMS
    ensures |file| >= SECTOR && WordSum(file[..SECTOR], WORDS) % WORD16 == CHECKSUM
    ensures file[..Min(|boot|, 480)] == boot[..Min(|boot|, 480)]
    ensures EndOf(file[..SECTOR], (|Memory(ps)| + SECTOR - 1) / SECTOR, |Memory(ps[..PROGRAMS - 1])| / CLICK)
    ensures Bootable(file, ps) <==>
              forall i :: 0 <= i < PROGRAMS ==> SecsOf(ps, i) < WORD16 && NullsOf(ps, i) < WORD16
  {
    hide Memory, TableOf, EndOf, WordSum, Rebuilt, LaidOut, NullsOf, SecsOf, Bootable, ReadTable, WordAt;
    var secs, nulls;
    file, secs, nulls := Layout(boot, ps);
    ghost var file0 := file;
    LayoutSize(file, ps, secs, nulls);
    var block := new byte[SECTOR](i requires 0 <= i < SECTOR && SECTOR <= |file| => file[i]);
    assert block[..] == file[..SECTOR];
    Patch(block, (|Memory(ps)| + SECTOR - 1) / SECTOR, |Memory(ps[..PROGRAMS - 1])| / CLICK, secs, nulls);
    file := WithBoot(file, block[..]);
    assert file[..SECTOR] == block[..];
    SameRebuilt(file0, block[..], secs, nulls);
    TableReads(block[..], file, secs, nulls);
    BootableExactly(file, ps, secs, nulls);
  }

  lemma LayoutSize(file: seq<byte>, ps: seq<Program>, secs: seq<nat>, nulls: seq<nat>)
    requires LaidOut(file, ps, secs, nulls)
    ensures |secs| == |nulls| == |ps| && SECTOR * (1 + Sum(secs)) <= |file|
    ensures Rebuilt(file, secs, nulls) == Memory(ps)[..|Memory(ps)| - |Memory(ps)| % SECTOR]
  {
  }
}
