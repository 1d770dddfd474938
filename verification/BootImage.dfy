/**
 tools/build.py: the boot image holds the programs without the whole zero
 sectors of their bss; a table of sector counts tells how to put these back.
 */
module BootImage {
  import opened Common

  const SECTOR := 512
  const CLICK := 256

  lemma ZerosAdd(a: nat, b: nat)
    ensures Zeros(a) + Zeros(b) == Zeros(a + b)
  {
  }

  // ----- programs and memory -----

  /** Relocated text and data, and the size of the bss. */
  datatype Program = Program(text: seq<byte>, data: seq<byte>, bss: nat) {
    /** The bss with the filler up to a whole click. */
    function Bss(): (n: nat)
      ensures n >= bss && (|text| + |data| + n) % CLICK == 0 && n < bss + CLICK
    {
      var rest := (|text| + |data| + bss) % CLICK;
      if rest > 0 then bss + CLICK - rest else bss
    }

    function Size(): nat {
      |text| + |data| + Bss()
    }

    /** What it looks like in memory. */
    function Loaded(): (m: seq<byte>)
      ensures |m| == Size()
    {
      text + data + Zeros(Bss())
    }
  }

  /** The programs one after the other. */
  function Memory(ps: seq<Program>): seq<byte> {
    if ps == [] then [] else Memory(ps[..|ps| - 1]) + ps[|ps| - 1].Loaded()
  }

  function Sum(s: seq<nat>): nat {
    if s == [] then 0 else Sum(s[..|s| - 1]) + s[|s| - 1]
  }

  lemma SumSnoc(s: seq<nat>, x: nat)
    ensures Sum(s + [x]) == Sum(s) + x
  {
    assert (s + [x])[..|s|] == s;
  }

  lemma MemorySnoc(ps: seq<Program>, p: Program)
    ensures Memory(ps + [p]) == Memory(ps) + p.Loaded()
  {
    assert (ps + [p])[..|ps|] == ps;
  }

  /** n sectors of the file, from sector a on. */
  function Sectors(file: seq<byte>, a: nat, n: nat): (s: seq<byte>)
    requires SECTOR * (a + n) <= |file|
    ensures |s| == SECTOR * n
  {
    file[SECTOR * a..SECTOR * (a + n)]
  }

  /** What the boot block makes of the file: after each run of sectors it clears some more.
      Sector 0 is the boot block itself. */
  function Rebuilt(file: seq<byte>, secs: seq<nat>, nulls: seq<nat>): seq<byte>
    requires |secs| == |nulls| && SECTOR * (1 + Sum(secs)) <= |file|
  {
    if secs == [] then []
    else
      var n := |secs| - 1;
      Rebuilt(file, secs[..n], nulls[..n]) + Sectors(file, 1 + Sum(secs[..n]), secs[n]) + Zeros(SECTOR * nulls[n])
  }

  /** Only the sectors counted so far matter. */
  lemma {:induction false} RebuiltPrefix(file: seq<byte>, file': seq<byte>, secs: seq<nat>, nulls: seq<nat>)
    requires |secs| == |nulls| && SECTOR * (1 + Sum(secs)) <= |file| && file <= file'
    ensures Rebuilt(file', secs, nulls) == Rebuilt(file, secs, nulls)
    decreases |secs|
  {
    if secs != [] {
      var n := |secs| - 1;
      RebuiltPrefix(file, file', secs[..n], nulls[..n]);
      var a, k := 1 + Sum(secs[..n]), secs[n];
      assert Sectors(file', a, k) == Sectors(file, a, k);
    }
  }

  lemma {:induction false} RebuiltLast(file: seq<byte>, secs: seq<nat>, nulls: seq<nat>)
    requires |secs| == |nulls| > 0 && SECTOR * (1 + Sum(secs)) <= |file|
    ensures var n := |secs| - 1;
            && Sum(secs) == Sum(secs[..n]) + secs[n]
            && Rebuilt(file, secs, nulls)
               == Rebuilt(file, secs[..n], nulls[..n]) + Sectors(file, 1 + Sum(secs[..n]), secs[n])
                    + Zeros(SECTOR * nulls[n])
  {
    hide Zeros, Sectors;
  }

  lemma {:induction false} RebuiltSnoc(file: seq<byte>, secs: seq<nat>, nulls: seq<nat>, s: nat, k: nat)
    requires |secs| == |nulls| && SECTOR * (1 + Sum(secs) + s) <= |file|
    ensures Sum(secs + [s]) == Sum(secs) + s
    ensures Rebuilt(file, secs + [s], nulls + [k])
         == Rebuilt(file, secs, nulls) + Sectors(file, 1 + Sum(secs), s) + Zeros(SECTOR * k)
  {
    hide Sum, Zeros, Sectors, Rebuilt;
    SumSnoc(secs, s);
    var secs', nulls' := secs + [s], nulls + [k];
    assert secs'[..|secs'| - 1] == secs && nulls'[..|secs'| - 1] == nulls && nulls'[|secs'| - 1] == k;
    RebuiltLast(file, secs', nulls');
  }

  // ----- whole sectors -----

  /** How many whole sectors there are between two places. */
  function WholeSectors(a: nat, b: nat): nat {
    var first, last := (a + 511) / 512, b / 512;
    if last > first then last - first else 0
  }

  /** Less than a sector, from the middle of one to its end at most, or from its beginning. */
  lemma NoWholeSector(a: nat, count: nat)
    requires if a % SECTOR == 0 then count < SECTOR else count <= SECTOR - a % SECTOR
    ensures WholeSectors(a, a + count) == 0
  {
  }

  lemma OneWholeSector(a: nat, b: nat)
    requires a <= b && b % SECTOR == 0
    ensures WholeSectors(a, b + SECTOR) == WholeSectors(a, b) + 1
  {
  }

  lemma PartSector(a: nat, b: nat, count: nat)
    requires a <= b && b % SECTOR == 0 && count < SECTOR
    ensures WholeSectors(a, b + count) == WholeSectors(a, b)
  {
  }

  /** Whole sectors in front do not matter. */
  lemma SectorsShift(a: nat, b: nat, k: nat)
    ensures WholeSectors(a + SECTOR * k, b + SECTOR * k) == WholeSectors(a, b)
  {
  }

  // ----- writing the image -----

  class Image {
    var file: seq<byte>
    var buf: seq<byte>

    ghost predicate Valid()
      reads this
    {
      |file| % SECTOR == 0 && |buf| < SECTOR
    }

    function CurSector(): nat
      reads this
    {
      |file| / SECTOR
    }

    constructor ()
      ensures Valid() && file == [] && buf == []
    {
      file, buf := [], [];
    }

    /** wr_out() */
    method WrOut(data: seq<byte>)
      requires Valid()
      modifies this
      ensures Valid() && file + buf == old(file + buf) + data && old(file) <= file
    {
      var pos := 0;
      while pos < |data|
        invariant 0 <= pos <= |data| && Valid() && old(file) <= file
        invariant file + buf == old(file + buf) + data[..pos]
      {
        var count := Min(SECTOR - |buf|, |data| - pos);
        ghost var before := file + buf;
        assert data[..pos + count] == data[..pos] + data[pos..pos + count];
        buf := buf + data[pos..pos + count];
        assert file + buf == before + data[pos..pos + count];
        pos := pos + count;
        if |buf| == SECTOR {
          file := file + buf;
          buf := [];
        }
      }
    }

    method Flush()
      requires Valid()
      modifies this
      ensures Valid() && buf == []
              && file == old(file) + if old(buf) == [] then [] else old(buf) + Zeros(SECTOR - |old(buf)|)
    {
      if |buf| == 0 {
        return;
      }
      file := file + (buf + Zeros(SECTOR - |buf|));
      buf := [];
    }

    /** Write the bss without its whole sectors; nulls is how many of these there are, all that lie
        between its beginning and its end. */
    method WriteBss(total: nat) returns (n1: nat, nulls: nat)
      requires Valid() && |file| >= SECTOR
      modifies this
      ensures Valid() && old(file) <= file && (n1 == 0 <==> nulls == 0) && (n1 != 0 ==> n1 == CurSector())
      ensures file + Zeros(SECTOR * nulls) + buf == old(file + buf) + Zeros(total)
      ensures old(file + buf) <= file + buf
      ensures nulls == WholeSectors(old(|file| + |buf|), old(|file| + |buf|) + total)
    {
      hide Zeros, BssSoFar, WholeSectors, Skipped;
      n1 := 0;
      var n2, bsize := 0, total;
      ghost var start := file + buf;
      ghost var a := |start|;
      BssStarts(file, buf, total);
      SkippedNone(a, total, |file|, |buf|);
      while bsize != 0
        invariant Valid() && |file| >= SECTOR && old(file) <= file && 0 <= bsize <= total && n1 >= 0 && n2 >= 0
        invariant (n1 == 0 ==> n2 == 0) && (n1 != 0 ==> n1 == CurSector())
        invariant BssSoFar(start, file, buf, if n1 == 0 then 0 else n2 + 1, bsize, total)
        invariant Skipped(a, total, bsize, |buf|, if n1 == 0 then 0 else n2 + 1)
        decreases bsize
      {
        var count := Min(bsize, SECTOR);
        if count > SECTOR - |buf| {
          count := SECTOR - |buf|;
        }
        if count != SECTOR {
          ghost var file0, buf0 := file, buf;
          WrOut(Zeros(count));
          SkippedPart(a, total, bsize, |file0|, |buf0|, if n1 == 0 then 0 else n2 + 1, count, |file|, |buf|);
          BssWritten(start, file0, buf0, if n1 == 0 then 0 else n2 + 1, bsize, total, count, file, buf);
        } else {
          SkippedMore(a, total, bsize, if n1 == 0 then 0 else n2 + 1);
          BssSkipped(start, file, buf, if n1 == 0 then 0 else n2 + 1, bsize, total);
          if n1 == 0 {
            n1 := CurSector();
          } else {
            n2 := n2 + 1;
          }
        }
        bsize := bsize - count;
      }
      nulls := if n1 == 0 then 0 else n2 + 1;
      BssDone(start, file, buf, nulls, total);
      SkippedAll(a, total, |buf|, nulls);
    }
  }

  /** Of the zeros from a on nulls whole sectors were skipped, all there are so far; the buffer
      holds fill bytes. */
  ghost predicate Skipped(a: nat, total: nat, left: nat, fill: nat, nulls: nat) {
    && left <= total && (a + total - left) % SECTOR == fill && (left > 0 && fill > 0 ==> left == total)
    && nulls == WholeSectors(a, a + total - left)
  }

  lemma SkippedNone(a: nat, total: nat, file: nat, buf: nat)
    requires a == file + buf && file % SECTOR == 0 && buf < SECTOR
    ensures Skipped(a, total, total, buf, 0)
  {
    NoWholeSector(a, 0);
  }

  lemma SkippedPart(a: nat, total: nat, left: nat, file: nat, buf: nat, nulls: nat, count: nat, file': nat, buf': nat)
    requires Skipped(a, total, left, buf, nulls) && 0 < count <= left && count == Min(left, SECTOR - buf) < SECTOR
    requires file % SECTOR == 0 && file' % SECTOR == 0 && buf < SECTOR && buf' < SECTOR
    requires file' + buf' == file + buf + count && file <= file'
    ensures Skipped(a, total, left - count, buf', nulls)
  {
    hide WholeSectors;
    ShortWrite(file, buf, count, file', buf');
    if buf > 0 {
      NoWholeSector(a, count);
      NoWholeSector(a, 0);
    } else {
      PartSector(a, a + total - left, count);
    }
  }

  lemma SkippedMore(a: nat, total: nat, left: nat, nulls: nat)
    requires Skipped(a, total, left, 0, nulls) && left >= SECTOR
    ensures Skipped(a, total, left - SECTOR, 0, nulls + 1)
  {
    hide WholeSectors;
    OneWholeSector(a, a + total - left);
  }

  lemma SkippedAll(a: nat, total: nat, buf: nat, nulls: nat)
    requires Skipped(a, total, 0, buf, nulls)
    ensures nulls == WholeSectors(a, a + total)
  {
  }

  /** Where the buffer stands after less than a sector was written. */
  lemma ShortWrite(file0: nat, buf0: nat, count: nat, file: nat, buf: nat)
    requires file0 % SECTOR == 0 && file % SECTOR == 0 && buf0 < SECTOR && buf < SECTOR && count <= SECTOR - buf0
    requires file + buf == file0 + buf0 + count && file0 <= file
    ensures buf == (buf0 + count) % SECTOR
  {
  }

  /** Some of the zeros are written; nulls sectors of them were left out, behind which only a
      partial sector can come. */
  ghost predicate BssSoFar(start: seq<byte>, file: seq<byte>, buf: seq<byte>, nulls: nat, left: nat, total: nat) {
    && left <= total
    && (nulls == 0 ==> file + buf == start + Zeros(total - left))
    && (nulls > 0 ==>
          && |start| <= |file| && file == start + Zeros(|file| - |start|) && buf == Zeros(|buf|)
          && |file| - |start| + SECTOR * nulls + |buf| + left == total && (buf != [] ==> left == 0))
  }

  lemma BssStarts(file: seq<byte>, buf: seq<byte>, total: nat)
    ensures BssSoFar(file + buf, file, buf, 0, total, total)
  {
    assert Zeros(0) == [];
  }

  lemma BssWritten(start: seq<byte>, file: seq<byte>, buf: seq<byte>, nulls: nat, left: nat, total: nat,
                   count: nat, file': seq<byte>, buf': seq<byte>)
    requires BssSoFar(start, file, buf, nulls, left, total) && 0 < count <= left
             && count == Min(left, SECTOR - |buf|) < SECTOR
    requires |file| % SECTOR == 0 && |file'| % SECTOR == 0 && |buf| < SECTOR && |buf'| < SECTOR
    requires file' + buf' == file + buf + Zeros(count) && file <= file'
    ensures BssSoFar(start, file', buf', nulls, left - count, total) && (nulls > 0 ==> file' == file)
  {
    if nulls == 0 {
      ZerosAdd(total - left, count);
      assert start + Zeros(total - left) + Zeros(count) == start + (Zeros(total - left) + Zeros(count));
    } else {
      assert file + buf == file;
      ShortEnd(file, count, file', buf');
    }
  }

  lemma BssSkipped(start: seq<byte>, file: seq<byte>, buf: seq<byte>, nulls: nat, left: nat, total: nat)
    requires BssSoFar(start, file, buf, nulls, left, total) && left >= SECTOR && buf == []
    ensures BssSoFar(start, file, buf, nulls + 1, left - SECTOR, total)
  {
    assert file + buf == file;
  }

  /** Less than a sector written to an empty buffer stays there. */
  lemma ShortEnd(file0: seq<byte>, count: nat, file: seq<byte>, buf: seq<byte>)
    requires |file0| % SECTOR == 0 && |file| % SECTOR == 0 && |buf| < SECTOR && count < SECTOR
    requires file + buf == file0 + Zeros(count) && file0 <= file
    ensures file == file0 && buf == Zeros(count)
  {
    assert |file| == |file0|;
    assert (file + buf)[..|file0|] == file0 && (file + buf)[|file0|..] == buf;
    assert (file0 + Zeros(count))[|file0|..] == Zeros(count);
  }

  lemma BssDone(start: seq<byte>, file: seq<byte>, buf: seq<byte>, nulls: nat, total: nat)
    requires BssSoFar(start, file, buf, nulls, 0, total)
    ensures file + Zeros(SECTOR * nulls) + buf == start + Zeros(total) && start <= file + buf
  {
    if nulls > 0 {
      var w := |file| - |start|;
      ZerosAdd(w, SECTOR * nulls);
      ZerosAdd(w + SECTOR * nulls, |buf|);
    } else {
      assert file + Zeros(0) == file;
    }
  }

  // ----- the layout -----

  /** Where program i is in the file: the sectors left out before it do not count. */
  function Offset(ps: seq<Program>, nulls: seq<nat>, i: nat): int
    requires i <= |ps| && i <= |nulls|
  {
    SECTOR + |Memory(ps[..i])| - SECTOR * Sum(nulls[..i])
  }

  /** Text and data of program i are there in the file. */
  ghost predicate PlacedAt(file: seq<byte>, ps: seq<Program>, nulls: seq<nat>, i: nat)
    requires i < |ps| && i <= |nulls|
  {
    var o, p := Offset(ps, nulls, i), ps[i];
    0 <= o && o + |p.text| + |p.data| <= |file| && file[o..o + |p.text| + |p.data|] == p.text + p.data
  }

  lemma PlacedPrefix(a: seq<byte>, b: seq<byte>, ps: seq<Program>, nulls: seq<nat>, k: nat, i: nat)
    requires i < |ps| && i < |nulls| && a <= b && PlacedAt(a, ps, nulls, i)
    ensures PlacedAt(b, ps, nulls + [k], i)
  {
    assert (nulls + [k])[..i] == nulls[..i];
    var o, n := Offset(ps, nulls, i), |ps[i].text| + |ps[i].data|;
    assert b[o..o + n] == a[o..o + n];
  }

  /** The image after i programs. */
  ghost predicate Progress(file: seq<byte>, buf: seq<byte>, ps: seq<Program>, i: nat, secs: seq<nat>, nulls: seq<nat>)
    requires i <= |ps|
  {
    && |secs| == |nulls| == i && |file| == SECTOR * (1 + Sum(secs)) && |buf| < SECTOR
    && Rebuilt(file, secs, nulls) + buf == Memory(ps[..i])
    && |file| + |buf| == Offset(ps, nulls, i)
    && (forall j :: 0 <= j < i ==> PlacedAt(file + buf, ps, nulls, j))
  }

  /** One program more: all is written but k sectors of zeros in front of buf'. */
  lemma {:induction false} OneProgram(file: seq<byte>, buf: seq<byte>, ps: seq<Program>, i: nat, secs: seq<nat>,
                                      nulls: seq<nat>,
                   file': seq<byte>, buf': seq<byte>, s: nat, k: nat)
    requires i < |ps| && Progress(file, buf, ps, i, secs, nulls) && file <= file'
    requires |file'| == |file| + SECTOR * s && |buf'| < SECTOR
    requires file' + Zeros(SECTOR * k) + buf' == file + buf + ps[i].Loaded()
    requires file + buf + (ps[i].text + ps[i].data) <= file' + buf'
    ensures Progress(file', buf', ps, i + 1, secs + [s], nulls + [k])
  {
    hide Rebuilt, PlacedAt, Memory, Sum;
    SumSnoc(secs, s);
    SumSnoc(nulls, k);
    assert ps[..i + 1] == ps[..i] + [ps[i]] && (nulls + [k])[..i + 1] == nulls + [k] && nulls[..i] == nulls;
    MemorySnoc(ps[..i], ps[i]);
    RebuiltMore(file, buf, secs, nulls, file', buf', s, k, ps[i].Loaded());
    assert Rebuilt(file', secs + [s], nulls + [k]) + buf' == Memory(ps[..i + 1]);
    assert |file'| + |buf'| == Offset(ps, nulls + [k], i + 1);
    forall j | 0 <= j < i + 1
      ensures PlacedAt(file' + buf', ps, nulls + [k], j)
    {
      if j < i {
        assert file + buf <= file' + buf';
        PlacedPrefix(file + buf, file' + buf', ps, nulls, k, j);
      } else {
        PlacedHere(file + buf, file' + buf', ps, nulls, k, i);
      }
    }
  }

  lemma PlacedHere(a: seq<byte>, b: seq<byte>, ps: seq<Program>, nulls: seq<nat>, k: nat, i: nat)
    requires i < |ps| && i == |nulls| && |a| == Offset(ps, nulls, i) && a + (ps[i].text + ps[i].data) <= b
    ensures PlacedAt(b, ps, nulls + [k], i)
  {
    assert (nulls + [k])[..i] == nulls[..i];
    var n := |ps[i].text| + |ps[i].data|;
    assert b[|a|..|a| + n] == (a + (ps[i].text + ps[i].data))[|a|..|a| + n];
  }

  lemma {:induction false} RebuiltMore(file: seq<byte>, buf: seq<byte>, secs: seq<nat>, nulls: seq<nat>,
                                       file': seq<byte>, buf': seq<byte>,
                    s: nat, k: nat, p: seq<byte>)
    requires |secs| == |nulls| && |file| == SECTOR * (1 + Sum(secs)) && file <= file' && |file'| == |file| + SECTOR * s
    requires file' + Zeros(SECTOR * k) + buf' == file + buf + p
    ensures Sum(secs + [s]) == Sum(secs) + s
    ensures Rebuilt(file', secs + [s], nulls + [k]) + buf' == Rebuilt(file, secs, nulls) + buf + p
  {
    hide Rebuilt, Sum, Zeros;
    RebuiltSnoc(file', secs, nulls, s, k);
    RebuiltPrefix(file, file', secs, nulls);
    var more := file'[|file|..];
    assert file' == file + more && more == Sectors(file', 1 + Sum(secs), s);
    SameTail(Rebuilt(file, secs, nulls), file, more, Zeros(SECTOR * k), buf', buf, p);
  }

  lemma SameTail(r: seq<byte>, file: seq<byte>, more: seq<byte>, z: seq<byte>, buf': seq<byte>, buf: seq<byte>,
                 p: seq<byte>)
    requires file + more + z + buf' == file + buf + p
    ensures r + more + z + buf' == r + buf + p
  {
    Tail(file, more, z, buf');
    assert (file + buf + p)[|file|..] == buf + p;
    Tail(r, more, z, buf');
    assert r + buf + p == r + (buf + p);
  }

  lemma Tail(a: seq<byte>, b: seq<byte>, c: seq<byte>, d: seq<byte>)
    ensures a + b + c + d == a + (b + c + d) && (a + b + c + d)[|a|..] == b + c + d
  {
  }

  lemma NoPrograms(file: seq<byte>, ps: seq<Program>)
    requires |file| == SECTOR
    ensures Progress(file, [], ps, 0, [], []) && Sized(ps, 0, [], [])
  {
  }

  /** The file, with the sectors left out put back, is the memory image up to the last partial
      sector, which is padded. */
  ghost predicate LaidOut(file: seq<byte>, ps: seq<Program>, secs: seq<nat>, nulls: seq<nat>) {
    && |secs| == |nulls| == |ps| && SECTOR * (1 + Sum(secs)) <= |file|
    && Rebuilt(file, secs, nulls) == Memory(ps)[..|Memory(ps)| - |Memory(ps)| % SECTOR]
    && (exists pad ::
          0 <= pad < SECTOR && Rebuilt(file, secs, nulls) + file[SECTOR * (1 + Sum(secs))..] == Memory(ps) + Zeros(pad))
    && (forall i :: 0 <= i < |ps| ==> PlacedAt(file, ps, nulls, i))
  }

  lemma {:induction false} RebuiltLength(file: seq<byte>, secs: seq<nat>, nulls: seq<nat>)
    requires |secs| == |nulls| && SECTOR * (1 + Sum(secs)) <= |file|
    ensures |Rebuilt(file, secs, nulls)| == SECTOR * (Sum(secs) + Sum(nulls))
    decreases |secs|
  {
    if secs != [] {
      RebuiltLength(file, secs[..|secs| - 1], nulls[..|secs| - 1]);
    }
  }

  lemma {:induction false} Finish(file0: seq<byte>, buf0: seq<byte>, file: seq<byte>, ps: seq<Program>, secs: seq<nat>,
                                  nulls: seq<nat>)
    requires Progress(file0, buf0, ps, |ps|, secs, nulls)
    requires file == file0 + if buf0 == [] then [] else buf0 + Zeros(SECTOR - |buf0|)
    ensures LaidOut(file, ps, secs, nulls)
  {
    hide Rebuilt, Memory, Sum, PlacedAt;
    assert ps[..|ps|] == ps;
    RebuiltPrefix(file0, file, secs, nulls);
    RebuiltLength(file, secs, nulls);
    var r, m := Rebuilt(file, secs, nulls), Memory(ps);
    assert r + buf0 == m;
    assert |r| == |m| - |m| % SECTOR;
    assert m[..|r|] == r;
    var pad := if buf0 == [] then 0 else SECTOR - |buf0|;
    assert file[|file0|..] == buf0 + Zeros(pad);
    assert r + (buf0 + Zeros(pad)) == m + Zeros(pad);
    assert |file0| == SECTOR * (1 + Sum(secs));
    forall i | 0 <= i < |ps|
      ensures PlacedAt(file, ps, nulls, i)
    {
      assert file0 + buf0 <= file;
      PlacedPrefix(file0 + buf0, file, ps, nulls, 0, i);
      PlacedSame(file, ps, nulls, 0, i);
    }
  }

  lemma PlacedSame(file: seq<byte>, ps: seq<Program>, nulls: seq<nat>, k: nat, i: nat)
    requires i < |ps| && i < |nulls| && PlacedAt(file, ps, nulls + [k], i)
    ensures PlacedAt(file, ps, nulls, i)
  {
    assert (nulls + [k])[..i] == nulls[..i];
  }

  /** The whole sectors of the bss of program i in memory. */
  function NullsOf(ps: seq<Program>, i: nat): nat
    requires i < |ps|
  {
    var a := |Memory(ps[..i])| + |ps[i].text| + |ps[i].data|;
    WholeSectors(a, a + ps[i].Bss())
  }

  /** The sectors that are complete once program i is in memory, without those left out. */
  function SecsOf(ps: seq<Program>, i: nat): int
    requires i < |ps|
  {
    |Memory(ps[..i + 1])| / SECTOR - |Memory(ps[..i])| / SECTOR - NullsOf(ps, i)
  }

  /** The table of the boot block follows from the sizes of the programs alone. */
  ghost predicate Sized(ps: seq<Program>, n: nat, secs: seq<nat>, nulls: seq<nat>)
    requires n <= |ps|
  {
    |secs| == |nulls| == n && forall i :: 0 <= i < n ==> nulls[i] == NullsOf(ps, i) && secs[i] == SecsOf(ps, i)
  }

  lemma SizedNext(ps: seq<Program>, n: nat, secs: seq<nat>, nulls: seq<nat>, s: nat, k: nat)
    requires n < |ps| && Sized(ps, n, secs, nulls) && k == NullsOf(ps, n) && s == SecsOf(ps, n)
    ensures Sized(ps, n + 1, secs + [s], nulls + [k])
  {
    hide NullsOf, SecsOf;
  }

  /** Sectors written and left out make up the memory so far. */
  lemma {:induction false} ProgressSectors(file: seq<byte>, buf: seq<byte>, ps: seq<Program>, i: nat, secs: seq<nat>,
                                           nulls: seq<nat>)
    requires i <= |ps| && Progress(file, buf, ps, i, secs, nulls)
    ensures SECTOR * (Sum(secs) + Sum(nulls)) + |buf| == |Memory(ps[..i])|
    ensures Sum(secs) + Sum(nulls) == |Memory(ps[..i])| / SECTOR
    ensures |file| + |buf| == SECTOR + |Memory(ps[..i])| - SECTOR * Sum(nulls)
  {
    hide Rebuilt, Memory, Sum, PlacedAt;
    RebuiltLength(file, secs, nulls);
    assert nulls[..i] == nulls;
  }

  lemma {:induction false} NullsInMemory(file: seq<byte>, buf: seq<byte>, ps: seq<Program>, i: nat, secs: seq<nat>,
                                         nulls: seq<nat>, place: nat)
    requires i < |ps| && Progress(file, buf, ps, i, secs, nulls)
    requires place == |file| + |buf| + |ps[i].text| + |ps[i].data|
    ensures WholeSectors(place, place + ps[i].Bss()) == NullsOf(ps, i)
  {
    hide Progress, Memory, Sum, WholeSectors, Program.Bss;
    ProgressSectors(file, buf, ps, i, secs, nulls);
    var a, t := |Memory(ps[..i])| + |ps[i].text| + |ps[i].data|, ps[i].Bss();
    SectorsShift(place, place + t, Sum(nulls));
    SectorsShift(a, a + t, 1);
    assert place + SECTOR * Sum(nulls) == a + SECTOR * 1;
  }

  /** Append program i: secs sectors are written and nulls left out. */
  method AddProgram(image: Image, ps: seq<Program>, i: nat, ghost secs: seq<nat>, ghost nulls: seq<nat>)
    returns (s: nat, k: nat)
    requires image.Valid() && |image.file| >= SECTOR && i < |ps|
    requires Progress(image.file, image.buf, ps, i, secs, nulls)
    modifies image
    ensures image.Valid() && old(image.file) <= image.file
    ensures Progress(image.file, image.buf, ps, i + 1, secs + [s], nulls + [k])
    ensures k == NullsOf(ps, i) && s == SecsOf(ps, i)
  {
    hide Progress, Sum, Memory, Rebuilt, WholeSectors, NullsOf, SecsOf, Zeros, Program.Bss;
    ghost var file0, buf0 := image.file, image.buf;
    var p := ps[i];
    var start := image.CurSector();
    image.WrOut(p.text + p.data);
    ghost var file1, buf1 := image.file, image.buf;
    var n1;
    n1, k := image.WriteBss(p.Bss());
    s := if n1 != 0 then n1 - start else image.CurSector() - start;
    assert file0 + buf0 + (p.text + p.data) + Zeros(p.Bss()) == file0 + buf0 + p.Loaded();
    OneProgram(file0, buf0, ps, i, secs, nulls, image.file, image.buf, s, k);
    NullsInMemory(file0, buf0, ps, i, secs, nulls, |file1| + |buf1|);
    SecsInMemory(file0, buf0, ps, i, secs, nulls, image.file, image.buf, s, k);
  }

  /** The boot block and the programs; secs and nulls go into the boot block's table. */
  method Layout(boot: seq<byte>, ps: seq<Program>) returns (file: seq<byte>, secs: seq<nat>, nulls: seq<nat>)
    requires 1 <= |boot| <= SECTOR
    ensures LaidOut(file, ps, secs, nulls) && boot <= file && Sized(ps, |ps|, secs, nulls)
    ensures |file| == 512 * (1 + (|Memory(ps)| + 511) / 512 - Sum(nulls))
  {
    hide LaidOut, Progress, Sum, Memory, Rebuilt, WholeSectors, NullsOf, SecsOf, Sized;
    var image := new Image();
    image.WrOut(boot);
    assert image.file + image.buf == boot;
    image.Flush();
    secs, nulls := [], [];
    NoPrograms(image.file, ps);
    var i := 0;
    while i < |ps|
      invariant 0 <= i <= |ps| && image.Valid() && |image.file| >= SECTOR
      invariant Progress(image.file, image.buf, ps, i, secs, nulls) && boot <= image.file
      invariant Sized(ps, i, secs, nulls)
    {
      var s, k := AddProgram(image, ps, i, secs, nulls);
      SizedNext(ps, i, secs, nulls, s, k);
      secs, nulls := secs + [s], nulls + [k];
      i := i + 1;
    }
    ghost var file0, buf0 := image.file, image.buf;
    image.Flush();
    file := image.file;
    Finish(file0, buf0, file, ps, secs, nulls);
    FileLength(file0, buf0, ps, secs, nulls);
  }

  lemma {:induction false} FileLength(file: seq<byte>, buf: seq<byte>, ps: seq<Program>, secs: seq<nat>,
                                      nulls: seq<nat>)
    requires Progress(file, buf, ps, |ps|, secs, nulls) && |file| % SECTOR == 0 && |buf| < SECTOR
    ensures |file| + (if buf == [] then 0 else SECTOR)
              == SECTOR * (1 + (|Memory(ps)| + SECTOR - 1) / SECTOR - Sum(nulls))
  {
    hide Progress, Sum, Memory;
    assert ps[..|ps|] == ps;
    ProgressSectors(file, buf, ps, |ps|, secs, nulls);
  }

  lemma {:induction false} SecsInMemory(file: seq<byte>, buf: seq<byte>, ps: seq<Program>, i: nat, secs: seq<nat>,
                                        nulls: seq<nat>, file': seq<byte>, buf': seq<byte>, s: nat, k: nat)
    requires i < |ps| && Progress(file, buf, ps, i, secs, nulls) && k == NullsOf(ps, i)
    requires Progress(file', buf', ps, i + 1, secs + [s], nulls + [k])
    ensures s == SecsOf(ps, i)
  {
    hide Progress, Memory, Sum, NullsOf;
    ProgressSectors(file, buf, ps, i, secs, nulls);
    ProgressSectors(file', buf', ps, i + 1, secs + [s], nulls + [k]);
    SumSnoc(secs, s);
    SumSnoc(nulls, k);
  }

  // ----- where build patches the kernel, mm and fs -----

  const KERN := 0
  const MM := 1
  const FS := 2

  function KernelData(ps: seq<Program>): int
    requires |ps| > KERN
  {
    SECTOR + |ps[KERN].text|
  }

  function MmData(ps: seq<Program>, nulls: seq<nat>): int
    requires |ps| > MM && |nulls| > KERN
  {
    ps[KERN].Size() + SECTOR + |ps[MM].text| - SECTOR * nulls[KERN]
  }

  function FsData(ps: seq<Program>, nulls: seq<nat>): int
    requires |ps| > FS && |nulls| > MM
  {
    ps[KERN].Size() + ps[MM].Size() + SECTOR + |ps[FS].text| - SECTOR * (nulls[KERN] + nulls[MM])
  }

  /** The patch offsets are where the data of the three programs begins. */
  lemma PatchOffsets(file: seq<byte>, ps: seq<Program>, secs: seq<nat>, nulls: seq<nat>)
    requires LaidOut(file, ps, secs, nulls) && |ps| > FS
    ensures var a := KernelData(ps);
            0 <= a && a + |ps[KERN].data| <= |file| && file[a..a + |ps[KERN].data|] == ps[KERN].data
    ensures var a := MmData(ps, nulls);
            0 <= a && a + |ps[MM].data| <= |file| && file[a..a + |ps[MM].data|] == ps[MM].data
    ensures var a := FsData(ps, nulls);
            0 <= a && a + |ps[FS].data| <= |file| && file[a..a + |ps[FS].data|] == ps[FS].data
  {
    hide Rebuilt, Memory, Sum;
    Offsets(ps, nulls);
    DataAt(file, ps, nulls, KERN);
    DataAt(file, ps, nulls, MM);
    DataAt(file, ps, nulls, FS);
  }

  lemma DataAt(file: seq<byte>, ps: seq<Program>, nulls: seq<nat>, i: nat)
    requires i < |ps| && i <= |nulls| && PlacedAt(file, ps, nulls, i)
    ensures var a := Offset(ps, nulls, i) + |ps[i].text|;
            0 <= a && a + |ps[i].data| <= |file| && file[a..a + |ps[i].data|] == ps[i].data
  {
    hide Memory, Sum;
    var o, p := Offset(ps, nulls, i), ps[i];
    var n := |p.text| + |p.data|;
    assert file[o..o + n][|p.text|..] == file[o + |p.text|..o + n];
    assert (p.text + p.data)[|p.text|..] == p.data;
  }

  lemma Offsets(ps: seq<Program>, nulls: seq<nat>)
    requires |ps| > FS && |nulls| > MM
    ensures Offset(ps, nulls, KERN) + |ps[KERN].text| == KernelData(ps)
    ensures Offset(ps, nulls, MM) + |ps[MM].text| == MmData(ps, nulls)
    ensures Offset(ps, nulls, FS) + |ps[FS].text| == FsData(ps, nulls)
  {
    var p0, p1 := ps[KERN], ps[MM];
    assert ps[..0] == [] && ps[..1] == [] + [p0] && ps[..2] == [] + [p0] + [p1];
    MemorySnoc([], p0);
    MemorySnoc([] + [p0], p1);
    assert nulls[..0] == [] && nulls[..1] == [] + [nulls[0]] && nulls[..2] == [] + [nulls[0]] + [nulls[1]];
    SumSnoc([], nulls[0]);
    SumSnoc([] + [nulls[0]], nulls[1]);
  }
}
