/**
 Names as text.  tools/mkfs.py stores a name encoded in UTF-8; lookup() of
 tools/minixfs.py splits a path at slashes and compares the parts with the
 stored bytes read as Latin-1.
 */
module MinixPath {
  import opened Common
  import opened MinixImage
  import opened MinixModel
  import opened MinixSettled
  import opened MkfsTree
  import opened MinixRead

  const SLASH := '/'

  // ----- encodings -----

  function Code(c: char): nat {
    c as nat
  }

  /** One character in UTF-8. */
  function Utf8Char(c: char): (b: seq<byte>)
    ensures |b| >= 1 && (|b| == 1 <==> Code(c) < 0x80)
    ensures Code(c) < 0x80 ==> b == [Code(c)]
  {
    var x := Code(c);
    if x < 0x80 then [x]
    else if x < 0x800 then [0xC0 + x / 0x40, 0x80 + x % 0x40]
    else if x < 0x1_0000 then [0xE0 + x / 0x1000, 0x80 + x / 0x40 % 0x40, 0x80 + x % 0x40]
    else [0xF0 + x / 0x4_0000 % 8, 0x80 + x / 0x1000 % 0x40, 0x80 + x / 0x40 % 0x40, 0x80 + x % 0x40]
  }

  /** The bits of the code behind the marks of one, two, three or four bytes, each number of bytes
      only where fewer do not suffice. */
  lemma Utf8Bits(c: char)
    ensures var x, b := Code(c), Utf8Char(c);
            && (x < 0x80 ==> b == [x])
            && (0x80 <= x < 0x800 ==> |b| == 2 && 0xC0 <= b[0] < 0xE0 && x == Bits(0, 0, b[0] - 0xC0, b[1]))
            && (0x800 <= x < 0x1_0000 ==>
                  |b| == 3 && 0xE0 <= b[0] < 0xF0 && x == Bits(0, b[0] - 0xE0, b[1] - 0x80, b[2]))
            && (x >= 0x1_0000 ==>
                  |b| == 4 && 0xF0 <= b[0] < 0xF8 && x == Bits(b[0] - 0xF0, b[1] - 0x80, b[2] - 0x80, b[3]))
            && (forall i :: 1 <= i < |b| ==> 0x80 <= b[i] < 0xC0)
  {
    SixBits(Code(c));
  }

  lemma SixBits(x: nat)
    ensures x == 0x40 * (x / 0x40) + x % 0x40
    ensures x / 0x40 == 0x40 * (x / 0x1000) + x / 0x40 % 0x40
    ensures x / 0x1000 == 0x40 * (x / 0x4_0000) + x / 0x1000 % 0x40
    ensures x < 0x1000 ==> x / 0x1000 == 0
    ensures x < 0x20_0000 ==> x / 0x4_0000 < 8 && x / 0x4_0000 % 8 == x / 0x4_0000
  {
  }

  function Bits(b0: int, b1: int, b2: int, b3: int): int {
    0x4_0000 * b0 + 0x1000 * b1 + 0x40 * b2 + (b3 - 0x80)
  }

  /** name.encode() */
  function Utf8(name: string): seq<byte> {
    if name == "" then [] else Utf8Char(name[0]) + Utf8(name[1..])
  }

  /** decode("latin-1") */
  function Latin1(b: seq<byte>): (s: string)
    ensures |s| == |b| && forall i :: 0 <= i < |b| ==> Code(s[i]) == b[i]
  {
    seq(|b|, i requires 0 <= i < |b| => b[i] as char)
  }

  predicate Ascii(name: string) {
    forall i :: 0 <= i < |name| ==> Code(name[i]) < 0x80
  }

  /** A name that reads as it was written. */
  predicate Plain(name: string) {
    Ascii(name) && SLASH !in name
  }

  lemma {:induction false} Utf8Length(name: string)
    ensures |Utf8(name)| >= |name| && (|Utf8(name)| == |name| <==> Ascii(name))
    decreases |name|
  {
    if name != "" {
      Utf8Length(name[1..]);
      assert Ascii(name) <==> Code(name[0]) < 0x80 && Ascii(name[1..]) by {
        AsciiFront(name);
      }
    }
  }

  lemma AsciiFront(name: string)
    requires name != ""
    ensures Ascii(name) <==> Code(name[0]) < 0x80 && Ascii(name[1..])
  {
    if Code(name[0]) < 0x80 && Ascii(name[1..]) {
      forall i | 0 <= i < |name|
        ensures Code(name[i]) < 0x80
      {
        assert i > 0 ==> name[i] == name[1..][i - 1];
      }
    }
  }

  lemma {:induction false} Utf8Ascii(name: string)
    requires Ascii(name)
    ensures |Utf8(name)| == |name| && Latin1(Utf8(name)) == name
    decreases |name|
  {
    if name != "" {
      AsciiFront(name);
      Utf8Ascii(name[1..]);
      assert forall i :: 0 <= i < |name| ==> Utf8(name)[i] == Code(name[i]) by {
        forall i | 0 <= i < |name|
          ensures Utf8(name)[i] == Code(name[i])
        {
          if i > 0 {
            assert Utf8(name)[i] == Utf8(name[1..])[i - 1];
            assert Code(Latin1(Utf8(name[1..]))[i - 1]) == Utf8(name[1..])[i - 1];
          }
        }
      }
    }
  }

  /** A name reads back from its bytes if and only if it is ASCII. */
  lemma DecodesBack(name: string)
    ensures Latin1(Utf8(name)) == name <==> Ascii(name)
  {
    hide Utf8, Ascii;
    Utf8Length(name);
    if Ascii(name) {
      Utf8Ascii(name);
    }
  }

  lemma {:induction false} SlashStays(name: string)
    requires SLASH in name
    ensures SLASH in Latin1(Utf8(name))
    decreases |name|
  {
    var b := Utf8(name);
    if name[0] == SLASH {
      assert b[0] == Code(SLASH);
      assert Latin1(b)[0] == SLASH;
    } else {
      SlashStays(name[1..]);
      var rest := Latin1(Utf8(name[1..]));
      var i :| 0 <= i < |rest| && rest[i] == SLASH;
      assert b[|Utf8Char(name[0])| + i] == Utf8(name[1..])[i];
      assert Latin1(b)[|Utf8Char(name[0])| + i] == SLASH;
    }
  }

  // ----- paths -----

  /** The characters up to the next slash. */
  function PartLen(path: string): (n: nat)
    ensures n <= |path| && SLASH !in path[..n] && (n < |path| ==> path[n] == SLASH)
  {
    if path == "" || path[0] == SLASH then 0 else
      var n := PartLen(path[1..]);
      assert path[..n + 1] == [path[0]] + path[1..][..n];
      n + 1
  }

  /** [p for p in path.split("/") if p] */
  function Parts(path: string): seq<string>
    decreases |path|
  {
    if path == "" then []
    else if path[0] == SLASH then Parts(path[1..])
    else [path[..PartLen(path)]] + Parts(path[PartLen(path)..])
  }

  /** The path of some names: a slash before each. */
  function PathOf(names: seq<string>): string {
    if names == [] then "" else [SLASH] + names[0] + PathOf(names[1..])
  }

  lemma {:induction false} PartsPlain(path: string)
    ensures forall i :: 0 <= i < |Parts(path)| ==> SLASH !in Parts(path)[i]
    decreases |path|
  {
    if path != "" {
      if path[0] == SLASH {
        PartsPlain(path[1..]);
      } else {
        PartsPlain(path[PartLen(path)..]);
      }
    }
  }

  lemma {:induction false} PartLenIs(name: string, rest: string)
    requires SLASH !in name && (rest == "" || rest[0] == SLASH)
    ensures PartLen(name + rest) == |name|
    decreases |name|
  {
    if name == "" {
      assert name + rest == rest;
    } else {
      assert (name + rest)[1..] == name[1..] + rest;
      PartLenIs(name[1..], rest);
    }
  }

  /** Names without slashes come back from their path. */
  lemma {:induction false} PartsOfPath(names: seq<string>)
    requires forall i :: 0 <= i < |names| ==> names[i] != "" && SLASH !in names[i]
    ensures Parts(PathOf(names)) == names
    decreases |names|
  {
    if names != [] {
      var rest := PathOf(names[1..]);
      PartsOfPath(names[1..]);
      PartLenIs(names[0], rest);
      var path := PathOf(names);
      assert path == [SLASH] + (names[0] + rest);
      var tail := names[0] + rest;
      assert path[1..] == tail && tail[..|names[0]|] == names[0] && tail[|names[0]|..] == rest;
      assert tail[0] == names[0][0];
      assert [names[0]] + names[1..] == names;
    }
  }

  // ----- lookup() -----

  /** The first entry whose name reads as part. */
  function FindText(entries: seq<Entry>, part: string): Option<nat> {
    if entries == [] then None
    else if Latin1(entries[0].name) == part then Some(entries[0].num)
    else FindText(entries[1..], part)
  }

  function LookupParts(im: Image, n: nat, parts: seq<string>): Option<nat>
    requires forall i :: 0 <= i < |im.inodes| ==> |im.inodes[i].zone| == 9
    decreases |parts|
  {
    if parts == [] then Some(n)
    else if n == 0 || n > |im.inodes| || TypeOf(im.inodes[n - 1]) != I_DIRECTORY then None
    else
      match DirEntries(im, im.inodes[n - 1])
      case None => None
      case Some(entries) =>
        match FindText(entries, parts[0])
        case None => None
        case Some(num) => LookupParts(im, num, parts[1..])
  }

  /** lookup(path) */
  function LookupPath(im: Image, path: string): Option<nat>
    requires forall i :: 0 <= i < |im.inodes| ==> |im.inodes[i].zone| == 9
  {
    LookupParts(im, 1, Parts(path))
  }

  /** The names as they are stored. */
  function Stored(names: seq<string>): (s: seq<seq<byte>>)
    ensures |s| == |names| && forall i :: 0 <= i < |names| ==> s[i] == Utf8(names[i])
  {
    seq(|names|, i requires 0 <= i < |names| => Utf8(names[i]))
  }

  lemma Latin1Same(a: seq<byte>, b: seq<byte>)
    ensures Latin1(a) == Latin1(b) <==> a == b
  {
    if Latin1(a) == Latin1(b) {
      forall i | 0 <= i < |a|
        ensures a[i] == b[i]
      {
        assert Code(Latin1(a)[i]) == Code(Latin1(b)[i]);
      }
    }
  }

  /** What reads as an ASCII name is the entry with that name. */
  lemma {:induction false} FindPlain(entries: seq<Entry>, name: string)
    requires Ascii(name)
    ensures FindText(entries, name) == FindName(entries, Utf8(name))
    decreases |entries|
  {
    hide Utf8;
    if entries != [] {
      Utf8Ascii(name);
      Latin1Same(entries[0].name, Utf8(name));
      FindPlain(entries[1..], name);
    }
  }

  lemma {:induction false} LookupPlain(im: Image, n: nat, names: seq<string>)
    requires forall i :: 0 <= i < |im.inodes| ==> |im.inodes[i].zone| == 9
    requires forall i :: 0 <= i < |names| ==> Ascii(names[i])
    ensures LookupParts(im, n, names) == LookupFrom(im, n, Stored(names))
    decreases |names|
  {
    hide DirEntries, FindText, FindName, Utf8, Ascii;
    if names != [] && 1 <= n <= |im.inodes| {
      assert Stored(names)[1..] == Stored(names[1..]);
      var entries := DirEntries(im, im.inodes[n - 1]);
      if entries.Some? {
        FindPlain(entries.value, names[0]);
        var num := FindName(entries.value, Utf8(names[0]));
        if num.Some? {
          LookupPlain(im, num.value, names[1..]);
        }
      }
    }
  }

  // ----- where a lookup can get -----

  /** x is inode w or below it. */
  ghost predicate Below(m: Model, x: nat, w: nat)
    decreases x
  {
    m.Has(x) && (x == w || (x > 1 && m.At(x).parent < x && Below(m, m.At(x).parent, w)))
  }

  lemma {:induction false} BelowLater(m: Model, x: nat, w: nat)
    requires Below(m, x, w)
    ensures w <= x
    decreases x
  {
    if x != w {
      BelowLater(m, m.At(x).parent, w);
    }
  }

  lemma {:induction false} BelowBelow(m: Model, x: nat, y: nat, z: nat)
    requires Below(m, x, y) && Below(m, y, z)
    ensures Below(m, x, z)
    decreases x
  {
    if x != y {
      BelowBelow(m, m.At(x).parent, y, z);
    }
  }

  /** A step through entry k leads below w only from there, or to w itself. */
  lemma StepOutside(m: Model, u: nat, k: nat, w: nat)
    requires Settled(m) && m.Has(u) && m.At(u).kind == Directory && k < |m.At(u).ents| && !Below(m, u, w)
    ensures m.Has(m.At(u).ents[k].num)
    ensures k >= 2 ==> m.At(u).ents[k].num > u && m.At(m.At(u).ents[k].num).parent == u
    ensures m.At(u).ents[k].num != w || k < 2 ==> !Below(m, m.At(u).ents[k].num, w)
  {
    hide Links;
    assert NodeSettled(m, u);
    if k >= 2 {
      assert ListsAt(m, u, k);
    }
  }

  /** Only one entry names an inode. */
  lemma OneEntry(m: Model, u: nat, j: nat, k: nat)
    requires Settled(m) && m.Has(u) && m.At(u).kind == Directory && 2 <= j < |m.At(u).ents| && 2 <= k < |m.At(u).ents|
    requires m.At(u).ents[j].num == m.At(u).ents[k].num
    ensures j == k
  {
    hide Links;
    assert NodeSettled(m, u);
  }

  lemma {:induction false} FoundEntry(entries: seq<Entry>, part: string) returns (k: nat)
    requires FindText(entries, part).Some?
    ensures k < |entries| && Latin1(entries[k].name) == part && entries[k].num == FindText(entries, part).value
    decreases |entries|
  {
    if Latin1(entries[0].name) == part {
      k := 0;
    } else {
      k := FoundEntry(entries[1..], part);
      k := k + 1;
    }
  }

  lemma {:induction false} FoundName(entries: seq<Entry>, name: seq<byte>) returns (k: nat)
    requires FindName(entries, name).Some?
    ensures k < |entries| && entries[k].name == name && entries[k].num == FindName(entries, name).value
    decreases |entries|
  {
    if entries[0].name == name {
      k := 0;
    } else {
      k := FoundName(entries[1..], name);
      k := k + 1;
    }
  }

  /** Entry e of directory d, which is not a dot entry. */
  ghost predicate EntryOf(m: Model, d: nat, e: nat) {
    m.Has(d) && m.At(d).kind == Directory && 2 <= e < |m.At(d).ents|
  }

  /** With parts that are not its name a lookup does not get below an inode. */
  lemma {:induction false} NeverInto(im: Image, m: Model, u: nat, parts: seq<string>, d: nat, e: nat)
    requires Rep(im, m) && Settled(m) && m.Has(u) && EntryOf(m, d, e) && !Below(m, u, m.At(d).ents[e].num)
    requires forall i :: 0 <= i < |parts| ==> parts[i] != Latin1(m.At(d).ents[e].name)
    ensures Shaped(im)
    ensures LookupParts(im, u, parts).Some? ==> !Below(m, LookupParts(im, u, parts).value, m.At(d).ents[e].num)
    decreases |parts|
  {
    hide Settled, DirEntries, FindText, Below, NodesRep, MapsRep, FreeRep, Attached;
    var w := m.At(d).ents[e].num;
    if parts != [] && LookupParts(im, u, parts).Some? {
      DirKind(im, m, u);
      DirReadsBack(im, m, u);
      var k := FoundEntry(m.At(u).ents, parts[0]);
      StepOutside(m, u, k, w);
      if k >= 2 && m.At(u).ents[k].num == w {
        SameEntry(m, u, k, d, e);
        assert false;
      }
      NeverInto(im, m, m.At(u).ents[k].num, parts[1..], d, e);
    }
  }

  lemma SameEntry(m: Model, u: nat, k: nat, d: nat, e: nat)
    requires Settled(m) && EntryOf(m, u, k) && EntryOf(m, d, e) && m.At(u).ents[k].num == m.At(d).ents[e].num
    ensures u == d && k == e
  {
    hide Links;
    assert NodeSettled(m, u) && NodeSettled(m, d);
    assert ListsAt(m, u, k) && ListsAt(m, d, e);
    OneEntry(m, u, k, e);
  }

  /** Without dots a lookup does not come back. */
  lemma {:induction false} NeverBack(im: Image, m: Model, u: nat, parts: seq<string>, d: nat, e: nat)
    requires Rep(im, m) && Settled(m) && m.Has(u) && EntryOf(m, d, e) && !Below(m, u, m.At(d).ents[e].num) && u > d
    requires forall i :: 0 <= i < |parts| ==> parts[i] != "." && parts[i] != ".."
    ensures Shaped(im)
    ensures LookupParts(im, u, parts).Some? ==> !Below(m, LookupParts(im, u, parts).value, m.At(d).ents[e].num)
    decreases |parts|
  {
    hide Settled, DirEntries, FindText, Below, NodesRep, MapsRep, FreeRep, Attached;
    var w := m.At(d).ents[e].num;
    if parts != [] && LookupParts(im, u, parts).Some? {
      DirKind(im, m, u);
      DirReadsBack(im, m, u);
      var k := FoundEntry(m.At(u).ents, parts[0]);
      StepOutside(m, u, k, w);
      NotADot(m, u, k, parts[0]);
      if m.At(u).ents[k].num == w {
        SameEntry(m, u, k, d, e);
        assert false;
      }
      NeverBack(im, m, m.At(u).ents[k].num, parts[1..], d, e);
    }
  }

  lemma NotADot(m: Model, u: nat, k: nat, part: string)
    requires Settled(m) && m.Has(u) && m.At(u).kind == Directory && k < |m.At(u).ents|
             && Latin1(m.At(u).ents[k].name) == part
    requires part != "." && part != ".."
    ensures k >= 2
  {
    hide Links;
    assert NodeSettled(m, u);
    DotTexts();
  }

  lemma DotTexts()
    ensures Latin1(DOT) == "." && Latin1(DOTDOT) == ".."
  {
    assert Latin1(DOT)[0] == '.' && Latin1(DOTDOT)[0] == '.' && Latin1(DOTDOT)[1] == '.';
  }

  // ----- the stored names -----

  lemma {:induction false} LookupCat(im: Image, n: nat, a: seq<seq<byte>>, b: seq<seq<byte>>)
    requires forall i :: 0 <= i < |im.inodes| ==> |im.inodes[i].zone| == 9
    ensures LookupFrom(im, n, a + b) == match LookupFrom(im, n, a)
                                        case None => None
                                        case Some(x) => LookupFrom(im, x, b)
    decreases |a|
  {
    hide DirEntries, FindName;
    if a == [] {
      assert a + b == b;
    } else {
      assert (a + b)[1..] == a[1..] + b && (a + b)[0] == a[0];
      if 1 <= n <= |im.inodes| && DirEntries(im, im.inodes[n - 1]).Some? {
        var num := FindName(DirEntries(im, im.inodes[n - 1]).value, a[0]);
        if num.Some? {
          LookupCat(im, num.value, a[1..], b);
        }
      }
    }
  }

  lemma {:induction false} PartsCat(im: Image, n: nat, a: seq<string>, b: seq<string>)
    requires forall i :: 0 <= i < |im.inodes| ==> |im.inodes[i].zone| == 9
    ensures LookupParts(im, n, a + b) == match LookupParts(im, n, a)
                                         case None => None
                                         case Some(x) => LookupParts(im, x, b)
    decreases |a|
  {
    hide DirEntries, FindText;
    if a == [] {
      assert a + b == b;
    } else {
      assert (a + b)[1..] == a[1..] + b && (a + b)[0] == a[0];
      if 1 <= n <= |im.inodes| && DirEntries(im, im.inodes[n - 1]).Some? {
        var num := FindText(DirEntries(im, im.inodes[n - 1]).value, a[0]);
        if num.Some? {
          PartsCat(im, num.value, a[1..], b);
        }
      }
    }
  }

  /** By stored names that are not dots one only gets further down. */
  lemma {:induction false} DownFrom(im: Image, m: Model, n: nat, path: seq<seq<byte>>)
    requires Rep(im, m) && Settled(m) && m.Has(n)
    requires forall i :: 0 <= i < |path| ==> path[i] != DOT && path[i] != DOTDOT
    ensures Shaped(im)
    ensures LookupFrom(im, n, path).Some? ==>
              m.Has(LookupFrom(im, n, path).value) && Below(m, LookupFrom(im, n, path).value, n)
    decreases |path|
  {
    hide Settled, DirEntries, FindName, NodesRep, MapsRep, FreeRep, Attached;
    if path != [] && LookupFrom(im, n, path).Some? {
      DirKind(im, m, n);
      DirReadsBack(im, m, n);
      var k := FoundName(m.At(n).ents, path[0]);
      ChildBelow(m, n, k, path[0]);
      var v := m.At(n).ents[k].num;
      DownFrom(im, m, v, path[1..]);
      BelowBelow(m, LookupFrom(im, v, path[1..]).value, v, n);
    }
  }

  lemma ChildBelow(m: Model, n: nat, k: nat, name: seq<byte>)
    requires Settled(m) && m.Has(n) && m.At(n).kind == Directory && k < |m.At(n).ents| && m.At(n).ents[k].name == name
    requires name != DOT && name != DOTDOT
    ensures k >= 2 && m.Has(m.At(n).ents[k].num) && Below(m, m.At(n).ents[k].num, n) && m.At(n).ents[k].num > n
  {
    hide Links;
    assert NodeSettled(m, n);
    assert ListsAt(m, n, k);
    assert Below(m, n, n);
  }

  /** A name as the source takes it: not empty and no dot entry. */
  predicate Usable(name: string) {
    name != "" && name != "." && name != ".."
  }

  lemma StoredUsable(name: string)
    requires Usable(name)
    ensures Utf8(name) != DOT && Utf8(name) != DOTDOT
  {
    hide Utf8;
    Utf8Length(name);
    DotTexts();
    if Ascii(name) {
      Utf8Ascii(name);
    } else if |Utf8(name)| <= 2 {
      TwoBytes(name);
    }
  }

  /** One character beyond ASCII in two bytes is not two dots. */
  lemma TwoBytes(name: string)
    requires name != "" && !Ascii(name)
    ensures Utf8(name) != DOT && Utf8(name) != DOTDOT
  {
    Utf8Length(name);
    if |Utf8(name)| == 2 {
      assert |name| == 1;
      assert name[1..] == "" && Utf8(name) == Utf8Char(name[0]);
      assert Utf8(name)[0] >= 0xC0;
    }
  }

  /** How entry i of a path was found by its stored name. */
  lemma EntryAt(im: Image, m: Model, names: seq<string>, i: nat) returns (d: nat, e: nat)
    requires Rep(im, m) && Settled(m) && m.Has(1) && i < |names| && (forall j :: 0 <= j < |names| ==> Usable(names[j]))
    requires Shaped(im) && LookupFrom(im, 1, Stored(names)).Some?
    ensures LookupFrom(im, 1, Stored(names[..i])) == Some(d)
    ensures EntryOf(m, d, e) && m.At(d).ents[e].name == Utf8(names[i])
    ensures Below(m, LookupFrom(im, 1, Stored(names)).value, m.At(d).ents[e].num)
    ensures m.At(d).ents[e].num > d >= 1
  {
    hide Settled, DirEntries, FindName, Utf8, NodesRep, MapsRep, FreeRep, Attached, Below;
    var a, b := Stored(names[..i]), Stored(names[i..]);
    assert Stored(names) == a + b;
    LookupCat(im, 1, a, b);
    forall j | 0 <= j < |names|
      ensures Stored(names)[j] != DOT && Stored(names)[j] != DOTDOT
    {
      StoredUsable(names[j]);
    }
    assert forall j :: 0 <= j < |a| ==> a[j] == Stored(names)[j];
    assert forall j :: 0 <= j < |b| ==> b[j] == Stored(names)[i + j];
    DownFrom(im, m, 1, a);
    d := LookupFrom(im, 1, a).value;
    BelowLater(m, d, 1);
    DirKind(im, m, d);
    DirReadsBack(im, m, d);
    e := FoundName(m.At(d).ents, b[0]);
    ChildBelow(m, d, e, b[0]);
    DownFrom(im, m, m.At(d).ents[e].num, b[1..]);
  }

  /** A name with a slash is never found. */
  lemma SlashMisses(im: Image, m: Model, names: seq<string>, i: nat)
    requires Rep(im, m) && Settled(m) && m.Has(1) && i < |names| && (forall j :: 0 <= j < |names| ==> Usable(names[j]))
    requires Shaped(im) && LookupFrom(im, 1, Stored(names)).Some? && SLASH in names[i]
    ensures LookupPath(im, PathOf(names)) != LookupFrom(im, 1, Stored(names))
  {
    hide Settled, LookupFrom, LookupParts, Rep, Parts, PathOf;
    var d, e := EntryAt(im, m, names, i);
    var w := m.At(d).ents[e].num;
    SlashStays(names[i]);
    var parts := Parts(PathOf(names));
    PartsPlain(PathOf(names));
    if Below(m, 1, w) {
      BelowLater(m, 1, w);
      assert false;
    }
    NeverInto(im, m, 1, parts, d, e);
  }

  /** Nor is one beyond ASCII. */
  lemma ForeignMisses(im: Image, m: Model, names: seq<string>, i: nat)
    requires Rep(im, m) && Settled(m) && m.Has(1) && i < |names| && (forall j :: 0 <= j < |names| ==> Usable(names[j]))
    requires Shaped(im) && LookupFrom(im, 1, Stored(names)).Some?
    requires (forall j :: 0 <= j < |names| ==> SLASH !in names[j]) && !Ascii(names[i])
             && (forall j :: 0 <= j < i ==> Ascii(names[j]))
    ensures LookupPath(im, PathOf(names)) != LookupFrom(im, 1, Stored(names))
  {
    hide Settled, LookupFrom, LookupParts, NodesRep, MapsRep, FreeRep, Attached, Parts, PathOf, Utf8, Ascii;
    var d, e := EntryAt(im, m, names, i);
    PartsOfPath(names);
    var a, b := names[..i], names[i..];
    assert names == a + b;
    PartsCat(im, 1, a, b);
    LookupPlain(im, 1, a);
    WrongTurn(im, m, d, e, b);
  }

  /** From the directory of an entry whose name does not read as it was written. */
  lemma WrongTurn(im: Image, m: Model, d: nat, e: nat, names: seq<string>)
    requires Rep(im, m) && Settled(m) && Shaped(im) && EntryOf(m, d, e) && m.At(d).ents[e].num > d >= 1
    requires names != [] && (forall j :: 0 <= j < |names| ==> Usable(names[j])) && !Ascii(names[0])
    requires m.At(d).ents[e].name == Utf8(names[0])
    ensures LookupParts(im, d, names).Some? ==> !Below(m, LookupParts(im, d, names).value, m.At(d).ents[e].num)
  {
    hide Settled, DirEntries, FindText, Below, NodesRep, MapsRep, FreeRep, Attached, Utf8, Ascii;
    var w := m.At(d).ents[e].num;
    if LookupParts(im, d, names).Some? {
      DirKind(im, m, d);
      DirReadsBack(im, m, d);
      var k := FoundEntry(m.At(d).ents, names[0]);
      NotADot(m, d, k, names[0]);
      if Below(m, d, w) {
        BelowLater(m, d, w);
        assert false;
      }
      DecodesBack(names[0]);
      if m.At(d).ents[k].num == w {
        OneEntry(m, d, k, e);
        assert false;
      }
      StepOutside(m, d, k, w);
      NeverBack(im, m, m.At(d).ents[k].num, names[1..], d, e);
    }
  }

  lemma {:induction false} FirstForeign(names: seq<string>) returns (i: nat)
    requires exists j :: 0 <= j < |names| && !Ascii(names[j])
    ensures i < |names| && !Ascii(names[i]) && forall j :: 0 <= j < i ==> Ascii(names[j])
  {
    hide Ascii;
    i := 0;
    while Ascii(names[i])
      invariant i < |names| && forall j :: 0 <= j < i ==> Ascii(names[j])
      invariant exists j :: i <= j < |names| && !Ascii(names[j])
      decreases |names| - i
    {
      i := i + 1;
    }
  }

  /** lookup() finds what the prototype has at some names under the path of these names, if and
      only if all of them are ASCII without a slash. */
  lemma FoundAtItsPath(im: Image, m: Model, proto: Proto, names: seq<string>)
    requires Complete(im, m, proto) && (forall i :: 0 <= i < |names| ==> Usable(names[i]))
    requires ProtoAt(proto, Stored(names)).Some?
    ensures Shaped(im) && LookupFrom(im, 1, Stored(names)).Some?
    ensures InodeShows(im, LookupFrom(im, 1, Stored(names)).value, ProtoAt(proto, Stored(names)).value)
    ensures LookupPath(im, PathOf(names)) == LookupFrom(im, 1, Stored(names)) <==>
              forall i :: 0 <= i < |names| ==> Plain(names[i])
  {
    hide Settled, LookupFrom, LookupParts, Rep, Parts, PathOf, Utf8, Ascii, InodeShows, BuiltNode;
    forall j | 0 <= j < |names|
      ensures Stored(names)[j] != DOT && Stored(names)[j] != DOTDOT
    {
      StoredUsable(names[j]);
    }
    FilesReadBack(im, m, proto, Stored(names));
    BuiltKind(m, 1, proto);
    if i :| 0 <= i < |names| && SLASH in names[i] {
      SlashMisses(im, m, names, i);
    } else if j :| 0 <= j < |names| && !Ascii(names[j]) {
      var i := FirstForeign(names);
      ForeignMisses(im, m, names, i);
    } else {
      PartsOfPath(names);
      LookupPlain(im, 1, names);
    }
  }

  /** The path of some names finds what the prototype has there exactly if they are plain. */
  ghost predicate PathFinds(im: Image, proto: Proto, names: seq<string>)
    requires Shaped(im)
  {
    var stored := LookupFrom(im, 1, Stored(names));
    (forall i :: 0 <= i < |names| ==> Usable(names[i])) && ProtoAt(proto, Stored(names)).Some? ==>
      && stored.Some? && InodeShows(im, stored.value, ProtoAt(proto, Stored(names)).value)
      && (LookupPath(im, PathOf(names)) == stored <==> forall i :: 0 <= i < |names| ==> Plain(names[i]))
  }

  /** The path of a file named "a/b" in the root. */
  lemma SlashParts()
    ensures Usable("a/b") && !Plain("a/b") && PathOf(["a/b"]) == "/a/b" && Parts("/a/b") == ["a", "b"]
  {
    assert "a/b"[1] == SLASH;
    var path := PathOf(["a/b"]);
    assert path == "/a/b" by {
      assert ["a/b"][1..] == [];
    }
    assert path[1..] == "a/b" && "a/b" == "a" + "/b";
    PartLenIs("a", "/b");
    assert "a/b"[..1] == "a" && "a/b"[1..] == "/b" && "/b"[1..] == "b";
    PartLenIs("b", "");
    assert "b" + "" == "b" && "b"[..1] == "b" && "b"[1..] == "";
  }
}
