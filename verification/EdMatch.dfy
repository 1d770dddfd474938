/** The pattern matcher of ed(1), for patterns without groups. */
module EdMatch {
  import opened Common

  /** A pattern template token.  Closure stands before the token it repeats. */
  datatype Token = Lit(lchar: char) | Bol | Eol | Any | Ccl(chars: set<char>) | Nccl(chars: set<char>) | Closure

  predicate OneChar(t: Token) {
    t.Lit? || t.Any? || t.Ccl? || t.Nccl?
  }

  /** Closures repeat one-character tokens only. */
  predicate WellFormed(pat: seq<Token>) {
    forall k :: 0 <= k < |pat| - 1 && pat[k] == Closure ==> OneChar(pat[k + 1])
  }

  predicate CharMatches(t: Token, c: char) {
    match t
    case Lit(x) => c == x
    case Any => c != '\n'
    case Ccl(s) => c in s
    case Nccl(s) => c !in s
    case _ => false
  }

  /** omatch(): the characters a token uses up at position i, or -1. */
  function OMatch(line: string, i: nat, t: Token): (advance: int)
    ensures -1 <= advance <= 1
    ensures advance == 1 ==> i < |line|
    ensures OneChar(t) ==> advance != 0
  {
    if i >= |line| then -1
    else
      match t
      case Bol => if i == 0 then 0 else -1
      case Eol => if line[i] == '\n' then 0 else -1
      case _ => if CharMatches(t, line[i]) then 1 else -1
  }

  // ----- what a match is -----

  /** The text that a token stands for: here it is line[i..j]. */
  ghost predicate Stands(t: Token, line: string, i: nat, j: nat) {
    && i <= j <= |line|
    && match t
       case Lit(c) => line[i..j] == [c]
       case Any => j == i + 1 && line[i] != '\n'
       case Ccl(s) => j == i + 1 && line[i] in s
       case Nccl(s) => j == i + 1 && line[i] !in s
       case Bol => i == j == 0 && line != ""
       case Eol => i == j < |line| && line[i] == '\n'
       case Closure => false
  }

  ghost predicate StandsHere(t: Token, line: string, k: nat) {
    Stands(t, line, k, k + 1)
  }

  /** n characters from i on, each of them one that t stands for. */
  ghost predicate Run(line: string, i: nat, t: Token, n: nat) {
    i + n <= |line| && forall k :: i <= k < i + n ==> StandsHere(t, line, k)
  }

  /** omatch() finds the text of a token exactly if it is there. */
  lemma OMatchExactly(t: Token, line: string, i: nat, j: nat)
    ensures Stands(t, line, i, j) <==> OMatch(line, i, t) >= 0 && j == i + OMatch(line, i, t)
  {
    if i < |line| {
      assert line[i..i + 1] == [line[i]];
    }
  }

  predicate IsClosure(pat: seq<Token>) {
    |pat| > 1 && pat[0] == Closure
  }

  /** The pattern matches line[i..j] when its closures repeat counts times. */
  ghost predicate Parses(line: string, i: nat, pat: seq<Token>, counts: seq<nat>, j: nat)
    decreases |pat|
  {
    if pat == [] then counts == [] && i == j
    else if IsClosure(pat) then
      && counts != [] && Run(line, i, pat[1], counts[0])
      && Parses(line, i + counts[0], pat[2..], counts[1..], j)
    else exists m: nat :: Stands(pat[0], line, i, m) && Parses(line, m, pat[1..], counts, j)
  }

  lemma ParsesStep(line: string, i: nat, pat: seq<Token>, counts: seq<nat>, j: nat)
    requires pat != [] && !IsClosure(pat)
    ensures Parses(line, i, pat, counts, j) <==>
              OMatch(line, i, pat[0]) >= 0 && Parses(line, i + OMatch(line, i, pat[0]), pat[1..], counts, j)
  {
    hide Stands, OMatch;
    forall m: nat
      ensures Stands(pat[0], line, i, m) <==> OMatch(line, i, pat[0]) >= 0 && m == i + OMatch(line, i, pat[0])
    {
      OMatchExactly(pat[0], line, i, m);
    }
  }

  /** a comes before b in the order that prefers more repetitions, leftmost closure first. */
  ghost predicate NoLonger(a: seq<nat>, b: seq<nat>)
    decreases |a|
  {
    a == [] || (b != [] && (a[0] < b[0] || (a[0] == b[0] && NoLonger(a[1..], b[1..]))))
  }

  /** j ends the parse that makes every closure, from the left, as long as possible. */
  ghost predicate LongestFirst(line: string, i: nat, pat: seq<Token>, j: nat) {
    exists counts :: Parses(line, i, pat, counts, j) && Longest(line, i, pat, counts)
  }

  ghost predicate Longest(line: string, i: nat, pat: seq<Token>, counts: seq<nat>) {
    forall other, k :: Parses(line, i, pat, other, k) ==> NoLonger(other, counts)
  }

  ghost predicate NoParse(line: string, i: nat, pat: seq<Token>) {
    forall counts, j :: !Parses(line, i, pat, counts, j)
  }

  // ----- what match() computes -----

  /** The longest run. */
  function MaxRun(line: string, i: nat, t: Token): (n: nat)
    requires OneChar(t)
    decreases |line| - i
  {
    if OMatch(line, i, t) == 1 then 1 + MaxRun(line, i + 1, t) else 0
  }

  function Greedy(line: string, i: nat, pat: seq<Token>): Option<nat>
    requires WellFormed(pat)
    decreases |pat|, 0
  {
    if pat == [] then Some(i)
    else if IsClosure(pat) then
      var n := MaxRun(line, i, pat[1]);
      if |pat| == 2 then Some(i + n) else BackUp(line, i, n, pat)
    else
      var a := OMatch(line, i, pat[0]);
      if a < 0 then None else Greedy(line, i + a, pat[1..])
  }

  /** The rest of the pattern after a closure, tried with n repetitions and then fewer. */
  function BackUp(line: string, i: nat, n: nat, pat: seq<Token>): Option<nat>
    requires WellFormed(pat) && |pat| > 2
    decreases |pat| - 2, n + 1
  {
    var r := Greedy(line, i + n, pat[2..]);
    if r.Some? then r else if n == 0 then None else BackUp(line, i, n - 1, pat)
  }

  /** match(): no pattern, no match. */
  function MatchAt(line: string, i: nat, pat: seq<Token>): Option<nat>
    requires WellFormed(pat)
  {
    if pat == [] then None else Greedy(line, i, pat)
  }

  // ----- match() finds a match if there is one, and which one -----

  lemma {:induction false} MaxRunIs(line: string, i: nat, t: Token)
    requires OneChar(t) && i <= |line|
    ensures Run(line, i, t, MaxRun(line, i, t))
    ensures forall n: nat :: Run(line, i, t, n) ==> n <= MaxRun(line, i, t)
    decreases |line| - i
  {
    hide Stands;
    OMatchExactly(t, line, i, i + 1);
    if OMatch(line, i, t) == 1 {
      MaxRunIs(line, i + 1, t);
      forall n: nat | Run(line, i, t, n)
        ensures n <= MaxRun(line, i, t)
      {
        if n > 0 {
          assert Run(line, i + 1, t, n - 1);
        }
      }
    } else {
      assert !StandsHere(t, line, i);
    }
  }

  lemma RunShorter(line: string, i: nat, t: Token, n: nat, m: nat)
    requires Run(line, i, t, n) && m <= n
    ensures Run(line, i, t, m)
  {
  }

  /** The answer r is right: it is the longest-first parse, or there is none. */
  ghost predicate Right(line: string, i: nat, pat: seq<Token>, r: Option<nat>) {
    match r
    case Some(j) => LongestFirst(line, i, pat, j)
    case None => NoParse(line, i, pat)
  }

  lemma WellFormedTail(pat: seq<Token>, k: nat)
    requires WellFormed(pat) && k <= |pat|
    ensures WellFormed(pat[k..])
  {
    forall q | 0 <= q < |pat[k..]| - 1 && pat[k..][q] == Closure
      ensures OneChar(pat[k..][q + 1])
    {
      assert pat[k..][q] == pat[k + q] && pat[k..][q + 1] == pat[(k + q) + 1];
    }
  }

  /** match() is sound and complete, and prefers long repetitions. */
  lemma {:induction false} GreedyRight(line: string, i: nat, pat: seq<Token>)
    requires WellFormed(pat) && i <= |line|
    ensures Right(line, i, pat, Greedy(line, i, pat))
    decreases |pat|, 0
  {
    if pat == [] {
      assert Parses(line, i, pat, [], i);
    } else if IsClosure(pat) {
      MaxRunIs(line, i, pat[1]);
      var n := MaxRun(line, i, pat[1]);
      if |pat| == 2 {
        ClosureLast(line, i, pat, n);
      } else {
        BackUpRight(line, i, n, pat);
      }
    } else {
      var a := OMatch(line, i, pat[0]);
      if a < 0 {
        forall counts, j
          ensures !Parses(line, i, pat, counts, j)
        {
          ParsesStep(line, i, pat, counts, j);
        }
      } else {
        WellFormedTail(pat, 1);
        GreedyRight(line, i + a, pat[1..]);
        StepRight(line, i, pat, Greedy(line, i + a, pat[1..]));
      }
    }
  }

  lemma ClosureLast(line: string, i: nat, pat: seq<Token>, n: nat)
    requires IsClosure(pat) && |pat| == 2
    requires Run(line, i, pat[1], n) && forall m: nat :: Run(line, i, pat[1], m) ==> m <= n
    ensures LongestFirst(line, i, pat, i + n)
  {
    assert pat[2..] == [] && [n][1..] == [];
    assert Parses(line, i + n, pat[2..], [n][1..], i + n);
    assert Parses(line, i, pat, [n], i + n);
    forall other, k | Parses(line, i, pat, other, k)
      ensures NoLonger(other, [n])
    {
      assert Run(line, i, pat[1], other[0]) && Parses(line, i + other[0], [], other[1..], k);
    }
  }

  lemma StepRight(line: string, i: nat, pat: seq<Token>, r: Option<nat>)
    requires pat != [] && !IsClosure(pat) && OMatch(line, i, pat[0]) >= 0
    requires Right(line, i + OMatch(line, i, pat[0]), pat[1..], r)
    ensures Right(line, i, pat, r)
  {
    var i1 := i + OMatch(line, i, pat[0]);
    if r.Some? {
      var counts :| Parses(line, i1, pat[1..], counts, r.value) && Longest(line, i1, pat[1..], counts);
      ParsesStep(line, i, pat, counts, r.value);
      forall other, k | Parses(line, i, pat, other, k)
        ensures NoLonger(other, counts)
      {
        ParsesStep(line, i, pat, other, k);
      }
    } else {
      forall counts, j
        ensures !Parses(line, i, pat, counts, j)
      {
        ParsesStep(line, i, pat, counts, j);
      }
    }
  }

  ghost predicate LongestUpTo(line: string, i: nat, n: nat, pat: seq<Token>, counts: seq<nat>) {
    forall other, k :: Parses(line, i, pat, other, k) && other != [] && other[0] <= n ==> NoLonger(other, counts)
  }

  /** Among the parses with at most n repetitions of the first closure. */
  ghost predicate RightUpTo(line: string, i: nat, n: nat, pat: seq<Token>, r: Option<nat>) {
    match r
    case Some(j) =>
      exists counts :: Parses(line, i, pat, counts, j) && LongestUpTo(line, i, n, pat, counts)
    case None => forall counts, j :: counts != [] && counts[0] <= n ==> !Parses(line, i, pat, counts, j)
  }

  lemma {:induction false} BackUpRightUpTo(line: string, i: nat, n: nat, pat: seq<Token>)
    requires WellFormed(pat) && IsClosure(pat) && |pat| > 2 && Run(line, i, pat[1], n)
    ensures RightUpTo(line, i, n, pat, BackUp(line, i, n, pat))
    decreases |pat| - 2, n + 1
  {
    WellFormedTail(pat, 2);
    GreedyRight(line, i + n, pat[2..]);
    var r := Greedy(line, i + n, pat[2..]);
    if r.Some? {
      FirstTry(line, i, n, pat, r.value);
    } else {
      if n > 0 {
        RunShorter(line, i, pat[1], n, n - 1);
        BackUpRightUpTo(line, i, n - 1, pat);
      }
      NextTry(line, i, n, pat, BackUp(line, i, n, pat));
    }
  }

  lemma FirstTry(line: string, i: nat, n: nat, pat: seq<Token>, j: nat)
    requires IsClosure(pat) && Run(line, i, pat[1], n) && LongestFirst(line, i + n, pat[2..], j)
    ensures RightUpTo(line, i, n, pat, Some(j))
  {
    var rest :| Parses(line, i + n, pat[2..], rest, j) && Longest(line, i + n, pat[2..], rest);
    var counts := [n] + rest;
    assert counts[1..] == rest;
    assert Parses(line, i, pat, counts, j);
    forall other, k | Parses(line, i, pat, other, k) && other != [] && other[0] <= n
      ensures NoLonger(other, counts)
    {
      if other[0] == n {
        assert Parses(line, i + n, pat[2..], other[1..], k);
      }
    }
  }

  lemma NextTry(line: string, i: nat, n: nat, pat: seq<Token>, r: Option<nat>)
    requires IsClosure(pat)
    requires NoParse(line, i + n, pat[2..])
    requires n == 0 ==> r == None
    requires n > 0 ==> RightUpTo(line, i, n - 1, pat, r)
    ensures RightUpTo(line, i, n, pat, r)
  {
    forall counts, j | counts != [] && counts[0] == n
      ensures !Parses(line, i, pat, counts, j)
    {
      assert !Parses(line, i + n, pat[2..], counts[1..], j);
    }
    if r.Some? {
      var counts :| Parses(line, i, pat, counts, r.value) && LongestUpTo(line, i, n - 1, pat, counts);
      assert LongestUpTo(line, i, n, pat, counts);
    }
  }

  lemma BackUpRight(line: string, i: nat, n: nat, pat: seq<Token>)
    requires WellFormed(pat) && IsClosure(pat) && |pat| > 2
    requires Run(line, i, pat[1], n) && forall m: nat :: Run(line, i, pat[1], m) ==> m <= n
    ensures Right(line, i, pat, BackUp(line, i, n, pat))
    decreases |pat| - 1, 0
  {
    BackUpRightUpTo(line, i, n, pat);
    forall counts, j | Parses(line, i, pat, counts, j)
      ensures counts != [] && counts[0] <= n
    {
      assert Run(line, i, pat[1], counts[0]);
    }
  }

  /** A repeated class at the end matches as many of its characters as there are. */
  lemma StarExactly(line: string, i: nat, s: set<char>, j: nat)
    requires i <= |line|
    ensures MatchAt(line, i, [Closure, Ccl(s)]) == Some(j) <==>
              && i <= j <= |line| && (forall k :: i <= k < j ==> line[k] in s)
              && (j == |line| || line[j] !in s)
  {
    var t := Ccl(s);
    MaxRunIs(line, i, t);
    var n := MaxRun(line, i, t);
    assert [Closure, t][1] == t;
    forall k | i <= k < i + n
      ensures line[k] in s
    {
      assert StandsHere(t, line, k);
    }
    MaxRunStops(line, i, t);
  }

  lemma {:induction false} MaxRunStops(line: string, i: nat, t: Token)
    requires OneChar(t) && i <= |line|
    ensures !StandsHere(t, line, i + MaxRun(line, i, t))
    decreases |line| - i
  {
    hide Stands;
    OMatchExactly(t, line, i, i + 1);
    if OMatch(line, i, t) == 1 {
      MaxRunStops(line, i + 1, t);
    }
  }

  // ----- the program -----

  /** match() */
  method Match(line: string, lin0: nat, pat0: seq<Token>) returns (r: Option<nat>)
    requires WellFormed(pat0) && lin0 <= |line|
    ensures r == MatchAt(line, lin0, pat0)
    ensures pat0 != [] ==> Right(line, lin0, pat0, r)
    decreases |pat0|
  {
    hide Right;
    if pat0 == [] {
      return None;
    }
    GreedyRight(line, lin0, pat0);
    var lin: int, pat := lin0, pat0;
    while pat != []
      invariant WellFormed(pat) && |pat| <= |pat0| && 0 <= lin <= |line|
      invariant Greedy(line, lin0, pat0) == Greedy(line, lin, pat)
      decreases |pat|
    {
      WellFormedTail(pat, 1);
      if IsClosure(pat) {
        ghost var whole := pat;
        WellFormedTail(pat, 2);
        pat := pat[1..];
        var bocl := lin;
        while lin < |line| && OMatch(line, lin, pat[0]) >= 0
          invariant bocl <= lin <= |line|
          invariant MaxRun(line, bocl, pat[0]) == lin - bocl + MaxRun(line, lin, pat[0])
        {
          lin := lin + OMatch(line, lin, pat[0]);
        }
        pat := pat[1..];
        assert whole[2..] == pat;
        if pat != [] {
          while bocl <= lin
            invariant bocl - 1 <= lin <= |line|
            invariant Greedy(line, bocl, whole) == if lin < bocl then None else BackUp(line, bocl, lin - bocl, whole)
          {
            r := Match(line, lin, pat);
            if r.Some? {
              return;
            }
            lin := lin - 1;
          }
          return None;
        }
      } else if OMatch(line, lin, pat[0]) >= 0 {
        lin := lin + OMatch(line, lin, pat[0]);
        pat := pat[1..];
      } else {
        return None;
      }
    }
    return Some(lin);
  }

  // ----- matchs(): the leftmost match -----

  /** The first k tokens are characters that stand at position i of the line. */
  ghost predicate LitsAt(line: string, i: nat, pat: seq<Token>, k: nat) {
    && k <= |pat| && i + k <= |line|
    && forall q :: 0 <= q < k ==> pat[q] == Lit(line[i + q])
  }

  /** Characters at the start of the pattern can be matched ahead. */
  lemma {:induction false} SkipLits(line: string, i: nat, pat: seq<Token>, k: nat)
    requires WellFormed(pat) && LitsAt(line, i, pat, k)
    ensures WellFormed(pat[k..]) && Greedy(line, i, pat) == Greedy(line, i + k, pat[k..])
    decreases k
  {
    WellFormedTail(pat, k);
    if k == 0 {
      assert pat[0..] == pat;
    } else {
      WellFormedTail(pat, 1);
      assert pat[0] == Lit(line[i + 0]);
      forall q | 0 <= q < k - 1
        ensures pat[1..][q] == Lit(line[i + 1 + q])
      {
        assert pat[q + 1] == Lit(line[i + (q + 1)]);
      }
      SkipLits(line, i + 1, pat[1..], k - 1);
      assert pat[1..][k - 1..] == pat[k..];
    }
  }

  lemma LitFails(line: string, i: nat, pat: seq<Token>, k: nat)
    requires WellFormed(pat) && LitsAt(line, i, pat, k) && k < |pat| && pat[k].Lit?
    requires i + k >= |line| || line[i + k] != pat[k].lchar
    ensures Greedy(line, i, pat) == None
  {
    SkipLits(line, i, pat, k);
  }

  /** No match starts before p. */
  ghost predicate NoneBefore(line: string, pat: seq<Token>, p: nat)
    requires WellFormed(pat)
  {
    forall q :: 0 <= q < p ==> MatchAt(line, q, pat) == None
  }

  /** The literal-prefix loop: from l on, find a place where all literals at the start of the
      pattern stand.  k is their number and line2 the position behind them. */
  method FindLits(line: string, pat: seq<Token>, l0: nat) returns (l: nat, line2: nat, k: nat)
    requires WellFormed(pat) && pat != [] && pat[0].Lit? && l0 < |line| && NoneBefore(line, pat, l0)
    ensures l0 <= l <= |line| && NoneBefore(line, pat, l)
    ensures l < |line| ==> LitsAt(line, l, pat, k) && line2 == l + k && (k < |pat| ==> !pat[k].Lit?)
  {
    l, line2, k := l0, l0, 0;
    var c := pat[0].lchar;
    while l < |line|
      invariant l0 <= l <= |line| && NoneBefore(line, pat, l)
    {
      line2 := l;
      if line[line2] != c {
        while line2 < |line| && line[line2] != c
          invariant l <= line2 <= |line| && NoneBefore(line, pat, line2)
        {
          LitFails(line, line2, pat, 0);
          line2 := line2 + 1;
        }
        l := line2;
        if line2 == |line| {
          return;
        }
      }
      line2, k := line2 + 1, 1;
      var ok := true;
      while k < |pat| && pat[k].Lit?
        invariant 1 <= k <= |pat| && line2 == l + k && LitsAt(line, l, pat, k)
      {
        if line2 >= |line| || line[line2] != pat[k].lchar {
          ok := false;
          LitFails(line, l, pat, k);
          break;
        }
        line2, k := line2 + 1, k + 1;
      }
      if ok {
        return;
      }
      l := l + 1;
    }
  }

  /** Where match finds nothing there is nothing to be found. */
  lemma NothingBefore(line: string, pat: seq<Token>, p: nat)
    requires WellFormed(pat) && pat != [] && p <= |line|
    ensures NoneBefore(line, pat, p) <==> forall q :: 0 <= q < p ==> NoParse(line, q, pat)
  {
    hide Parses, Greedy;
    forall q | 0 <= q < p
      ensures MatchAt(line, q, pat) == None <==> NoParse(line, q, pat)
    {
      GreedyRight(line, q, pat);
    }
  }

  /** matchs(): where the leftmost match starts and ends.  The line is not empty: ed ends
      every line with a newline. */
  method Matchs(line: string, pat: seq<Token>) returns (start: Option<nat>, end: nat)
    requires WellFormed(pat) && line != []
    ensures start.None? ==> NoneBefore(line, pat, |line|)
    ensures start.Some? ==>
              && start.value < |line| && NoneBefore(line, pat, start.value)
              && MatchAt(line, start.value, pat) == Some(end)
    ensures start.None? && pat != [] ==> forall q :: 0 <= q < |line| ==> NoParse(line, q, pat)
    ensures start.Some? ==>
              LongestFirst(line, start.value, pat, end) && forall q :: 0 <= q < start.value ==> NoParse(line, q, pat)
  {
    start, end := Leftmost(line, pat);
    if pat != [] {
      NothingBefore(line, pat, if start.None? then |line| else start.value);
      if start.Some? {
        GreedyRight(line, start.value, pat);
      }
    }
  }

  /** The loop of matchs(). */
  method Leftmost(line: string, pat: seq<Token>) returns (start: Option<nat>, end: nat)
    requires WellFormed(pat) && line != []
    ensures start.None? ==> NoneBefore(line, pat, |line|)
    ensures start.Some? ==>
              && start.value < |line| && NoneBefore(line, pat, start.value)
              && MatchAt(line, start.value, pat) == Some(end)
  {
    var l := 0;
    end := 0;
    while l < |line|
      invariant 0 <= l <= |line| && NoneBefore(line, pat, l)
    {
      var line2, k := l, 0;
      if pat != [] && pat[0].Lit? {
        l, line2, k := FindLits(line, pat, l);
        if l == |line| {
          return None, end;
        }
        SkipLits(line, l, pat, k);
        if k == |pat| {
          return Some(l), line2;
        }
      } else {
        assert pat[0..] == pat;
      }
      var rval := Match(line, line2, pat[k..]);
      if rval.Some? {
        return Some(l), rval.value;
      }
      if pat != [] && pat[0].Bol? {
        BolOnly(line, pat);
        return None, end;
      }
      l := l + 1;
    }
    return None, end;
  }

  /** A pattern anchored at the beginning of the line matches nowhere else. */
  lemma BolOnly(line: string, pat: seq<Token>)
    requires WellFormed(pat) && pat != [] && pat[0].Bol?
    ensures forall q :: 1 <= q ==> MatchAt(line, q, pat) == None
  {
  }

  /** What matchs returns to its callers: the place of the match, or of its last character. */
  method MatchsPtr(line: string, pat: seq<Token>, retEndp: bool) returns (r: Option<nat>)
    requires WellFormed(pat) && line != []
    ensures r.None? <==> forall q :: 0 <= q < |line| ==> MatchAt(line, q, pat) == None
    ensures r.Some? ==> exists q :: 0 <= q < |line| && MatchAt(line, q, pat).Some? && NoneBefore(line, pat, q)
                                    && r.value == PtrOf(q, MatchAt(line, q, pat).value, retEndp)
  {
    var start, end := Matchs(line, pat);
    if start.None? {
      return None;
    }
    return Some(PtrOf(start.value, end, retEndp));
  }

  function PtrOf(start: nat, end: nat, retEndp: bool): nat {
    if !retEndp then start else if end > start then end - 1 else end
  }
}
