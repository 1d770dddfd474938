/** compress(1) on equal bytes: what it is for, as far as its table is used. */
module LzwGreedy {
  import opened Common
  import opened LzwCodes
  import opened LzwStream
  import opened LzwBits
  import opened LzwCompress

  function Same(x: byte, n: nat): (s: seq<byte>)
    ensures |s| == n && forall i :: 0 <= i < n ==> s[i] == x
  {
    seq(n, _ => x)
  }

  /** The code of n equal bytes. */
  function CodeOf(p: Params, x: byte, n: nat): nat
    requires n >= 1
  {
    if n == 1 then x else p.FirstFree() + n - 2
  }

  /** The codes of one, two, up to k equal bytes. */
  function FirstCodes(p: Params, x: byte, k: nat): (codes: seq<nat>)
    ensures |codes| == k && forall i :: 0 <= i < k ==> codes[i] == CodeOf(p, x, i + 1)
  {
    seq<nat>(k, i requires 0 <= i < k => CodeOf(p, x, i + 1))
  }

  /** 1 + 2 + ... + k */
  function Sum(k: nat): nat {
    if k == 0 then 0 else Sum(k - 1) + k
  }

  ghost function Pairs(p: Params, x: byte, k: nat): set<(nat, byte)> {
    set i: nat | 1 <= i <= k :: (CodeOf(p, x, i), x)
  }

  /** Strings of one, two, up to k bytes were emitted, and j bytes are pending. */
  ghost predicate State(p: Params, x: byte, e: Enc, entered: set<(nat, byte)>, k: nat, j: nat) {
    && 1 <= j <= k + 1 && e.ent == CodeOf(p, x, j)
    && |e.table| == p.FirstFree() + k && e.table[..p.FirstFree()] == InitTable(p)
    && (forall c :: p.FirstFree() <= c < |e.table| ==> e.table[c] == Same(x, c - p.FirstFree() + 2))
    && Emitted(e) == FirstCodes(p, x, k) && entered == Pairs(p, x, k)
    && (k < 8 ==> e.closed == [] && e.w == InitWidth())
  }

  /** The string of the pending code. */
  lemma Pending(p: Params, x: byte, e: Enc, entered: set<(nat, byte)>, k: nat, j: nat)
    requires State(p, x, e, entered, k, j)
    ensures e.ent < |e.table| && e.table[e.ent] + [x] == Same(x, j + 1)
  {
    if j == 1 {
      assert e.table[x] == e.table[..p.FirstFree()][x];
    }
  }

  /** A known string is extended. */
  lemma HitStep(p: Params, x: byte, e: Enc, entered: set<(nat, byte)>, k: nat, j: nat, ch: Choice)
    requires State(p, x, e, entered, k, j) && j <= k && e.ent < |e.table| && Allowed(p, e, x, ch)
    requires ch.Miss? ==> (e.ent, x) !in entered
    ensures State(p, x, EncStep(p, e, x, ch), AfterEntry(p, e, x, ch, entered), k, j + 1)
  {
    Pending(p, x, e, entered, k, j);
    assert (CodeOf(p, x, j), x) in Pairs(p, x, k);
    var c := ch.code;
    assert e.table[c] == Same(x, c - p.FirstFree() + 2);
    assert |e.table[c]| == j + 1;
  }

  /** A new one is entered, and the one before it emitted. */
  lemma MissStep(p: Params, x: byte, e: Enc, entered: set<(nat, byte)>, k: nat, ch: Choice)
    requires State(p, x, e, entered, k, k + 1) && e.ent < |e.table| < p.MaxMax() && Allowed(p, e, x, ch)
    ensures State(p, x, EncStep(p, e, x, ch), AfterEntry(p, e, x, ch, entered), k + 1, 1)
  {
    Pending(p, x, e, entered, k, k + 1);
    if ch.Hit? {
      assert false;
    }
    var e' := EncStep(p, e, x, ch);
    OneMoreEmitted(p, e, e.ent);
    assert FirstCodes(p, x, k) + [CodeOf(p, x, k + 1)] == FirstCodes(p, x, k + 1);
    assert e'.table[..p.FirstFree()] == e.table[..p.FirstFree()];
    MorePairs(p, x, k);
  }

  lemma MorePairs(p: Params, x: byte, k: nat)
    ensures Pairs(p, x, k) + {(CodeOf(p, x, k + 1), x)} == Pairs(p, x, k + 1)
  {
  }

  lemma OneMoreEmitted(p: Params, e: Enc, code: nat)
    ensures Emitted(Output(p, e, code, false)) == Emitted(e) + [code]
  {
    var e1 := Output(p, e, code, false);
    if e1.open == [] && e1.closed != e.closed {
      assert e1.closed[..|e.closed|] == e.closed;
    }
  }

  /** After Sum(k) + j equal bytes other than 0: the codes of strings that grow by one byte each. */
  lemma {:induction false} EqualBytes(p: Params, x: byte, k: nat, j: nat, choices: seq<Choice>)
    requires x != 0 && 1 <= j <= k + 1 && p.FirstFree() + k <= p.MaxMax()
    requires |choices| + 1 == Sum(k) + j && EncRunOf(p, Same(x, Sum(k) + j), choices).Going?
    requires Greedy(p, Same(x, Sum(k) + j), choices)
    ensures var s := Same(x, Sum(k) + j);
            State(p, x, EncRunOf(p, s, choices).e, Entered(p, s, choices), k, j)
    decreases |choices|
  {
    hide EncRunOf, Entered, State, Allowed, Greedy, EncStep, AfterEntry;
    var n := |choices|;
    if n == 0 {
      OnlySum(k, j);
      assert choices == [];
      FirstState(p, x);
    } else {
      var s := Same(x, n + 1);
      var pre, ch := choices[..n - 1], choices[n - 1];
      assert s[..n] == Same(x, n) && s[n] == x;
      GreedyBefore(p, s, choices);
      var e, entered := EncRunOf(p, s[..n], pre).e, Entered(p, s[..n], pre);
      if j >= 2 {
        EqualBytes(p, x, k, j - 1, pre);
        HitStep(p, x, e, entered, k, j - 1, ch);
      } else {
        EqualBytes(p, x, k - 1, k, pre);
        StateSize(p, x, e, entered, k - 1, k);
        MissStep(p, x, e, entered, k - 1, ch);
      }
    }
  }

  lemma FirstState(p: Params, x: byte)
    ensures EncRunOf(p, Same(x, 1), []).Going?
    ensures State(p, x, EncRunOf(p, Same(x, 1), []).e, Entered(p, Same(x, 1), []), 0, 1)
  {
    assert FirstCodes(p, x, 0) == [] && Pairs(p, x, 0) == {};
    assert InitTable(p)[..p.FirstFree()] == InitTable(p);
  }

  lemma StateSize(p: Params, x: byte, e: Enc, entered: set<(nat, byte)>, k: nat, j: nat)
    requires State(p, x, e, entered, k, j)
    ensures |e.table| == p.FirstFree() + k
  {
  }

  lemma OnlySum(k: nat, j: nat)
    requires Sum(k) + j == 1 && j >= 1
    ensures k == 0 && j == 1
  {
  }

  /** What is known of the last step of a run. */
  lemma {:induction false} GreedyBefore(p: Params, s: seq<byte>, choices: seq<Choice>)
    requires |s| == |choices| + 1 && choices != [] && EncRunOf(p, s, choices).Going? && Greedy(p, s, choices)
    ensures var n := |choices|;
            && EncRunOf(p, s[..n], choices[..n - 1]).Going? && Greedy(p, s[..n], choices[..n - 1])
            && var e := EncRunOf(p, s[..n], choices[..n - 1]).e;
            && e.ent < |e.table| && Allowed(p, e, s[n], choices[n - 1])
            && EncRunOf(p, s, choices).e == EncStep(p, e, s[n], choices[n - 1])
            && (choices[n - 1].Miss? && (e.ent, s[n]) in Entered(p, s[..n], choices[..n - 1]) ==>
                 e.ent == 0 && s[n] == 0)
            && Entered(p, s, choices) == AfterEntry(p, e, s[n], choices[n - 1], Entered(p, s[..n], choices[..n - 1]))
  {
    var n := |choices|;
    assert GreedyAt(p, s, choices, n - 1);
    var t, pre := s[..n], choices[..n - 1];
    forall k | 0 <= k < |pre|
      ensures GreedyAt(p, t, pre, k)
    {
      assert t[..k + 1] == s[..k + 1] && pre[..k] == choices[..k];
      assert GreedyAt(p, s, choices, k);
    }
  }

  lemma {:induction false} FinalCodes(e: Enc)
    ensures Flat(FinalChunks(e)) == Emitted(e)
  {
    if e.open == [] {
      assert Flat(e.closed) + [] == Flat(e.closed);
    } else {
      assert FinalChunks(e)[..|e.closed|] == e.closed;
    }
  }

  /** The size of a file with fewer than eight codes. */
  lemma SmallFile(p: Params, x: byte, e: Enc, entered: set<(nat, byte)>, k: nat, j: nat, bs: seq<byte>)
    requires p.Valid() && State(p, x, e, entered, k, j) && k < 7 && WireOfRun(p, e, bs)
    ensures |bs| == (INIT_BITS * (k + 1) + 7) / 8
    ensures Holds(Chunk(INIT_BITS, FirstCodes(p, x, k) + [CodeOf(p, x, j)]), bs)
  {
    hide Holds;
    assert Flat([]) == [] && Flat([]) + e.open == e.open;
    var e1 := Output(p, e, e.ent, false);
    assert e1.open == FirstCodes(p, x, k) + [CodeOf(p, x, j)] && e1.closed == [];
    assert FinalChunks(e1) == [Chunk(INIT_BITS, e1.open)];
  }

  /** compress() on Sum(k) + j equal bytes writes k + 1 codes: those of one, two, up to k of them,
      and that of the last j. */
  method CompressEqual(x: byte, k: nat, j: nat, maxbits: nat, block: bool) returns (file: seq<byte>)
    requires x != 0 && 1 <= j <= k + 1 && INIT_BITS <= maxbits <= BITS
    requires Params(maxbits, block).FirstFree() + k <= Params(maxbits, block).MaxMax()
    ensures var p := Params(maxbits, block);
            && |file| >= 3 && file[..3] == Header(p)
            && (exists chunks, n ::
                  && Wire(chunks, n, file[3..])
                  && Flat(chunks) == FirstCodes(p, x, k) + [CodeOf(p, x, j)])
    ensures k < 7 ==>
              var p := Params(maxbits, block);
              && |file| == 3 + (INIT_BITS * (k + 1) + 7) / 8
              && Holds(Chunk(INIT_BITS, FirstCodes(p, x, k) + [CodeOf(p, x, j)]), file[3..])
  {
    hide Wire, Holds, EncRunOf, Entered, Greedy, Flat, RareClears;
    var comp := new Compressor(maxbits, block);
    var input := Same(x, Sum(k) + j);
    ghost var choices := comp.Compress(input);
    file := comp.stdout;
    ghost var p := comp.p;
    EqualBytes(p, x, k, j, choices);
    ghost var e, entered := EncRunOf(p, input, choices).e, Entered(p, input, choices);
    OneMoreEmitted(p, e, e.ent);
    FinalCodes(Output(p, e, e.ent, false));
    if k < 7 {
      SmallFile(p, x, e, entered, k, j, file[3..]);
    }
  }

  /** Two codes of nine bits, low bits first. */
  lemma TwoCodes(bs: seq<byte>)
    requires |bs| == 3 && CodeAt(bs, 0, 9) == 97 && CodeAt(bs, 9, 9) == 257
    ensures bs[0] == 0x61 && bs[1] == 2 && bs[2] % 4 == 2
  {
    hide CodeAt, Pow2;
    Pow2Table();
    CodeSplit(bs, 0, 8, 1);
    CodeInByte(bs, 0, 0, 8);
    CodeInByte(bs, 1, 0, 1);
    CodeSplit(bs, 9, 7, 2);
    CodeInByte(bs, 1, 1, 7);
    CodeInByte(bs, 2, 0, 2);
  }

  /** compress "aaa": the two magic bytes, 13 bits with the block flag, and the codes 97 and 257.
      The last six bits are padding. */
  method ThreeBytes() returns (file: seq<byte>)
    ensures |file| == 6 && file[..5] == [0x1F, 0x9D, 0x8D, 0x61, 0x02] && file[5] % 4 == 2
  {
    hide CodeAt;
    file := CompressEqual(97, 1, 2, BITS, true);
    ghost var codes := FirstCodes(Params(BITS, true), 97, 1) + [CodeOf(Params(BITS, true), 97, 2)];
    ghost var ch, bs := Chunk(INIT_BITS, codes), file[3..];
    assert codes == [97, 257];
    assert HoldsAt(ch, bs, 0) && HoldsAt(ch, bs, 1);
    TwoCodes(bs);
    assert file[..3] == [0x1F, 0x9D, 0x8D];
    assert file[..5] == file[..3] + [bs[0], bs[1]] && file[5] == bs[2];
  }
}
