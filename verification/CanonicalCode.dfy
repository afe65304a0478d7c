/** Canonical Huffman codes as section 3.2.2 of RFC 1951 defines them from a list of code
    lengths (0 = symbol unused), with codes of at most 15 bits. */
module CanonicalCode {
  import opened Bits

  type Lengths = s: seq<nat> | forall i :: 0 <= i < |s| ==> s[i] <= 15

  /** Number of symbols whose code has length l (bl_count). */
  function Count(lens: Lengths, l: nat): (n: nat)
    ensures n <= |lens|
  {
    if |lens| == 0 then 0 else
    Count(lens[..|lens| - 1], l) + (if lens[|lens| - 1] == l then 1 else 0)
  }

  function BlCount(lens: Lengths, l: nat): (n: nat)
    ensures n <= |lens|
  {
    if l == 0 then 0 else Count(lens, l)
  }

  /** Numerically smallest code of length l (step 2 of section 3.2.2). */
  function FirstCode(lens: Lengths, l: nat): nat {
    if l == 0 then 0 else 2 * (FirstCode(lens, l - 1) + BlCount(lens, l - 1))
  }

  /** Number of earlier symbols with the same length. */
  function Rank(lens: Lengths, i: nat): nat
    requires i < |lens|
  {
    Count(lens[..i], lens[i])
  }

  /** The code of symbol i (step 3 of section 3.2.2). */
  function CodeOf(lens: Lengths, i: nat): nat
    requires i < |lens|
  {
    FirstCode(lens, lens[i]) + Rank(lens, i)
  }

  /** Symbol i's code is a prefix of the bits held in v, first bit lowest. */
  predicate Matches(lens: Lengths, i: nat, v: nat) {
    i < |lens| && lens[i] > 0 && Rev(v, lens[i]) == CodeOf(lens, i)
  }

  /** Kraft sum in units of 2^-15. */
  function Kraft(lens: Lengths): nat {
    if |lens| == 0 then 0 else
    var l := lens[|lens| - 1];
    Kraft(lens[..|lens| - 1]) + (if l == 0 then 0 else Pow2(15 - l))
  }

  predicate Decodable(lens: Lengths) {
    Kraft(lens) <= Pow2(15)
  }

  // ----- codes as intervals of 16-bit windows

  /** Share of the 2^16 windows taken by codes shorter than l. */
  function Start(lens: Lengths, l: nat): nat
    requires l <= 16
  {
    if l <= 1 then 0 else Start(lens, l - 1) + Shl(BlCount(lens, l - 1), 17 - l)
  }

  lemma {:induction false} StartMono(lens: Lengths, a: nat, b: nat)
    requires a <= b <= 16
    ensures Start(lens, a) <= Start(lens, b)
  {
    if a < b {
      StartMono(lens, a, b - 1);
    }
  }

  lemma {:induction false} StartIsFirstCode(lens: Lengths, l: nat)
    requires 1 <= l <= 16
    ensures Start(lens, l) == Shl(FirstCode(lens, l), 16 - l)
  {
    if l == 1 {
      assert FirstCode(lens, 1) == 0;
      ShlZero(15);
    } else {
      StartIsFirstCode(lens, l - 1);
      var a, b := FirstCode(lens, l - 1), BlCount(lens, l - 1);
      ShlAdd(a, b, 17 - l);
      ShlDouble(a + b, 16 - l);
    }
  }

  lemma CountAppend(lens: Lengths, x: nat, l: nat)
    requires x <= 15
    ensures Count(lens + [x], l) == Count(lens, l) + (if x == l then 1 else 0)
  {
    assert (lens + [x])[..|lens|] == lens;
  }

  lemma {:induction false} StartAppend(lens: Lengths, x: nat, l: nat)
    requires l <= 16 && x <= 15
    ensures Start(lens + [x], l) == Start(lens, l) + (if 0 < x < l then Pow2(16 - x) else 0)
  {
    hide Shl, Count;
    if l > 1 {
      StartAppend(lens, x, l - 1);
      CountAppend(lens, x, l - 1);
      ShlAdd(BlCount(lens, l - 1), 1, 17 - l);
      ShlOne(17 - l);
    }
  }

  /** All codes together take twice the Kraft sum out of 2^16 windows. */
  lemma {:induction false} StartIsKraft(lens: Lengths)
    ensures Start(lens, 16) == 2 * Kraft(lens)
  {
    if |lens| == 0 {
      StartEmpty(16);
    } else {
      var init, x := lens[..|lens| - 1], lens[|lens| - 1];
      StartIsKraft(init);
      StartAppend(init, x, 16);
      assert lens == init + [x];
    }
  }

  lemma {:induction false} StartEmpty(l: nat)
    requires l <= 16
    ensures Start([], l) == 0
  {
    if l > 1 {
      StartEmpty(l - 1);
      ShlZero(17 - l);
    }
  }

  lemma {:induction false} CountMono(lens: Lengths, i: nat, j: nat, l: nat)
    requires i <= j <= |lens|
    ensures Count(lens[..i], l) <= Count(lens[..j], l)
  {
    if i < j {
      CountMono(lens, i, j - 1, l);
      assert lens[..j][..j - 1] == lens[..j - 1];
    }
  }

  lemma CountStep(lens: Lengths, i: nat, l: nat)
    requires i < |lens|
    ensures Count(lens[..i + 1], l) == Count(lens[..i], l) + (if lens[i] == l then 1 else 0)
  {
    assert lens[..i + 1][..i] == lens[..i];
  }

  lemma RankBound(lens: Lengths, i: nat)
    requires i < |lens|
    ensures Rank(lens, i) < Count(lens, lens[i])
  {
    CountStep(lens, i, lens[i]);
    CountMono(lens, i + 1, |lens|, lens[i]);
    assert lens[..|lens|] == lens;
  }

  lemma RankInjective(lens: Lengths, i: nat, j: nat)
    requires i < |lens| && j < |lens| && lens[i] == lens[j]
    ensures Rank(lens, i) == Rank(lens, j) ==> i == j
  {
    if i < j {
      CountStep(lens, i, lens[i]);
      CountMono(lens, i + 1, j, lens[i]);
    } else if j < i {
      CountStep(lens, j, lens[i]);
      CountMono(lens, j + 1, i, lens[i]);
    }
  }

  /** Every rank below the count belongs to some symbol. */
  lemma {:induction false} SymbolOfRank(lens: Lengths, l: nat, r: nat) returns (i: nat)
    requires r < Count(lens, l)
    ensures i < |lens| && lens[i] == l && Rank(lens, i) == r
  {
    var n := |lens| - 1;
    if lens[n] == l && Count(lens[..n], l) == r {
      return n;
    }
    i := SymbolOfRank(lens[..n], l, r);
    assert lens[..n][..i] == lens[..i];
  }

  /** First window of symbol i's code. */
  function Low(lens: Lengths, i: nat): nat
    requires i < |lens|
  {
    Start(lens, lens[i]) + Shl(Rank(lens, i), 16 - lens[i])
  }

  lemma LowIsCode(lens: Lengths, i: nat)
    requires i < |lens| && lens[i] > 0
    ensures Low(lens, i) == Shl(CodeOf(lens, i), 16 - lens[i])
  {
    StartIsFirstCode(lens, lens[i]);
    ShlAdd(FirstCode(lens, lens[i]), Rank(lens, i), 16 - lens[i]);
  }

  lemma LowBound(lens: Lengths, i: nat)
    requires i < |lens| && lens[i] > 0
    ensures Start(lens, lens[i]) <= Low(lens, i)
    ensures Low(lens, i) + Pow2(16 - lens[i]) <= Start(lens, lens[i] + 1)
  {
    hide Shl, Pow2, Count;
    var l, r := lens[i], Rank(lens, i);
    RankBound(lens, i);
    ShlMono(r + 1, Count(lens, l), 16 - l);
    ShlAdd(r, 1, 16 - l);
    ShlOne(16 - l);
  }

  /** A window starts with symbol i's code exactly when it lies in that code's interval. */
  lemma MatchInterval(lens: Lengths, i: nat, v: nat)
    requires i < |lens| && lens[i] > 0
    ensures Matches(lens, i, v) <==> Low(lens, i) <= Rev(v, 16) < Low(lens, i) + Pow2(16 - lens[i])
  {
    var l, c := lens[i], CodeOf(lens, i);
    LowIsCode(lens, i);
    RevPrefix(v, l, 16);
    ShrInterval(Rev(v, 16), 16 - l, c);
    ShlAdd(c, 1, 16 - l);
    ShlOne(16 - l);
  }

  /** The code is prefix-free: at most one symbol's code starts any bit string. */
  lemma PrefixFree(lens: Lengths, i: nat, j: nat, v: nat)
    requires Matches(lens, i, v) && Matches(lens, j, v)
    ensures i == j
  {
    if lens[i] == lens[j] {
      RankInjective(lens, i, j);
    } else if lens[i] < lens[j] {
      DistinctLengths(lens, i, j, v);
    } else {
      DistinctLengths(lens, j, i, v);
    }
  }

  lemma DistinctLengths(lens: Lengths, i: nat, j: nat, v: nat)
    requires i < |lens| && j < |lens| && 0 < lens[i] < lens[j]
    ensures !(Matches(lens, i, v) && Matches(lens, j, v))
  {
    MatchInterval(lens, i, v);
    MatchInterval(lens, j, v);
    LowBound(lens, i);
    LowBound(lens, j);
    StartMono(lens, lens[i] + 1, lens[j]);
  }

  /** Windows between two Starts belong to a symbol of that length. */
  lemma WindowHasSymbol(lens: Lengths, l: nat, v: nat) returns (i: nat)
    requires 1 <= l <= 15
    requires Start(lens, l) <= Rev(v, 16) < Start(lens, l + 1)
    ensures Matches(lens, i, v) && lens[i] == l
    ensures Rank(lens, i) == Shr(Rev(v, 16), 16 - l) - FirstCode(lens, l)
  {
    hide Shl, FirstCode, Count;
    var w, f, n := Rev(v, 16), FirstCode(lens, l), Count(lens, l);
    var c := Shr(w, 16 - l);
    StartIsFirstCode(lens, l);
    ShlAdd(f, n, 16 - l);
    ShrInterval(w, 16 - l, c);
    ShlMono(c + 1, f, 16 - l);
    ShlMono(f + n, c, 16 - l);
    i := SymbolOfRank(lens, l, c - f);
    RevPrefix(v, l, 16);
  }

  /** Windows at or above the last Start belong to no symbol. */
  lemma NoSymbol(lens: Lengths, v: nat)
    requires Rev(v, 16) >= Start(lens, 16)
    ensures forall i: nat :: !Matches(lens, i, v)
  {
    forall i: nat | i < |lens| && lens[i] > 0
      ensures !Matches(lens, i, v)
    {
      MatchInterval(lens, i, v);
      LowBound(lens, i);
      StartMono(lens, lens[i] + 1, 16);
    }
  }

  /** Under Kraft's inequality every code fits its length. */
  lemma CodeFits(lens: Lengths, i: nat)
    requires Decodable(lens) && i < |lens| && lens[i] > 0
    ensures CodeOf(lens, i) < Pow2(lens[i])
  {
    var l := lens[i];
    FirstCodeFits(lens, l);
    RankBound(lens, i);
  }

  lemma FirstCodeFits(lens: Lengths, l: nat)
    requires Decodable(lens) && 1 <= l <= 15
    ensures FirstCode(lens, l) + Count(lens, l) <= Pow2(l)
  {
    var c := FirstCode(lens, l) + Count(lens, l);
    assert FirstCode(lens, l + 1) == 2 * c;
    hide FirstCode, Count, Start, Shl;
    StartIsFirstCode(lens, l + 1);
    StartMono(lens, l + 1, 16);
    StartIsKraft(lens);
    ShlPow2(l + 1, 15 - l);
    ShlMono(2 * c, Pow2(l + 1), 15 - l);
  }

  // ----- the two rules that section 3.2.2 of RFC 1951 gives for the codes

  lemma {:induction false} CountNone(lens: Lengths, i: nat, j: nat, l: nat)
    requires i <= j <= |lens| && forall k :: i <= k < j ==> lens[k] != l
    ensures Count(lens[..j], l) == Count(lens[..i], l)
  {
    if i < j {
      CountNone(lens, i, j - 1, l);
      CountStep(lens, j - 1, l);
    }
  }

  /** Codes of one length are consecutive, in the order of their symbols. */
  lemma Consecutive(lens: Lengths, i: nat, j: nat)
    requires i < j < |lens| && lens[i] == lens[j] && forall k :: i < k < j ==> lens[k] != lens[i]
    ensures CodeOf(lens, j) == CodeOf(lens, i) + 1
  {
    hide Count;
    CountStep(lens, i, lens[i]);
    CountNone(lens, i + 1, j, lens[i]);
  }

  /** Shorter codes come first: all continuations of the shorter one lie below the longer one. */
  lemma ShorterFirst(lens: Lengths, i: nat, j: nat)
    requires i < |lens| && j < |lens| && 0 < lens[i] < lens[j]
    ensures Shl(CodeOf(lens, i) + 1, lens[j] - lens[i]) <= CodeOf(lens, j)
  {
    hide Shl, Pow2, CodeOf, Low, Start;
    var c, d, n := CodeOf(lens, i), CodeOf(lens, j), 16 - lens[j];
    LowIsCode(lens, i);
    LowIsCode(lens, j);
    LowBound(lens, i);
    LowBound(lens, j);
    StartMono(lens, lens[i] + 1, lens[j]);
    ShlAdd(c, 1, 16 - lens[i]);
    ShlOne(16 - lens[i]);
    ShlShl(c + 1, lens[j] - lens[i], n);
    ShlMono(Shl(c + 1, lens[j] - lens[i]), d, n);
  }
}
