/** The code that the coverage pass emits at an instrumented block: it combines the history of
    recent locations, the calling context and the block's own location into an index of the
    coverage map, bumps that counter and shifts the location into the history vector. */
module CoverageMap {
  import opened Bits

  const UNDEF: int := -1

  // ----- the history vector

  /** Least power of two that is at least n. */
  function PowerOf2Ceil(n: nat): (v: nat)
    requires n > 0
    ensures v >= n
  {
    CeilFrom(1, n)
  }

  function CeilFrom(p: nat, n: nat): (v: nat)
    requires p > 0
    ensures v >= n && v >= p
    decreases n - p
  {
    if p >= n then p else CeilFrom(2 * p, n)
  }

  lemma {:induction false} CeilFromIs(p: nat, n: nat)
    requires IsPow2(p)
    ensures IsPow2(CeilFrom(p, n)) && (CeilFrom(p, n) == p || CeilFrom(p, n) < 2 * n)
    decreases n - p
  {
    DoublePow2(p);
    hide IsPow2;
    if p < n {
      CeilFromIs(2 * p, n);
    }
  }

  lemma DoublePow2(p: nat)
    requires IsPow2(p)
    ensures p > 0 && IsPow2(2 * p)
  {
    assert 2 * p / 2 == p;
  }

  /** It is a power of two, and its half would be too small. */
  lemma PowerOf2CeilIs(n: nat)
    requires n > 0
    ensures IsPow2(PowerOf2Ceil(n)) && n <= PowerOf2Ceil(n) < 2 * n
  {
    CeilFromIs(1, n);
  }

  /** The shuffle mask: lane 0 is to be overwritten, the other history lanes move back by one,
      padding lanes repeat the first padding lane. */
  method BuildShuffle(size: nat, vec: nat) returns (mask: seq<int>)
    requires 1 <= size <= vec
    ensures |mask| == vec && mask[0] == UNDEF
    ensures forall i :: 1 <= i < size ==> mask[i] == i - 1
    ensures forall i :: size <= i < vec ==> mask[i] == size
  {
    mask := [UNDEF];
    for i := 0 to size - 1
      invariant |mask| == i + 1 && mask[0] == UNDEF
      invariant forall k :: 1 <= k <= i ==> mask[k] == k - 1
    {
      mask := mask + [i];
    }
    for i := size to vec
      invariant |mask| == i && mask[0] == UNDEF
      invariant forall k :: 1 <= k < size ==> mask[k] == k - 1
      invariant forall k :: size <= k < i ==> mask[k] == size
    {
      mask := mask + [size];
    }
  }

  /** shufflevector of the lanes and an undefined vector. */
  function Shuffle(lanes: seq<nat>, mask: seq<int>, undef: nat): (r: seq<nat>)
    requires |lanes| == |mask|
    ensures |r| == |lanes|
  {
    seq(|lanes|, i requires 0 <= i < |lanes| => if 0 <= mask[i] < |lanes| then lanes[mask[i]] else undef)
  }

  function Zeros(n: nat): seq<nat> {
    seq(n, _ => 0)
  }

  /** The n most recent values, newest first, 0 before the first one. */
  function Recent(values: seq<nat>, n: nat): (r: seq<nat>)
    ensures |r| == n
  {
    seq(n, i requires 0 <= i => if i < |values| then values[|values| - 1 - i] else 0)
  }

  /** Shuffling and inserting a value at lane 0 is remembering one value more. */
  lemma ShuffleRemembers(values: seq<nat>, lanes: seq<nat>, mask: seq<int>, undef: nat, v: nat, size: nat, vec: nat)
    requires 1 <= size <= vec && lanes == Recent(values, size) + Zeros(vec - size)
    requires |mask| == vec && mask[0] == UNDEF
    requires forall i :: 1 <= i < size ==> mask[i] == i - 1
    requires forall i :: size <= i < vec ==> mask[i] == size
    ensures Shuffle(lanes, mask, undef)[0 := v] == Recent(values + [v], size) + Zeros(vec - size)
  {
    var r, s := Shuffle(lanes, mask, undef)[0 := v], Recent(values + [v], size) + Zeros(vec - size);
    forall i | 0 <= i < vec
      ensures r[i] == s[i]
    {
      if i >= size {
        assert lanes[size] == 0;
      }
    }
  }

  function XorAll(s: seq<nat>): nat {
    if s == [] then 0 else Xor(XorAll(s[..|s| - 1]), s[|s| - 1])
  }

  lemma XorZero(a: nat)
    ensures Xor(a, 0) == a
  {
  }

  lemma {:induction false} PaddingIsNeutral(s: seq<nat>, n: nat)
    ensures XorAll(s + Zeros(n)) == XorAll(s)
  {
    if n == 0 {
      assert s + Zeros(0) == s;
    } else {
      PaddingIsNeutral(s, n - 1);
      var all := s + Zeros(n);
      assert all[..|all| - 1] == s + Zeros(n - 1);
      XorZero(XorAll(s));
    }
  }

  lemma {:induction false} XorAllBound(s: seq<nat>, k: nat)
    requires forall i :: 0 <= i < |s| ==> s[i] < Pow2(k)
    ensures XorAll(s) < Pow2(k)
  {
    if s != [] {
      XorAllBound(s[..|s| - 1], k);
      XorBound(XorAll(s[..|s| - 1]), s[|s| - 1], k);
    }
  }

  // ----- counters

  /** One hit: an 8-bit increment, with the carry added back if the counter must not wrap to 0. */
  function Bump(never_zero: bool, c: Byte): Byte {
    var incr := (c as int + 1) % 256;
    if never_zero then (incr + (if incr == 0 then 1 else 0)) % 256 else incr
  }

  /** The counter after a number of hits. */
  function Counter(never_zero: bool, hits: nat): Byte {
    if !never_zero then hits % 256 else if hits == 0 then 0 else 1 + (hits - 1) % 255
  }

  lemma Cycle255(n: nat)
    ensures (n + 1) % 255 == if n % 255 == 254 then 0 else n % 255 + 1
  {
  }

  lemma BumpCounts(never_zero: bool, hits: nat)
    ensures Bump(never_zero, Counter(never_zero, hits)) == Counter(never_zero, hits + 1)
  {
    if never_zero && hits > 0 {
      Cycle255(hits - 1);
    }
  }

  /** Never-zero counters tell hit from not hit for ever; the others forget every 256 hits. */
  lemma NeverZeroRemembers(hits: nat)
    ensures Counter(true, hits) != 0 <==> hits > 0
    ensures Counter(false, hits) != 0 <==> hits % 256 != 0
  {
  }

  // ----- whole runs

  datatype Probed = At(loc: nat, ctx: nat)

  function Locs(trace: seq<Probed>): (s: seq<nat>)
    ensures |s| == |trace|
  {
    seq(|trace|, i requires 0 <= i < |trace| => trace[i].loc / 2)
  }

  /** The map index of a visit after the given trace: own location, context, and the n most
      recent locations shifted right by one. */
  function IndexOf(trace: seq<Probed>, v: Probed, n: nat): nat {
    Xor(Xor(XorAll(Recent(Locs(trace), n)), v.ctx), v.loc)
  }

  /** How often a trace hit index i. */
  function Hits(trace: seq<Probed>, n: nat, i: nat): nat {
    if trace == [] then 0 else
    var (init, v) := (trace[..|trace| - 1], trace[|trace| - 1]);
    Hits(init, n, i) + (if IndexOf(init, v, n) == i then 1 else 0)
  }

  ghost predicate InMap(trace: seq<Probed>, k: nat) {
    forall i :: 0 <= i < |trace| ==> trace[i].loc < Pow2(k) && trace[i].ctx < Pow2(k)
  }

  /** Locations and contexts below a power of two give indices below it. */
  lemma IndexBound(trace: seq<Probed>, v: Probed, n: nat, k: nat)
    requires InMap(trace, k) && v.loc < Pow2(k) && v.ctx < Pow2(k)
    ensures IndexOf(trace, v, n) < Pow2(k)
  {
    hide Xor, XorAll;
    XorAllBound(Recent(Locs(trace), n), k);
    XorBound(XorAll(Recent(Locs(trace), n)), v.ctx, k);
    XorBound(Xor(XorAll(Recent(Locs(trace), n)), v.ctx), v.loc, k);
  }

  // ----- what the index is made of

  /** Without a history it is context and location alone. */
  lemma IndexAtFirst(v: Probed, n: nat)
    ensures IndexOf([], v, n) == Xor(v.ctx, v.loc)
  {
    hide Xor, XorAll;
    assert Recent([], n) == [] + Zeros(n);
    PaddingIsNeutral([], n);
    assert XorAll([]) == 0 by {
      NothingToXor();
    }
    XorStep(0, v.ctx);
  }

  lemma NothingToXor()
    ensures XorAll([]) == 0
  {
  }

  lemma {:induction false} XorAllFront(x: nat, s: seq<nat>)
    ensures XorAll([x] + s) == Xor(x, XorAll(s))
  {
    hide Xor;
    if s == [] {
      assert ([x] + s)[..0] == [];
      XorStep(x, x);
      XorStep(x, 0);
    } else {
      var init, y := s[..|s| - 1], s[|s| - 1];
      assert ([x] + s)[..|s|] == [x] + init;
      XorAllFront(x, init);
      XorAssoc(x, XorAll(init), y);
    }
  }

  /** One location more takes the place of the one that drops out of the history. */
  lemma RecentSlides(values: seq<nat>, v: nat, n: nat)
    requires n > 0
    ensures Recent(values + [v], n) == [v] + Recent(values, n)[..n - 1]
  {
    var a, b := Recent(values + [v], n), [v] + Recent(values, n)[..n - 1];
    forall i | 0 <= i < n
      ensures a[i] == b[i]
    {
    }
  }

  /** Visiting u changes the index of what comes next by exactly u's shifted location and the one
      that drops out, the n-th last. */
  lemma IndexSlides(trace: seq<Probed>, u: Probed, v: Probed, n: nat)
    requires n > 0
    ensures var gone := if n <= |trace| then trace[|trace| - n].loc / 2 else 0;
            Xor(IndexOf(trace, v, n), IndexOf(trace + [u], v, n)) == Xor(u.loc / 2, gone)
  {
    hide Xor, XorAll, Recent;
    var h, h' := Recent(Locs(trace), n), Recent(Locs(trace + [u]), n);
    var keep, gone := h[..n - 1], h[n - 1];
    RecentAt(Locs(trace), n, n - 1);
    LocsAppend(trace, u);
    RecentSlides(Locs(trace), u.loc / 2, n);
    XorAllFront(u.loc / 2, keep);
    XorAllBack(h);
    Exchange(XorAll(keep), gone, u.loc / 2, v.ctx, v.loc);
  }

  lemma RecentAt(values: seq<nat>, n: nat, i: nat)
    requires i < n
    ensures Recent(values, n)[i] == if i < |values| then values[|values| - 1 - i] else 0
  {
  }

  lemma XorAllBack(s: seq<nat>)
    requires s != []
    ensures XorAll(s) == Xor(XorAll(s[..|s| - 1]), s[|s| - 1])
  {
  }

  lemma Exchange(keep: nat, gone: nat, come: nat, c: nat, l: nat)
    ensures Xor(Xor(Xor(Xor(keep, gone), c), l), Xor(Xor(Xor(come, keep), c), l)) == Xor(come, gone)
  {
    hide Xor;
    Cancel(Xor(Xor(keep, gone), c), Xor(Xor(come, keep), c), l);
    Cancel(Xor(keep, gone), Xor(come, keep), c);
    XorComm(keep, gone);
    Cancel(gone, come, keep);
    XorComm(gone, come);
  }

  lemma Cancel(a: nat, b: nat, x: nat)
    ensures Xor(Xor(a, x), Xor(b, x)) == Xor(a, b)
  {
    hide Xor;
    XorComm(b, x);
    XorAssoc(a, x, Xor(x, b));
    XorAssoc(x, x, b);
    XorSelf(x);
    XorStep(0, b);
  }

  /** With a history of one location, the index after t of a visit to b is that of the edge. */
  lemma IndexOfEdge(trace: seq<Probed>, t: Probed, v: Probed)
    ensures IndexOf(trace + [t], v, 1) == Xor(Xor(t.loc / 2, v.ctx), v.loc)
  {
    hide Xor, XorAll;
    LocsAppend(trace, t);
    RecentAt(Locs(trace + [t]), 1, 0);
    assert Recent(Locs(trace + [t]), 1) == [t.loc / 2] + [];
    XorAllFront(t.loc / 2, []);
    NothingToXor();
    XorStep(t.loc / 2, 0);
  }

  class Probe {
    const k: nat
    const size: nat
    const never_zero: bool
    const mask: seq<int>
    var lanes: seq<nat>
    const area: array<Byte>
    ghost var trace: seq<Probed>

    /** Over every run: the vector holds the most recent locations and zeros, and each counter
        the number of visits that hashed to it. */
    ghost predicate Valid()
      reads this, area
    {
      && 1 <= size <= |mask| && mask[0] == UNDEF && area.Length == Pow2(k)
      && (forall i :: 1 <= i < size ==> mask[i] == i - 1)
      && (forall i :: size <= i < |mask| ==> mask[i] == size)
      && InMap(trace, k)
      && lanes == Recent(Locs(trace), size) + Zeros(|mask| - size)
      && (forall i :: 0 <= i < area.Length ==> area[i] == Counter(never_zero, Hits(trace, size, i)))
    }

    /** A map of 2^k counters; ngram 0 keeps a history of one location, as ngram 2 does. */
    constructor (k: nat, ngram: nat, not_zero: bool)
      requires ngram == 0 || 2 <= ngram <= 16
      ensures Valid() && trace == [] && this.k == k && size == (if ngram == 0 then 1 else ngram - 1)
      ensures fresh(area) && never_zero == not_zero
    {
      var n := if ngram == 0 then 1 else ngram - 1;
      var vec := PowerOf2Ceil(n);
      var m := BuildShuffle(n, vec);
      this.k, size, never_zero, mask := k, n, not_zero, m;
      lanes := Zeros(vec);
      area := new Byte[Pow2(k)](_ => 0);
      trace := [];
      assert Zeros(vec) == Recent([], n) + Zeros(vec - n);
    }

    /** The emitted code. The index never leaves the map. */
    method Visit(cur_loc: nat, ctx: nat)
      requires Valid() && cur_loc < Pow2(k) && ctx < Pow2(k)
      modifies this`lanes, this`trace, area
      ensures Valid() && trace == old(trace) + [At(cur_loc, ctx)]
      ensures var i := IndexOf(old(trace), At(cur_loc, ctx), size);
              i < area.Length && area[..] == old(area[..])[i := Bump(never_zero, old(area[..])[i])]
    {
      hide Xor, Hits, Recent, Pow2, Counter;
      ghost var v := At(cur_loc, ctx);
      PaddingIsNeutral(Recent(Locs(trace), size), |mask| - size);
      IndexBound(trace, v, size, k);
      var idx := Xor(Xor(XorAll(lanes), ctx), cur_loc);
      BumpAll(trace, v, size, area[..], idx, never_zero);
      ghost var bumped := area[..][idx := Bump(never_zero, area[idx])];
      area[idx] := Bump(never_zero, area[idx]);
      assert area[..] == bumped;
      assert Shr(cur_loc, 1) == cur_loc / 2;
      var undef: nat := *;
      ShuffleRemembers(Locs(trace), lanes, mask, undef, cur_loc / 2, size, |mask|);
      LocsAppend(trace, v);
      lanes := Shuffle(lanes, mask, undef)[0 := Shr(cur_loc, 1)];
      trace := trace + [v];
    }
  }

  lemma LocsAppend(trace: seq<Probed>, v: Probed)
    ensures Locs(trace + [v]) == Locs(trace) + [v.loc / 2]
  {
  }

  lemma BumpAll(trace: seq<Probed>, v: Probed, n: nat, area: seq<Byte>, idx: nat, never_zero: bool)
    requires idx == IndexOf(trace, v, n) && idx < |area|
    requires forall i :: 0 <= i < |area| ==> area[i] == Counter(never_zero, Hits(trace, n, i))
    ensures forall i :: 0 <= i < |area| ==>
      area[idx := Bump(never_zero, area[idx])][i] == Counter(never_zero, Hits(trace + [v], n, i))
  {
    hide IndexOf, Counter, Bump;
    assert (trace + [v])[..|trace|] == trace;
    BumpCounts(never_zero, Hits(trace, n, idx));
  }

  // ----- map sizes

  predicate IsPow2(m: nat)
    decreases m
  {
    m == 1 || (m > 1 && m % 2 == 0 && IsPow2(m / 2))
  }

  /** The edge index of AFL, (prev >> 1) ^ cur, stays inside a map of m counters. */
  ghost predicate IndexSafe(m: nat) {
    forall prev: nat, cur: nat :: prev < m && cur < m ==> Xor(prev / 2, cur) < m
  }

  lemma {:induction false} Pow2Exponent(m: nat) returns (k: nat)
    requires IsPow2(m)
    ensures Pow2(k) == m
    decreases m
  {
    if m == 1 {
      return 0;
    }
    k := Pow2Exponent(m / 2);
    k := k + 1;
  }

  /** A map size that is no power of two lets some pair of locations escape. */
  lemma {:induction false} Escape(m: nat) returns (prev: nat, cur: nat)
    requires m > 0 && !IsPow2(m)
    ensures prev < m && cur < m && prev % 2 == 0 && Xor(prev / 2, cur) >= m
    decreases m
  {
    hide Xor, IsPow2;
    NotPow2(m);
    if m % 2 == 1 {
      prev, cur := 2, m - 1;
      XorEvenOne(cur);
      assert prev / 2 == 1;
    } else {
      var p, c := Escape(m / 2);
      prev, cur := 2 * p, 2 * c;
      XorDouble(p / 2, c);
      assert prev / 2 == 2 * (p / 2);
    }
  }

  lemma NotPow2(m: nat)
    requires m > 0 && !IsPow2(m)
    ensures if m % 2 == 1 then m >= 3 else !IsPow2(m / 2)
  {
  }

  lemma XorEvenOne(c: nat)
    requires c % 2 == 0
    ensures Xor(1, c) == c + 1
  {
    if c > 0 {
      assert Xor(0, c / 2) == c / 2;
    }
  }

  lemma XorDouble(a: nat, b: nat)
    ensures Xor(2 * a, 2 * b) == 2 * Xor(a, b)
  {
  }

  /** The emitted index is in range for all locations exactly when the map size is a power of
      two (or the map is empty). */
  lemma IndexSafeIffPow2(m: nat)
    ensures IndexSafe(m) <==> m == 0 || IsPow2(m)
  {
    if m > 0 && IsPow2(m) {
      var k := Pow2Exponent(m);
      forall prev: nat, cur: nat | prev < m && cur < m
        ensures Xor(prev / 2, cur) < m
      {
        XorBound(prev / 2, cur, k);
      }
    } else if m > 0 {
      var prev, cur := Escape(m);
    }
  }
}
