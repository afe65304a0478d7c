/** Which basic blocks of a function the coverage pass instruments (at ratio 100), and why
    leaving the others out loses nothing. */
module BlockElision {

  /** A function's control flow graph: block 0 is the entry; a block that ends the function has
      no successor; a block may have the same successor several times (a switch). */
  datatype Cfg = Cfg(succ: seq<seq<nat>>, pred: seq<seq<nat>>)

  predicate WellFormed(g: Cfg) {
    && |g.succ| == |g.pred| > 0
    && (forall b, k :: 0 <= b < |g.succ| && 0 <= k < |g.succ[b]| ==> g.succ[b][k] < |g.succ|)
    && (forall b, k :: 0 <= b < |g.pred| && 0 <= k < |g.pred[b]| ==> g.pred[b][k] < |g.succ|)
    && (forall a, b :: 0 <= a < |g.succ| && 0 <= b < |g.succ| ==> (a in g.pred[b] <==> b in g.succ[a]))
  }

  /** Some branch of the function can go to b or elsewhere. */
  ghost predicate BranchTarget(g: Cfg, b: nat)
    requires WellFormed(g) && b < |g.succ|
  {
    exists a :: 0 <= a < |g.succ| && b in g.succ[a] && |g.succ[a]| > 1
  }

  ghost predicate Instrumented(g: Cfg, b: nat)
    requires WellFormed(g) && b < |g.succ|
  {
    |g.succ| == 1 || BranchTarget(g, b)
  }

  /** The pass's decision: counts the successors of each predecessor. */
  method ShouldInstrument(g: Cfg, b: nat) returns (yes: bool)
    requires WellFormed(g) && b < |g.succ|
    ensures yes <==> Instrumented(g, b)
  {
    var more_than_one := -1;
    for i := 0 to |g.pred[b]|
      invariant more_than_one == 1 || more_than_one == 0 || (more_than_one == -1 && i == 0)
      invariant more_than_one == 1 <==> exists j :: 0 <= j < i && |g.succ[g.pred[b][j]]| > 1
    {
      var pred := g.pred[b][i];
      var count := 0;
      if more_than_one == -1 {
        more_than_one := 0;
      }
      for s := 0 to |g.succ[pred]|
        invariant count == s
      {
        count := count + 1;
      }
      if count > 1 {
        more_than_one := 1;
      }
    }
    yes := !(|g.succ| > 1 && more_than_one != 1);
    DecisionMeans(g, b);
  }

  lemma DecisionMeans(g: Cfg, b: nat)
    requires WellFormed(g) && b < |g.succ|
    ensures BranchTarget(g, b) <==> exists j :: 0 <= j < |g.pred[b]| && |g.succ[g.pred[b][j]]| > 1
  {
    if BranchTarget(g, b) {
      var a :| 0 <= a < |g.succ| && b in g.succ[a] && |g.succ[a]| > 1;
      assert a in g.pred[b];
    }
    if j :| 0 <= j < |g.pred[b]| && |g.succ[g.pred[b][j]]| > 1 {
      var a := g.pred[b][j];
      assert a in g.pred[b] && b in g.succ[a];
    }
  }

  // ----- runs

  /** A run through the graph that starts at b and ends the function. */
  predicate CompleteRun(g: Cfg, b: nat, run: seq<nat>)
    requires WellFormed(g)
    decreases |run|
  {
    && |run| > 0 && b < |g.succ| && run[0] == b
    && if |run| == 1 then g.succ[b] == []
       else run[1] in g.succ[b] && CompleteRun(g, run[1], run[1..])
  }

  /** What the instrumentation sees of a run. */
  ghost function Observed(g: Cfg, run: seq<nat>): (seen: seq<nat>)
    requires WellFormed(g)
  {
    if run == [] then [] else
    (if run[0] < |g.succ| && Instrumented(g, run[0]) then [run[0]] else []) + Observed(g, run[1..])
  }

  /** A block that control can only fall into, in a function of several blocks, is left out. */
  lemma FallThroughIsElided(g: Cfg, b: nat)
    requires WellFormed(g) && b < |g.succ| && |g.succ| > 1
    requires forall a :: 0 <= a < |g.succ| && b in g.succ[a] ==> g.succ[a] == [b]
    ensures !Instrumented(g, b)
  {
  }

  /** Every successor of a branching block is instrumented. */
  lemma BranchesAreSeen(g: Cfg, b: nat, c: nat)
    requires WellFormed(g) && b < |g.succ| && c in g.succ[b] && |g.succ[b]| > 1
    ensures c < |g.succ| && Instrumented(g, c)
  {
  }

  /** Two complete runs from the same block that look the same are the same. */
  lemma {:induction false} SameObservations(g: Cfg, b: nat, run1: seq<nat>, run2: seq<nat>)
    requires WellFormed(g) && CompleteRun(g, b, run1) && CompleteRun(g, b, run2)
    requires Observed(g, run1[1..]) == Observed(g, run2[1..])
    ensures run1 == run2
    decreases |run1|
  {
    if |g.succ[b]| > 0 {
      var c1, c2 := run1[1], run2[1];
      if |g.succ[b]| == 1 {
        assert c1 == c2 == g.succ[b][0];
      } else {
        BranchesAreSeen(g, b, c1);
        BranchesAreSeen(g, b, c2);
        assert Observed(g, run1[1..])[0] == c1 && Observed(g, run2[1..])[0] == c2;
      }
      ObservedTail(g, run1[1..], run2[1..]);
      SameObservations(g, c1, run1[1..], run2[1..]);
      assert run1 == [b] + run1[1..] && run2 == [b] + run2[1..];
    }
  }

  lemma ObservedTail(g: Cfg, s: seq<nat>, t: seq<nat>)
    requires WellFormed(g) && |s| > 0 && |t| > 0 && s[0] == t[0]
    requires Observed(g, s) == Observed(g, t)
    ensures Observed(g, s[1..]) == Observed(g, t[1..])
  {
    var head := if s[0] < |g.succ| && Instrumented(g, s[0]) then [s[0]] else [];
    assert Observed(g, s) == head + Observed(g, s[1..]) && Observed(g, t) == head + Observed(g, t[1..]);
    assert Observed(g, s[1..]) == Observed(g, s)[|head|..] && Observed(g, t[1..]) == Observed(g, t)[|head|..];
  }

  /** The sequence of instrumented blocks determines the run of the whole function. */
  lemma ElisionIsLossless(g: Cfg, run1: seq<nat>, run2: seq<nat>)
    requires WellFormed(g) && CompleteRun(g, 0, run1) && CompleteRun(g, 0, run2)
    ensures Observed(g, run1) == Observed(g, run2) ==> run1 == run2
  {
    if Observed(g, run1) == Observed(g, run2) {
      ObservedTail(g, run1, run2);
      SameObservations(g, 0, run1, run2);
    }
  }
}
