/** The distance search of the control flow graph: a worklist search whose heap is ordered by
    edge index, not by distance. */
module CfgDistance {

  datatype Slot = Empty | Edge(succ: seq<nat>, weight: nat)

  /** The edge table, indexed by coverage map index. */
  type Graph = seq<Slot>

  const U32_MAX: nat := 0xFFFF_FFFF

  /** The largest number of 32 bits. */
  lemma U32Max()
    ensures U32_MAX + 1 == 0x1_0000 * 0x1_0000
  {
  }

  datatype Outcome = Found(dist: map<nat, nat>) | UnknownDestination | UnknownSuccessor | Overflow

  predicate Present(g: Graph, e: nat) {
    e < |g| && g[e].Edge?
  }

  /** Every successor index refers to a present edge. */
  ghost predicate Closed(g: Graph) {
    forall e: nat, i: nat :: Present(g, e) && i < |g[e].succ| ==> Present(g, g[e].succ[i])
  }

  // ----- walks

  predicate Walk(g: Graph, p: seq<nat>) {
    && |p| > 0 && (forall i :: 0 <= i < |p| ==> Present(g, p[i]))
    && forall i :: 0 <= i < |p| - 1 ==> p[i + 1] in g[p[i]].succ
  }

  function Weight(g: Graph, p: seq<nat>): nat
    requires forall i :: 0 <= i < |p| ==> Present(g, p[i])
  {
    if p == [] then 0 else
    var last := p[|p| - 1];
    assert Present(g, last);
    Weight(g, p[..|p| - 1]) + g[last].weight
  }

  ghost predicate WalkTo(g: Graph, start: nat, e: nat, d: nat) {
    exists p :: Walk(g, p) && p[0] == start && p[|p| - 1] == e && Weight(g, p) == d
  }

  ghost predicate Reachable(g: Graph, start: nat, e: nat) {
    exists p :: Walk(g, p) && p[0] == start && p[|p| - 1] == e
  }

  /** An edge that can be reached has a successor that is not in the table. */
  ghost predicate Dangling(g: Graph, start: nat) {
    exists e: nat, i: nat :: Reachable(g, start, e) && Present(g, e) && i < |g[e].succ| && !Present(g, g[e].succ[i])
  }

  lemma WalkStart(g: Graph, start: nat)
    requires Present(g, start)
    ensures WalkTo(g, start, start, g[start].weight)
  {
    var p := [start];
    assert Walk(g, p) && p[..0] == [] && Weight(g, p) == g[start].weight;
  }

  lemma WalkExtend(g: Graph, start: nat, e: nat, d: nat, s: nat)
    requires WalkTo(g, start, e, d) && Present(g, e) && s in g[e].succ && Present(g, s)
    ensures WalkTo(g, start, s, d + g[s].weight)
  {
    var p :| Walk(g, p) && p[0] == start && p[|p| - 1] == e && Weight(g, p) == d;
    var q := p + [s];
    assert q[..|q| - 1] == p;
    assert Walk(g, q) && q[0] == start && q[|q| - 1] == s && Weight(g, q) == d + g[s].weight;
  }

  // ----- the search

  datatype State = State(dist: map<nat, nat>, visited: set<nat>, heap: multiset<(nat, nat)>)

  predicate AtMost(a: (nat, nat), b: (nat, nat)) {
    a.0 < b.0 || (a.0 == b.0 && a.1 <= b.1)
  }

  ghost predicate IsMax(heap: multiset<(nat, nat)>, m: (nat, nat)) {
    m in heap && forall x :: x in heap ==> AtMost(x, m)
  }

  lemma {:induction false} MaxExists(heap: multiset<(nat, nat)>)
    requires heap != multiset{}
    ensures exists m :: IsMax(heap, m)
  {
    var x :| x in heap;
    var rest := heap - multiset{x};
    if rest == multiset{} {
      assert forall y :: y in heap ==> y == x || y in rest;
      assert IsMax(heap, x);
    } else {
      MaxExists(rest);
      var m :| IsMax(rest, m);
      assert forall y :: y in heap ==> y == x || y in rest;
      if AtMost(x, m) {
        assert IsMax(heap, m);
      } else {
        assert IsMax(heap, x);
      }
    }
  }

  /** Relaxes the successors of an edge reached at the given distance. */
  function Relax(g: Graph, succ: seq<nat>, d: nat, dist: map<nat, nat>, heap: multiset<(nat, nat)>): (r: Relaxed)
    decreases |succ|
  {
    if succ == [] then Relaxed(dist, heap) else
    var s := succ[0];
    if !Present(g, s) then Unknown
    else if d + g[s].weight > U32_MAX then TooFar
    else
      var nd := d + g[s].weight;
      if s !in dist || nd < dist[s] then Relax(g, succ[1..], d, dist[s := nd], heap + multiset{(s, nd)})
      else Relax(g, succ[1..], d, dist, heap)
  }

  datatype Relaxed = Relaxed(dist: map<nat, nat>, heap: multiset<(nat, nat)>) | Unknown | TooFar

  /** Everything a search state in mid-run satisfies. */
  ghost predicate Inv(g: Graph, start: nat, s: State) {
    && Present(g, start) && start in s.dist
    && (forall e :: e in s.dist ==> Present(g, e) && WalkTo(g, start, e, s.dist[e]))
    && (forall x :: x in s.heap ==> x.0 in s.dist && WalkTo(g, start, x.0, x.1))
    && (forall e :: e in s.visited ==> e in s.dist)
    && (forall e :: e in s.dist ==> e in s.visited || exists d :: (e, d) in s.heap)
    && (forall e, i :: e in s.visited && Present(g, e) && 0 <= i < |g[e].succ| ==> g[e].succ[i] in s.dist)
  }

  /** What relaxing keeps and achieves. */
  ghost predicate Grown(g: Graph, start: nat, dist: map<nat, nat>, heap: multiset<(nat, nat)>,
                        dist': map<nat, nat>, heap': multiset<(nat, nat)>) {
    && (forall e :: e in dist ==> e in dist' && dist'[e] <= dist[e])
    && (forall e :: e in dist' ==> Present(g, e) && WalkTo(g, start, e, dist'[e]))
    && (forall x :: x in heap' ==> x in heap || (x.0 in dist' && WalkTo(g, start, x.0, x.1)))
    && heap <= heap'
    && (forall e :: e in dist' && e !in dist ==> exists d :: (e, d) in heap')
  }

  lemma {:induction false} RelaxGrows(g: Graph, start: nat, e: nat, k: nat, d: nat,
                                      dist: map<nat, nat>, heap: multiset<(nat, nat)>)
    requires Present(g, e) && k <= |g[e].succ| && WalkTo(g, start, e, d)
    requires forall x :: x in dist ==> Present(g, x) && WalkTo(g, start, x, dist[x])
    ensures var r := Relax(g, g[e].succ[k..], d, dist, heap);
            r.Relaxed? ==> Grown(g, start, dist, heap, r.dist, r.heap)
                           && forall i :: k <= i < |g[e].succ| ==> g[e].succ[i] in r.dist
    decreases |g[e].succ| - k
  {
    hide WalkTo;
    var succ := g[e].succ[k..];
    if succ != [] {
      var s := succ[0];
      assert s == g[e].succ[k] && succ[1..] == g[e].succ[k + 1..];
      if Present(g, s) && d + g[s].weight <= U32_MAX {
        var nd := d + g[s].weight;
        WalkExtend(g, start, e, d, s);
        if s !in dist || nd < dist[s] {
          var dist1, heap1 := dist[s := nd], heap + multiset{(s, nd)};
          RelaxGrows(g, start, e, k + 1, d, dist1, heap1);
          var r := Relax(g, succ[1..], d, dist1, heap1);
          if r.Relaxed? {
            GrownBefore(g, start, dist, heap, s, nd, r.dist, r.heap);
          }
        } else {
          RelaxGrows(g, start, e, k + 1, d, dist, heap);
        }
      }
    }
  }

  lemma GrownBefore(g: Graph, start: nat, dist: map<nat, nat>, heap: multiset<(nat, nat)>, s: nat, nd: nat,
                    dist': map<nat, nat>, heap': multiset<(nat, nat)>)
    requires s in dist ==> nd < dist[s]
    requires WalkTo(g, start, s, nd)
    requires Grown(g, start, dist[s := nd], heap + multiset{(s, nd)}, dist', heap')
    ensures s in dist' && Grown(g, start, dist, heap, dist', heap')
  {
    hide WalkTo;
    var dist1, heap1 := dist[s := nd], heap + multiset{(s, nd)};
    assert s in dist1 && (s, nd) in heap1;
    assert (s, nd) in heap';
    forall e | e in dist
      ensures e in dist' && dist'[e] <= dist[e]
    {
      assert e in dist1;
    }
    forall e | e in dist' && e !in dist
      ensures exists d :: (e, d) in heap'
    {
      assert e == s || e !in dist1;
    }
    assert forall x :: x in heap1 ==> x in heap || x == (s, nd);
  }

  /** Expanding the popped edge keeps the invariant. */
  lemma ExpandKeepsInv(g: Graph, start: nat, s: State, m: (nat, nat))
    requires Inv(g, start, s) && IsMax(s.heap, m) && m.0 !in s.visited
    requires Relax(g, g[m.0].succ, m.1, s.dist, s.heap - multiset{m}).Relaxed?
    ensures var r := Relax(g, g[m.0].succ, m.1, s.dist, s.heap - multiset{m});
            Inv(g, start, State(r.dist, s.visited + {m.0}, r.heap))
  {
    hide WalkTo, Relax;
    var rest := s.heap - multiset{m};
    assert g[m.0].succ[0..] == g[m.0].succ;
    RelaxGrows(g, start, m.0, 0, m.1, s.dist, rest);
    var r := Relax(g, g[m.0].succ, m.1, s.dist, rest);
    var t := State(r.dist, s.visited + {m.0}, r.heap);
    forall e | e in t.dist
      ensures e in t.visited || exists d :: (e, d) in t.heap
    {
      if e in s.dist && e !in t.visited {
        var d :| (e, d) in s.heap;
        assert (e, d) in rest && (e, d) in r.heap;
      }
    }
    assert forall x :: x in rest ==> x in s.heap;
  }

  /** Skipping an edge already visited keeps it too. */
  lemma SkipKeepsInv(g: Graph, start: nat, s: State, m: (nat, nat))
    requires Inv(g, start, s) && m in s.heap && m.0 in s.visited
    ensures Inv(g, start, s.(heap := s.heap - multiset{m}))
  {
    hide WalkTo;
    var t := s.(heap := s.heap - multiset{m});
    forall e | e in t.dist
      ensures e in t.visited || exists d :: (e, d) in t.heap
    {
      if e !in t.visited {
        var d :| (e, d) in s.heap;
        assert (e, d) in t.heap;
      }
    }
  }

  /** With an empty heap the keys are exactly the edges reachable from start. */
  lemma {:induction false} ReachedAll(g: Graph, start: nat, s: State, p: seq<nat>)
    requires Inv(g, start, s) && s.heap == multiset{} && Walk(g, p) && p[0] == start
    ensures p[|p| - 1] in s.dist
  {
    if |p| > 1 {
      var n := |p| - 1;
      assert Walk(g, p[..n]);
      ReachedAll(g, start, s, p[..n]);
      var e := p[n - 1];
      assert e in s.visited;
      assert p[n - 1 + 1] in g[e].succ;
      var i :| 0 <= i < |g[e].succ| && g[e].succ[i] == p[n];
    }
  }

  lemma Finished(g: Graph, start: nat, s: State)
    requires Inv(g, start, s) && s.heap == multiset{}
    ensures forall e :: e in s.dist <==> Reachable(g, start, e)
    ensures forall e :: e in s.dist ==> WalkTo(g, start, e, s.dist[e])
  {
    forall e | Reachable(g, start, e)
      ensures e in s.dist
    {
      var p :| Walk(g, p) && p[0] == start && p[|p| - 1] == e;
      ReachedAll(g, start, s, p);
    }
    forall e | e in s.dist
      ensures Reachable(g, start, e)
    {
      var p :| Walk(g, p) && p[0] == start && p[|p| - 1] == e && Weight(g, p) == s.dist[e];
    }
  }

  lemma VisitedBound(g: Graph, visited: set<nat>)
    requires forall e :: e in visited ==> Present(g, e)
    ensures |visited| <= |g|
  {
    SmallSet(visited, |g|);
  }

  lemma {:induction false} SmallSet(a: set<nat>, n: nat)
    requires forall e :: e in a ==> e < n
    ensures |a| <= n
    decreases n
  {
    if n > 0 {
      SmallSet(a - {n - 1}, n - 1);
    } else {
      assert forall e: nat :: e !in a;
    }
  }

  lemma MaxUnique(heap: multiset<(nat, nat)>, m: (nat, nat), n: (nat, nat))
    requires IsMax(heap, m) && IsMax(heap, n)
    ensures m == n
  {
  }

  ghost function MaxOf(heap: multiset<(nat, nat)>): (m: (nat, nat))
    requires heap != multiset{}
    ensures IsMax(heap, m)
  {
    MaxExists(heap);
    var m :| IsMax(heap, m);
    m
  }

  ghost predicate Sane(g: Graph, s: State) {
    (forall e :: e in s.visited ==> Present(g, e)) && (forall x :: x in s.heap ==> Present(g, x.0))
  }

  lemma {:induction false} RelaxSane(g: Graph, succ: seq<nat>, d: nat, dist: map<nat, nat>, heap: multiset<(nat, nat)>)
    requires forall x :: x in heap ==> Present(g, x.0)
    ensures var r := Relax(g, succ, d, dist, heap); r.Relaxed? ==> forall x :: x in r.heap ==> Present(g, x.0)
    decreases |succ|
  {
    if succ != [] {
      var s := succ[0];
      if Present(g, s) {
        RelaxSane(g, succ[1..], d, dist[s := d + g[s].weight], heap + multiset{(s, d + g[s].weight)});
        RelaxSane(g, succ[1..], d, dist, heap);
      }
    }
  }

  /** The search as a function: pop the greatest entry, skip it if visited, else expand it. */
  ghost function Search(g: Graph, s: State): Outcome
    requires Sane(g, s)
    decreases |g| - |s.visited|, |s.heap|
  {
    VisitedBound(g, s.visited);
    if s.heap == multiset{} then Found(s.dist) else
    var m := MaxOf(s.heap);
    var rest := s.heap - multiset{m};
    if m.0 in s.visited then Search(g, s.(heap := rest))
    else
      match Relax(g, g[m.0].succ, m.1, s.dist, rest)
      case Unknown => UnknownSuccessor
      case TooFar => Overflow
      case Relaxed(dist, heap) =>
        RelaxSane(g, g[m.0].succ, m.1, s.dist, rest);
        VisitedBound(g, s.visited + {m.0});
        Search(g, State(dist, s.visited + {m.0}, heap))
  }

  function Initial(g: Graph, start: nat): State
    requires Present(g, start)
  {
    State(map[start := g[start].weight], {}, multiset{(start, g[start].weight)})
  }

  lemma InitialInv(g: Graph, start: nat)
    requires Present(g, start)
    ensures Inv(g, start, Initial(g, start)) && Sane(g, Initial(g, start))
  {
    WalkStart(g, start);
    assert (start, g[start].weight) in Initial(g, start).heap;
  }

  lemma InvSane(g: Graph, start: nat, s: State)
    requires Inv(g, start, s)
    ensures Sane(g, s)
  {
  }

  lemma {:induction false} UnknownMeansAbsent(g: Graph, e: nat, k: nat, d: nat,
                                              dist: map<nat, nat>, heap: multiset<(nat, nat)>)
    requires Present(g, e) && k <= |g[e].succ|
    requires Relax(g, g[e].succ[k..], d, dist, heap) == Unknown
    ensures exists i: nat :: i < |g[e].succ| && !Present(g, g[e].succ[i])
    decreases |g[e].succ| - k
  {
    var succ := g[e].succ[k..];
    var s := succ[0];
    assert s == g[e].succ[k] && succ[1..] == g[e].succ[k + 1..];
    if Present(g, s) {
      var nd := d + g[s].weight;
      if s !in dist || nd < dist[s] {
        UnknownMeansAbsent(g, e, k + 1, d, dist[s := nd], heap + multiset{(s, nd)});
      } else {
        UnknownMeansAbsent(g, e, k + 1, d, dist, heap);
      }
    }
  }

  lemma StopsAtDangling(g: Graph, start: nat, s: State, m: (nat, nat))
    requires Inv(g, start, s) && m in s.heap
    requires Relax(g, g[m.0].succ, m.1, s.dist, s.heap - multiset{m}) == Unknown
    ensures Dangling(g, start)
  {
    hide Relax;
    assert g[m.0].succ[0..] == g[m.0].succ;
    UnknownMeansAbsent(g, m.0, 0, m.1, s.dist, s.heap - multiset{m});
    var p :| Walk(g, p) && p[0] == start && p[|p| - 1] == m.0 && Weight(g, p) == m.1;
    assert Reachable(g, start, m.0);
  }

  /** Everything reachable was expanded, so none of it has a successor outside the table. */
  lemma NothingDangles(g: Graph, start: nat, s: State)
    requires Inv(g, start, s) && s.heap == multiset{}
    ensures !Dangling(g, start)
  {
    hide WalkTo, Reachable;
    Finished(g, start, s);
  }

  lemma NoStart(g: Graph, start: nat)
    requires !Present(g, start)
    ensures !Dangling(g, start)
  {
  }

  lemma ClosedHasNoDangling(g: Graph, start: nat)
    requires Closed(g)
    ensures !Dangling(g, start)
  {
    hide Reachable;
  }

  method PopMax(heap: multiset<(nat, nat)>) returns (m: (nat, nat))
    requires heap != multiset{}
    ensures m == MaxOf(heap)
  {
    ghost var n := MaxOf(heap);
    m :| m in heap && forall x :: x in heap ==> AtMost(x, m);
    MaxUnique(heap, m, n);
  }

  /** Relaxes the successors of a popped edge, one after the other. */
  method RelaxAll(g: Graph, succ: seq<nat>, d: nat, dist: map<nat, nat>, heap: multiset<(nat, nat)>) returns (r: Relaxed)
    ensures r == Relax(g, succ, d, dist, heap)
  {
    var dist': map<nat, nat>, heap': multiset<(nat, nat)> := dist, heap;
    for i := 0 to |succ|
      invariant Relax(g, succ, d, dist, heap) == Relax(g, succ[i..], d, dist', heap')
    {
      var s := succ[i];
      assert succ[i..][1..] == succ[i + 1..];
      if !Present(g, s) {
        return Unknown;
      }
      var new_distance := d + g[s].weight;
      if new_distance > U32_MAX {
        return TooFar;
      }
      if s !in dist' || new_distance < dist'[s] {
        dist' := dist'[s := new_distance];
        heap' := heap' + multiset{(s, new_distance)};
      }
    }
    r := Relaxed(dist', heap');
  }

  /** Pops one entry: stops at an unknown successor or an overflow, else goes on. */
  method PopOne(g: Graph, s: State, ghost start: nat) returns (stopped: Outcome, next: State)
    requires Inv(g, start, s) && Sane(g, s) && s.heap != multiset{}
    ensures |s.visited| <= |g|
    ensures stopped == UnknownSuccessor || stopped == Overflow ==> Search(g, s) == stopped
    ensures stopped == UnknownSuccessor ==> Dangling(g, start)
    ensures stopped.Found? || stopped == UnknownSuccessor || stopped == Overflow
    ensures stopped.Found? ==> Inv(g, start, next) && Sane(g, next) && Search(g, s) == Search(g, next)
    ensures stopped.Found? ==>
      (next.visited == s.visited && |next.heap| < |s.heap|) || (|s.visited| < |next.visited| <= |g|)
  {
    hide WalkTo, Inv, Relax, Dangling;
    next := s;
    VisitedBound(g, s.visited);
    var m := PopMax(s.heap);
    var rest := s.heap - multiset{m};
    if m.0 in s.visited {
      SkipKeepsInv(g, start, s, m);
      next := s.(heap := rest);
      InvSane(g, start, next);
    } else {
      var relaxed := RelaxAll(g, g[m.0].succ, m.1, s.dist, rest);
      if relaxed == Unknown {
        StopsAtDangling(g, start, s, m);
        return UnknownSuccessor, s;
      } else if relaxed == TooFar {
        return Overflow, s;
      }
      ExpandKeepsInv(g, start, s, m);
      next := State(relaxed.dist, s.visited + {m.0}, relaxed.heap);
      InvSane(g, start, next);
      VisitedBound(g, next.visited);
    }
    stopped := Found(map[]);
  }

  /** Distances from start. The keys are exactly the reachable edges and every value is the
      weight of a walk. Unless a sum overflows, the search stops at an unknown successor exactly
      when an edge that can be reached has one, so never on a closed table. */
  method CalculateDistances(g: Graph, start: nat) returns (r: Outcome)
    ensures r == UnknownDestination <==> !Present(g, start)
    ensures Present(g, start) ==> Sane(g, Initial(g, start)) && r == Search(g, Initial(g, start))
    ensures r.Found? ==> forall e :: e in r.dist <==> Reachable(g, start, e)
    ensures r.Found? ==> forall e :: e in r.dist ==> WalkTo(g, start, e, r.dist[e])
    ensures r == UnknownSuccessor ==> Dangling(g, start)
    ensures Dangling(g, start) ==> r == UnknownSuccessor || r == Overflow
    ensures Closed(g) ==> r != UnknownSuccessor
  {
    hide WalkTo, Reachable, Inv, Closed, Search, Sane, Dangling;
    if !Present(g, start) {
      NoStart(g, start);
      return UnknownDestination;
    }
    var s := Initial(g, start);
    InitialInv(g, start);
    while s.heap != multiset{}
      invariant Inv(g, start, s) && Sane(g, s)
      invariant Search(g, s) == Search(g, Initial(g, start))
      decreases |g| - |s.visited|, |s.heap|
    {
      var stopped, next := PopOne(g, s, start);
      if !stopped.Found? {
        if Closed(g) {
          ClosedHasNoDangling(g, start);
        }
        return stopped;
      }
      s := next;
    }
    Finished(g, start, s);
    NothingDangles(g, start, s);
    SearchOver(g, s);
    r := Found(s.dist);
  }

  lemma SearchOver(g: Graph, s: State)
    requires Sane(g, s) && s.heap == multiset{}
    ensures Search(g, s) == Found(s.dist)
  {
  }
}
