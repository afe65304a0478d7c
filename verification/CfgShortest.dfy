/** What the distance search computes, and when that is the shortest distance. An edge may be
    pushed again at ever smaller distances, but the heap gives back the largest first: every edge
    is expanded with the distance at which it was first found. */
module CfgShortest {
  import opened CfgDistance

  // ----- first-found distances

  /** Edges not yet found are found at distance d plus their weight. */
  function Discover(g: Graph, succ: seq<nat>, d: nat, first: map<nat, nat>): map<nat, nat>
    decreases |succ|
  {
    if succ == [] then first else
    var s := succ[0];
    Discover(g, succ[1..], d, if s in first || !Present(g, s) then first else first[s := d + g[s].weight])
  }

  ghost predicate Keyed(g: Graph, first: map<nat, nat>, visited: set<nat>) {
    (forall e :: e in visited ==> e in first) && (forall e :: e in first ==> Present(g, e))
  }

  ghost predicate IsHighest(open: set<nat>, m: nat) {
    m in open && forall e :: e in open ==> e <= m
  }

  lemma {:induction false} HighestExists(open: set<nat>)
    requires open != {}
    ensures exists m :: IsHighest(open, m)
  {
    var x :| x in open;
    var rest := open - {x};
    if rest == {} {
      assert forall y :: y in open ==> y == x || y in rest;
      assert IsHighest(open, x);
    } else {
      HighestExists(rest);
      var m :| IsHighest(rest, m);
      assert forall y :: y in open ==> y == x || y in rest;
      if x <= m {
        assert IsHighest(open, m);
      } else {
        assert IsHighest(open, x);
      }
    }
  }

  ghost function Highest(open: set<nat>): (m: nat)
    requires open != {}
    ensures IsHighest(open, m)
  {
    HighestExists(open);
    var m :| IsHighest(open, m);
    m
  }

  /** The result of discovering, edge by edge. */
  lemma {:induction false} DiscoverAt(g: Graph, succ: seq<nat>, d: nat, first: map<nat, nat>, x: nat)
    ensures var r := Discover(g, succ, d, first);
            && (x in r <==> x in first || (x in succ && Present(g, x)))
            && (x in r ==> r[x] == if x in first then first[x] else d + g[x].weight)
    decreases |succ|
  {
    if succ != [] {
      var s := succ[0];
      DiscoverAt(g, succ[1..], d, if s in first || !Present(g, s) then first else first[s := d + g[s].weight], x);
    }
  }

  lemma DiscoverKeyed(g: Graph, m: nat, first: map<nat, nat>, visited: set<nat>)
    requires Keyed(g, first, visited) && m in first
    ensures Keyed(g, Discover(g, g[m].succ, first[m], first), visited + {m})
  {
    forall x: nat
      ensures var r := Discover(g, g[m].succ, first[m], first);
              (x in first ==> x in r) && (x in r ==> Present(g, x))
    {
      DiscoverAt(g, g[m].succ, first[m], first, x);
    }
  }

  /** Always expanding the highest edge found and not yet expanded: the distance at which each
      edge is first found. No distance is ever compared. */
  ghost function Scout(g: Graph, first: map<nat, nat>, visited: set<nat>): map<nat, nat>
    requires Keyed(g, first, visited)
    decreases |g| - |visited|
  {
    if first.Keys - visited == {} then first
    else
      VisitedBound(g, visited);
      var m := Highest(first.Keys - visited);
      DiscoverKeyed(g, m, first, visited);
      VisitedBound(g, visited + {m});
      Scout(g, Discover(g, g[m].succ, first[m], first), visited + {m})
  }

  /** First-found distances from start. */
  ghost function FirstFound(g: Graph, start: nat): map<nat, nat>
    requires Present(g, start)
  {
    Scout(g, map[start := g[start].weight], {})
  }

  ghost predicate Leads(g: Graph, p: nat, e: nat) {
    Present(g, p) && Present(g, e) && e in g[p].succ
  }

  /** d is the least way to arrive at e from the edges done, each left at its first-found
      distance. */
  ghost predicate Best(g: Graph, start: nat, first: map<nat, nat>, done: set<nat>, e: nat, d: nat) {
    && Present(g, start)
    && (e == start ==> d <= g[start].weight)
    && (forall p :: p in done && p in first && Leads(g, p, e) ==> d <= first[p] + g[e].weight)
    && ((e == start && d == g[start].weight) || Arrives(g, first, done, e, d))
  }

  ghost predicate Arrives(g: Graph, first: map<nat, nat>, done: set<nat>, e: nat, d: nat) {
    exists p :: p in done && p in first && Leads(g, p, e) && d == first[p] + g[e].weight
  }

  /** The search state follows the scout. */
  ghost predicate Follows(g: Graph, start: nat, s: State, first: map<nat, nat>) {
    && Keyed(g, first, s.visited)
    && (forall e :: e in s.dist <==> e in first)
    && (forall e :: e in first && e !in s.visited ==> (e, first[e]) in s.heap)
    && (forall x :: x in s.heap ==> x.0 in first && x.1 <= first[x.0])
    && (forall e :: e in s.dist ==> s.dist[e] <= first[e] && Best(g, start, first, s.visited, e, s.dist[e]))
    && (forall p, e :: p in s.visited && Leads(g, p, e) ==> e in s.dist)
  }

  /** What is popped for an edge not yet expanded is its first-found distance, and the edge is the
      highest open one. */
  lemma PopsFirst(g: Graph, start: nat, s: State, first: map<nat, nat>, m: (nat, nat))
    requires Follows(g, start, s, first) && IsMax(s.heap, m) && m.0 !in s.visited
    ensures m.0 in first && m.1 == first[m.0]
    ensures first.Keys - s.visited != {} && Highest(first.Keys - s.visited) == m.0
  {
    hide Best;
    var open := first.Keys - s.visited;
    assert m.0 in open;
    assert (m.0, first[m.0]) in s.heap;
    var h := Highest(open);
    assert (h, first[h]) in s.heap;
  }

  /** What relaxing does, edge by edge. */
  lemma {:induction false} RelaxAt(g: Graph, succ: seq<nat>, d: nat, dist: map<nat, nat>, heap: multiset<(nat, nat)>, x: nat)
    requires Relax(g, succ, d, dist, heap).Relaxed?
    ensures var r := Relax(g, succ, d, dist, heap);
            && (x in succ ==> Present(g, x))
            && (x in r.dist <==> x in dist || x in succ)
            && (x in r.dist && x !in succ ==> r.dist[x] == dist[x])
            && (x in succ ==> r.dist[x] <= d + g[x].weight && (x in dist ==> r.dist[x] <= dist[x]))
            && (x in succ ==> r.dist[x] == d + g[x].weight || (x in dist && r.dist[x] == dist[x]))
            && (x in succ && x !in dist ==> (x, d + g[x].weight) in r.heap)
    decreases |succ|
  {
    if succ != [] {
      var s := succ[0];
      var nd := d + g[s].weight;
      if s !in dist || nd < dist[s] {
        RelaxAt(g, succ[1..], d, dist[s := nd], heap + multiset{(s, nd)}, x);
        RelaxHeap(g, succ[1..], d, dist[s := nd], heap + multiset{(s, nd)}, (s, nd));
      } else {
        RelaxAt(g, succ[1..], d, dist, heap, x);
      }
    }
  }

  /** Entries are only added: for edges not yet found, or at a smaller distance. */
  lemma {:induction false} RelaxHeap(g: Graph, succ: seq<nat>, d: nat, dist: map<nat, nat>, heap: multiset<(nat, nat)>, y: (nat, nat))
    requires Relax(g, succ, d, dist, heap).Relaxed?
    ensures var r := Relax(g, succ, d, dist, heap);
            && (y in heap ==> y in r.heap)
            && (y in r.heap ==> y in heap || (y.0 in succ && Present(g, y.0) && y.1 == d + g[y.0].weight
                                              && (y.0 in dist ==> y.1 < dist[y.0])))
    decreases |succ|
  {
    if succ != [] {
      var s := succ[0];
      var nd := d + g[s].weight;
      if s !in dist || nd < dist[s] {
        RelaxHeap(g, succ[1..], d, dist[s := nd], heap + multiset{(s, nd)}, y);
      } else {
        RelaxHeap(g, succ[1..], d, dist, heap, y);
      }
    }
  }

  /** Leaving one edge more: the least arrival at x takes it into account. */
  lemma BestGrows(g: Graph, start: nat, first: map<nat, nat>, first': map<nat, nat>, done: set<nat>, m: nat,
                  x: nat, found: bool, old_d: nat, d: nat)
    requires Present(g, start) && m in first && (forall p :: p in first ==> p in first' && first'[p] == first[p])
    requires forall p :: p in done ==> p in first
    requires if found then Best(g, start, first, done, x, old_d)
             else x != start && forall p :: p in done ==> !Leads(g, p, x)
    requires found ==> d <= old_d
    requires if Leads(g, m, x) then
               d <= first[m] + g[x].weight && (d == first[m] + g[x].weight || (found && d == old_d))
             else found && d == old_d
    ensures Best(g, start, first', done + {m}, x, d)
  {
    if found && d == old_d {
      if !(x == start && d == g[start].weight) {
        var p :| p in done && p in first && Leads(g, p, x) && d == first[p] + g[x].weight;
        assert p in done + {m} && p in first';
      }
    } else {
      assert m in done + {m} && m in first' && Leads(g, m, x);
    }
  }

  lemma ExpandFollows(g: Graph, start: nat, s: State, first: map<nat, nat>, m: (nat, nat), r: Relaxed)
    requires Follows(g, start, s, first) && IsMax(s.heap, m) && m.0 !in s.visited && m.0 in first && m.1 == first[m.0]
    requires start in s.dist && Present(g, start)
    requires r == Relax(g, g[m.0].succ, m.1, s.dist, s.heap - multiset{m}) && r.Relaxed?
    ensures Follows(g, start, State(r.dist, s.visited + {m.0}, r.heap), Discover(g, g[m.0].succ, first[m.0], first))
  {
    hide Best, Relax, Discover, IsMax;
    var succ, d, rest := g[m.0].succ, m.1, s.heap - multiset{m};
    var first' := Discover(g, succ, d, first);
    var t := State(r.dist, s.visited + {m.0}, r.heap);
    DiscoverKeyed(g, m.0, first, s.visited);
    forall x: nat
      ensures x in r.dist <==> x in first'
      ensures x in first ==> x in first' && first'[x] == first[x]
      ensures x in succ ==> x in r.dist
    {
      RelaxAt(g, succ, d, s.dist, rest, x);
      DiscoverAt(g, succ, d, first, x);
    }
    forall e | e in first' && e !in t.visited
      ensures (e, first'[e]) in t.heap
    {
      RelaxAt(g, succ, d, s.dist, rest, e);
      DiscoverAt(g, succ, d, first, e);
      if e in first {
        assert (e, first[e]) in rest;
        RelaxHeap(g, succ, d, s.dist, rest, (e, first[e]));
      }
    }
    forall y | y in t.heap
      ensures y.0 in first' && y.1 <= first'[y.0]
    {
      RelaxHeap(g, succ, d, s.dist, rest, y);
      DiscoverAt(g, succ, d, first, y.0);
      assert y in rest ==> y in s.heap;
    }
    forall e | e in t.dist
      ensures t.dist[e] <= first'[e] && Best(g, start, first', t.visited, e, t.dist[e])
    {
      RelaxAt(g, succ, d, s.dist, rest, e);
      DiscoverAt(g, succ, d, first, e);
      BestGrows(g, start, first, first', s.visited, m.0, e, e in s.dist, if e in s.dist then s.dist[e] else 0, t.dist[e]);
    }
  }

  lemma SkipFollows(g: Graph, start: nat, s: State, first: map<nat, nat>, m: (nat, nat))
    requires Follows(g, start, s, first) && m in s.heap && m.0 in s.visited
    ensures Follows(g, start, s.(heap := s.heap - multiset{m}), first)
  {
    hide Best;
  }

  /** The distances are explained by the first-found ones. */
  ghost predicate Explained(g: Graph, start: nat, dist: map<nat, nat>, first: map<nat, nat>) {
    && (forall e :: e in dist <==> e in first)
    && (forall e :: e in dist ==> Best(g, start, first, first.Keys, e, dist[e]))
    && (forall p, e :: p in dist && Leads(g, p, e) ==> e in dist)
  }

  lemma {:induction false} SearchFollows(g: Graph, start: nat, s: State, first: map<nat, nat>)
    requires Sane(g, s) && Follows(g, start, s, first) && start in s.dist && Present(g, start)
    ensures Search(g, s).Found? ==> Explained(g, start, Search(g, s).dist, Scout(g, first, s.visited))
    decreases |g| - |s.visited|, |s.heap|
  {
    hide Follows, Best, Relax, Discover;
    VisitedBound(g, s.visited);
    FollowsKeyed(g, start, s, first);
    if s.heap == multiset{} {
      AllExpanded(g, start, s, first);
    } else {
      var m := MaxOf(s.heap);
      var rest := s.heap - multiset{m};
      if m.0 in s.visited {
        SkipFollows(g, start, s, first, m);
        SearchFollows(g, start, s.(heap := rest), first);
      } else {
        PopsFirst(g, start, s, first, m);
        var r := Relax(g, g[m.0].succ, m.1, s.dist, rest);
        if r.Relaxed? {
          RelaxSane(g, g[m.0].succ, m.1, s.dist, rest);
          ExpandFollows(g, start, s, first, m, r);
          RelaxAt(g, g[m.0].succ, m.1, s.dist, rest, start);
          VisitedBound(g, s.visited + {m.0});
          DiscoverKeyed(g, m.0, first, s.visited);
          SearchFollows(g, start, State(r.dist, s.visited + {m.0}, r.heap), Discover(g, g[m.0].succ, first[m.0], first));
        }
      }
    }
  }

  lemma FollowsKeyed(g: Graph, start: nat, s: State, first: map<nat, nat>)
    requires Follows(g, start, s, first)
    ensures Keyed(g, first, s.visited)
  {
  }

  lemma AllExpanded(g: Graph, start: nat, s: State, first: map<nat, nat>)
    requires Follows(g, start, s, first) && s.heap == multiset{}
    ensures Keyed(g, first, s.visited) && Scout(g, first, s.visited) == first && Explained(g, start, s.dist, first)
  {
    hide Best;
    forall e | e in first
      ensures e in s.visited
    {
    }
    assert first.Keys - s.visited == {};
    assert first.Keys == s.visited;
  }

  lemma StartFollows(g: Graph, start: nat)
    requires Present(g, start)
    ensures Follows(g, start, Initial(g, start), map[start := g[start].weight]) && Sane(g, Initial(g, start))
  {
    InitialInv(g, start);
    assert (start, g[start].weight) in Initial(g, start).heap;
  }

  /** Every returned distance is the least, over the reachable edges that lead to the edge, of
      their first-found distance plus its weight. */
  lemma FirstFoundExplains(g: Graph, start: nat)
    requires Present(g, start) && Sane(g, Initial(g, start))
    ensures var r := Search(g, Initial(g, start));
            r.Found? ==> Explained(g, start, r.dist, FirstFound(g, start))
  {
    hide Follows, Explained, Scout;
    StartFollows(g, start);
    SearchFollows(g, start, Initial(g, start), map[start := g[start].weight]);
  }

  // ----- walks that repeat no edge

  predicate Simple(p: seq<nat>) {
    forall i, j :: 0 <= i < j < |p| ==> p[i] != p[j]
  }

  ghost function Members(p: seq<nat>): set<nat> {
    set x | x in p
  }

  lemma {:induction false} SimpleCounts(p: seq<nat>)
    requires Simple(p)
    ensures |Members(p)| == |p|
  {
    if p != [] {
      var n := |p| - 1;
      SimpleCounts(p[..n]);
      assert p[n] !in p[..n];
      assert Members(p) == Members(p[..n]) + {p[n]};
    }
  }

  /** A walk that repeats no edge has no more steps than the table has edges. */
  lemma SimpleWalksAreShort(g: Graph, p: seq<nat>)
    requires Walk(g, p) && Simple(p)
    ensures |p| <= |g|
  {
    SimpleCounts(p);
    forall e | e in Members(p)
      ensures e < |g|
    {
      var i :| 0 <= i < |p| && p[i] == e;
      assert Present(g, p[i]);
    }
    SmallSet(Members(p), |g|);
  }

  /** A walk along which every edge was found from the one before it. */
  ghost predicate TreeWalk(g: Graph, start: nat, first: map<nat, nat>, p: seq<nat>) {
    && |p| > 0 && p[0] == start && Simple(p) && Present(g, start)
    && (forall i :: 0 <= i < |p| ==> p[i] in first)
    && first[start] == g[start].weight
    && (forall i :: 0 <= i < |p| - 1 ==> Leads(g, p[i], p[i + 1]) && first[p[i + 1]] == first[p[i]] + g[p[i + 1]].weight)
  }

  ghost predicate Rooted(g: Graph, start: nat, first: map<nat, nat>, e: nat) {
    exists p :: TreeWalk(g, start, first, p) && p[|p| - 1] == e
  }

  ghost predicate AllRooted(g: Graph, start: nat, first: map<nat, nat>) {
    forall e :: e in first ==> Rooted(g, start, first, e)
  }

  lemma TreeWalkKept(g: Graph, start: nat, first: map<nat, nat>, first': map<nat, nat>, p: seq<nat>)
    requires TreeWalk(g, start, first, p)
    requires forall e :: e in first ==> e in first' && first'[e] == first[e]
    ensures TreeWalk(g, start, first', p)
  {
  }

  lemma TreeWalkExtend(g: Graph, start: nat, first: map<nat, nat>, p: seq<nat>, s: nat)
    requires TreeWalk(g, start, first, p) && s in first && s !in p
    requires Leads(g, p[|p| - 1], s) && first[s] == first[p[|p| - 1]] + g[s].weight
    ensures TreeWalk(g, start, first, p + [s])
  {
    var q, n := p + [s], |p|;
    forall i | 0 <= i < |q| - 1
      ensures Leads(g, q[i], q[i + 1]) && first[q[i + 1]] == first[q[i]] + g[q[i + 1]].weight
    {
      if i < n - 1 {
        assert q[i] == p[i] && q[i + 1] == p[i + 1];
      }
    }
  }

  lemma RootedStep(g: Graph, start: nat, first: map<nat, nat>, m: nat, e: nat)
    requires m in first && Present(g, m) && e in Discover(g, g[m].succ, first[m], first)
    requires AllRooted(g, start, first)
    ensures Rooted(g, start, Discover(g, g[m].succ, first[m], first), e)
  {
    hide Discover;
    var first' := Discover(g, g[m].succ, first[m], first);
    forall x | x in first
      ensures x in first' && first'[x] == first[x]
    {
      DiscoverAt(g, g[m].succ, first[m], first, x);
    }
    DiscoverAt(g, g[m].succ, first[m], first, e);
    if e in first {
      assert Rooted(g, start, first, e);
      var p :| TreeWalk(g, start, first, p) && p[|p| - 1] == e;
      TreeWalkKept(g, start, first, first', p);
    } else {
      assert Rooted(g, start, first, m);
      var p :| TreeWalk(g, start, first, p) && p[|p| - 1] == m;
      TreeWalkKept(g, start, first, first', p);
      TreeWalkExtend(g, start, first', p, e);
      assert (p + [e])[|p + [e]| - 1] == e;
    }
  }

  /** Scouting roots every edge it finds. */
  lemma {:induction false} ScoutRoots(g: Graph, start: nat, first: map<nat, nat>, visited: set<nat>)
    requires Keyed(g, first, visited) && AllRooted(g, start, first)
    ensures AllRooted(g, start, Scout(g, first, visited))
    decreases |g| - |visited|
  {
    hide Discover, Rooted;
    if first.Keys - visited != {} {
      VisitedBound(g, visited);
      var m := Highest(first.Keys - visited);
      DiscoverKeyed(g, m, first, visited);
      VisitedBound(g, visited + {m});
      var first' := Discover(g, g[m].succ, first[m], first);
      forall e | e in first'
        ensures Rooted(g, start, first', e)
      {
        RootedStep(g, start, first, m, e);
      }
      ScoutRoots(g, start, first', visited + {m});
    }
  }

  lemma FirstFoundRooted(g: Graph, start: nat)
    requires Present(g, start)
    ensures AllRooted(g, start, FirstFound(g, start))
  {
    hide Scout;
    var first := map[start := g[start].weight];
    assert TreeWalk(g, start, first, [start]);
    ScoutRoots(g, start, first, {});
  }

  /** First-found distances are the weights of these walks, and never fall along one. */
  lemma {:induction false} TreeWeight(g: Graph, start: nat, first: map<nat, nat>, p: seq<nat>)
    requires TreeWalk(g, start, first, p)
    ensures Walk(g, p) && Weight(g, p) == first[p[|p| - 1]]
    ensures forall i :: 0 <= i < |p| ==> first[p[i]] <= first[p[|p| - 1]]
  {
    var n := |p| - 1;
    if n > 0 {
      var q := p[..n];
      assert forall i :: 0 <= i < n ==> q[i] == p[i];
      TreeWeight(g, start, first, q);
      assert Leads(g, p[n - 1], p[n - 1 + 1]);
    } else {
      assert p[..0] == [];
    }
  }

  /** d is the weight of a walk from start to e that repeats no edge. */
  ghost predicate SimpleWalkTo(g: Graph, start: nat, e: nat, d: nat) {
    exists p :: Walk(g, p) && Simple(p) && p[0] == start && p[|p| - 1] == e && Weight(g, p) == d
  }

  lemma RootedIsSimple(g: Graph, start: nat, first: map<nat, nat>, e: nat)
    requires e in first && Rooted(g, start, first, e)
    ensures SimpleWalkTo(g, start, e, first[e])
  {
    var p :| TreeWalk(g, start, first, p) && p[|p| - 1] == e;
    TreeWeight(g, start, first, p);
  }

  /** The least arrival is never above the first one. */
  lemma BestIsBelowFirst(g: Graph, start: nat, first: map<nat, nat>, e: nat, d: nat)
    requires e in first && Rooted(g, start, first, e) && Best(g, start, first, first.Keys, e, d)
    ensures d <= first[e]
  {
    var p :| TreeWalk(g, start, first, p) && p[|p| - 1] == e;
    var n := |p| - 1;
    if n > 0 {
      assert Leads(g, p[n - 1], p[n - 1 + 1]);
      assert p[n - 1] in first.Keys;
    }
  }

  /** Leaving p at its first-found distance and arriving at e either repeats no edge, or is no
      better than how e was first found. */
  lemma BestIsSimple(g: Graph, start: nat, first: map<nat, nat>, e: nat, d: nat)
    requires AllRooted(g, start, first) && e in first && Best(g, start, first, first.Keys, e, d)
    ensures SimpleWalkTo(g, start, e, d)
  {
    hide Best, Rooted;
    assert Rooted(g, start, first, e);
    BestIsBelowFirst(g, start, first, e, d);
    if d == first[e] {
      RootedIsSimple(g, start, first, e);
    } else {
      BestArrives(g, start, first, e, d);
      var p :| p in first && Leads(g, p, e) && d == first[p] + g[e].weight;
      assert Rooted(g, start, first, p);
      ArriveSimply(g, start, first, p, e);
    }
  }

  lemma BestArrives(g: Graph, start: nat, first: map<nat, nat>, e: nat, d: nat)
    requires Best(g, start, first, first.Keys, e, d) && e in first && d != first[e] && Rooted(g, start, first, e)
    ensures exists p :: p in first && Leads(g, p, e) && d == first[p] + g[e].weight
  {
    var q :| TreeWalk(g, start, first, q) && q[|q| - 1] == e;
  }

  lemma ArriveSimply(g: Graph, start: nat, first: map<nat, nat>, p: nat, e: nat)
    requires p in first && e in first && Leads(g, p, e) && Rooted(g, start, first, p)
    requires first[p] + g[e].weight < first[e]
    ensures SimpleWalkTo(g, start, e, first[p] + g[e].weight)
  {
    var q :| TreeWalk(g, start, first, q) && q[|q| - 1] == p;
    TreeWeight(g, start, first, q);
    assert e !in q;
    var r := q + [e];
    assert r[..|q|] == q && Weight(g, r) == Weight(g, q) + g[e].weight;
    assert Walk(g, r) && Simple(r) && r[0] == start && r[|r| - 1] == e;
  }

  /** Every returned distance is the weight of a walk that repeats no edge. */
  lemma DistancesAreSimple(g: Graph, start: nat)
    requires Present(g, start) && Sane(g, Initial(g, start))
    ensures var r := Search(g, Initial(g, start));
            r.Found? ==> forall e :: e in r.dist ==> SimpleWalkTo(g, start, e, r.dist[e])
  {
    hide Search, Best, AllRooted, SimpleWalkTo, Scout;
    FirstFoundExplains(g, start);
    FirstFoundRooted(g, start);
    var r, first := Search(g, Initial(g, start)), FirstFound(g, start);
    if r.Found? {
      forall e | e in r.dist
        ensures SimpleWalkTo(g, start, e, r.dist[e])
      {
        BestIsSimple(g, start, first, e, r.dist[e]);
      }
    }
  }

  // ----- are they the shortest?

  ghost predicate Shortest(g: Graph, start: nat, e: nat, d: nat) {
    WalkTo(g, start, e, d) && forall d' :: WalkTo(g, start, e, d') ==> d <= d'
  }

  lemma {:induction false} WeightConcat(g: Graph, a: seq<nat>, b: seq<nat>)
    requires forall i :: 0 <= i < |a| ==> Present(g, a[i])
    requires forall i :: 0 <= i < |b| ==> Present(g, b[i])
    ensures forall i :: 0 <= i < |a + b| ==> Present(g, (a + b)[i])
    ensures Weight(g, a + b) == Weight(g, a) + Weight(g, b)
  {
    if b == [] {
      assert a + b == a;
    } else {
      var n := |b| - 1;
      WeightConcat(g, a, b[..n]);
      assert (a + b)[..|a| + n] == a + b[..n];
    }
  }

  lemma CutIsWalk(g: Graph, p: seq<nat>, i: nat, j: nat)
    requires Walk(g, p) && i < j < |p| && p[i] == p[j]
    ensures var q := p[..i + 1] + p[j + 1..];
            Walk(g, q) && q[0] == p[0] && q[|q| - 1] == p[|p| - 1]
  {
    var q := p[..i + 1] + p[j + 1..];
    forall k | 0 <= k < |q| - 1
      ensures q[k + 1] in g[q[k]].succ
    {
      if k < i {
        assert q[k] == p[k] && q[k + 1] == p[k + 1];
      } else {
        var l := k + (j - i);
        assert q[k] == p[l] && q[k + 1] == p[l + 1];
      }
    }
  }

  lemma CutWeighsLess(g: Graph, a: seq<nat>, b: seq<nat>, c: seq<nat>)
    requires forall i :: 0 <= i < |a + b + c| ==> Present(g, (a + b + c)[i])
    ensures forall i :: 0 <= i < |a + c| ==> Present(g, (a + c)[i])
    ensures Weight(g, a + c) <= Weight(g, a + b + c)
  {
    hide Weight, Present;
    var p := a + b + c;
    assert forall i :: 0 <= i < |a| ==> a[i] == p[i];
    assert forall i :: 0 <= i < |b| ==> b[i] == p[|a| + i];
    assert forall i :: 0 <= i < |c| ==> c[i] == p[|a| + |b| + i];
    WeightConcat(g, a, b);
    WeightConcat(g, a + b, c);
    WeightConcat(g, a, c);
  }

  /** Cutting a loop out of a walk leaves a walk that weighs no more. */
  lemma CutLoop(g: Graph, p: seq<nat>, i: nat, j: nat)
    requires Walk(g, p) && i < j < |p| && p[i] == p[j]
    ensures var q := p[..i + 1] + p[j + 1..];
            Walk(g, q) && q[0] == p[0] && q[|q| - 1] == p[|p| - 1] && Weight(g, q) <= Weight(g, p)
  {
    hide Weight;
    var a, b, c := p[..i + 1], p[i + 1..j + 1], p[j + 1..];
    assert p == a + b + c;
    CutIsWalk(g, p, i, j);
    CutWeighsLess(g, a, b, c);
  }

  /** Every walk has a walk without repetition between the same ends that weighs no more. */
  lemma {:induction false} Shorten(g: Graph, p: seq<nat>) returns (q: seq<nat>)
    requires Walk(g, p)
    ensures Walk(g, q) && Simple(q) && q[0] == p[0] && q[|q| - 1] == p[|p| - 1] && Weight(g, q) <= Weight(g, p)
    decreases |p|
  {
    if Simple(p) {
      return p;
    }
    var i, j :| 0 <= i < j < |p| && p[i] == p[j];
    CutLoop(g, p, i, j);
    q := Shorten(g, p[..i + 1] + p[j + 1..]);
  }

  /** All walks from start to e that repeat no edge weigh the same. */
  ghost predicate OneSimpleWeight(g: Graph, start: nat, e: nat) {
    forall d, d' :: SimpleWalkTo(g, start, e, d) && SimpleWalkTo(g, start, e, d') ==> d == d'
  }

  lemma SimpleIsShortest(g: Graph, start: nat, e: nat, d: nat)
    requires OneSimpleWeight(g, start, e) && SimpleWalkTo(g, start, e, d)
    ensures Shortest(g, start, e, d)
  {
    hide OneSimpleWeight;
    var p :| Walk(g, p) && Simple(p) && p[0] == start && p[|p| - 1] == e && Weight(g, p) == d;
    assert WalkTo(g, start, e, d);
    forall d' | WalkTo(g, start, e, d')
      ensures d <= d'
    {
      var w :| Walk(g, w) && w[0] == start && w[|w| - 1] == e && Weight(g, w) == d';
      var q := Shorten(g, w);
      assert SimpleWalkTo(g, start, e, Weight(g, q));
      SameSimpleWeight(g, start, e, d, Weight(g, q));
    }
  }

  lemma SameSimpleWeight(g: Graph, start: nat, e: nat, d: nat, d': nat)
    requires OneSimpleWeight(g, start, e) && SimpleWalkTo(g, start, e, d) && SimpleWalkTo(g, start, e, d')
    ensures d == d'
  {
  }

  /** Where all walks without repetition weigh the same, however many loops the graph has, the
      search returns the shortest distance. */
  lemma LoopsDoNoHarm(g: Graph, start: nat, e: nat)
    requires Present(g, start) && Sane(g, Initial(g, start)) && OneSimpleWeight(g, start, e)
    ensures var r := Search(g, Initial(g, start));
            r.Found? && e in r.dist ==> Shortest(g, start, e, r.dist[e])
  {
    hide Search, OneSimpleWeight, Shortest, SimpleWalkTo;
    DistancesAreSimple(g, start);
    var r := Search(g, Initial(g, start));
    if r.Found? && e in r.dist {
      SimpleIsShortest(g, start, e, r.dist[e]);
    }
  }

  /** A potential on what can be reached from start: every step to an edge adds that edge's
      weight, whatever the way. */
  ghost predicate Potential(g: Graph, start: nat, f: nat -> int) {
    forall e: nat, s: nat :: Reachable(g, start, e) && Leads(g, e, s) ==> f(s) == f(e) + g[s].weight
  }

  lemma {:induction false} WeightByPotential(g: Graph, start: nat, f: nat -> int, p: seq<nat>)
    requires Potential(g, start, f) && Walk(g, p) && p[0] == start
    ensures Weight(g, p) == f(p[|p| - 1]) - f(start) + g[start].weight
  {
    if |p| > 1 {
      var n := |p| - 1;
      var q := p[..n];
      assert Walk(g, q) && q[0] == start && q[|q| - 1] == p[n - 1];
      WeightByPotential(g, start, f, q);
      assert Reachable(g, start, p[n - 1]);
      assert Leads(g, p[n - 1], p[n - 1 + 1]);
    } else {
      assert p[..0] == [];
    }
  }

  /** Where walk weights do not depend on the way, every walk weight is the shortest; so are
      the distances found. */
  lemma PathIndependentIsShortest(g: Graph, f: nat -> int, start: nat, e: nat, d: nat)
    requires Potential(g, start, f) && WalkTo(g, start, e, d)
    ensures Shortest(g, start, e, d)
  {
    var p :| Walk(g, p) && p[0] == start && p[|p| - 1] == e && Weight(g, p) == d;
    WeightByPotential(g, start, f, p);
    forall d' | WalkTo(g, start, e, d')
      ensures d <= d'
    {
      var q :| Walk(g, q) && q[0] == start && q[|q| - 1] == e && Weight(g, q) == d';
      WeightByPotential(g, start, f, q);
    }
  }

  /** No step of the graph would still lower a distance. */
  ghost predicate Settled(g: Graph, start: nat, dist: map<nat, nat>) {
    && Present(g, start) && start in dist && dist[start] <= g[start].weight
    && forall e: nat, i: nat :: e in dist && Present(g, e) && i < |g[e].succ| && Present(g, g[e].succ[i]) ==>
      g[e].succ[i] in dist && dist[g[e].succ[i]] <= dist[e] + g[g[e].succ[i]].weight
  }

  lemma {:induction false} SettledIsBelow(g: Graph, start: nat, dist: map<nat, nat>, p: seq<nat>)
    requires Settled(g, start, dist) && Walk(g, p) && p[0] == start
    ensures p[|p| - 1] in dist && dist[p[|p| - 1]] <= Weight(g, p)
  {
    var n := |p| - 1;
    if n > 0 {
      SettledIsBelow(g, start, dist, p[..n]);
      var e := p[n - 1];
      assert p[n - 1 + 1] in g[e].succ;
      var i :| 0 <= i < |g[e].succ| && g[e].succ[i] == p[n];
    } else {
      assert p[..0] == [];
    }
  }

  /** The distances found are the shortest exactly when no step would still lower one: what the
      search leaves to be checked of its result. */
  lemma ShortestIffSettled(g: Graph, start: nat, dist: map<nat, nat>)
    requires Present(g, start) && forall e :: e in dist <==> Reachable(g, start, e)
    requires forall e :: e in dist ==> WalkTo(g, start, e, dist[e])
    ensures (forall e :: e in dist ==> Shortest(g, start, e, dist[e])) <==> Settled(g, start, dist)
  {
    if Settled(g, start, dist) {
      forall e, d | e in dist && WalkTo(g, start, e, d)
        ensures dist[e] <= d
      {
        var p :| Walk(g, p) && p[0] == start && p[|p| - 1] == e && Weight(g, p) == d;
        SettledIsBelow(g, start, dist, p);
      }
    }
    if forall e :: e in dist ==> Shortest(g, start, e, dist[e]) {
      WalkStart(g, start);
      forall e: nat, i: nat | e in dist && Present(g, e) && i < |g[e].succ| && Present(g, g[e].succ[i])
        ensures g[e].succ[i] in dist && dist[g[e].succ[i]] <= dist[e] + g[g[e].succ[i]].weight
      {
        WalkExtend(g, start, e, dist[e], g[e].succ[i]);
        hide Weight;
        assert Reachable(g, start, g[e].succ[i]);
      }
      assert Reachable(g, start, start);
    }
  }

  /** The search finds exactly the reachable edges. */
  lemma {:induction false} WalksStayInside(g: Graph, start: nat, dist: map<nat, nat>, first: map<nat, nat>, p: seq<nat>)
    requires Explained(g, start, dist, first) && start in dist && Walk(g, p) && p[0] == start
    ensures p[|p| - 1] in dist
  {
    hide Best;
    var n := |p| - 1;
    if n > 0 {
      var q := p[..n];
      assert Walk(g, q) && q[0] == start;
      WalksStayInside(g, start, dist, first, q);
      assert Leads(g, p[n - 1], p[n - 1 + 1]);
    }
  }

  lemma {:induction false} ScoutKeeps(g: Graph, first: map<nat, nat>, visited: set<nat>, x: nat)
    requires Keyed(g, first, visited) && x in first
    ensures x in Scout(g, first, visited)
    decreases |g| - |visited|
  {
    hide Discover;
    if first.Keys - visited != {} {
      VisitedBound(g, visited);
      var m := Highest(first.Keys - visited);
      DiscoverKeyed(g, m, first, visited);
      VisitedBound(g, visited + {m});
      DiscoverAt(g, g[m].succ, first[m], first, x);
      ScoutKeeps(g, Discover(g, g[m].succ, first[m], first), visited + {m}, x);
    }
  }

  lemma SearchReaches(g: Graph, start: nat)
    requires Present(g, start) && Sane(g, Initial(g, start))
    ensures var r := Search(g, Initial(g, start));
            r.Found? ==> start in r.dist && (forall e :: e in r.dist <==> Reachable(g, start, e))
                         && forall e :: e in r.dist ==> WalkTo(g, start, e, r.dist[e])
  {
    hide Search, Best, Scout;
    var r, first := Search(g, Initial(g, start)), FirstFound(g, start);
    FirstFoundExplains(g, start);
    DistancesAreSimple(g, start);
    ScoutKeeps(g, map[start := g[start].weight], {}, start);
    if r.Found? {
      forall e | e in r.dist
        ensures WalkTo(g, start, e, r.dist[e]) && Reachable(g, start, e)
      {
        var p :| Walk(g, p) && Simple(p) && p[0] == start && p[|p| - 1] == e && Weight(g, p) == r.dist[e];
      }
      forall e | Reachable(g, start, e)
        ensures e in r.dist
      {
        var p :| Walk(g, p) && p[0] == start && p[|p| - 1] == e;
        WalksStayInside(g, start, r.dist, first, p);
      }
    }
  }

  /** Whenever q leads to e and e to s, some edge that leads to s was first found no later than
      the arrival at e from q: no step goes on from a distance that the search has improved too
      late. First-found distances come from the graph alone, without comparing any. */
  ghost predicate NothingStale(g: Graph, start: nat, first: map<nat, nat>) {
    forall q: nat, e: nat, s: nat :: q in first && Leads(g, q, e) && Leads(g, e, s) && s != start ==>
      FoundBy(g, first, s, first[q] + g[e].weight)
  }

  ghost predicate FoundBy(g: Graph, first: map<nat, nat>, s: nat, d: nat) {
    exists p :: p in first && Leads(g, p, s) && first[p] <= d
  }

  lemma FreshIsSettled(g: Graph, start: nat, dist: map<nat, nat>, first: map<nat, nat>)
    requires Explained(g, start, dist, first) && start in dist && NothingStale(g, start, first) && Present(g, start)
    requires first[start] == g[start].weight
    ensures Settled(g, start, dist)
  {
    forall e: nat, i: nat | e in dist && Present(g, e) && i < |g[e].succ| && Present(g, g[e].succ[i])
      ensures g[e].succ[i] in dist && dist[g[e].succ[i]] <= dist[e] + g[g[e].succ[i]].weight
    {
      var s := g[e].succ[i];
      assert Leads(g, e, s);
      FreshStep(g, start, dist, first, e, s);
    }
  }

  lemma FreshStep(g: Graph, start: nat, dist: map<nat, nat>, first: map<nat, nat>, e: nat, s: nat)
    requires Explained(g, start, dist, first) && start in dist && NothingStale(g, start, first) && Present(g, start)
    requires first[start] == g[start].weight && e in dist && Leads(g, e, s)
    ensures s in dist && dist[s] <= dist[e] + g[s].weight
  {
    assert s in dist && Best(g, start, first, first.Keys, e, dist[e]) && Best(g, start, first, first.Keys, s, dist[s]);
    if s != start {
      if e == start && dist[e] == g[start].weight {
        assert e in first.Keys;
      } else {
        assert Arrives(g, first, first.Keys, e, dist[e]);
        var q :| q in first.Keys && q in first && Leads(g, q, e) && dist[e] == first[q] + g[e].weight;
        assert FoundBy(g, first, s, dist[e]);
        var p :| p in first && Leads(g, p, s) && first[p] <= dist[e];
        assert p in first.Keys;
      }
    }
  }

  lemma SettledStep(g: Graph, start: nat, dist: map<nat, nat>, first: map<nat, nat>, q: nat, e: nat, s: nat)
    requires Present(g, start) && q in first && Leads(g, q, e) && Leads(g, e, s) && s != start && e in dist && s in dist
    requires Best(g, start, first, first.Keys, e, dist[e]) && Best(g, start, first, first.Keys, s, dist[s])
    requires dist[s] <= dist[e] + g[s].weight
    ensures FoundBy(g, first, s, first[q] + g[e].weight)
  {
    assert q in first.Keys;
    assert Arrives(g, first, first.Keys, s, dist[s]);
    var p :| p in first.Keys && p in first && Leads(g, p, s) && dist[s] == first[p] + g[s].weight;
  }

  lemma SettledIsFresh(g: Graph, start: nat, dist: map<nat, nat>, first: map<nat, nat>)
    requires Explained(g, start, dist, first) && Settled(g, start, dist)
    ensures NothingStale(g, start, first)
  {
    hide Best, FoundBy;
    forall q: nat, e: nat, s: nat | q in first && Leads(g, q, e) && Leads(g, e, s) && s != start
      ensures FoundBy(g, first, s, first[q] + g[e].weight)
    {
      assert q in dist;
      assert e in dist;
      assert s in dist;
      var i :| 0 <= i < |g[e].succ| && g[e].succ[i] == s;
      assert dist[g[e].succ[i]] <= dist[e] + g[g[e].succ[i]].weight;
      SettledStep(g, start, dist, first, q, e, s);
    }
  }

  /** The search returns the shortest distance of every reachable edge if and only if nothing is
      stale in the graph. */
  lemma ShortestIffNothingStale(g: Graph, start: nat)
    requires Present(g, start) && Sane(g, Initial(g, start))
    ensures var r := Search(g, Initial(g, start));
            r.Found? ==> ((forall e :: e in r.dist ==> Shortest(g, start, e, r.dist[e]))
                          <==> NothingStale(g, start, FirstFound(g, start)))
  {
    hide Search, Scout, Shortest, Settled, NothingStale, Explained, WalkTo, Reachable;
    var r, first := Search(g, Initial(g, start)), FirstFound(g, start);
    FirstFoundExplains(g, start);
    SearchReaches(g, start);
    StartFirst(g, start);
    if r.Found? {
      ShortestIffSettled(g, start, r.dist);
      if NothingStale(g, start, first) {
        FreshIsSettled(g, start, r.dist, first);
      }
      if Settled(g, start, r.dist) {
        SettledIsFresh(g, start, r.dist, first);
      }
    }
  }

  lemma StartFirst(g: Graph, start: nat)
    requires Present(g, start)
    ensures var first := FirstFound(g, start); start in first && first[start] == g[start].weight
  {
    hide Scout;
    ScoutKeeps(g, map[start := g[start].weight], {}, start);
    FirstFoundRooted(g, start);
    var first := FirstFound(g, start);
    assert Rooted(g, start, first, start);
  }
}
