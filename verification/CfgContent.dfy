/** From the text of a dump to distances: reading, building the table and searching it, in one. */
module CfgContent {
  import opened Bits
  import opened CfgBuild
  import opened CfgDump
  import CfgDistance
  import CfgShortest
  import CoverageMap

  /** The keys of a hash map, in whatever order they come. */
  method SomeOrder<T(==, !new)>(keys: set<T>) returns (order: seq<T>)
    ensures IsOrder(order, keys)
  {
    order := [];
    var rest := keys;
    while rest != {}
      invariant rest <= keys
      invariant forall i, j :: 0 <= i < j < |order| ==> order[i] != order[j]
      invariant forall k :: k in order <==> k in keys && k !in rest
    {
      var k :| k in rest;
      order := order + [k];
      rest := rest - {k};
    }
  }

  /** The control flow graph of a text. Its iteration orders are up to the hash maps: `funcs` is
      the one that shows, in the name on the edges from 0. */
  method FromContent(content: string, map_size: nat) returns (res: Result, ghost funcs: seq<string>)
    ensures var maps := ParseLines(START, Lines(content));
            if maps == None then res == Panic
            else
              var r := maps.value.maps;
              && IsOrder(funcs, r.func_to_entry.Keys)
              && (res.Built? <==> (forall bb :: Filed(r, funcs, bb)) && InRange(r, map_size))
              && (res.Built? ==> |res.edges| == map_size && IsTable(r, ZeroFunc(r, funcs), res.edges))
  {
    hide Lines, ParseLines, IsTable, ZeroFunc, Filed, InRange;
    funcs := [];
    var reader := new CfgFileReader();
    var panic := reader.TakeContent(content);
    if panic {
      return Panic, funcs;
    }
    var r := Reader(reader.bb_to_func, reader.bb_to_successors, reader.func_to_entry_bb);
    var order := SomeOrder(r.func_to_entry.Keys);
    var blocks := SomeOrder(WithZero(r, order).Keys);
    res := ToCfg(r, order, blocks, map_size);
    funcs := order;
  }

  // ----- dumps that the pass writes

  /** An edge of a module: into a function at its entry block, or from a block to a successor. */
  ghost predicate ModuleEdge(m: Module, t: nat, b: nat) {
    (t == 0 && exists e :: e in m.entries && e.loc == b) || exists k :: k in m.blocks && k.loc == t && b in k.succ
  }

  /** A module as the pass dumps it: locations below the map size, a power of two; entry blocks
      that are blocks; and no successors at location 0. */
  ghost predicate Whole(m: Module, size: nat) {
    && Writable(m) && DistinctKeys(m) && CoverageMap.IsPow2(size)
    && (forall t: nat, b: nat :: ModuleEdge(m, t, b) ==> t < size && b < size)
    && (forall e :: e in m.entries ==> exists k :: k in m.blocks && k.loc == e.loc)
    && (forall k :: k in m.blocks && k.loc == 0 ==> k.succ == [])
  }

  lemma ReaderEdges(r: Reader, m: Module, t: nat, b: nat)
    requires Holds(r, m) && forall k :: k in m.blocks && k.loc == 0 ==> k.succ == []
    ensures IsEdge(r, t, b) <==> ModuleEdge(m, t, b)
  {
    SuccIs(r, m, t, b);
    if t == 0 {
      EntryIs(r, m, b);
    }
  }

  lemma SuccIs(r: Reader, m: Module, t: nat, b: nat)
    requires Holds(r, m)
    ensures b in SuccOf(r, t) <==> exists k :: k in m.blocks && k.loc == t && b in k.succ
  {
    if b in SuccOf(r, t) {
      assert HasSucc(m.blocks, t, r.bb_to_succ[t]);
    }
    if k :| k in m.blocks && k.loc == t && b in k.succ {
      assert HasSucc(m.blocks, t, k.succ);
    }
  }

  lemma EntryIs(r: Reader, m: Module, b: nat)
    requires Holds(r, m)
    ensures b in r.func_to_entry.Values <==> exists e :: e in m.entries && e.loc == b
    ensures r.func_to_entry == map[] <==> m.entries == []
  {
    if b in r.func_to_entry.Values {
      var f :| f in r.func_to_entry && r.func_to_entry[f] == b;
      assert EntryPoint(f, b) in m.entries;
    }
    if e :| e in m.entries && e.loc == b {
      assert EntryPoint(e.func, e.loc) in m.entries;
      assert e.func in r.func_to_entry && r.func_to_entry[e.func] == b;
    }
    if m.entries != [] {
      var e := m.entries[0];
      assert EntryPoint(e.func, e.loc) in m.entries;
    }
    if r.func_to_entry != map[] {
      var f :| f in r.func_to_entry;
      assert EntryPoint(f, r.func_to_entry[f]) in m.entries;
    }
  }

  /** Every block with successors, and the first entry block, has a function. */
  lemma AllFiled(r: Reader, m: Module, funcs: seq<string>, bb: nat)
    requires Holds(r, m) && IsOrder(funcs, r.func_to_entry.Keys)
    requires forall e :: e in m.entries ==> exists k :: k in m.blocks && k.loc == e.loc
    requires forall k :: k in m.blocks && k.loc == 0 ==> k.succ == []
    ensures Filed(r, funcs, bb)
  {
    var w := WithZero(r, funcs);
    if bb in w {
      if bb == 0 && funcs != [] {
        var f := funcs[0];
        assert f in r.func_to_entry.Keys && w[0][0] == r.func_to_entry[f];
        assert EntryPoint(f, w[0][0]) in m.entries;
        var k :| k in m.blocks && k.loc == w[0][0];
        assert InFunc(m.blocks, k.loc, k.func);
      } else {
        assert HasSucc(m.blocks, bb, r.bb_to_succ[bb]);
        var k :| k in m.blocks && k.loc == bb && k.succ == r.bb_to_succ[bb];
        assert InFunc(m.blocks, bb, k.func);
      }
    }
  }

  /** What block b leads to. */
  ghost predicate Successors(m: Module, b: nat, succ: seq<nat>) {
    if succ == [] then forall k :: k in m.blocks && k.loc == b ==> k.succ == []
    else exists k :: k in m.blocks && k.loc == b && k.succ == succ
  }

  /** Slot x stands for an edge of the module that hashes to x, with the edges that go on from
      it; it is empty exactly when no edge does. */
  ghost predicate SlotOf(m: Module, weights: seq<nat>, x: nat, slot: CfgDistance.Slot)
    requires x < |weights|
  {
    if slot == CfgDistance.Empty then forall t: nat, b: nat :: ModuleEdge(m, t, b) ==> Hash(t, b) != x
    else exists t: nat, b: nat, succ: seq<nat> ::
      ModuleEdge(m, t, b) && Hash(t, b) == x && Successors(m, b, succ) && slot == CfgDistance.Edge(SuccEdges(b, succ), weights[x])
  }

  /** The graph of a module. */
  ghost predicate GraphOf(m: Module, weights: seq<nat>, g: CfgDistance.Graph) {
    |g| == |weights| && forall x: nat :: x < |g| ==> SlotOf(m, weights, x, g[x])
  }

  lemma SuccessorsOf(r: Reader, m: Module, b: nat)
    requires Holds(r, m)
    ensures Successors(m, b, SuccOf(r, b))
  {
    var succ := SuccOf(r, b);
    if succ == [] {
      forall k | k in m.blocks && k.loc == b
        ensures k.succ == []
      {
        if k.succ != [] {
          assert HasSucc(m.blocks, b, k.succ);
        }
      }
      if b in r.bb_to_succ {
        assert HasSucc(m.blocks, b, r.bb_to_succ[b]);
      }
    } else {
      assert HasSucc(m.blocks, b, succ);
    }
  }

  lemma TableIsGraph(r: Reader, m: Module, zf: string, edges: seq<CfgBuild.Slot>, weights: seq<nat>)
    requires Holds(r, m) && IsTable(r, zf, edges) && |weights| == |edges|
    requires forall k :: k in m.blocks && k.loc == 0 ==> k.succ == []
    ensures GraphOf(m, weights, AsGraph(edges, weights))
  {
    hide Hash, IsEdge, ModuleEdge, Holds, SuccEdges, Successors;
    var g := AsGraph(edges, weights);
    forall t: nat, b: nat
      ensures IsEdge(r, t, b) <==> ModuleEdge(m, t, b)
    {
      ReaderEdges(r, m, t, b);
    }
    forall x: nat | x < |g|
      ensures SlotOf(m, weights, x, g[x])
    {
      assert IsSlot(r, zf, edges[x], x);
      if edges[x].Edge? {
        var t: nat, b: nat :| IsEdge(r, t, b) && Hash(t, b) == x && edges[x] == Record(r, zf, t, b);
        SuccessorsOf(r, m, b);
        assert g[x] == CfgDistance.Edge(SuccEdges(b, SuccOf(r, b)), weights[x]);
      }
    }
  }

  /** What a slot of the table tells about the module: the edge it was filled for, the function of the
      block the edge leaves, and what the block it enters leads to, as blocks and as edges. */
  lemma SlotTells(r: Reader, m: Module, zf: string, edges: seq<CfgBuild.Slot>, x: nat)
    requires Holds(r, m) && IsTable(r, zf, edges) && x < |edges| && edges[x].Edge?
    requires forall k :: k in m.blocks && k.loc == 0 ==> k.succ == []
    ensures var e := edges[x];
            && ModuleEdge(m, e.top, e.bottom) && Hash(e.top, e.bottom) == x == e.xored_loc
            && Successors(m, e.bottom, e.succ_blocks) && e.succ_edges == SuccEdges(e.bottom, e.succ_blocks)
            && (e.top != 0 ==> exists k :: k in m.blocks && k.loc == e.top && k.func == e.func)
  {
    hide Hash, ModuleEdge, SuccEdges, Successors;
    assert IsSlot(r, zf, edges[x], x);
    var t: nat, b: nat :| IsEdge(r, t, b) && Hash(t, b) == x && edges[x] == Record(r, zf, t, b);
    ReaderEdges(r, m, t, b);
    SuccessorsOf(r, m, b);
    if t != 0 {
      BlockFunction(r, m, t, b);
    }
  }

  lemma BlockFunction(r: Reader, m: Module, t: nat, b: nat)
    requires Holds(r, m) && b in SuccOf(r, t)
    ensures t in r.bb_to_func && exists k :: k in m.blocks && k.loc == t && k.func == r.bb_to_func[t]
  {
    SuccIs(r, m, t, b);
    var k :| k in m.blocks && k.loc == t && b in k.succ;
    assert InFunc(m.blocks, t, k.func);
    assert InFunc(m.blocks, t, r.bb_to_func[t]);
  }

  lemma EdgesInRange(r: Reader, m: Module, size: nat)
    requires Holds(r, m) && Whole(m, size)
    ensures InRange(r, size)
  {
    hide Hash, IsEdge, ModuleEdge, Holds, CoverageMap.IsPow2;
    forall t: nat, b: nat
      ensures IsEdge(r, t, b) <==> ModuleEdge(m, t, b)
    {
      ReaderEdges(r, m, t, b);
    }
    LocationsInRange(r, size);
  }

  lemma ZeroHasNoSuccessors(r: Reader, m: Module)
    requires Holds(r, m) && forall k :: k in m.blocks && k.loc == 0 ==> k.succ == []
    ensures 0 !in r.bb_to_succ
  {
    if 0 in r.bb_to_succ {
      RecordedSuccessors(r, m, 0);
    }
  }

  lemma RecordedSuccessors(r: Reader, m: Module, b: nat)
    requires Holds(r, m) && b in r.bb_to_succ
    ensures exists k :: k in m.blocks && k.loc == b && k.succ == r.bb_to_succ[b] != []
  {
    assert HasSucc(m.blocks, b, r.bb_to_succ[b]);
  }

  /** The whole way: the text that the pass writes for a module is read without a panic, the table
      built from it is the module's graph and leads nowhere outside itself, and the search finds
      exactly what can be reached, at distances that the first-found ones explain; they are all
      the shortest if and only if nothing is stale. */
  method DistancesOfDump(content: string, ghost m: Module, weights: seq<nat>, start: nat)
    returns (d: CfgDistance.Outcome, ghost g: CfgDistance.Graph)
    requires content == Dump(m) && Whole(m, |weights|)
    ensures GraphOf(m, weights, g) && CfgDistance.Closed(g)
    ensures d == CfgDistance.UnknownDestination <==> !CfgDistance.Present(g, start)
    ensures d != CfgDistance.UnknownSuccessor
    ensures CfgDistance.Present(g, start) ==>
      CfgDistance.Sane(g, CfgDistance.Initial(g, start)) && d == CfgDistance.Search(g, CfgDistance.Initial(g, start))
    ensures d.Found? ==> forall e :: e in d.dist <==> CfgDistance.Reachable(g, start, e)
    ensures d.Found? ==> forall e :: e in d.dist ==> CfgShortest.SimpleWalkTo(g, start, e, d.dist[e])
    ensures d.Found? ==> CfgShortest.Explained(g, start, d.dist, CfgShortest.FirstFound(g, start))
    ensures d.Found? ==> ((forall e :: e in d.dist ==> CfgShortest.Shortest(g, start, e, d.dist[e]))
                          <==> CfgShortest.NothingStale(g, start, CfgShortest.FirstFound(g, start)))
  {
    hide Whole, Dump, Lines, ParseLines, IsTable, ZeroFunc, Filed, InRange, Holds, GraphOf, TableClosed, CfgDistance.Search,
      CfgDistance.Closed, CfgDistance.Reachable, CfgDistance.Sane, CfgShortest.Explained, CfgShortest.Shortest,
      CfgShortest.NothingStale, CfgShortest.FirstFound, CfgShortest.SimpleWalkTo, AsGraph;
    var res, funcs := FromContent(content, |weights|);
    ghost var r := ReadBack(m, |weights|, funcs);
    var graph := AsGraph(res.edges, weights);
    g := graph;
    ReadyToSearch(r, m, ZeroFunc(r, funcs), res.edges, weights);
    d := CfgDistance.CalculateDistances(graph, start);
    if d.Found? {
      CfgShortest.FirstFoundExplains(g, start);
      CfgShortest.DistancesAreSimple(g, start);
      CfgShortest.ShortestIffNothingStale(g, start);
    }
  }

  lemma ReadBack(m: Module, size: nat, funcs: seq<string>) returns (r: Reader)
    requires Whole(m, size)
    requires var maps := ParseLines(START, Lines(Dump(m)));
             maps.Some? ==> IsOrder(funcs, maps.value.maps.func_to_entry.Keys)
    ensures var maps := ParseLines(START, Lines(Dump(m))); maps.Some? && r == maps.value.maps
    ensures Holds(r, m) && (forall bb :: Filed(r, funcs, bb)) && InRange(r, size)
  {
    hide Dump, Lines, ParseLines, Holds, Filed, InRange;
    DumpRoundTrip(m);
    r := ParseLines(START, Lines(Dump(m))).value.maps;
    forall bb: nat
      ensures Filed(r, funcs, bb)
    {
      AllFiled(r, m, funcs, bb);
    }
    EdgesInRange(r, m, size);
  }

  lemma ReadyToSearch(r: Reader, m: Module, zf: string, edges: seq<CfgBuild.Slot>, weights: seq<nat>)
    requires Holds(r, m) && Whole(m, |weights|) && |edges| == |weights| && IsTable(r, zf, edges) && InRange(r, |edges|)
    ensures GraphOf(m, weights, AsGraph(edges, weights)) && CfgDistance.Closed(AsGraph(edges, weights))
  {
    hide Holds, IsTable, InRange, GraphOf, TableClosed, AsGraph, ModuleEdge;
    TableIsGraph(r, m, zf, edges, weights);
    ZeroHasNoSuccessors(r, m);
    NoZeroBlockIsClosed(r, zf, edges);
    ClosedForSearch(edges, weights);
  }
}
