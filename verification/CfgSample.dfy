/** A dump whose distances are not all shortest, and one on which the search stops. */
module CfgSample {
  import opened Bits
  import opened CfgDump
  import opened CfgContent
  import opened CfgDistance
  import opened CfgShortest
  import CfgBuild
  import CoverageMap

  /** One function: its entry block 1 goes to 3; 3 goes to 5, directly or by way of 6; and 5 goes
      on to 2 and 4. */
  const SAMPLE: Module := Module(
    [EntryPoint("f", 1)],
    [Block("f", 1, [3]), Block("f", 3, [5, 6]), Block("f", 6, [5]), Block("f", 5, [2]), Block("f", 2, [4]), Block("f", 4, [])])

  lemma SampleEdges(t: nat, b: nat)
    ensures ModuleEdge(SAMPLE, t, b) <==>
      (t, b) in {(0, 1), (1, 3), (3, 5), (3, 6), (6, 5), (5, 2), (2, 4)}
  {
    assert SAMPLE.entries[0] in SAMPLE.entries;
    assert SAMPLE.blocks[0] in SAMPLE.blocks && SAMPLE.blocks[1] in SAMPLE.blocks && SAMPLE.blocks[2] in SAMPLE.blocks;
    assert SAMPLE.blocks[3] in SAMPLE.blocks && SAMPLE.blocks[4] in SAMPLE.blocks;
  }

  lemma SampleHashes()
    ensures CfgBuild.Hash(0, 1) == 1 && CfgBuild.Hash(1, 3) == 3 && CfgBuild.Hash(3, 5) == 4 && CfgBuild.Hash(3, 6) == 7
    ensures CfgBuild.Hash(6, 5) == 6 && CfgBuild.Hash(5, 2) == 0 && CfgBuild.Hash(2, 4) == 5
  {
  }

  lemma SampleIsWhole(size: nat)
    requires size >= 8 && CoverageMap.IsPow2(size)
    ensures Whole(SAMPLE, size)
  {
    hide CoverageMap.IsPow2;
    forall t: nat, b: nat
      ensures ModuleEdge(SAMPLE, t, b) ==> t < size && b < size
    {
      SampleEdges(t, b);
    }
    hide ModuleEdge;
    assert SAMPLE.blocks[0] in SAMPLE.blocks;
  }

  function SampleSucc(b: nat): seq<nat> {
    match b
    case 1 => [3]
    case 2 => [4]
    case 3 => [5, 6]
    case 5 => [2]
    case 6 => [5]
    case _ => []
  }

  lemma SampleSuccessors(b: nat, succ: seq<nat>)
    requires Successors(SAMPLE, b, succ) && 1 <= b <= 6
    ensures succ == SampleSucc(b)
  {
    assert SAMPLE.blocks[0] in SAMPLE.blocks && SAMPLE.blocks[1] in SAMPLE.blocks && SAMPLE.blocks[2] in SAMPLE.blocks;
    assert SAMPLE.blocks[3] in SAMPLE.blocks && SAMPLE.blocks[4] in SAMPLE.blocks;
  }

  /** The slot that the only edge t, b hashing to it fills. */
  lemma SampleSlot(weights: seq<nat>, x: nat, slot: Slot, t: nat, b: nat)
    requires x < |weights| && weights[x] == 1 && SlotOf(SAMPLE, weights, x, slot) && CfgBuild.Hash(t, b) == x
    requires (t, b) in {(0, 1), (1, 3), (3, 5), (3, 6), (6, 5), (5, 2), (2, 4)}
    ensures slot == Edge(CfgBuild.SuccEdges(b, SampleSucc(b)), 1)
  {
    hide ModuleEdge, CfgBuild.Hash, Successors, CfgBuild.SuccEdges;
    SampleEdges(t, b);
    SampleHashes();
    if slot != Empty {
      var t': nat, b': nat, succ: seq<nat> :|
        ModuleEdge(SAMPLE, t', b') && CfgBuild.Hash(t', b') == x && Successors(SAMPLE, b', succ)
        && slot == Edge(CfgBuild.SuccEdges(b', succ), weights[x]);
      SampleEdges(t', b');
      SampleSuccessors(b', succ);
    }
  }

  /** The sample's table, edge 3 being that from block 1 to block 3. */
  ghost predicate IsSample(g: Graph) {
    && |g| >= 8
    && g[0] == Edge([5], 1) && g[1] == Edge([3], 1) && g[3] == Edge([4, 7], 1)
    && g[4] == Edge([0], 1) && g[5] == Edge([], 1) && g[6] == Edge([0], 1)
    && g[7] == Edge([6], 1)
  }

  lemma SampleSuccEdges()
    ensures CfgBuild.SuccEdges(1, [3]) == [3] && CfgBuild.SuccEdges(3, [5, 6]) == [4, 7] && CfgBuild.SuccEdges(5, [2]) == [0]
    ensures CfgBuild.SuccEdges(6, [5]) == [6] && CfgBuild.SuccEdges(2, [4]) == [5] && CfgBuild.SuccEdges(4, []) == []
  {
    SampleHashes();
  }

  lemma SampleGraph(weights: seq<nat>, g: Graph)
    requires |weights| >= 8 && (forall x :: 0 <= x < |weights| ==> weights[x] == 1) && GraphOf(SAMPLE, weights, g)
    ensures IsSample(g)
  {
    hide SlotOf, CfgBuild.Hash, CfgBuild.SuccEdges;
    SampleHashes();
    SampleSuccEdges();
    SampleSlot(weights, 1, g[1], 0, 1);
    SampleSlot(weights, 3, g[3], 1, 3);
    SampleSlot(weights, 4, g[4], 3, 5);
    SampleSlot(weights, 7, g[7], 3, 6);
    SampleSlot(weights, 6, g[6], 6, 5);
    SampleSlot(weights, 0, g[0], 5, 2);
    SampleSlot(weights, 5, g[5], 2, 4);
  }

  // ----- the search from edge 3, pop by pop: edge 0 is expanded at distance 4, at which it was
  // first found, although 3 is already known for it

  const S0: State := State(map[3 := 1], {}, multiset{(3, 1)})
  const S1: State := State(map[3 := 1, 4 := 2, 7 := 2], {3}, multiset{(4, 2), (7, 2)})
  const S2: State := State(map[3 := 1, 4 := 2, 7 := 2, 6 := 3], {3, 7}, multiset{(4, 2), (6, 3)})
  const S3: State := State(map[3 := 1, 4 := 2, 7 := 2, 6 := 3, 0 := 4], {3, 7, 6}, multiset{(4, 2), (0, 4)})
  const S4: State := State(map[3 := 1, 4 := 2, 7 := 2, 6 := 3, 0 := 3], {3, 7, 6, 4}, multiset{(0, 4), (0, 3)})
  const S5: State := State(map[3 := 1, 4 := 2, 7 := 2, 6 := 3, 0 := 3, 5 := 5], {3, 7, 6, 4, 0}, multiset{(0, 3), (5, 5)})
  const S6: State := State(map[3 := 1, 4 := 2, 7 := 2, 6 := 3, 0 := 3, 5 := 5], {3, 7, 6, 4, 0, 5}, multiset{(0, 3)})
  const S7: State := State(map[3 := 1, 4 := 2, 7 := 2, 6 := 3, 0 := 3, 5 := 5], {3, 7, 6, 4, 0, 5}, multiset{})

  /** One round of the loop: m is popped from s and leaves t. */
  ghost predicate Pops(g: Graph, s: State, m: (nat, nat), t: State) {
    && IsMax(s.heap, m) && Present(g, m.0)
    && if m.0 in s.visited then t == s.(heap := s.heap - multiset{m})
       else Relax(g, g[m.0].succ, m.1, s.dist, s.heap - multiset{m}) == Relaxed(t.dist, t.heap)
            && t.visited == s.visited + {m.0}
  }

  lemma SearchStep(g: Graph, s: State, m: (nat, nat), t: State)
    requires Sane(g, s) && Pops(g, s, m, t)
    ensures Sane(g, t) && Search(g, s) == Search(g, t)
  {
    MaxUnique(s.heap, m, MaxOf(s.heap));
    if m.0 !in s.visited {
      RelaxSane(g, g[m.0].succ, m.1, s.dist, s.heap - multiset{m});
    }
  }

  lemma RelaxOne(g: Graph, s: nat, d: nat, dist: map<nat, nat>, heap: multiset<(nat, nat)>)
    requires Present(g, s) && d + g[s].weight <= U32_MAX && (s in dist ==> d + g[s].weight < dist[s])
    ensures Relax(g, [s], d, dist, heap)
            == Relaxed(dist[s := d + g[s].weight], heap + multiset{(s, d + g[s].weight)})
  {
  }

  lemma Pop3(g: Graph)
    requires IsSample(g)
    ensures Pops(g, S0, (3, 1), S1)
  {
    assert S0.heap - multiset{(3, 1)} == multiset{};
    assert [4, 7][1..] == [7];
    RelaxOne(g, 7, 1, map[3 := 1, 4 := 2], multiset{(4, 2)});
    assert Relax(g, [4, 7], 1, S0.dist, multiset{}) == Relaxed(S1.dist, S1.heap);
  }

  lemma Pop7(g: Graph)
    requires IsSample(g)
    ensures Pops(g, S1, (7, 2), S2)
  {
    assert S1.heap - multiset{(7, 2)} == multiset{(4, 2)};
    RelaxOne(g, 6, 2, S1.dist, multiset{(4, 2)});
  }

  lemma Pop6(g: Graph)
    requires IsSample(g)
    ensures Pops(g, S2, (6, 3), S3)
  {
    assert S2.heap - multiset{(6, 3)} == multiset{(4, 2)};
    RelaxOne(g, 0, 3, S2.dist, multiset{(4, 2)});
  }

  lemma Pop4(g: Graph)
    requires IsSample(g)
    ensures Pops(g, S3, (4, 2), S4)
  {
    assert S3.heap - multiset{(4, 2)} == multiset{(0, 4)};
    RelaxOne(g, 0, 2, S3.dist, multiset{(0, 4)});
  }

  lemma Pop0(g: Graph)
    requires IsSample(g)
    ensures Pops(g, S4, (0, 4), S5)
  {
    assert S4.heap - multiset{(0, 4)} == multiset{(0, 3)};
    RelaxOne(g, 5, 4, S4.dist, multiset{(0, 3)});
  }

  lemma Pop5(g: Graph)
    requires IsSample(g)
    ensures Pops(g, S5, (5, 5), S6)
  {
    assert S5.heap - multiset{(5, 5)} == multiset{(0, 3)};
  }

  lemma PopStale(g: Graph)
    requires IsSample(g)
    ensures Pops(g, S6, (0, 3), S7)
  {
    assert S6.heap - multiset{(0, 3)} == multiset{};
  }

  lemma SampleSearch(g: Graph)
    requires IsSample(g)
    ensures Sane(g, Initial(g, 3)) && Search(g, Initial(g, 3)) == Found(S7.dist)
  {
    hide Search, Pops;
    InitialInv(g, 3);
    assert Initial(g, 3) == S0;
    Pop3(g);
    SearchStep(g, S0, (3, 1), S1);
    Pop7(g);
    SearchStep(g, S1, (7, 2), S2);
    Pop6(g);
    SearchStep(g, S2, (6, 3), S3);
    Pop4(g);
    SearchStep(g, S3, (4, 2), S4);
    Pop0(g);
    SearchStep(g, S4, (0, 4), S5);
    Pop5(g);
    SearchStep(g, S5, (5, 5), S6);
    PopStale(g);
    SearchStep(g, S6, (0, 3), S7);
    SearchOver(g, S7);
  }

  /** Edge 5 is found at 5, and there is a walk of weight 4 to it. */
  lemma NotAlwaysShortest(g: Graph)
    requires IsSample(g)
    ensures Sane(g, Initial(g, 3))
    ensures var r := Search(g, Initial(g, 3));
            r.Found? && 5 in r.dist && r.dist[5] == 5 && WalkTo(g, 3, 5, 4) && !Shortest(g, 3, 5, 5)
  {
    hide Search;
    SampleSearch(g);
    WalkStart(g, 3);
    WalkExtend(g, 3, 3, 1, 4);
    WalkExtend(g, 3, 4, 2, 0);
    WalkExtend(g, 3, 0, 3, 5);
  }

  /** The text of the sample, in a map of any size from 8 up, run through reader, table and
      search. */
  method SampleDistances(map_size: nat) returns (d: Outcome, ghost g: Graph)
    requires map_size >= 8 && CoverageMap.IsPow2(map_size)
    ensures GraphOf(SAMPLE, seq(map_size, _ => 1), g)
    ensures d.Found? && 5 in d.dist && d.dist[5] == 5 && !Shortest(g, 3, 5, d.dist[5])
  {
    hide Search, Whole, Explained, NothingStale, Shortest, GraphOf, IsSample, CoverageMap.IsPow2, Dump;
    SampleIsWhole(map_size);
    var weights := seq(map_size, _ => 1);
    d, g := DistancesOfDump(Dump(SAMPLE), SAMPLE, weights, 3);
    SampleGraph(weights, g);
    SamplePresent(g);
    NotAlwaysShortest(g);
  }

  lemma SamplePresent(g: Graph)
    requires IsSample(g)
    ensures Present(g, 3)
  {
  }

  // ----- location 0

  /** The entry block 4 leads to block 0, which leads to 6. */
  const ZERO: Module := Module([EntryPoint("f", 4)], [Block("f", 4, [0]), Block("f", 0, [6])])

  /** The text of that dump. */
  lemma ZeroText()
    ensures Dump(ZERO) == "$$f+4\n%%f+4\n->0\n%%f+0\n->6\n"
  {
    hide EntryLines, BlockLines, Join, Decimal;
    ZeroLines();
    JoinFive("$$f+4", "%%f+4", "->0", "%%f+0", "->6");
  }

  lemma ZeroLines()
    ensures EntryLines(ZERO.entries) == ["$$f+4"]
    ensures BlockLines(ZERO.blocks) == ["%%f+4", "->0", "%%f+0", "->6"]
  {
    hide Decimal, EntryLine, BlockLine, SuccLine;
    ZeroNames();
    assert SuccLines([0]) == ["->0"] && SuccLines([6]) == ["->6"];
    assert ZERO.blocks[1..] == [ZERO.blocks[1]];
    assert BlockLines([ZERO.blocks[1]]) == ["%%f+0", "->6"];
  }

  lemma ZeroNames()
    ensures EntryLine(ZERO.entries[0]) == "$$f+4" && BlockLine(ZERO.blocks[0]) == "%%f+4" && BlockLine(ZERO.blocks[1]) == "%%f+0"
    ensures SuccLine(0) == "->0" && SuccLine(6) == "->6"
  {
    assert Decimal(4) == "4" && Decimal(0) == "0" && Decimal(6) == "6";
  }

  lemma JoinFive(e: string, a: string, b: string, c: string, d: string)
    ensures Join([e] + [a, b, c, d]) == e + "\n" + a + "\n" + b + "\n" + c + "\n" + d + "\n"
  {
    assert ([e] + [a, b, c, d])[1..] == [a, b, c, d];
    assert [a, b, c, d][1..] == [b, c, d] && [b, c, d][1..] == [c, d] && [c, d][1..] == [d];
    assert Join([d]) == d + "\n";
    assert Join([c, d]) == c + "\n" + d + "\n";
    assert Join([b, c, d]) == b + "\n" + c + "\n" + d + "\n";
    assert Join([a, b, c, d]) == a + "\n" + b + "\n" + c + "\n" + d + "\n";
  }

  const ZERO_MAPS: CfgBuild.Reader :=
    CfgBuild.Reader(map[4 := "f", 0 := "f"], map[4 := [0], 0 := [6]], map["f" := 4])

  lemma ZeroReads()
    ensures var maps := ParseLines(START, Lines(Dump(ZERO))); maps.Some? && maps.value.maps == ZERO_MAPS
  {
    hide ParseLines, Lines, Dump;
    DumpReadsBack(ZERO);
    assert AfterEntries(START.maps, ZERO.entries) == START.maps.(func_to_entry := map["f" := 4]);
    var maps := START.maps.(func_to_entry := map["f" := 4]);
    assert ZERO.blocks[1..] == [Block("f", 0, [6])];
    var one := CfgBuild.Reader(map[4 := "f"], map[4 := [0]], map["f" := 4]);
    var none: seq<nat> := [];
    assert none + [0] == [0] && none + [6] == [6];
    assert Appended(map[], 4, [0]) == map[4 := [0]] && Appended(map[4 := [0]], 0, [6]) == map[4 := [0], 0 := [6]];
    assert AfterBlocks(one, [Block("f", 0, [6])]) == ZERO_MAPS;
    assert AfterBlocks(maps, ZERO.blocks) == ZERO_MAPS;
  }

  lemma ZeroEdges(t: nat, b: nat)
    ensures CfgBuild.IsEdge(ZERO_MAPS, t, b) <==> (t == 0 && b == 4) || (t == 4 && b == 0)
  {
    assert "f" in ZERO_MAPS.func_to_entry && ZERO_MAPS.func_to_entry["f"] == 4;
  }

  lemma ZeroHashes()
    ensures CfgBuild.Hash(0, 4) == 4 && CfgBuild.Hash(4, 0) == 2 && CfgBuild.Hash(0, 6) == 6
  {
  }

  lemma ZeroBuilds(funcs: seq<string>, size: nat)
    requires CfgBuild.IsOrder(funcs, ZERO_MAPS.func_to_entry.Keys) && size >= 8
    ensures (forall bb :: CfgBuild.Filed(ZERO_MAPS, funcs, bb)) && CfgBuild.InRange(ZERO_MAPS, size)
  {
    hide CfgBuild.Hash;
    ZeroHashes();
    forall t: nat, b: nat | CfgBuild.IsEdge(ZERO_MAPS, t, b)
      ensures CfgBuild.Hash(t, b) < size
    {
      ZeroEdges(t, b);
    }
    assert "f" in ZERO_MAPS.func_to_entry.Keys;
    assert funcs[0] in ZERO_MAPS.func_to_entry.Keys;
  }

  /** The edge from 0 to 6 gives way to the one from 0 to 4, and the search asks for it in vain. */
  lemma ZeroBlockBreaks(zf: string, edges: seq<CfgBuild.Slot>)
    requires |edges| >= 8 && CfgBuild.IsTable(ZERO_MAPS, zf, edges)
    ensures edges[4].Edge? && edges[4].succ_edges == [2] && edges[2].Edge? && edges[2].succ_edges == [6]
    ensures edges[6] == CfgBuild.Empty && !CfgBuild.TableClosed(edges)
  {
    hide CfgBuild.Hash, CfgBuild.IsEdge;
    ZeroHashes();
    forall t: nat, b: nat
      ensures CfgBuild.IsEdge(ZERO_MAPS, t, b) <==> (t == 0 && b == 4) || (t == 4 && b == 0)
    {
      ZeroEdges(t, b);
    }
    assert CfgBuild.IsSlot(ZERO_MAPS, zf, edges[4], 4) && CfgBuild.IsSlot(ZERO_MAPS, zf, edges[2], 2);
    assert edges[4] == CfgBuild.Record(ZERO_MAPS, zf, 0, 4) && edges[2] == CfgBuild.Record(ZERO_MAPS, zf, 4, 0);
    assert CfgBuild.IsSlot(ZERO_MAPS, zf, edges[6], 6);
    assert edges[2].succ_edges[0] == 6;
  }

  const Z1: State := State(map[4 := 1, 2 := 2], {4}, multiset{(2, 2)})

  lemma ZeroSearch(g: Graph)
    requires |g| >= 8 && g[4] == Edge([2], 1) && g[2] == Edge([6], 1) && g[6] == Empty
    ensures Sane(g, Initial(g, 4)) && Search(g, Initial(g, 4)) == UnknownSuccessor
  {
    InitialInv(g, 4);
    var z0 := Initial(g, 4);
    assert z0.heap - multiset{(4, 1)} == multiset{};
    RelaxOne(g, 2, 1, z0.dist, multiset{});
    assert Pops(g, z0, (4, 1), Z1);
    SearchStep(g, z0, (4, 1), Z1);
    MaxUnique(Z1.heap, (2, 2), MaxOf(Z1.heap));
    assert Relax(g, [6], 2, Z1.dist, Z1.heap - multiset{(2, 2)}) == Unknown;
  }

  /** The text of that dump is read and built without a panic, and the search from its entry edge
      stops at a successor that is not in the table. */
  method ZeroStopsSearch(map_size: nat) returns (d: Outcome, ghost g: Graph)
    requires map_size >= 8
    ensures Dangling(g, 4) && d == UnknownSuccessor
  {
    hide Search, Sane, Dangling, Dump, ParseLines, Lines, CfgBuild.IsTable, CfgBuild.Filed, CfgBuild.InRange,
      CfgBuild.ZeroFunc, CfgBuild.TableClosed;
    ZeroReads();
    var res, funcs := FromContent(Dump(ZERO), map_size);
    ZeroBuilds(funcs, map_size);
    ZeroBlockBreaks(CfgBuild.ZeroFunc(ZERO_MAPS, funcs), res.edges);
    var graph := CfgBuild.AsGraph(res.edges, seq(map_size, _ => 1));
    ZeroSearch(graph);
    d := CalculateDistances(graph, 4);
    g := graph;
  }
}
