/** Building the edge table of a control flow graph from the maps read out of a dump. The
    iteration order of the hash maps is a parameter. */
module CfgBuild {
  import opened Bits
  import CoverageMap
  import CfgDistance

  /** What the reader has collected: the function of each block, the successors of each block
      that has any, and the entry block of each function. */
  datatype Reader = Reader(bb_to_func: map<nat, string>, bb_to_succ: map<nat, seq<nat>>,
                           func_to_entry: map<string, nat>)

  datatype Slot = Empty | Edge(xored_loc: nat, top: nat, bottom: nat, func: string,
                               succ_blocks: seq<nat>, succ_edges: seq<nat>)

  datatype Entry = Entry(func: string, loc: nat, succ_edges: seq<nat>)

  datatype Result = Built(edges: seq<Slot>, entries: map<string, Entry>) | Panic

  /** The coverage map index of an edge. */
  function Hash(top: nat, bottom: nat): nat {
    Xor(top / 2, bottom)
  }

  function SuccEdges(loc: nat, succ: seq<nat>): (s: seq<nat>)
    ensures |s| == |succ|
  {
    seq(|succ|, i requires 0 <= i < |succ| => Hash(loc, succ[i]))
  }

  function SuccOf(r: Reader, bb: nat): seq<nat> {
    if bb in r.bb_to_succ then r.bb_to_succ[bb] else []
  }

  ghost predicate IsOrder<T(!new)>(order: seq<T>, keys: set<T>) {
    && (forall i, j :: 0 <= i < j < |order| ==> order[i] != order[j])
    && (forall k :: k in keys <==> k in order)
  }

  function EntryLocs(r: Reader, funcs: seq<string>): (locs: seq<nat>)
    requires forall f :: f in funcs ==> f in r.func_to_entry
    ensures |locs| == |funcs|
  {
    seq(|funcs|, i requires 0 <= i < |funcs| => r.func_to_entry[funcs[i]])
  }

  /** The successor map with the edges from location 0 to the entry blocks put in. */
  function WithZero(r: Reader, funcs: seq<string>): map<nat, seq<nat>>
    requires forall f :: f in funcs ==> f in r.func_to_entry
  {
    if funcs == [] then r.bb_to_succ else r.bb_to_succ[0 := EntryLocs(r, funcs)]
  }

  /** Edges of the table: from 0 to every entry block (in place of what 0 led to), and those
      read from the dump. */
  ghost predicate IsEdge(r: Reader, top: nat, bottom: nat) {
    if top == 0 && r.func_to_entry != map[] then bottom in r.func_to_entry.Values
    else bottom in SuccOf(r, top)
  }

  /** The record of an edge; edges from 0 are filed under one function. */
  function Record(r: Reader, zero_func: string, top: nat, bottom: nat): Slot {
    Edge(Hash(top, bottom), top, bottom,
         if top == 0 then zero_func else if top in r.bb_to_func then r.bb_to_func[top] else "",
         SuccOf(r, bottom), SuccEdges(bottom, SuccOf(r, bottom)))
  }

  /** Every slot holds an edge that hashes to it, unless there is none. */
  ghost predicate IsTable(r: Reader, zero_func: string, edges: seq<Slot>) {
    forall x :: 0 <= x < |edges| ==> IsSlot(r, zero_func, edges[x], x)
  }

  ghost predicate IsSlot(r: Reader, zero_func: string, slot: Slot, x: nat) {
    if slot == Empty then forall t: nat, b: nat :: IsEdge(r, t, b) ==> Hash(t, b) != x
    else exists t: nat, b: nat :: IsEdge(r, t, b) && Hash(t, b) == x && slot == Record(r, zero_func, t, b)
  }

  /** The function under which edges from 0 are filed: that of the first entry block iterated. */
  function ZeroFunc(r: Reader, funcs: seq<string>): string
    requires forall f :: f in funcs ==> f in r.func_to_entry
  {
    var w := WithZero(r, funcs);
    if 0 in w && w[0] != [] && w[0][0] in r.bb_to_func then r.bb_to_func[w[0][0]] else ""
  }

  /** The slot an edge is filed under is the map index that the instrumentation bumps when control
      goes from t to b: with a history of one location and no context. */
  lemma HashIsMapIndex(trace: seq<CoverageMap.Probed>, t: nat, x: nat, b: nat)
    ensures CoverageMap.IndexOf(trace + [CoverageMap.At(t, x)], CoverageMap.At(b, 0), 1) == Hash(t, b)
  {
    hide Xor;
    CoverageMap.IndexOfEdge(trace, CoverageMap.At(t, x), CoverageMap.At(b, 0));
    XorStep(t / 2, 0);
  }

  /** So is the slot of an edge from 0, when control enters at b. */
  lemma HashIsFirstIndex(b: nat)
    ensures CoverageMap.IndexOf([], CoverageMap.At(b, 0), 1) == Hash(0, b)
  {
    hide Xor;
    CoverageMap.IndexAtFirst(CoverageMap.At(b, 0), 1);
  }

  // ----- building

  ghost predicate Partial(r: Reader, zf: string, edges: seq<Slot>, done: set<(nat, nat)>) {
    && (forall p :: p in done ==> Hash(p.0, p.1) < |edges| && edges[Hash(p.0, p.1)].Edge?)
    && (forall x :: 0 <= x < |edges| && edges[x].Edge? ==>
          exists p :: p in done && Hash(p.0, p.1) == x && edges[x] == Record(r, zf, p.0, p.1))
  }

  lemma PartialStep(r: Reader, zf: string, edges: seq<Slot>, done: set<(nat, nat)>, t: nat, b: nat)
    requires Partial(r, zf, edges, done) && Hash(t, b) < |edges|
    ensures Partial(r, zf, edges[Hash(t, b) := Record(r, zf, t, b)], done + {(t, b)})
  {
    hide Record, Hash;
    var edges', done' := edges[Hash(t, b) := Record(r, zf, t, b)], done + {(t, b)};
    assert Record(r, zf, t, b).Edge? by {
      RecordIsEdge(r, zf, t, b);
    }
    forall x | 0 <= x < |edges'| && edges'[x].Edge?
      ensures exists p :: p in done' && Hash(p.0, p.1) == x && edges'[x] == Record(r, zf, p.0, p.1)
    {
      if x == Hash(t, b) {
        assert (t, b) in done';
      } else {
        var p :| p in done && Hash(p.0, p.1) == x && edges[x] == Record(r, zf, p.0, p.1);
        assert p in done';
      }
    }
  }

  lemma RecordIsEdge(r: Reader, zf: string, t: nat, b: nat)
    ensures Record(r, zf, t, b).Edge? && Record(r, zf, t, b).xored_loc == Hash(t, b)
  {
  }

  lemma PartialIsTable(r: Reader, zf: string, edges: seq<Slot>, done: set<(nat, nat)>)
    requires Partial(r, zf, edges, done)
    requires forall t: nat, b: nat :: IsEdge(r, t, b) <==> (t, b) in done
    ensures IsTable(r, zf, edges)
  {
    hide Record, Hash, IsEdge;
    forall x | 0 <= x < |edges|
      ensures IsSlot(r, zf, edges[x], x)
    {
      if edges[x].Edge? {
        var p :| p in done && Hash(p.0, p.1) == x && edges[x] == Record(r, zf, p.0, p.1);
        assert IsEdge(r, p.0, p.1);
      } else {
        forall t: nat, b: nat | IsEdge(r, t, b)
          ensures Hash(t, b) != x
        {
          assert (t, b) in done;
        }
      }
    }
  }

  /** Inserts the edges from one block. */
  method InsertEdges(r: Reader, ghost zf: string, bb: nat, func: string, succ: seq<nat>, edges: seq<Slot>,
                     ghost done: set<(nat, nat)>)
    returns (ok: bool, edges': seq<Slot>, ghost done': set<(nat, nat)>)
    requires Partial(r, zf, edges, done)
    requires func == if bb == 0 then zf else if bb in r.bb_to_func then r.bb_to_func[bb] else ""
    ensures |edges'| == |edges|
    ensures ok ==> Partial(r, zf, edges', done')
    ensures ok ==> forall p :: p in done' <==> p in done || (p.0 == bb && p.1 in succ)
    ensures !ok ==> exists b :: b in succ && Hash(bb, b) >= |edges|
  {
    edges', done' := edges, done;
    for i := 0 to |succ|
      invariant |edges'| == |edges| && Partial(r, zf, edges', done')
      invariant forall p :: p in done' <==> p in done || (p.0 == bb && p.1 in succ[..i])
    {
      hide Partial, Hash, SuccEdges;
      var xored_loc := Hash(bb, succ[i]);
      if xored_loc >= |edges| {
        assert succ[i] in succ;
        return false, edges', done';
      }
      PartialStep(r, zf, edges', done', bb, succ[i]);
      var successors := SuccOf(r, succ[i]);
      edges' := edges'[xored_loc := Edge(xored_loc, bb, succ[i], func, successors, SuccEdges(succ[i], successors))];
      done' := done' + {(bb, succ[i])};
      assert succ[..i + 1] == succ[..i] + [succ[i]];
    }
    assert succ[..|succ|] == succ;
    ok := true;
  }

  /** The entry block records. */
  method BuildEntries(r: Reader, funcs: seq<string>) returns (locs: seq<nat>, entries: map<string, Entry>)
    requires IsOrder(funcs, r.func_to_entry.Keys)
    ensures locs == EntryLocs(r, funcs)
    ensures entries.Keys == r.func_to_entry.Keys
    ensures forall f :: f in entries ==>
      entries[f] == Entry(f, r.func_to_entry[f], SuccEdges(r.func_to_entry[f], SuccOf(r, r.func_to_entry[f])))
  {
    hide SuccEdges;
    locs, entries := [], map[];
    for i := 0 to |funcs|
      invariant locs == EntryLocs(r, funcs)[..i]
      invariant forall f :: f in entries <==> f in funcs[..i]
      invariant forall f :: f in entries ==> f in r.func_to_entry
      invariant forall f :: f in entries ==>
        entries[f] == Entry(f, r.func_to_entry[f], SuccEdges(r.func_to_entry[f], SuccOf(r, r.func_to_entry[f])))
    {
      var f := funcs[i];
      assert f in funcs;
      var loc := r.func_to_entry[f];
      locs := locs + [loc];
      entries := entries[f := Entry(f, loc, SuccEdges(loc, SuccOf(r, loc)))];
      assert funcs[..i + 1] == funcs[..i] + [f];
    }
    assert funcs[..|funcs|] == funcs;
  }

  /** Each block with successors has a function; for 0 it is that of its first successor. */
  ghost predicate Filed(r: Reader, funcs: seq<string>, bb: nat)
    requires forall f :: f in funcs ==> f in r.func_to_entry
  {
    var w := WithZero(r, funcs);
    bb in w ==> if bb == 0 then w[0] != [] && w[0][0] in r.bb_to_func else bb in r.bb_to_func
  }

  ghost predicate InRange(r: Reader, size: nat) {
    forall t: nat, b: nat :: IsEdge(r, t, b) ==> Hash(t, b) < size
  }

  lemma EdgesOfBlock(r: Reader, funcs: seq<string>, t: nat, b: nat)
    requires IsOrder(funcs, r.func_to_entry.Keys)
    ensures var w := WithZero(r, funcs); IsEdge(r, t, b) <==> t in w && b in w[t]
  {
    if funcs == [] {
      assert r.func_to_entry.Keys == {};
      assert r.func_to_entry == map[];
    } else {
      assert funcs[0] in r.func_to_entry.Keys;
      if t == 0 {
        if b in r.func_to_entry.Values {
          var f :| f in r.func_to_entry && r.func_to_entry[f] == b;
          assert f in funcs;
          var i :| 0 <= i < |funcs| && funcs[i] == f;
          assert EntryLocs(r, funcs)[i] == b;
        }
        if b in EntryLocs(r, funcs) {
          var i :| 0 <= i < |funcs| && EntryLocs(r, funcs)[i] == b;
          assert funcs[i] in r.func_to_entry;
        }
      }
    }
  }

  /** Builds the table for one iteration order of the two maps. It panics exactly when a block
      with successors has no function or an edge falls outside the table. */
  method ToCfg(r: Reader, funcs: seq<string>, blocks: seq<nat>, map_size: nat) returns (res: Result)
    requires IsOrder(funcs, r.func_to_entry.Keys) && IsOrder(blocks, WithZero(r, funcs).Keys)
    ensures res.Built? <==> (forall bb :: Filed(r, funcs, bb)) && InRange(r, map_size)
    ensures res.Built? ==> |res.edges| == map_size && IsTable(r, ZeroFunc(r, funcs), res.edges)
    ensures res.Built? ==> res.entries.Keys == r.func_to_entry.Keys && forall f :: f in res.entries ==>
      res.entries[f] == Entry(f, r.func_to_entry[f], SuccEdges(r.func_to_entry[f], SuccOf(r, r.func_to_entry[f])))
  {
    hide Hash, Partial, SuccEdges, IsEdge;
    var locs, entries := BuildEntries(r, funcs);
    var w := if locs == [] then r.bb_to_succ else r.bb_to_succ[0 := locs];
    assert w == WithZero(r, funcs);
    ghost var zf := ZeroFunc(r, funcs);
    var edges: seq<Slot> := seq(map_size, _ => Empty);
    ghost var done: set<(nat, nat)> := {};
    forall t: nat, b: nat
      ensures IsEdge(r, t, b) <==> t in w && b in w[t]
    {
      EdgesOfBlock(r, funcs, t, b);
    }
    NothingDone(r, zf, map_size);
    for i := 0 to |blocks|
      invariant |edges| == map_size && Partial(r, zf, edges, done)
      invariant forall p :: p in done <==> p.0 in blocks[..i] && p.0 in w && p.1 in w[p.0]
      invariant forall k :: 0 <= k < i ==> Filed(r, funcs, blocks[k])
      invariant forall k, b :: 0 <= k < i && b in w[blocks[k]] ==> Hash(blocks[k], b) < map_size
    {
      var bb := blocks[i];
      assert bb in blocks && bb in w;
      var func;
      if bb == 0 {
        if w[0] == [] || w[0][0] !in r.bb_to_func {
          assert !Filed(r, funcs, 0);
          return Panic;
        }
        func := r.bb_to_func[w[0][0]];
      } else {
        if bb !in r.bb_to_func {
          assert !Filed(r, funcs, bb);
          return Panic;
        }
        func := r.bb_to_func[bb];
      }
      var ok;
      ok, edges, done := InsertEdges(r, zf, bb, func, w[bb], edges, done);
      if !ok {
        ghost var b :| b in w[bb] && Hash(bb, b) >= map_size;
        assert IsEdge(r, bb, b);
        return Panic;
      }
      assert blocks[..i + 1] == blocks[..i] + [bb];
      forall b | b in w[bb]
        ensures Hash(bb, b) < map_size
      {
        assert (bb, b) in done;
        DoneInRange(r, zf, edges, done, bb, b);
      }
    }
    assert blocks[..|blocks|] == blocks;
    AllFiledAndInRange(r, funcs, blocks, map_size);
    PartialIsTable(r, zf, edges, done);
    res := Built(edges, entries);
  }

  lemma NothingDone(r: Reader, zf: string, n: nat)
    ensures Partial(r, zf, seq(n, _ => Empty), {})
  {
  }

  lemma DoneInRange(r: Reader, zf: string, edges: seq<Slot>, done: set<(nat, nat)>, t: nat, b: nat)
    requires Partial(r, zf, edges, done) && (t, b) in done
    ensures Hash(t, b) < |edges|
  {
  }

  lemma AllFiledAndInRange(r: Reader, funcs: seq<string>, blocks: seq<nat>, size: nat)
    requires IsOrder(funcs, r.func_to_entry.Keys) && IsOrder(blocks, WithZero(r, funcs).Keys)
    requires forall k :: 0 <= k < |blocks| ==> Filed(r, funcs, blocks[k])
    requires var w := WithZero(r, funcs);
             forall k, b :: 0 <= k < |blocks| && b in w[blocks[k]] ==> Hash(blocks[k], b) < size
    ensures (forall bb :: Filed(r, funcs, bb)) && InRange(r, size)
  {
    hide Hash;
    var w := WithZero(r, funcs);
    forall bb: nat
      ensures Filed(r, funcs, bb)
    {
      if bb in w {
        assert bb in blocks;
        var k :| 0 <= k < |blocks| && blocks[k] == bb;
      }
    }
    forall t: nat, b: nat | IsEdge(r, t, b)
      ensures Hash(t, b) < size
    {
      EdgesOfBlock(r, funcs, t, b);
      assert t in blocks;
      var k :| 0 <= k < |blocks| && blocks[k] == t;
    }
  }

  // ----- what the table is good for

  /** Every slot's record carries the slot's own index. */
  lemma SlotsKnowTheirIndex(r: Reader, zf: string, edges: seq<Slot>, x: nat)
    requires IsTable(r, zf, edges) && x < |edges| && edges[x].Edge?
    ensures edges[x].xored_loc == x == Hash(edges[x].top, edges[x].bottom) && IsEdge(r, edges[x].top, edges[x].bottom)
  {
    assert IsSlot(r, zf, edges[x], x);
    hide Hash;
  }

  /** Every successor index of the table refers to a present edge. */
  ghost predicate TableClosed(edges: seq<Slot>) {
    forall x, i :: 0 <= x < |edges| && edges[x].Edge? && 0 <= i < |edges[x].succ_edges| ==>
      edges[x].succ_edges[i] < |edges| && edges[edges[x].succ_edges[i]].Edge?
  }

  ghost predicate Occupied(r: Reader, x: nat) {
    exists t: nat, b: nat :: IsEdge(r, t, b) && Hash(t, b) == x
  }

  /** If the graph leads to location 0, what location 0 led to is still found in the table. */
  ghost predicate ZeroHarmless(r: Reader) {
    (exists t: nat :: IsEdge(r, t, 0)) ==> forall s :: s in SuccOf(r, 0) ==> Occupied(r, Hash(0, s))
  }

  ghost predicate NoCollision(r: Reader) {
    forall t: nat, b: nat, t': nat, b': nat ::
      IsEdge(r, t, b) && IsEdge(r, t', b') && Hash(t, b) == Hash(t', b') ==> t == t' && b == b'
  }

  lemma OccupiedSlot(r: Reader, zf: string, edges: seq<Slot>, x: nat)
    requires IsTable(r, zf, edges) && x < |edges|
    ensures edges[x].Edge? <==> Occupied(r, x)
  {
    hide Hash, IsEdge;
    assert IsSlot(r, zf, edges[x], x);
  }

  /** Under the condition on location 0 the table is closed, collisions or not. */
  lemma HarmlessIsClosed(r: Reader, zf: string, edges: seq<Slot>)
    requires IsTable(r, zf, edges) && InRange(r, |edges|) && ZeroHarmless(r)
    ensures TableClosed(edges)
  {
    forall x, i | 0 <= x < |edges| && edges[x].Edge? && 0 <= i < |edges[x].succ_edges|
      ensures edges[x].succ_edges[i] < |edges| && edges[edges[x].succ_edges[i]].Edge?
    {
      assert IsSlot(r, zf, edges[x], x);
      var t: nat, b: nat :| IsEdge(r, t, b) && Hash(t, b) == x && edges[x] == Record(r, zf, t, b);
      var s := SuccOf(r, b)[i];
      assert s in SuccOf(r, b);
      hide Hash;
      assert Occupied(r, Hash(b, s)) by {
        if b != 0 {
          assert IsEdge(r, b, s);
        }
      }
      var t': nat, b': nat :| IsEdge(r, t', b') && Hash(t', b') == Hash(b, s);
      OccupiedSlot(r, zf, edges, Hash(b, s));
    }
  }

  /** Without collisions the condition is exact. */
  lemma ClosedIffHarmless(r: Reader, zf: string, edges: seq<Slot>)
    requires IsTable(r, zf, edges) && InRange(r, |edges|) && NoCollision(r)
    ensures TableClosed(edges) <==> ZeroHarmless(r)
  {
    if ZeroHarmless(r) {
      HarmlessIsClosed(r, zf, edges);
    } else {
      var t: nat :| IsEdge(r, t, 0);
      var s :| s in SuccOf(r, 0) && !Occupied(r, Hash(0, s));
      var i :| 0 <= i < |SuccOf(r, 0)| && SuccOf(r, 0)[i] == s;
      var x := Hash(t, 0);
      assert IsSlot(r, zf, edges[x], x);
      assert edges[x] == Record(r, zf, t, 0);
      assert edges[x].succ_edges[i] == Hash(0, s);
      hide Hash;
      if Hash(0, s) < |edges| {
        OccupiedSlot(r, zf, edges, Hash(0, s));
      }
    }
  }

  /** A dump that records nothing for location 0 gives a closed table. */
  lemma NoZeroBlockIsClosed(r: Reader, zf: string, edges: seq<Slot>)
    requires IsTable(r, zf, edges) && InRange(r, |edges|) && 0 !in r.bb_to_succ
    ensures TableClosed(edges)
  {
    HarmlessIsClosed(r, zf, edges);
  }

  /** The table as the distance search sees it, with a weight for each slot. */
  function AsGraph(edges: seq<Slot>, weights: seq<nat>): (g: CfgDistance.Graph)
    requires |weights| == |edges|
    ensures |g| == |edges|
  {
    seq(|edges|, x requires 0 <= x < |edges| =>
      if edges[x].Edge? then CfgDistance.Edge(edges[x].succ_edges, weights[x]) else CfgDistance.Empty)
  }

  lemma ClosedForSearch(edges: seq<Slot>, weights: seq<nat>)
    requires |weights| == |edges| && TableClosed(edges)
    ensures CfgDistance.Closed(AsGraph(edges, weights))
  {
    var g := AsGraph(edges, weights);
    forall e: nat, i: nat | CfgDistance.Present(g, e) && i < |g[e].succ|
      ensures CfgDistance.Present(g, g[e].succ[i])
    {
      assert edges[e].Edge? && g[e].succ == edges[e].succ_edges;
    }
  }

  /** Locations inside a map whose size is a power of two have their edges inside it. */
  lemma LocationsInRange(r: Reader, size: nat)
    requires CoverageMap.IsPow2(size)
    requires forall t: nat, b: nat :: IsEdge(r, t, b) ==> t < size && b < size
    ensures InRange(r, size)
  {
    CoverageMap.IndexSafeIffPow2(size);
  }

  // ----- iteration order

  lemma SameTable(r: Reader, zf: string, e1: seq<Slot>, e2: seq<Slot>)
    requires |e1| == |e2| && IsTable(r, zf, e1) && IsTable(r, zf, e2) && NoCollision(r)
    ensures e1 == e2
  {
    forall x | 0 <= x < |e1|
      ensures e1[x] == e2[x]
    {
      hide Hash, IsEdge, Record;
      assert IsSlot(r, zf, e1[x], x) && IsSlot(r, zf, e2[x], x);
    }
  }

  lemma BothEmpty(r: Reader, funcs1: seq<string>, funcs2: seq<string>)
    requires IsOrder(funcs1, r.func_to_entry.Keys) && IsOrder(funcs2, r.func_to_entry.Keys)
    ensures funcs1 == [] <==> funcs2 == []
  {
    if funcs1 != [] {
      assert funcs1[0] in funcs1;
    }
    if funcs2 != [] {
      assert funcs2[0] in funcs2;
    }
  }

  /** Without collisions, two iteration orders of the function map give the same table exactly
      when their first entry blocks belong to the same function: that one function's name goes
      on the edges from 0 to all entry blocks. */
  lemma OrderMattersForZeroEdges(r: Reader, funcs1: seq<string>, funcs2: seq<string>, e1: seq<Slot>, e2: seq<Slot>)
    requires IsOrder(funcs1, r.func_to_entry.Keys) && IsOrder(funcs2, r.func_to_entry.Keys)
    requires |e1| == |e2| && InRange(r, |e1|) && NoCollision(r)
    requires IsTable(r, ZeroFunc(r, funcs1), e1) && IsTable(r, ZeroFunc(r, funcs2), e2)
    ensures e1 == e2 <==> ZeroFunc(r, funcs1) == ZeroFunc(r, funcs2)
  {
    var z1, z2 := ZeroFunc(r, funcs1), ZeroFunc(r, funcs2);
    if z1 == z2 {
      SameTable(r, z1, e1, e2);
    } else {
      BothEmpty(r, funcs1, funcs2);
      assert funcs1[0] in r.func_to_entry.Keys;
      var b := r.func_to_entry[funcs1[0]];
      assert IsEdge(r, 0, b);
      var x := Hash(0, b);
      assert IsSlot(r, z1, e1[x], x) && IsSlot(r, z2, e2[x], x);
      assert e1[x] == Record(r, z1, 0, b) && e2[x] == Record(r, z2, 0, b);
    }
  }
}
