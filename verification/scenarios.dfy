/** Worked inputs: what the program does with small edge files, stated
    for any two node names `a < b` and any costs, and the inputs that
    separate the reconciler as written from the corrected one. Costs are
    already-derived integers. */
module Scenarios {
  import opened Outcomes
  import opened Names
  import opened OrderedDict
  import opened NodeRegistry
  import opened EdgeReconciler
  import opened FlowGraph
  import opened FlowOutput
  import opened Pipeline
  import opened IntendedReconciler

  /** Two ordinary node names in string order. */
  predicate Ordinary(a: Name, b: Name) {
    Less(a, b) && !IsReserved(a) && !IsReserved(b)
  }

  lemma OrderedPair(a: Name, b: Name)
    requires Less(a, b)
    ensures a != b && SortPair((a, b)) == (a, b) && SortPair((b, a)) == (a, b)
  {
    LessIrreflexive(a);
    LessAsymmetric(a, b);
  }

  // ---- One undirected edge, a unit of flow from a to b ----

  lemma EndpointsOne(rec: Record)
    ensures Endpoints([rec]) == [rec.node1, rec.node2]
  {
    assert [rec][..0] == [];
  }

  lemma RegisterTwo(a: Name, b: Name)
    requires a != b
    ensures Register([a, b]) == Registry(Dict([a, b], map[a := 0, b := 1]), 2)
  {
    var names := [a, b];
    assert names[..1] == [a] && names[..1][..0] == [];
    assert Register(names[..1]) == Registry(Dict([a], map[a := 0]), 1);
  }

  lemma ReconcileOneUndirected(a: Name, b: Name, w: int)
    requires Less(a, b)
    ensures ReconcileTables([Record(a, b, w, "U")])
            == Ok(Tables(Dict([], map[]), Dict([(a, b)], map[(a, b) := w])))
  {
    OrderedPair(a, b);
    var rec := Record(a, b, w, "U");
    assert [rec][..0] == [];
    assert ReconcileTables([rec]) == StepTables(EmptyTables(), rec);
    var t := StepTables(EmptyTables(), rec).value;
    assert t.directed == Dict([], map[]);
    assert t.undirected.keys == [] + [(a, b)] == [(a, b)];
    assert t.undirected.vals == map[(a, b) := w];
  }

  /** The ids `construct_digraph` gives the two names of a one-record file. */
  lemma IdsOneRecord(rec: Record)
    requires rec.node1 != rec.node2 && rec.node1 != MaxIdKey && rec.node2 != MaxIdKey
    ensures Register(Endpoints([rec])) == Registry(Dict([rec.node1, rec.node2], map[rec.node1 := 0, rec.node2 := 1]), 2)
    ensures Set(Dict([rec.node1, rec.node2], map[rec.node1 := 0, rec.node2 := 1]), MaxIdKey, 2)
            == Dict([rec.node1, rec.node2, MaxIdKey], map[rec.node1 := 0, rec.node2 := 1, MaxIdKey := 2])
  {
    EndpointsOne(rec);
    RegisterTwo(rec.node1, rec.node2);
    SetThird(rec.node1, rec.node2);
  }

  /** Storing `maxID` after two other names appends it as the third key. */
  lemma SetThird(a: Name, b: Name)
    requires a != b && a != MaxIdKey && b != MaxIdKey
    ensures Set(Dict([a, b], map[a := 0, b := 1]), MaxIdKey, 2)
            == Dict([a, b, MaxIdKey], map[a := 0, b := 1, MaxIdKey := 2])
  {
    assert Valid(Dict([a, b], map[a := 0, b := 1]));
  }

  /** The digraph of a one-record file, given its tables and table arcs. */
  lemma DigraphOneRecord(rec: Record, cap: int, t: Tables, arcs: seq<Arc>)
    requires rec.node1 != rec.node2 && rec.node1 != MaxIdKey && rec.node2 != MaxIdKey
    requires ReconcileTables([rec]) == Ok(t)
    requires Registered(t, map[rec.node1 := 0, rec.node2 := 1])
    requires Consistent(t) && TableArcs(t, map[rec.node1 := 0, rec.node2 := 1], cap) == arcs
    ensures ConstructDigraph([rec], cap)
            == Ok(Digraph(arcs, Dict([rec.node1, rec.node2, MaxIdKey], map[rec.node1 := 0, rec.node2 := 1, MaxIdKey := 2]), t))
  {
    IdsOneRecord(rec);
  }

  lemma DigraphOneUndirected(a: Name, b: Name, w: int)
    requires Ordinary(a, b)
    ensures ConstructDigraph([Record(a, b, w, "U")], 1)
            == Ok(Digraph([Arc(0, 1, 1, w), Arc(1, 0, 1, w)],
                          Dict([a, b, MaxIdKey], map[a := 0, b := 1, MaxIdKey := 2]),
                          Tables(Dict([], map[]), Dict([(a, b)], map[(a, b) := w]))))
  {
    OrderedPair(a, b);
    ReconcileOneUndirected(a, b, w);
    var t := Tables(Dict([], map[]), Dict([(a, b)], map[(a, b) := w]));
    var ids := map[a := 0, b := 1];
    var arcs := TableArcs(t, ids, 1);
    UndirectedLayout(t, ids, 1, 0);
    assert arcs == [Arc(0, 1, 1, w), Arc(1, 0, 1, w)];
    DigraphOneRecord(Record(a, b, w, "U"), 1, t, arcs);
  }

  lemma TerminalArcsOneEach(a: Name, b: Name, ids: map<Name, int>)
    requires a in ids && b in ids
    ensures TerminalArcs([a], [b], ids, 2, 10) == [Arc(2, ids[a], 10, 0), Arc(ids[b], 3, 10, 0)]
  {
    assert [a][1..] == [] && [b][1..] == [];
  }

  /** Terminals `[a]` and `[b]` added to a graph where `a`, `b` and `maxID`
      have ids 0, 1 and 2. */
  lemma AddOneEach(g: Digraph, a: Name, b: Name)
    requires Valid(g.ids) && MaxIdKey in g.ids.vals
    requires !IsReserved(a) && !IsReserved(b)
    requires a in g.ids.vals && b in g.ids.vals
    requires g.ids.vals[a] == 0 && g.ids.vals[b] == 1 && g.ids.vals[MaxIdKey] == 2
    ensures AddSourcesTargets(g, [a], [b], 1).arcs == g.arcs + [Arc(2, 0, 10, 0), Arc(1, 3, 10, 0)]
  {
    var ids := WithTerminals(g.ids);
    assert ids.vals[a] == 0 && ids.vals[b] == 1;
    TerminalArcsOneEach(a, b, ids.vals);
  }

  lemma NetworkOneUndirected(a: Name, b: Name, w: int)
    requires Ordinary(a, b)
    ensures BuiltNetwork([Record(a, b, w, "U")], 1, [a], [b], 1).arcs
            == [Arc(0, 1, 1, w), Arc(1, 0, 1, w), Arc(2, 0, 10, 0), Arc(1, 3, 10, 0)]
  {
    DigraphOneUndirectedIds(a, b, w);
    BuiltOneEach([Record(a, b, w, "U")], ConstructDigraph([Record(a, b, w, "U")], 1).value, a, b, w);
  }

  /** The network of any file whose digraph has the two arcs of a-b. */
  lemma BuiltOneEach(records: seq<Record>, g: Digraph, a: Name, b: Name, w: int)
    requires !IsReserved(a) && !IsReserved(b)
    requires ConstructDigraph(records, 1) == Ok(g)
    requires && Valid(g.ids) && MaxIdKey in g.ids.vals && a in g.ids.vals && b in g.ids.vals
             && g.ids.vals[a] == 0 && g.ids.vals[b] == 1 && g.ids.vals[MaxIdKey] == 2
             && g.arcs == [Arc(0, 1, 1, w), Arc(1, 0, 1, w)]
    ensures forall i :: 0 <= i < |records| ==> KnownTag(records[i].tag)
    ensures BuiltNetwork(records, 1, [a], [b], 1).arcs
            == [Arc(0, 1, 1, w), Arc(1, 0, 1, w), Arc(2, 0, 10, 0), Arc(1, 3, 10, 0)]
  {
    BuiltIsAdded(records, g, 1, [a], [b], 1);
    AddOneEach(g, a, b);
  }

  /** The network of a file is its digraph with the terminals added. */
  lemma BuiltIsAdded(records: seq<Record>, g: Digraph, cap: int, sources: seq<Name>, targets: seq<Name>, flow: int)
    requires ConstructDigraph(records, cap) == Ok(g)
    ensures forall i :: 0 <= i < |records| ==> KnownTag(records[i].tag)
    ensures Valid(g.ids) && MaxIdKey in g.ids.vals
    ensures BuiltNetwork(records, cap, sources, targets, flow) == AddSourcesTargets(g, sources, targets, flow)
  {
  }

  /** `DigraphOneUndirected`, as the facts `add_sources_targets` needs. */
  lemma DigraphOneUndirectedIds(a: Name, b: Name, w: int)
    requires Ordinary(a, b)
    ensures ConstructDigraph([Record(a, b, w, "U")], 1).Ok?
    ensures var g := ConstructDigraph([Record(a, b, w, "U")], 1).value;
            && Valid(g.ids) && MaxIdKey in g.ids.vals && a in g.ids.vals && b in g.ids.vals
            && g.ids.vals[a] == 0 && g.ids.vals[b] == 1 && g.ids.vals[MaxIdKey] == 2
            && g.arcs == [Arc(0, 1, 1, w), Arc(1, 0, 1, w)]
  {
    DigraphOneUndirected(a, b, w);
  }

  lemma ExpectedOneUndirected(a: Name, b: Name, w: int, f: nat -> int)
    requires Less(a, b)
    requires f(0) > 0 && f(1) <= 0
    ensures var t := Tables(Dict([], map[]), Dict([(a, b)], map[(a, b) := w]));
            Expected(ArcPairs(t), t, f, |ArcPairs(t)|) == [OutEdge(a, b, Undirected)]
  {
    var t := Tables(Dict([], map[]), Dict([(a, b)], map[(a, b) := w]));
    var ps := ArcPairs(t);
    assert ps == [(a, b), (b, a)];
    assert Expected(ps, t, f, 1) == [] + [Tagged((a, b), t)];
  }

  /** One undirected edge a-b, source a, target b, flow 1, capacity 1:
      the network carries both orientations of a-b and one arc per
      terminal, and a solve that routes the unit over a->b writes exactly
      the line `a b U`. */
  lemma OneUndirectedEdgeWritten(a: Name, b: Name, w: int, solve: Problem -> Solution)
    requires Ordinary(a, b)
    ensures BuiltNetwork([Record(a, b, w, "U")], 1, [a], [b], 1).arcs
            == [Arc(0, 1, 1, w), Arc(1, 0, 1, w), Arc(2, 0, 10, 0), Arc(1, 3, 10, 0)]
    ensures var solution := solve(Supplied(BuiltNetwork([Record(a, b, w, "U")], 1, [a], [b], 1), 1));
            solution.status == Optimal && solution.flow(0) > 0 && solution.flow(1) <= 0 ==>
              Run([Record(a, b, w, "U")], 1, [a], [b], 1, solve) == Ok(Written([OutEdge(a, b, Undirected)]))
  {
    var records := [Record(a, b, w, "U")];
    assert NoReservedNames(records);
    RunWritesTableArcs(records, 1, [a], [b], 1, solve);
    ReconcileOneUndirected(a, b, w);
    var solution := solve(Supplied(BuiltNetwork(records, 1, [a], [b], 1), 1));
    if solution.flow(0) > 0 && solution.flow(1) <= 0 {
      ExpectedOneUndirected(a, b, w, solution.flow);
    }
    NetworkOneUndirected(a, b, w);
  }

  // ---- A directed and an undirected record on one pair ----

  /** The directed declaration of a->b wins over an undirected a-b
      arriving after it, and an arc a->b is written tagged D. */
  lemma DirectedBeatsLaterUndirected(a: Name, b: Name, wd: int, wu: int)
    ensures var t := ReconcileTables([Record(a, b, wd, "D"), Record(a, b, wu, "U")]);
            && t == Ok(Tables(Dict([(a, b)], map[(a, b) := wd]), Dict([], map[])))
            && Tagged((a, b), t.value).tag == Directed
  {
    var records := [Record(a, b, wd, "D"), Record(a, b, wu, "U")];
    assert records[..1][..0] == [] && records[..1] == [records[0]];
    var t0 := EmptyTables();
    var t1 := StepTables(t0, records[0]).value;
    assert ReconcileTables(records[..1]) == Ok(t1);
    assert t1.directed.keys == [] + [(a, b)] == [(a, b)];
    assert t1 == Tables(Dict([(a, b)], map[(a, b) := wd]), Dict([], map[]));
    assert ReconcileTables(records) == StepTables(t1, records[1]);
  }

  // ---- Two undirected records on one pair ----

  /** Two undirected declarations of a pair, in either orientation, leave
      one undirected entry with the smaller cost. */
  lemma TwoUndirectedKeepLower(a: Name, b: Name, w1: int, w2: int)
    ensures ReconcileTables([Record(a, b, w1, "U"), Record(b, a, w2, "U")])
            == Ok(Tables(Dict([], map[]), Dict([SortPair((a, b))], map[SortPair((a, b)) := Min(w1, w2)])))
  {
    var records := [Record(a, b, w1, "U"), Record(b, a, w2, "U")];
    var s := SortPair((a, b));
    SortPairSymmetric((a, b));
    assert records[..1][..0] == [] && records[..1] == [records[0]];
    var t0 := EmptyTables();
    var t1 := StepTables(t0, records[0]).value;
    assert ReconcileTables(records[..1]) == Ok(t1);
    assert t1.undirected.keys == [] + [s] == [s];
    assert t1 == Tables(Dict([], map[]), Dict([s], map[s := w1]));
    assert ReconcileTables(records) == StepTables(t1, records[1]);
    assert SortPair(Edge(records[1])) == s;
    var t2 := StepTables(t1, records[1]).value;
    assert t2.directed == t1.directed && t2.undirected.keys == [s];
    assert t2.undirected.vals == map[s := Min(w1, w2)];
  }

  // ---- The guard at minCostFlow.py:65 ----

  /** As written: with a < b, a directed b->a followed by an undirected
      a-b keeps both entries, so the pair is directed and undirected at
      once and the network carries b->a twice. */
  lemma ReversedDirectedKeptAsWritten(a: Name, b: Name, wd: int, wu: int)
    requires Less(a, b)
    ensures var t := ReconcileTables([Record(b, a, wd, "D"), Record(a, b, wu, "U")]);
            && t == Ok(Tables(Dict([(b, a)], map[(b, a) := wd]), Dict([(a, b)], map[(a, b) := wu])))
            && ArcPairs(t.value) == [(b, a), (a, b), (b, a)]
            && Tagged(ArcPairs(t.value)[2], t.value).tag == Directed
            && |t.value.directed.keys| == 1
  {
    OrderedPair(a, b);
    var records := [Record(b, a, wd, "D"), Record(a, b, wu, "U")];
    assert records[..1][..0] == [] && records[..1] == [records[0]];
    var t0 := EmptyTables();
    var t1 := StepTables(t0, records[0]).value;
    assert ReconcileTables(records[..1]) == Ok(t1);
    assert t1.directed.keys == [] + [(b, a)] == [(b, a)];
    assert t1 == Tables(Dict([(b, a)], map[(b, a) := wd]), Dict([], map[]));
    assert ReconcileTables(records) == StepTables(t1, records[1]);
    var t2 := StepTables(t1, records[1]).value;
    assert t2.undirected.keys == [] + [(a, b)] == [(a, b)];
    assert t2 == Tables(Dict([(b, a)], map[(b, a) := wd]), Dict([(a, b)], map[(a, b) := wu]));
    ArcPairsOneEach(t2);
  }

  lemma ArcPairsOneEach(t: Tables)
    requires |t.directed.keys| == 1 && |t.undirected.keys| == 1
    ensures ArcPairs(t) == [t.directed.keys[0], t.undirected.keys[0], Reverse(t.undirected.keys[0])]
  {
    var ps := ArcPairs(t);
    assert ps[0] == t.directed.keys[0];
    assert ps[1] == t.undirected.keys[0] && ps[2] == Reverse(t.undirected.keys[0]);
  }

  /** Corrected: the same records leave the directed entry only. */
  lemma ReversedDirectedDroppedIntended(a: Name, b: Name, wd: int, wu: int)
    requires Less(a, b)
    ensures ReconcileIntended([Record(b, a, wd, "D"), Record(a, b, wu, "U")])
            == Ok(Tables(Dict([(b, a)], map[(b, a) := wd]), Dict([], map[])))
  {
    OrderedPair(a, b);
    var records := [Record(b, a, wd, "D"), Record(a, b, wu, "U")];
    assert records[..1][..0] == [] && records[..1] == [records[0]];
    var t0 := EmptyTables();
    var t1 := StepIntended(t0, records[0]).value;
    assert ReconcileIntended(records[..1]) == Ok(t1);
    assert t1.directed.keys == [] + [(b, a)] == [(b, a)];
    assert t1 == Tables(Dict([(b, a)], map[(b, a) := wd]), Dict([], map[]));
    assert ReconcileIntended(records) == StepIntended(t1, records[1]);
  }

  /** As written: with a < b, an undirected a-b, then a directed b->a, then
      another undirected a-b. The directed record evicts the first weight,
      and the guard lets the second back in, so the pair ends up with the
      later weight even when the earlier one was lower. */
  lemma EarlierUndirectedLostAsWritten(a: Name, b: Name, w1: int, wd: int, w2: int)
    requires Less(a, b)
    ensures ReconcileTables([Record(a, b, w1, "U"), Record(b, a, wd, "D"), Record(a, b, w2, "U")])
            == Ok(Tables(Dict([(b, a)], map[(b, a) := wd]), Dict([(a, b)], map[(a, b) := w2])))
  {
    OrderedPair(a, b);
    var records := [Record(a, b, w1, "U"), Record(b, a, wd, "D"), Record(a, b, w2, "U")];
    var t1 := StepTables(EmptyTables(), records[0]).value;
    assert records[..2][..1] == records[..1] && records[..1][..0] == [] && records[..1] == [records[0]];
    assert ReconcileTables(records[..1]) == Ok(t1);
    assert t1.undirected.keys == [] + [(a, b)] == [(a, b)];
    assert t1 == Tables(Dict([], map[]), Dict([(a, b)], map[(a, b) := w1]));
    var t2 := StepTables(t1, records[1]).value;
    assert ReconcileTables(records[..2]) == Ok(t2);
    assert t2.directed.keys == [] + [(b, a)] == [(b, a)];
    assert t2.undirected.keys == Without([(a, b)], (a, b)) == [];
    assert t2 == Tables(Dict([(b, a)], map[(b, a) := wd]), Dict([], map[]));
    assert ReconcileTables(records) == StepTables(t2, records[2]);
    assert StepTables(t2, records[2]).value.undirected.keys == [] + [(a, b)];
  }

  /** Corrected: the second undirected record is dropped as well, so only
      the directed entry remains. */
  lemma EarlierUndirectedDroppedIntended(a: Name, b: Name, w1: int, wd: int, w2: int)
    requires Less(a, b)
    ensures ReconcileIntended([Record(a, b, w1, "U"), Record(b, a, wd, "D"), Record(a, b, w2, "U")])
            == Ok(Tables(Dict([(b, a)], map[(b, a) := wd]), Dict([], map[])))
  {
    OrderedPair(a, b);
    var records := [Record(a, b, w1, "U"), Record(b, a, wd, "D"), Record(a, b, w2, "U")];
    var t1 := StepIntended(EmptyTables(), records[0]).value;
    assert records[..2][..1] == records[..1] && records[..1][..0] == [] && records[..1] == [records[0]];
    assert ReconcileIntended(records[..1]) == Ok(t1);
    assert t1.undirected.keys == [] + [(a, b)] == [(a, b)];
    assert t1 == Tables(Dict([], map[]), Dict([(a, b)], map[(a, b) := w1]));
    var t2 := StepIntended(t1, records[1]).value;
    assert ReconcileIntended(records[..2]) == Ok(t2);
    assert t2.directed.keys == [] + [(b, a)] == [(b, a)];
    assert t2.undirected.keys == Without([(a, b)], (a, b)) == [];
    assert t2 == Tables(Dict([(b, a)], map[(b, a) := wd]), Dict([], map[]));
    assert ReconcileIntended(records) == StepIntended(t2, records[2]);
  }

  // ---- A node that is itself called `source` ----

  lemma ReconcileOneDirected(a: Name, b: Name, w: int)
    ensures ReconcileTables([Record(a, b, w, "D")])
            == Ok(Tables(Dict([(a, b)], map[(a, b) := w]), Dict([], map[])))
  {
    var rec := Record(a, b, w, "D");
    assert [rec][..0] == [];
    assert ReconcileTables([rec]) == StepTables(EmptyTables(), rec);
    var t := StepTables(EmptyTables(), rec).value;
    assert t.directed.keys == [] + [(a, b)] == [(a, b)];
    assert t.undirected == Dict([], map[]);
  }

  lemma DigraphSourceNamed(b: Name, w: int, cap: int)
    requires !IsReserved(b)
    ensures ConstructDigraph([Record(SourceName, b, w, "D")], cap)
            == Ok(Digraph([Arc(0, 1, cap, w)],
                          Dict([SourceName, b, MaxIdKey], map[SourceName := 0, b := 1, MaxIdKey := 2]),
                          Tables(Dict([(SourceName, b)], map[(SourceName, b) := w]), Dict([], map[]))))
  {
    ReconcileOneDirected(SourceName, b, w);
    var t := Tables(Dict([(SourceName, b)], map[(SourceName, b) := w]), Dict([], map[]));
    var ids := map[SourceName := 0, b := 1];
    var arcs := TableArcs(t, ids, cap);
    DirectedLayout(t, ids, cap, 0);
    assert arcs == [Arc(0, 1, cap, w)];
    DigraphOneRecord(Record(SourceName, b, w, "D"), cap, t, arcs);
  }

  /** Once the first arc has a tail with no name, classifying any prefix
      that holds it raises on that id. */
  lemma {:induction false} ClassifyFirstUnknown(arcs: seq<Arc>, n: nat, flow: nat -> int, names: map<int, Name>, t: Tables)
    requires 1 <= n <= |arcs|
    requires arcs[0].tail !in names
    ensures ClassifyFlow(arcs, n, flow, names, t) == Err(UnknownNodeId(arcs[0].tail))
  {
    if n > 1 {
      ClassifyFirstUnknown(arcs, n - 1, flow, names, t);
    }
  }

  /** `source` keeps its place in the id order but takes `maxID`'s id. */
  lemma TerminalsOverwriteSource(b: Name)
    requires !IsReserved(b)
    ensures var ids := WithTerminals(Dict([SourceName, b, MaxIdKey], map[SourceName := 0, b := 1, MaxIdKey := 2]));
            && ids.keys == [SourceName, b, MaxIdKey, TargetName]
            && ids.vals == map[SourceName := 2, b := 1, MaxIdKey := 2, TargetName := 3]
  {
    var d := Dict([SourceName, b, MaxIdKey], map[SourceName := 0, b := 1, MaxIdKey := 2]);
    assert Valid(d);
    var ids := WithTerminals(d);
    assert ids.keys == [SourceName, b, MaxIdKey] + [TargetName];
  }

  /** After the overwrite no name maps back to id 0. */
  lemma NoNameForZero(b: Name)
    requires !IsReserved(b)
    ensures 0 !in ReverseNames([SourceName, b, MaxIdKey, TargetName],
                               map[SourceName := 2, b := 1, MaxIdKey := 2, TargetName := 3])
  {
    var keys := [SourceName, b, MaxIdKey, TargetName];
    var vals := map[SourceName := 2, b := 1, MaxIdKey := 2, TargetName := 3];
    assert vals[SourceName] == 2 && vals[b] == 1 && vals[MaxIdKey] == 2 && vals[TargetName] == 3;
    forall k | k in keys ensures vals[k] != 0 {
      assert k == SourceName || k == b || k == MaxIdKey || k == TargetName;
    }
  }

  /** The network built from one directed edge leaving a node called
      `source`. */
  lemma NetworkSourceNamed(b: Name, w: int, cap: int, sources: seq<Name>, targets: seq<Name>, flow: int)
    requires !IsReserved(b)
    ensures var net := BuiltNetwork([Record(SourceName, b, w, "D")], cap, sources, targets, flow);
            && |net.arcs| >= 1 && net.arcs[0] == Arc(0, 1, cap, w)
            && 0 !in ReverseNames(net.ids.keys, net.ids.vals)
  {
    var net := BuiltNetwork([Record(SourceName, b, w, "D")], cap, sources, targets, flow);
    BuiltSourceNamed(b, w, cap, sources, targets, flow);
    NoNameForZero(b);
  }

  lemma BuiltSourceNamed(b: Name, w: int, cap: int, sources: seq<Name>, targets: seq<Name>, flow: int)
    requires !IsReserved(b)
    ensures var net := BuiltNetwork([Record(SourceName, b, w, "D")], cap, sources, targets, flow);
            && |net.arcs| >= 1 && net.arcs[0] == Arc(0, 1, cap, w)
            && net.ids.keys == [SourceName, b, MaxIdKey, TargetName]
            && net.ids.vals == map[SourceName := 2, b := 1, MaxIdKey := 2, TargetName := 3]
  {
    var records := [Record(SourceName, b, w, "D")];
    assert KnownTag(records[0].tag);
    DigraphSourceNamed(b, w, cap);
    var g := ConstructDigraph(records, cap).value;
    var net := AddSourcesTargets(g, sources, targets, flow);
    assert net.arcs[..1] == [Arc(0, 1, cap, w)];
    TerminalsOverwriteSource(b);
  }

  /** A node named `source` in the edge file: its id is overwritten by the
      synthetic source's, so an optimal solve raises on the first arc
      instead of writing anything. */
  lemma SourceNamedNodeLost(b: Name, w: int, cap: int, sources: seq<Name>, targets: seq<Name>, flow: int,
                            solve: Problem -> Solution)
    requires !IsReserved(b)
    ensures var net := BuiltNetwork([Record(SourceName, b, w, "D")], cap, sources, targets, flow);
            solve(Supplied(net, flow)).status == Optimal ==>
              Run([Record(SourceName, b, w, "D")], cap, sources, targets, flow, solve) == Err(UnknownNodeId(0))
  {
    var records := [Record(SourceName, b, w, "D")];
    assert KnownTag(records[0].tag);
    NetworkSourceNamed(b, w, cap, sources, targets, flow);
    var g := ConstructDigraph(records, cap).value;
    var net := BuiltNetwork(records, cap, sources, targets, flow);
    var solution := solve(Supplied(net, flow));
    if solution.status == Optimal {
      ClassifyFirstUnknown(net.arcs, |net.arcs|, solution.flow, ReverseNames(net.ids.keys, net.ids.vals), g.tables);
    }
  }
}
