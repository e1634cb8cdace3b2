/** The whole min-cost-flow path of `main`, with the file handling taken
    out: reconcile the edge records, build the arcs, add the terminals,
    solve, and write the flow-carrying edges. */
module Pipeline {
  import opened Outcomes
  import opened Names
  import opened OrderedDict
  import opened NodeRegistry
  import opened EdgeReconciler
  import opened FlowGraph
  import opened FlowOutput
  import opened IntendedReconciler

  /** `construct_digraph`, `add_sources_targets` and `min_cost_flow` in
      turn; `sources` and `targets` are the two name sets in iteration
      order. */
  function Run(records: seq<Record>, cap: int, sources: seq<Name>, targets: seq<Name>, flow: int,
               solve: Problem -> Solution): (r: Result<RunEnd>)
    ensures (exists i :: 0 <= i < |records| && !KnownTag(records[i].tag)) ==> r.Err? && r.error.BadTag?
    ensures r.Ok? && r.value.Written? ==>
              forall e :: e in r.value.edges ==> !IsTerminal(e.node1) && !IsTerminal(e.node2)
  {
    var g :- ConstructDigraph(records, cap);
    var net := AddSourcesTargets(g, sources, targets, flow);
    MinCostFlow(net, g.tables, flow, solve)
  }

  /** The network `Run` hands to the solver. */
  function BuiltNetwork(records: seq<Record>, cap: int, sources: seq<Name>, targets: seq<Name>, flow: int): (net: FlowGraph.Network)
    requires forall i :: 0 <= i < |records| ==> KnownTag(records[i].tag)
    ensures SourceName in net.ids.vals && TargetName in net.ids.vals
  {
    AddSourcesTargets(ConstructDigraph(records, cap).value, sources, targets, flow)
  }

  /** No name in the edge file collides with a key the program writes itself. */
  predicate NoReservedNames(records: seq<Record>) {
    forall i :: 0 <= i < |records| ==> !IsReserved(records[i].node1) && !IsReserved(records[i].node2)
  }

  /** The name pairs of the table arcs, in arc order: the directed keys,
      then each undirected key followed by its reverse. */
  function ArcPairs(t: Tables): (ps: seq<Pair>)
    ensures |ps| == |t.directed.keys| + 2 * |t.undirected.keys|
    ensures forall i :: 0 <= i < |t.directed.keys| ==> ps[i] == t.directed.keys[i]
    ensures forall j :: 0 <= j < |t.undirected.keys| ==>
              && ps[|t.directed.keys| + 2 * j] == t.undirected.keys[j]
              && ps[|t.directed.keys| + 2 * j + 1] == Reverse(t.undirected.keys[j])
  {
    var m := Mirrored(t.undirected.keys);
    assert forall i :: 0 <= i < |m| ==> (t.directed.keys + m)[|t.directed.keys| + i] == m[i];
    t.directed.keys + m
  }

  function Mirrored(keys: seq<Pair>): (ps: seq<Pair>)
    ensures |ps| == 2 * |keys|
    ensures forall j :: 0 <= j < |keys| ==> ps[2 * j] == keys[j] && ps[2 * j + 1] == Reverse(keys[j])
  {
    if |keys| == 0 then []
    else
      assert forall j :: 1 <= j < |keys| ==> keys[j] == keys[1..][j - 1];
      [keys[0], Reverse(keys[0])] + Mirrored(keys[1..])
  }

  /** The output line for a table arc: tagged D exactly when its ordered
      pair is a directed key. */
  function Tagged(p: Pair, t: Tables): OutEdge {
    OutEdge(p.0, p.1, if p in t.directed.vals then Directed else Undirected)
  }

  /** The output the tables call for: the table arcs among the first `n`
      that carry positive flow, tagged, in arc order. */
  function Expected(ps: seq<Pair>, t: Tables, flow: nat -> int, n: nat): seq<OutEdge>
    requires n <= |ps|
  {
    if n == 0 then []
    else Expected(ps, t, flow, n - 1) + (if flow(n - 1) > 0 then [Tagged(ps[n - 1], t)] else [])
  }

  /** With the corrected reconciler's tables every table arc is tagged by
      the block it was laid out from: D exactly for the directed block,
      U for both arcs of an undirected entry. */
  lemma IntendedTagsFollowBlocks(t: Tables, i: int)
    requires StronglyConsistent(t)
    requires 0 <= i < |ArcPairs(t)|
    ensures Tagged(ArcPairs(t)[i], t).tag == Directed <==> i < |t.directed.keys|
  {
    var d := |t.directed.keys|;
    if i >= d {
      var j, odd := Halve(i - d);
      var k := t.undirected.keys[j];
      assert k in t.undirected.vals;
      if odd {
        assert ArcPairs(t)[i] == Reverse(k);
      } else {
        assert ArcPairs(t)[i] == k;
      }
    } else {
      assert t.directed.keys[i] in t.directed.vals;
    }
  }

  /** Each table arc matches one of the tables, so classifying it never
      raises. */
  lemma TableArcMatches(t: Tables, i: int)
    requires Consistent(t)
    requires 0 <= i < |ArcPairs(t)|
    ensures ArcPairs(t)[i] in t.directed.vals || SortPair(ArcPairs(t)[i]) in t.undirected.vals
  {
    var d := |t.directed.keys|;
    if i >= d {
      var j := (i - d) / 2;
      var k := t.undirected.keys[j];
      assert k in t.undirected.vals;
      SortPairSymmetric(k);
      if i == d + 2 * j {
        assert ArcPairs(t)[i] == k;
      } else {
        assert ArcPairs(t)[i] == Reverse(k);
      }
    } else {
      assert t.directed.keys[i] in t.directed.vals;
    }
  }

  /** Over arcs whose names are the pairs `ps`, none at a synthetic node
      and each matching a table, the classification loop produces exactly
      `Expected`. */
  lemma {:induction false} ClassifyNamedArcs(arcs: seq<Arc>, n: nat, flow: nat -> int, names: map<int, Name>,
                                             t: Tables, ps: seq<Pair>)
    requires n <= |ps| <= |arcs|
    requires forall i :: 0 <= i < |ps| ==> && arcs[i].tail in names && arcs[i].head in names
                                           && names[arcs[i].tail] == ps[i].0 && names[arcs[i].head] == ps[i].1
    requires forall i :: 0 <= i < |ps| ==> !IsTerminal(ps[i].0) && !IsTerminal(ps[i].1)
    requires forall i :: 0 <= i < |ps| ==> ps[i] in t.directed.vals || SortPair(ps[i]) in t.undirected.vals
    ensures ClassifyFlow(arcs, n, flow, names, t) == Ok(Expected(ps, t, flow, n))
  {
    if n > 0 {
      ClassifyNamedArcs(arcs, n - 1, flow, names, t, ps);
      var a := arcs[n - 1];
      assert names[a.tail] == ps[n - 1].0 && names[a.head] == ps[n - 1].1;
      assert a.tail in names && a.head in names;
      if flow(n - 1) <= 0 {
        var before := Expected(ps, t, flow, n - 1);
        assert before + [] == before;
      }
    }
  }

  /** Arcs with a synthetic end add nothing and raise nothing. */
  lemma {:induction false} ClassifyTerminalArcs(arcs: seq<Arc>, k: nat, n: nat, flow: nat -> int,
                                                names: map<int, Name>, t: Tables)
    requires k <= n <= |arcs|
    requires forall i :: k <= i < |arcs| ==> && arcs[i].tail in names && arcs[i].head in names
                                             && (IsTerminal(names[arcs[i].tail]) || IsTerminal(names[arcs[i].head]))
    requires ClassifyFlow(arcs, k, flow, names, t).Ok?
    ensures ClassifyFlow(arcs, n, flow, names, t) == ClassifyFlow(arcs, k, flow, names, t)
  {
    if n > k {
      ClassifyTerminalArcs(arcs, k, n - 1, flow, names, t);
    }
  }

  /** The final `idDict` after lines 82 and 101-104 when no real node is
      named `maxID`, `source` or `target`: the three keys come last. */
  lemma FinalIds(reg: Registry)
    requires Dense(reg)
    requires forall n :: n in reg.ids.vals ==> !IsReserved(n)
    ensures var ids := WithTerminals(Set(reg.ids, MaxIdKey, reg.next));
            && ids.keys == reg.ids.keys + [MaxIdKey, SourceName, TargetName]
            && ids.vals == reg.ids.vals[MaxIdKey := reg.next][SourceName := reg.next][TargetName := reg.next + 1]
  {
    var withMax := Set(reg.ids, MaxIdKey, reg.next);
    assert MaxIdKey !in reg.ids.vals;
    assert withMax.keys == reg.ids.keys + [MaxIdKey];
    assert SourceName != MaxIdKey && SourceName !in withMax.vals;
    var withSource := Set(withMax, SourceName, reg.next);
    assert withSource.keys == reg.ids.keys + [MaxIdKey, SourceName];
    assert TargetName != MaxIdKey && TargetName != SourceName && TargetName !in withSource.vals;
  }

  /** The reverse map of a dict whose first `n` keys carry ids 0 .. n-1
      and whose last three carry n, n and n + 1. */
  lemma {:induction false} ReverseOfLaidOut(keys: seq<Name>, vals: map<Name, int>, n: nat)
    requires |keys| == n + 3
    requires forall k :: k in keys ==> k in vals
    requires forall j :: 0 <= j < n ==> vals[keys[j]] == j
    requires vals[keys[n]] == n && vals[keys[n + 1]] == n && vals[keys[n + 2]] == n + 1
    ensures forall i :: 0 <= i < n ==> i in ReverseNames(keys, vals) && ReverseNames(keys, vals)[i] == keys[i]
    ensures n in ReverseNames(keys, vals) && ReverseNames(keys, vals)[n] == keys[n + 1]
    ensures n + 1 in ReverseNames(keys, vals) && ReverseNames(keys, vals)[n + 1] == keys[n + 2]
  {
    forall i | 0 <= i < n
      ensures i in ReverseNames(keys, vals) && ReverseNames(keys, vals)[i] == keys[i]
    {
      LaidOutName(keys, vals, n, i);
    }
    ReverseNamesLastWins(keys, vals, n + 1);
    ReverseNamesLastWins(keys, vals, n + 2);
  }

  /** In that layout id `i < n` is named by key `i`. */
  lemma LaidOutName(keys: seq<Name>, vals: map<Name, int>, n: nat, i: nat)
    requires |keys| == n + 3 && i < n
    requires forall k :: k in keys ==> k in vals
    requires forall j :: 0 <= j < n ==> vals[keys[j]] == j
    requires vals[keys[n]] == n && vals[keys[n + 1]] == n && vals[keys[n + 2]] == n + 1
    ensures i in ReverseNames(keys, vals) && ReverseNames(keys, vals)[i] == keys[i]
  {
    LaidOutUnique(keys, vals, n, i);
    ReverseNamesLastWins(keys, vals, i);
  }

  /** In that layout no later key shares the id of key `i < n`. */
  lemma LaidOutUnique(keys: seq<Name>, vals: map<Name, int>, n: nat, i: nat)
    requires |keys| == n + 3 && i < n
    requires forall k :: k in keys ==> k in vals
    requires forall j :: 0 <= j < n ==> vals[keys[j]] == j
    requires vals[keys[n]] == n && vals[keys[n + 1]] == n && vals[keys[n + 2]] == n + 1
    ensures forall j :: i < j < |keys| ==> vals[keys[j]] != vals[keys[i]]
  {
    forall j | i < j < |keys|
      ensures vals[keys[j]] != vals[keys[i]]
    {
      if j < n {
        assert vals[keys[j]] == j;
      }
    }
  }

  /** With no reserved name in the edge file, the reverse map of the final
      `idDict` names every real id by its node, `maxID` by `source` and
      `maxID + 1` by `target`. */
  lemma FinalNames(reg: Registry)
    requires Dense(reg)
    requires forall n :: n in reg.ids.vals ==> !IsReserved(n)
    ensures var ids := WithTerminals(Set(reg.ids, MaxIdKey, reg.next));
            var names := ReverseNames(ids.keys, ids.vals);
            && (forall x :: x in reg.ids.vals ==> reg.ids.vals[x] in names && names[reg.ids.vals[x]] == x)
            && reg.next in names && names[reg.next] == SourceName
            && reg.next + 1 in names && names[reg.next + 1] == TargetName
  {
    var ids := WithTerminals(Set(reg.ids, MaxIdKey, reg.next));
    var n := reg.next;
    FinalIds(reg);
    DenseBijection(reg);
    var keys, vals := ids.keys, ids.vals;
    forall j | 0 <= j < n
      ensures keys[j] == reg.ids.keys[j] && vals[keys[j]] == j
    {
      var x := reg.ids.keys[j];
      assert x in reg.ids.vals && !IsReserved(x);
      assert vals[x] == reg.ids.vals[x];
    }
    assert keys[n] == MaxIdKey && keys[n + 1] == SourceName && keys[n + 2] == TargetName;
    assert forall k :: k in keys ==> k in vals;
    ReverseOfLaidOut(keys, vals, n);
    var names := ReverseNames(keys, vals);
    forall x | x in reg.ids.vals
      ensures reg.ids.vals[x] in names && names[reg.ids.vals[x]] == x
    {
      var i := reg.ids.vals[x];
      assert reg.ids.keys[i] == x;
    }
  }

  /** Every registered name comes from the edge file, so none is reserved. */
  lemma RegisteredNotReserved(records: seq<Record>)
    requires NoReservedNames(records)
    ensures forall x :: x in Register(Endpoints(records)).ids.vals ==> !IsReserved(x)
  {
    var e := Endpoints(records);
    forall x | x in Register(e).ids.vals
      ensures !IsReserved(x)
    {
      var k :| 0 <= k < |e| && e[k] == x;
      var i := k / 2;
      assert 0 <= i < |records|;
      if k == 2 * i {
        assert e[2 * i] == records[i].node1;
      } else {
        assert k == 2 * i + 1;
        assert e[2 * i + 1] == records[i].node2;
      }
    }
  }

  /** The ends of table arc `i` are the ids of the names in `ArcPairs`. */
  lemma TableArcEnds(t: Tables, ids: map<Name, int>, cap: int, i: int)
    requires Consistent(t) && Registered(t, ids)
    requires 0 <= i < |ArcPairs(t)|
    ensures ArcPairs(t)[i].0 in ids && ArcPairs(t)[i].1 in ids
    ensures TableArcs(t, ids, cap)[i].tail == ids[ArcPairs(t)[i].0]
    ensures TableArcs(t, ids, cap)[i].head == ids[ArcPairs(t)[i].1]
  {
    var d := |t.directed.keys|;
    if i >= d {
      UndirectedArcEnds(t, ids, cap, i);
    } else {
      DirectedArcEnds(t, ids, cap, i);
    }
  }

  /** `k` as twice a half plus a remainder bit. */
  lemma Halve(k: int) returns (j: int, odd: bool)
    requires 0 <= k
    ensures 0 <= j <= k
    ensures odd ==> k == 2 * j + 1
    ensures !odd ==> k == 2 * j
  {
    j := k / 2;
    odd := k % 2 == 1;
  }

  lemma DirectedArcEnds(t: Tables, ids: map<Name, int>, cap: int, i: int)
    requires Consistent(t) && Registered(t, ids)
    requires 0 <= i < |t.directed.keys|
    ensures ArcPairs(t)[i].0 in ids && ArcPairs(t)[i].1 in ids
    ensures TableArcs(t, ids, cap)[i].tail == ids[ArcPairs(t)[i].0]
    ensures TableArcs(t, ids, cap)[i].head == ids[ArcPairs(t)[i].1]
  {
    DirectedLayout(t, ids, cap, i);
  }

  lemma UndirectedArcEnds(t: Tables, ids: map<Name, int>, cap: int, i: int)
    requires Consistent(t) && Registered(t, ids)
    requires |t.directed.keys| <= i < |ArcPairs(t)|
    ensures ArcPairs(t)[i].0 in ids && ArcPairs(t)[i].1 in ids
    ensures TableArcs(t, ids, cap)[i].tail == ids[ArcPairs(t)[i].0]
    ensures TableArcs(t, ids, cap)[i].head == ids[ArcPairs(t)[i].1]
  {
    var j, second := Halve(i - |t.directed.keys|);
    if second {
      MirrorArcEnds(t, ids, cap, j, i);
    } else {
      KeyArcEnds(t, ids, cap, j, i);
    }
  }

  /** The first arc of undirected key `j`, at index `i`, runs along the key. */
  lemma KeyArcEnds(t: Tables, ids: map<Name, int>, cap: int, j: int, i: int)
    requires Consistent(t) && Registered(t, ids)
    requires 0 <= j < |t.undirected.keys| && i == |t.directed.keys| + 2 * j
    ensures ArcPairs(t)[i].0 in ids && ArcPairs(t)[i].1 in ids
    ensures TableArcs(t, ids, cap)[i].tail == ids[ArcPairs(t)[i].0]
    ensures TableArcs(t, ids, cap)[i].head == ids[ArcPairs(t)[i].1]
  {
    UndirectedLayout(t, ids, cap, j);
    KeyPairAt(t, j, i);
  }

  /** The pair at index `i` is undirected key `j`. */
  lemma KeyPairAt(t: Tables, j: int, i: int)
    requires 0 <= j < |t.undirected.keys| && i == |t.directed.keys| + 2 * j
    ensures ArcPairs(t)[i] == t.undirected.keys[j]
  {
  }

  /** The second arc of undirected key `j`, at index `i`, runs against it. */
  lemma MirrorArcEnds(t: Tables, ids: map<Name, int>, cap: int, j: int, i: int)
    requires Consistent(t) && Registered(t, ids)
    requires 0 <= j < |t.undirected.keys| && i == |t.directed.keys| + 2 * j + 1
    ensures ArcPairs(t)[i].0 in ids && ArcPairs(t)[i].1 in ids
    ensures TableArcs(t, ids, cap)[i].tail == ids[ArcPairs(t)[i].0]
    ensures TableArcs(t, ids, cap)[i].head == ids[ArcPairs(t)[i].1]
  {
    UndirectedLayout(t, ids, cap, j);
    MirrorPairAt(t, j, i);
  }

  /** The pair at index `i` is the reverse of undirected key `j`. */
  lemma MirrorPairAt(t: Tables, j: int, i: int)
    requires 0 <= j < |t.undirected.keys| && i == |t.directed.keys| + 2 * j + 1
    ensures ArcPairs(t)[i] == (t.undirected.keys[j].1, t.undirected.keys[j].0)
  {
    assert ArcPairs(t)[i] == Reverse(t.undirected.keys[j]);
  }

  /** Every arc from `start` on has a synthetic end (`n` is `source`,
      `n + 1` is `target`) and its other end is some key's id, so both ends
      have names and one of them is synthetic. */
  lemma TerminalArcsNamed(net: FlowGraph.Network, start: nat, n: int)
    requires Valid(net.ids)
    requires start <= |net.arcs|
    requires forall i :: start <= i < |net.arcs| ==>
               || (net.arcs[i].tail == n && net.arcs[i].head in net.ids.vals.Values)
               || (net.arcs[i].head == n + 1 && net.arcs[i].tail in net.ids.vals.Values)
    requires var names := ReverseNames(net.ids.keys, net.ids.vals);
             n in names && names[n] == SourceName && n + 1 in names && names[n + 1] == TargetName
    ensures var names := ReverseNames(net.ids.keys, net.ids.vals);
            forall i :: start <= i < |net.arcs| ==>
              && net.arcs[i].tail in names && net.arcs[i].head in names
              && (IsTerminal(names[net.arcs[i].tail]) || IsTerminal(names[net.arcs[i].head]))
  {
    var names := ReverseNames(net.ids.keys, net.ids.vals);
    forall v | v in net.ids.vals.Values
      ensures v in names
    {
      var k :| k in net.ids.vals && net.ids.vals[k] == v;
      assert k in net.ids.keys;
    }
  }

  /** How the network of `Run` is laid out: the table arcs first, then the
      terminal arcs at `source` (id `maxID`) or `target` (id `maxID + 1`). */
  lemma NetworkLayout(records: seq<Record>, cap: int, sources: seq<Name>, targets: seq<Name>, flow: int)
    requires forall i :: 0 <= i < |records| ==> KnownTag(records[i].tag)
    ensures var t := ReconcileTables(records).value;
            var reg := Register(Endpoints(records));
            var net := BuiltNetwork(records, cap, sources, targets, flow);
            && Consistent(t) && Registered(t, reg.ids.vals)
            && net.ids == WithTerminals(Set(reg.ids, MaxIdKey, reg.next))
            && Valid(net.ids)
            && |ArcPairs(t)| <= |net.arcs|
            && net.arcs[..|ArcPairs(t)|] == TableArcs(t, reg.ids.vals, cap)
            && forall i :: |ArcPairs(t)| <= i < |net.arcs| ==>
                 || (net.arcs[i].tail == reg.next && net.arcs[i].head in net.ids.vals.Values)
                 || (net.arcs[i].head == reg.next + 1 && net.arcs[i].tail in net.ids.vals.Values)
  {
    var t := ReconcileTables(records).value;
    var reg := Register(Endpoints(records));
    var g := ConstructDigraph(records, cap).value;
    TablesRegistered(records);
    assert g.tables == t && g.ids == Set(reg.ids, MaxIdKey, reg.next);
    assert g.arcs == TableArcs(t, reg.ids.vals, cap);
    assert g.ids.vals[MaxIdKey] == reg.next;
    var net := AddSourcesTargets(g, sources, targets, flow);
    assert net.ids == WithTerminals(g.ids);
  }

  /** With no reserved name in the edge file, the table arcs of the
      network of `Run` are named by `ArcPairs`, avoid the synthetic nodes,
      and each match a table. */
  lemma TableArcsNamed(records: seq<Record>, cap: int, sources: seq<Name>, targets: seq<Name>, flow: int)
    requires NoReservedNames(records)
    requires forall i :: 0 <= i < |records| ==> KnownTag(records[i].tag)
    ensures var t := ReconcileTables(records).value;
            var net := BuiltNetwork(records, cap, sources, targets, flow);
            var names := ReverseNames(net.ids.keys, net.ids.vals);
            var ps := ArcPairs(t);
            && |ps| <= |net.arcs|
            && (forall i :: 0 <= i < |ps| ==>
                  && net.arcs[i].tail in names && net.arcs[i].head in names
                  && names[net.arcs[i].tail] == ps[i].0 && names[net.arcs[i].head] == ps[i].1)
            && (forall i :: 0 <= i < |ps| ==> !IsTerminal(ps[i].0) && !IsTerminal(ps[i].1))
            && (forall i :: 0 <= i < |ps| ==> ps[i] in t.directed.vals || SortPair(ps[i]) in t.undirected.vals)
  {
    var t := ReconcileTables(records).value;
    var reg := Register(Endpoints(records));
    var net := BuiltNetwork(records, cap, sources, targets, flow);
    NetworkLayout(records, cap, sources, targets, flow);
    var names := ReverseNames(net.ids.keys, net.ids.vals);
    var ps := ArcPairs(t);
    RegisteredNotReserved(records);
    FinalNames(reg);
    forall i | 0 <= i < |ps|
      ensures && net.arcs[i].tail in names && net.arcs[i].head in names
              && names[net.arcs[i].tail] == ps[i].0 && names[net.arcs[i].head] == ps[i].1
      ensures !IsTerminal(ps[i].0) && !IsTerminal(ps[i].1)
      ensures ps[i] in t.directed.vals || SortPair(ps[i]) in t.undirected.vals
    {
      assert net.arcs[i] == net.arcs[..|ps|][i];
      TableArcEnds(t, reg.ids.vals, cap, i);
      TableArcMatches(t, i);
    }
  }

  /** With no reserved name in the edge file, the terminal arcs of the
      network of `Run` have a synthetic end. */
  lemma TerminalArcsOfNetwork(records: seq<Record>, cap: int, sources: seq<Name>, targets: seq<Name>, flow: int)
    requires NoReservedNames(records)
    requires forall i :: 0 <= i < |records| ==> KnownTag(records[i].tag)
    ensures var t := ReconcileTables(records).value;
            var net := BuiltNetwork(records, cap, sources, targets, flow);
            var names := ReverseNames(net.ids.keys, net.ids.vals);
            forall i :: |ArcPairs(t)| <= i < |net.arcs| ==>
              && net.arcs[i].tail in names && net.arcs[i].head in names
              && (IsTerminal(names[net.arcs[i].tail]) || IsTerminal(names[net.arcs[i].head]))
  {
    var net := BuiltNetwork(records, cap, sources, targets, flow);
    var n := TerminalPremises(records, cap, sources, targets, flow);
    TerminalArcsNamed(net, |ArcPairs(ReconcileTables(records).value)|, n);
  }

  /** What `TerminalArcsNamed` needs of the network of `Run`, with `n` the
      id of the synthetic source. */
  lemma TerminalPremises(records: seq<Record>, cap: int, sources: seq<Name>, targets: seq<Name>, flow: int)
    returns (n: int)
    requires NoReservedNames(records)
    requires forall i :: 0 <= i < |records| ==> KnownTag(records[i].tag)
    ensures var net := BuiltNetwork(records, cap, sources, targets, flow);
            && Valid(net.ids)
            && |ArcPairs(ReconcileTables(records).value)| <= |net.arcs|
            && (forall i :: |ArcPairs(ReconcileTables(records).value)| <= i < |net.arcs| ==>
                  || (net.arcs[i].tail == n && net.arcs[i].head in net.ids.vals.Values)
                  || (net.arcs[i].head == n + 1 && net.arcs[i].tail in net.ids.vals.Values))
    ensures var net := BuiltNetwork(records, cap, sources, targets, flow);
            var names := ReverseNames(net.ids.keys, net.ids.vals);
            n in names && names[n] == SourceName && n + 1 in names && names[n + 1] == TargetName
  {
    var reg := Register(Endpoints(records));
    n := reg.next;
    NetworkLayout(records, cap, sources, targets, flow);
    RegisteredNotReserved(records);
    FinalNames(reg);
  }

  /** With no reserved name in the edge file, classifying every arc of the
      network of `Run` under any flow gives `Expected` for the tables. */
  lemma ClassifyNetwork(records: seq<Record>, cap: int, sources: seq<Name>, targets: seq<Name>,
                        flow: int, f: nat -> int)
    requires NoReservedNames(records)
    requires forall i :: 0 <= i < |records| ==> KnownTag(records[i].tag)
    ensures var t := ReconcileTables(records).value;
            var net := BuiltNetwork(records, cap, sources, targets, flow);
            ClassifyFlow(net.arcs, |net.arcs|, f, ReverseNames(net.ids.keys, net.ids.vals), t)
            == Ok(Expected(ArcPairs(t), t, f, |ArcPairs(t)|))
  {
    var t := ReconcileTables(records).value;
    var net := BuiltNetwork(records, cap, sources, targets, flow);
    var names := ReverseNames(net.ids.keys, net.ids.vals);
    var ps := ArcPairs(t);
    TableArcsNamed(records, cap, sources, targets, flow);
    ClassifyNamedArcs(net.arcs, |ps|, f, names, t, ps);
    TerminalArcsOfNetwork(records, cap, sources, targets, flow);
    ClassifyTerminalArcs(net.arcs, |ps|, |net.arcs|, f, names, t);
  }

  /** With no reserved name in the edge file, a run with known tags never
      raises: an optimal solve writes exactly the table arcs that carry
      positive flow, each tagged from the tables, in arc order, and any
      other status writes nothing. */
  lemma RunWritesTableArcs(records: seq<Record>, cap: int, sources: seq<Name>, targets: seq<Name>,
                           flow: int, solve: Problem -> Solution)
    requires NoReservedNames(records)
    requires forall i :: 0 <= i < |records| ==> KnownTag(records[i].tag)
    ensures var t := ReconcileTables(records).value;
            var solution := solve(Supplied(BuiltNetwork(records, cap, sources, targets, flow), flow));
            var r := Run(records, cap, sources, targets, flow, solve);
            && r.Ok?
            && (solution.status == Optimal ==> r.value == Written(Expected(ArcPairs(t), t, solution.flow, |ArcPairs(t)|)))
            && (solution.status != Optimal ==> r.value == SolverIssue)
  {
    var net := BuiltNetwork(records, cap, sources, targets, flow);
    ClassifyNetwork(records, cap, sources, targets, flow, solve(Supplied(net, flow)).flow);
  }
}
