/** Building the solver's arc list: `construct_digraph` turns the two
    tables into arcs (one per directed entry, two mirrored per undirected
    entry) and records `maxID`; `add_sources_targets` adds the synthetic
    `source` and `target` nodes and their zero-cost terminal arcs. */
module FlowGraph {
  import opened Outcomes
  import opened Names
  import opened OrderedDict
  import opened NodeRegistry
  import opened EdgeReconciler

  /** One `add_arc_with_capacity_and_unit_cost(tail, head, capacity, cost)` call. */
  datatype Arc = Arc(tail: int, head: int, capacity: int, cost: int)

  /** The result of `construct_digraph`: the arcs added so far, `idDict`
      (with its `maxID` entry) and the two tables it filled. */
  datatype Digraph = Digraph(arcs: seq<Arc>, ids: Dict<Name>, tables: Tables)

  /** The graph handed to the solver after `add_sources_targets`. */
  datatype Network = Network(arcs: seq<Arc>, ids: Dict<Name>)

  /** Every endpoint of every table key has an id. */
  ghost predicate Registered(t: Tables, ids: map<Name, int>) {
    && (forall p :: p in t.directed.vals ==> p.0 in ids && p.1 in ids)
    && (forall p :: p in t.undirected.vals ==> p.0 in ids && p.1 in ids)
  }

  /** One arc per directed key, in insertion order. */
  function DirectedArcs(keys: seq<Pair>, vals: map<Pair, int>, ids: map<Name, int>, cap: int): (arcs: seq<Arc>)
    requires forall k :: k in keys ==> k in vals && k.0 in ids && k.1 in ids
    ensures |arcs| == |keys|
    ensures forall i :: 0 <= i < |arcs| ==> arcs[i].capacity == cap
    ensures forall i :: 0 <= i < |keys| ==>
              arcs[i] == Arc(ids[keys[i].0], ids[keys[i].1], cap, vals[keys[i]])
  {
    if |keys| == 0 then []
    else [Arc(ids[keys[0].0], ids[keys[0].1], cap, vals[keys[0]])] + DirectedArcs(keys[1..], vals, ids, cap)
  }

  /** Two arcs per undirected key, (a, b) then (b, a), with one weight. */
  function UndirectedArcs(keys: seq<Pair>, vals: map<Pair, int>, ids: map<Name, int>, cap: int): (arcs: seq<Arc>)
    requires forall k :: k in keys ==> k in vals && k.0 in ids && k.1 in ids
    ensures |arcs| == 2 * |keys|
    ensures forall i :: 0 <= i < |arcs| ==> arcs[i].capacity == cap
    ensures forall j :: 0 <= j < |keys| ==>
              && arcs[2 * j] == Arc(ids[keys[j].0], ids[keys[j].1], cap, vals[keys[j]])
              && arcs[2 * j + 1] == Arc(ids[keys[j].1], ids[keys[j].0], cap, vals[keys[j]])
  {
    if |keys| == 0 then []
    else
      var k := keys[0];
      var rest := UndirectedArcs(keys[1..], vals, ids, cap);
      assert forall j :: 1 <= j < |keys| ==> keys[j] == keys[1..][j - 1];
      [Arc(ids[k.0], ids[k.1], cap, vals[k]), Arc(ids[k.1], ids[k.0], cap, vals[k])] + rest
  }

  /** The arcs of lines 76-80: |directed| + 2 |undirected| of them, all
      with the one capacity. */
  function TableArcs(t: Tables, ids: map<Name, int>, cap: int): (arcs: seq<Arc>)
    requires Consistent(t) && Registered(t, ids)
    ensures |arcs| == |t.directed.vals| + 2 * |t.undirected.vals|
    ensures |arcs| == |t.directed.keys| + 2 * |t.undirected.keys|
    ensures forall i :: 0 <= i < |arcs| ==> arcs[i].capacity == cap
  {
    SizeMatches(t.directed);
    SizeMatches(t.undirected);
    DirectedArcs(t.directed.keys, t.directed.vals, ids, cap)
      + UndirectedArcs(t.undirected.keys, t.undirected.vals, ids, cap)
  }

  /** Table arc `i`, for `i` below the number of directed keys, is the arc
      of the `i`-th directed key, costing its weight. */
  lemma DirectedLayout(t: Tables, ids: map<Name, int>, cap: int, i: int)
    requires Consistent(t) && Registered(t, ids)
    requires 0 <= i < |t.directed.keys|
    ensures t.directed.keys[i] in t.directed.vals
    ensures t.directed.keys[i].0 in ids && t.directed.keys[i].1 in ids
    ensures TableArcs(t, ids, cap)[i]
            == Arc(ids[t.directed.keys[i].0], ids[t.directed.keys[i].1], cap, t.directed.vals[t.directed.keys[i]])
  {
    var d := DirectedArcs(t.directed.keys, t.directed.vals, ids, cap);
    var u := UndirectedArcs(t.undirected.keys, t.undirected.vals, ids, cap);
    assert TableArcs(t, ids, cap)[i] == (d + u)[i] == d[i];
  }

  /** For the `j`-th undirected key (a, b), the table arcs just after the
      directed ones at `2 j` and `2 j + 1` are a -> b and b -> a, each
      costing the key's weight. */
  lemma UndirectedLayout(t: Tables, ids: map<Name, int>, cap: int, j: int)
    requires Consistent(t) && Registered(t, ids)
    requires 0 <= j < |t.undirected.keys|
    ensures t.undirected.keys[j] in t.undirected.vals
    ensures t.undirected.keys[j].0 in ids && t.undirected.keys[j].1 in ids
    ensures var k := t.undirected.keys[j];
            TableArcs(t, ids, cap)[|t.directed.keys| + 2 * j] == Arc(ids[k.0], ids[k.1], cap, t.undirected.vals[k])
    ensures var k := t.undirected.keys[j];
            TableArcs(t, ids, cap)[|t.directed.keys| + 2 * j + 1] == Arc(ids[k.1], ids[k.0], cap, t.undirected.vals[k])
  {
    var d := DirectedArcs(t.directed.keys, t.directed.vals, ids, cap);
    var u := UndirectedArcs(t.undirected.keys, t.undirected.vals, ids, cap);
    var arcs := TableArcs(t, ids, cap);
    assert arcs == d + u;
    assert arcs[|d| + 2 * j] == u[2 * j];
    assert arcs[|d| + 2 * j + 1] == u[2 * j + 1];
  }

  /** Both names of every record, in file order: node1, node2, node1, ... */
  function Endpoints(records: seq<Record>): (names: seq<Name>)
    ensures |names| == 2 * |records|
    ensures forall i :: 0 <= i < |records| ==> names[2 * i] == records[i].node1 && names[2 * i + 1] == records[i].node2
  {
    if |records| == 0 then []
    else
      var front := records[..|records| - 1];
      assert forall i :: 0 <= i < |front| ==> front[i] == records[i];
      Endpoints(front) + [records[|records| - 1].node1, records[|records| - 1].node2]
  }

  lemma EndpointsOf(records: seq<Record>, i: int)
    requires 0 <= i < |records|
    ensures records[i].node1 in Endpoints(records) && records[i].node2 in Endpoints(records)
  {
    var e := Endpoints(records);
    assert e[2 * i] == records[i].node1 && e[2 * i + 1] == records[i].node2;
  }

  /** Every name a table key mentions was read from the edge file. */
  lemma TablesRegistered(records: seq<Record>)
    requires ReconcileTables(records).Ok?
    ensures Registered(ReconcileTables(records).value, Register(Endpoints(records)).ids.vals)
  {
    var t := ReconcileTables(records).value;
    var ids := Register(Endpoints(records)).ids.vals;
    forall p | p in t.directed.vals
      ensures p.0 in ids && p.1 in ids
    {
      DirectedKeyRegistered(records, p);
    }
    forall p | p in t.undirected.vals
      ensures p.0 in ids && p.1 in ids
    {
      UndirectedKeyRegistered(records, p);
    }
  }

  lemma DirectedKeyRegistered(records: seq<Record>, p: Pair)
    requires ReconcileTables(records).Ok?
    requires p in ReconcileTables(records).value.directed.vals
    ensures p.0 in Register(Endpoints(records)).ids.vals && p.1 in Register(Endpoints(records)).ids.vals
  {
    DirectedIsMinimum(records, p);
    var i :| 0 <= i < |records| && DeclaresDirected(records[i], p);
    EndpointsOf(records, i);
  }

  lemma UndirectedKeyRegistered(records: seq<Record>, p: Pair)
    requires ReconcileTables(records).Ok?
    requires p in ReconcileTables(records).value.undirected.vals
    ensures p.0 in Register(Endpoints(records)).ids.vals && p.1 in Register(Endpoints(records)).ids.vals
  {
    UndirectedProvenance(records, p);
    var i :| 0 <= i < |records| && records[i].tag == "U" && SortPair(Edge(records[i])) == p;
    assert p == (records[i].node1, records[i].node2) || p == (records[i].node2, records[i].node1);
    EndpointsOf(records, i);
  }

  /** `construct_digraph(edges, cap)`: ids for every name, the two tables,
      their arcs, and `idDict["maxID"]` set to the next free id. */
  function ConstructDigraph(records: seq<Record>, cap: int): (r: Result<Digraph>)
    ensures r.Ok? <==> forall i :: 0 <= i < |records| ==> KnownTag(records[i].tag)
    ensures r.Ok? ==> && r.value.tables == ReconcileTables(records).value
                      && |r.value.arcs| == |r.value.tables.directed.vals| + 2 * |r.value.tables.undirected.vals|
                      && (forall i :: 0 <= i < |r.value.arcs| ==> r.value.arcs[i].capacity == cap)
                      && Valid(r.value.ids)
                      && var reg := Register(Endpoints(records));
                         && r.value.ids.vals == reg.ids.vals[MaxIdKey := reg.next]
                         && r.value.ids == Set(reg.ids, MaxIdKey, reg.next)
                         && Consistent(r.value.tables)
                         && Registered(r.value.tables, reg.ids.vals)
                         && r.value.arcs == TableArcs(r.value.tables, reg.ids.vals, cap)
  {
    var t :- ReconcileTables(records);
    var reg := Register(Endpoints(records));
    TablesRegistered(records);
    Ok(Digraph(TableArcs(t, reg.ids.vals, cap), Set(reg.ids, MaxIdKey, reg.next), t))
  }

  /** The names of `names` that have an id, in order. */
  function Present(names: seq<Name>, ids: map<Name, int>): (r: seq<Name>)
    ensures forall i :: 0 <= i < |r| ==> r[i] in ids
    ensures |r| <= |names|
  {
    if |names| == 0 then []
    else if names[0] in ids then [names[0]] + Present(names[1..], ids)
    else Present(names[1..], ids)
  }

  /** `Present` keeps exactly the names that have an id. */
  lemma {:induction false} PresentMembers(names: seq<Name>, ids: map<Name, int>)
    ensures forall n :: n in Present(names, ids) <==> n in names && n in ids
  {
    if |names| > 0 {
      PresentMembers(names[1..], ids);
      assert forall n :: n in names <==> n == names[0] || n in names[1..];
    }
  }

  /** Lines 106-108: an arc from the synthetic source to each listed source
      that has an id; a name without one adds nothing. */
  function SourceArcs(sources: seq<Name>, ids: map<Name, int>, src: int, cap: int): (arcs: seq<Arc>)
    ensures |arcs| == |Present(sources, ids)|
    ensures forall i :: 0 <= i < |arcs| ==> arcs[i] == Arc(src, ids[Present(sources, ids)[i]], cap, 0)
  {
    if |sources| == 0 then []
    else
      var rest := SourceArcs(sources[1..], ids, src, cap);
      if sources[0] in ids then [Arc(src, ids[sources[0]], cap, 0)] + rest else rest
  }

  /** Lines 110-112: an arc from each listed target that has an id to the
      synthetic target. */
  function TargetArcs(targets: seq<Name>, ids: map<Name, int>, dst: int, cap: int): (arcs: seq<Arc>)
    ensures |arcs| == |Present(targets, ids)|
    ensures forall i :: 0 <= i < |arcs| ==> arcs[i] == Arc(ids[Present(targets, ids)[i]], dst, cap, 0)
  {
    if |targets| == 0 then []
    else
      var rest := TargetArcs(targets[1..], ids, dst, cap);
      if targets[0] in ids then [Arc(ids[targets[0]], dst, cap, 0)] + rest else rest
  }

  /** The ids after lines 101-104: `source` gets `maxID`, `target` the next one. */
  function WithTerminals(ids: Dict<Name>): (r: Dict<Name>)
    requires Valid(ids) && MaxIdKey in ids.vals
    ensures Valid(r)
    ensures r.vals == ids.vals[SourceName := ids.vals[MaxIdKey]][TargetName := ids.vals[MaxIdKey] + 1]
    // Every existing key, `maxID` included, keeps its place; `source` and
    // then `target` are appended when new.
    ensures r.keys == ids.keys + (if SourceName in ids.vals then [] else [SourceName])
                               + (if TargetName in ids.vals then [] else [TargetName])
  {
    var m := ids.vals[MaxIdKey];
    Set(Set(ids, SourceName, m), TargetName, m + 1)
  }

  /** All terminal arcs, the source ones first. */
  function TerminalArcs(sources: seq<Name>, targets: seq<Name>, ids: map<Name, int>, m: int, cap: int): (arcs: seq<Arc>)
    ensures |arcs| == |Present(sources, ids)| + |Present(targets, ids)|
    // The source arcs in list order, then the target arcs in list order.
    ensures var ps := Present(sources, ids);
            forall i :: 0 <= i < |ps| ==> arcs[i] == Arc(m, ids[ps[i]], cap, 0)
    ensures var ps, pt := Present(sources, ids), Present(targets, ids);
            forall j :: 0 <= j < |pt| ==> arcs[|ps| + j] == Arc(ids[pt[j]], m + 1, cap, 0)
  {
    var s := SourceArcs(sources, ids, m, cap);
    var t := TargetArcs(targets, ids, m + 1, cap);
    var arcs := s + t;
    assert forall i :: 0 <= i < |s| ==> arcs[i] == s[i];
    assert forall j :: 0 <= j < |t| ==> arcs[|s| + j] == t[j];
    arcs
  }

  /** Every terminal arc costs 0, has the given capacity, and either
      leaves `m` for a node with an id or enters `m + 1` from one. */
  lemma TerminalShape(sources: seq<Name>, targets: seq<Name>, ids: map<Name, int>, m: int, cap: int)
    ensures var arcs := TerminalArcs(sources, targets, ids, m, cap);
            forall i :: 0 <= i < |arcs| ==> && arcs[i].cost == 0 && arcs[i].capacity == cap
                                            && ((arcs[i].tail == m && arcs[i].head in ids.Values)
                                                || (arcs[i].head == m + 1 && arcs[i].tail in ids.Values))
  {
    var arcs := TerminalArcs(sources, targets, ids, m, cap);
    var ps, pt := Present(sources, ids), Present(targets, ids);
    forall i | 0 <= i < |arcs|
      ensures arcs[i].cost == 0 && arcs[i].capacity == cap
      ensures (arcs[i].tail == m && arcs[i].head in ids.Values) || (arcs[i].head == m + 1 && arcs[i].tail in ids.Values)
    {
      if i < |ps| {
        assert ps[i] in ids && arcs[i] == Arc(m, ids[ps[i]], cap, 0);
      } else {
        var j := i - |ps|;
        assert pt[j] in ids && arcs[|ps| + j] == Arc(ids[pt[j]], m + 1, cap, 0);
      }
    }
  }

  /** Every listed source and target with an id has its arc in the block. */
  lemma TerminalMembers(sources: seq<Name>, targets: seq<Name>, ids: map<Name, int>, m: int, cap: int)
    ensures forall x :: x in sources && x in ids ==> Arc(m, ids[x], cap, 0) in TerminalArcs(sources, targets, ids, m, cap)
    ensures forall x :: x in targets && x in ids ==> Arc(ids[x], m + 1, cap, 0) in TerminalArcs(sources, targets, ids, m, cap)
  {
    var arcs := TerminalArcs(sources, targets, ids, m, cap);
    var ps, pt := Present(sources, ids), Present(targets, ids);
    PresentMembers(sources, ids);
    PresentMembers(targets, ids);
    forall x | x in sources && x in ids
      ensures Arc(m, ids[x], cap, 0) in arcs
    {
      var k :| 0 <= k < |ps| && ps[k] == x;
      assert arcs[k] == Arc(m, ids[x], cap, 0);
    }
    forall x | x in targets && x in ids
      ensures Arc(ids[x], m + 1, cap, 0) in arcs
    {
      var k :| 0 <= k < |pt| && pt[k] == x;
      assert arcs[|ps| + k] == Arc(ids[x], m + 1, cap, 0);
    }
  }

  /** `add_sources_targets`: `source` takes id `maxID`, `target` takes
      `maxID + 1`, and the terminal arcs (cost 0, capacity `flow * 10`)
      follow the arcs already added, which are kept. */
  function AddSourcesTargets(g: Digraph, sources: seq<Name>, targets: seq<Name>, flow: int): (net: Network)
    requires Valid(g.ids) && MaxIdKey in g.ids.vals
    ensures net.ids == WithTerminals(g.ids)
    ensures |net.arcs| == |g.arcs| + |Present(sources, net.ids.vals)| + |Present(targets, net.ids.vals)|
    ensures net.arcs[..|g.arcs|] == g.arcs
    ensures net.arcs[|g.arcs|..] == TerminalArcs(sources, targets, net.ids.vals, g.ids.vals[MaxIdKey], flow * 10)
    ensures forall i :: |g.arcs| <= i < |net.arcs| ==>
              && net.arcs[i].cost == 0 && net.arcs[i].capacity == flow * 10
              && ((net.arcs[i].tail == g.ids.vals[MaxIdKey] && net.arcs[i].head in net.ids.vals.Values)
                  || (net.arcs[i].head == g.ids.vals[MaxIdKey] + 1 && net.arcs[i].tail in net.ids.vals.Values))
    ensures forall s :: s in sources && s in net.ids.vals ==>
              Arc(g.ids.vals[MaxIdKey], net.ids.vals[s], flow * 10, 0) in net.arcs
    ensures forall t :: t in targets && t in net.ids.vals ==>
              Arc(net.ids.vals[t], g.ids.vals[MaxIdKey] + 1, flow * 10, 0) in net.arcs
  {
    var m := g.ids.vals[MaxIdKey];
    var ids := WithTerminals(g.ids);
    assert ids.vals == g.ids.vals[SourceName := m][TargetName := m + 1];
    var extra := TerminalArcs(sources, targets, ids.vals, m, flow * 10);
    TerminalShape(sources, targets, ids.vals, m, flow * 10);
    TerminalMembers(sources, targets, ids.vals, m, flow * 10);
    var arcs := g.arcs + extra;
    assert arcs[..|g.arcs|] == g.arcs;
    forall i | |g.arcs| <= i < |arcs|
      ensures arcs[i] == extra[i - |g.arcs|]
    {
    }
    assert forall a :: a in extra ==> a in arcs;
    Network(arcs, ids)
  }
}
