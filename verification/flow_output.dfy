/** Solving and reading the result back: `min_cost_flow` sets the supplies
    and calls the solver; on an optimal status `write_output_to_sif` walks
    the arcs that carry flow, drops those at the synthetic nodes and tags
    each remaining arc D or U from the two tables. */
module FlowOutput {
  import opened Outcomes
  import opened Names
  import opened EdgeReconciler
  import opened FlowGraph

  /** The third column of an output line. */
  datatype Orientation = Directed | Undirected

  /** One output line `node1 \t node2 \t D|U`. */
  datatype OutEdge = OutEdge(node1: Name, node2: Name, tag: Orientation)

  /** What the solver is given: the arcs and the node supplies. */
  datatype Problem = Problem(arcs: seq<Arc>, supply: map<int, int>)

  datatype Status = Optimal | NotOptimal(code: int)

  /** The solver's answer: a status and a flow for every arc index. */
  datatype Solution = Solution(status: Status, flow: nat -> int)

  /** How a solve ends when nothing is raised. */
  datatype RunEnd = Written(edges: seq<OutEdge>) | SolverIssue

  predicate IsTerminal(n: Name) {
    n == SourceName || n == TargetName
  }

  /** Line 121, `{v: k for k, v in idDict.items()}`: the id of every key
      gets a name, and that name is a key carrying the id. */
  function ReverseNames(keys: seq<Name>, vals: map<Name, int>): (names: map<int, Name>)
    requires forall k :: k in keys ==> k in vals
    ensures forall v :: v in names <==> exists k :: k in keys && vals[k] == v
    ensures forall v :: v in names ==> names[v] in keys && vals[names[v]] == v
  {
    if |keys| == 0 then map[]
    else
      var front := keys[..|keys| - 1];
      var k := keys[|keys| - 1];
      assert forall x :: x in keys <==> x in front || x == k;
      var before := ReverseNames(front, vals);
      var names := before[vals[k] := k];
      assert forall v :: v in names <==> exists x :: x in keys && vals[x] == v by {
        forall v
          ensures v in names <==> exists x :: x in keys && vals[x] == v
        {
          if v in before {
            var x :| x in front && vals[x] == v;
            assert x in keys;
          }
        }
      }
      names
  }

  /** When several keys share an id, the name kept is the last of them in
      insertion order; a key no later key shares its id with keeps its id. */
  lemma {:induction false} ReverseNamesLastWins(keys: seq<Name>, vals: map<Name, int>, i: int)
    requires forall k :: k in keys ==> k in vals
    requires 0 <= i < |keys|
    requires forall j :: i < j < |keys| ==> vals[keys[j]] != vals[keys[i]]
    ensures vals[keys[i]] in ReverseNames(keys, vals)
    ensures ReverseNames(keys, vals)[vals[keys[i]]] == keys[i]
  {
    var front := keys[..|keys| - 1];
    if i < |front| {
      assert forall x :: x in front ==> x in keys;
      assert vals[keys[|keys| - 1]] != vals[keys[i]];
      assert forall j :: i < j < |front| ==> front[j] == keys[j];
      ReverseNamesLastWins(front, vals, i);
    }
  }

  /** Both ends of the arc have a name (lines 124-125 do not raise). */
  predicate Named(a: Arc, names: map<int, Name>) {
    a.tail in names && a.head in names
  }

  /** A named arc the loop does not skip: positive flow and no synthetic end. */
  predicate Carries(a: Arc, f: int, names: map<int, Name>)
    requires Named(a, names)
  {
    f > 0 && !IsTerminal(names[a.tail]) && !IsTerminal(names[a.head])
  }

  /** An ordered pair one of the tables can tag. */
  predicate Matches(p: Pair, t: Tables) {
    p in t.directed.vals || SortPair(p) in t.undirected.vals
  }

  /** The arc gets through one turn of the loop without raising. */
  predicate Classifiable(a: Arc, f: int, names: map<int, Name>, t: Tables) {
    Named(a, names) && (Carries(a, f, names) ==> Matches((names[a.tail], names[a.head]), t))
  }

  /** The output line for a carried arc: D when its ordered pair is
      directed, U otherwise. */
  function Line(a: Arc, names: map<int, Name>, t: Tables): OutEdge
    requires Named(a, names)
  {
    var p := (names[a.tail], names[a.head]);
    OutEdge(p.0, p.1, if p in t.directed.vals then Directed else Undirected)
  }

  /** The lines written for the first `n` arcs, when nothing raises: the
      carried arcs, in arc order, each as its `Line`. */
  function Selected(arcs: seq<Arc>, n: nat, flow: nat -> int, names: map<int, Name>, t: Tables): seq<OutEdge>
    requires n <= |arcs|
    requires forall i :: 0 <= i < n ==> Named(arcs[i], names)
  {
    if n == 0 then []
    else
      var a := arcs[n - 1];
      Selected(arcs, n - 1, flow, names, t) + (if Carries(a, flow(n - 1), names) then [Line(a, names, t)] else [])
  }

  /** The loop of lines 123-144 over the first `n` arcs. An arc whose ends
      have no name raises, whatever its flow; an arc without positive flow
      or at a synthetic node is skipped; an ordered pair in the directed
      table is D, else a sorted pair in the undirected table is U, else the
      loop raises. */
  function ClassifyFlow(arcs: seq<Arc>, n: nat, flow: nat -> int, names: map<int, Name>, t: Tables)
    : (r: Result<seq<OutEdge>>)
    requires n <= |arcs|
    ensures r.Ok? ==> |r.value| <= n
    ensures r.Ok? ==> forall e :: e in r.value ==> !IsTerminal(e.node1) && !IsTerminal(e.node2)
    ensures r.Ok? ==> forall e :: e in r.value ==> (e.tag == Directed <==> (e.node1, e.node2) in t.directed.vals)
    ensures r.Ok? ==> forall e :: e in r.value && e.tag == Undirected ==> SortPair((e.node1, e.node2)) in t.undirected.vals
    ensures r.Err? ==> r.error.UnknownNodeId? || r.error.EdgeNotInTables?
    ensures r.Ok? <==> forall i :: 0 <= i < n ==> Classifiable(arcs[i], flow(i), names, t)
    ensures r.Ok? ==> r.value == Selected(arcs, n, flow, names, t)
  {
    if n == 0 then Ok([])
    else
      var out :- ClassifyFlow(arcs, n - 1, flow, names, t);
      var a := arcs[n - 1];
      if a.tail !in names then Err(UnknownNodeId(a.tail))
      else if a.head !in names then Err(UnknownNodeId(a.head))
      else
        var node1 := names[a.tail];
        var node2 := names[a.head];
        if flow(n - 1) <= 0 then Ok(out)
        else if IsTerminal(node1) || IsTerminal(node2) then Ok(out)
        else if (node1, node2) in t.directed.vals then Ok(out + [OutEdge(node1, node2, Directed)])
        else if SortPair((node1, node2)) in t.undirected.vals then Ok(out + [OutEdge(node1, node2, Undirected)])
        else Err(EdgeNotInTables(node1, node2))
  }

  /** Lines 158-159: supply `flow` at `source`, demand `flow` at `target`. */
  function Supplied(net: Network, flow: int): (p: Problem)
    requires SourceName in net.ids.vals && TargetName in net.ids.vals
    ensures p.arcs == net.arcs
    ensures p.supply.Keys == {net.ids.vals[SourceName], net.ids.vals[TargetName]}
    ensures net.ids.vals[SourceName] != net.ids.vals[TargetName] ==>
              p.supply[net.ids.vals[SourceName]] == flow && p.supply[net.ids.vals[TargetName]] == -flow
  {
    Problem(net.arcs, map[net.ids.vals[SourceName] := flow][net.ids.vals[TargetName] := -flow])
  }

  /** `min_cost_flow`: a non-optimal status ends the run with nothing
      written; an optimal one writes the classified arcs, or raises. */
  function MinCostFlow(net: Network, t: Tables, flow: int, solve: Problem -> Solution): (r: Result<RunEnd>)
    requires SourceName in net.ids.vals && TargetName in net.ids.vals
    requires forall k :: k in net.ids.keys ==> k in net.ids.vals
    ensures solve(Supplied(net, flow)).status != Optimal <==> r == Ok(SolverIssue)
    ensures r.Ok? && r.value.Written? ==>
              && solve(Supplied(net, flow)).status == Optimal
              && |r.value.edges| <= |net.arcs|
              && forall e :: e in r.value.edges ==> !IsTerminal(e.node1) && !IsTerminal(e.node2)
  {
    var solution := solve(Supplied(net, flow));
    if solution.status != Optimal then Ok(SolverIssue)
    else
      var names := ReverseNames(net.ids.keys, net.ids.vals);
      var edges :- ClassifyFlow(net.arcs, |net.arcs|, solution.flow, names, t);
      Ok(Written(edges))
  }
}
