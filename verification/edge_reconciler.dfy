/** The edge reconciler of `construct_digraph`: it folds the edge records
    into `directed_dict`, keyed by the ordered pair, and `undirected_dict`,
    keyed by the sorted pair, following the code's precedence rules. */
module EdgeReconciler {
  import opened Outcomes
  import opened Names
  import opened OrderedDict

  /** One line of the edge file: both names, the integer cost and the tag. */
  datatype Record = Record(node1: Name, node2: Name, weight: int, tag: string)

  /** `directed_dict` and `undirected_dict`. */
  datatype Tables = Tables(directed: Dict<Pair>, undirected: Dict<Pair>)

  function Edge(rec: Record): Pair {
    (rec.node1, rec.node2)
  }

  predicate KnownTag(tag: string) {
    tag == "D" || tag == "U"
  }

  function Min(a: int, b: int): int {
    if a <= b then a else b
  }

  /** Every undirected key is a sorted pair, and no key is in both tables. */
  ghost predicate Consistent(t: Tables) {
    && Valid(t.directed)
    && Valid(t.undirected)
    && (forall p :: p in t.undirected.vals ==> Sorted(p))
    && (forall p :: p in t.undirected.vals ==> p !in t.directed.vals)
  }

  function EmptyTables(): (t: Tables)
    ensures Consistent(t)
    ensures t.directed.vals == map[] && t.undirected.vals == map[]
  {
    Tables(Empty(), Empty())
  }

  /** One record, as the body of the loop over the edge file handles it. */
  function StepTables(t: Tables, rec: Record): (r: Result<Tables>)
    requires Consistent(t)
    ensures r.Ok? <==> KnownTag(rec.tag)
    ensures r.Err? ==> r.error == BadTag(rec.tag)
    ensures r.Ok? ==> Consistent(r.value)
    // A repeated directed pair can only lower its own weight.
    ensures rec.tag == "D" && Edge(rec) in t.directed.vals ==>
              && r.Ok?
              && r.value.undirected == t.undirected
              && r.value.directed.keys == t.directed.keys
              && r.value.directed.vals == t.directed.vals[Edge(rec) := Min(t.directed.vals[Edge(rec)], rec.weight)]
    // A new directed pair is appended and evicts its sorted pair from the undirected table.
    ensures rec.tag == "D" && Edge(rec) !in t.directed.vals ==>
              && r.Ok?
              && r.value.directed.keys == t.directed.keys + [Edge(rec)]
              && r.value.directed.vals == t.directed.vals[Edge(rec) := rec.weight]
              && r.value.undirected.vals == t.undirected.vals - {SortPair(Edge(rec))}
              && r.value.undirected.keys == Without(t.undirected.keys, SortPair(Edge(rec)))
              && (SortPair(Edge(rec)) !in t.undirected.vals ==> r.value.undirected == t.undirected)
    // An undirected record never touches the directed table.
    ensures rec.tag == "U" ==> r.Ok? && r.value.directed == t.directed
    // Inserted only when neither `edge` nor `sorted_edge` is directed and the sorted pair is new.
    ensures rec.tag == "U" && Edge(rec) !in t.directed.vals && SortPair(Edge(rec)) !in t.directed.vals
            && SortPair(Edge(rec)) !in t.undirected.vals ==>
              && r.Ok?
              && r.value.undirected.keys == t.undirected.keys + [SortPair(Edge(rec))]
              && r.value.undirected.vals == t.undirected.vals[SortPair(Edge(rec)) := rec.weight]
    // An existing undirected pair keeps the smaller weight.
    ensures rec.tag == "U" && SortPair(Edge(rec)) in t.undirected.vals ==>
              && r.Ok?
              && r.value.undirected.keys == t.undirected.keys
              && r.value.undirected.vals
                 == t.undirected.vals[SortPair(Edge(rec)) := Min(t.undirected.vals[SortPair(Edge(rec))], rec.weight)]
    // Otherwise the undirected record is dropped.
    ensures rec.tag == "U" && SortPair(Edge(rec)) !in t.undirected.vals
            && (Edge(rec) in t.directed.vals || SortPair(Edge(rec)) in t.directed.vals) ==>
              r == Ok(t)
  {
    var edge := Edge(rec);
    var sortedEdge := SortPair(edge);
    if rec.tag == "D" then
      if edge in t.directed.vals then
        if rec.weight < t.directed.vals[edge] then
          Ok(Tables(Set(t.directed, edge, rec.weight), t.undirected))
        else
          Ok(t)
      else if sortedEdge in t.undirected.vals then
        Ok(Tables(Set(t.directed, edge, rec.weight), Del(t.undirected, sortedEdge)))
      else
        Ok(Tables(Set(t.directed, edge, rec.weight), t.undirected))
    else if rec.tag == "U" then
      if edge !in t.directed.vals && sortedEdge !in t.directed.vals && sortedEdge !in t.undirected.vals then
        Ok(Tables(t.directed, Set(t.undirected, sortedEdge, rec.weight)))
      else if sortedEdge in t.undirected.vals then
        if rec.weight < t.undirected.vals[sortedEdge] then
          Ok(Tables(t.directed, Set(t.undirected, sortedEdge, rec.weight)))
        else
          Ok(t)
      else
        Ok(t)
    else
      Err(BadTag(rec.tag))
  }

  /** The whole edge file, record by record; the first bad tag aborts. */
  function ReconcileTables(records: seq<Record>): (r: Result<Tables>)
    ensures r.Ok? <==> forall i :: 0 <= i < |records| ==> KnownTag(records[i].tag)
    ensures r.Err? ==> exists i :: && 0 <= i < |records|
                                   && !KnownTag(records[i].tag)
                                   && r.error == BadTag(records[i].tag)
                                   && forall j :: 0 <= j < i ==> KnownTag(records[j].tag)
    ensures r.Ok? ==> Consistent(r.value)
  {
    if |records| == 0 then Ok(EmptyTables())
    else
      var front := records[..|records| - 1];
      assert forall j :: 0 <= j < |front| ==> front[j] == records[j];
      match ReconcileTables(front)
      case Err(e) =>
        assert exists i :: 0 <= i < |front| && !KnownTag(records[i].tag);
        Err(e)
      case Ok(t) =>
        assert forall i :: 0 <= i < |front| ==> KnownTag(records[i].tag);
        StepTables(t, records[|records| - 1])
  }

  /** A directed record for the ordered pair `p`. */
  predicate DeclaresDirected(rec: Record, p: Pair) {
    rec.tag == "D" && Edge(rec) == p
  }

  /** The directed table after one more record, in terms of maps only. */
  function NextDirected(d: map<Pair, int>, rec: Record): map<Pair, int> {
    if rec.tag != "D" then d
    else if Edge(rec) in d then d[Edge(rec) := Min(d[Edge(rec)], rec.weight)]
    else d[Edge(rec) := rec.weight]
  }

  lemma StepDirected(t: Tables, rec: Record)
    requires Consistent(t) && KnownTag(rec.tag)
    ensures StepTables(t, rec).value.directed.vals == NextDirected(t.directed.vals, rec)
  {
  }

  /** The fold, one record back: the table before the last record. */
  lemma ReconcileLast(records: seq<Record>)
    requires |records| > 0 && ReconcileTables(records).Ok?
    ensures ReconcileTables(records[..|records| - 1]).Ok?
    ensures ReconcileTables(records)
            == StepTables(ReconcileTables(records[..|records| - 1]).value, records[|records| - 1])
  {
  }

  /** A directed key is exactly an ordered pair some directed record names,
      and its weight is the least weight any of those records gives. */
  lemma {:induction false} DirectedIsMinimum(records: seq<Record>, p: Pair)
    requires ReconcileTables(records).Ok?
    ensures var d := ReconcileTables(records).value.directed.vals;
            && (p in d <==> exists i :: 0 <= i < |records| && DeclaresDirected(records[i], p))
            && (p in d ==> && (forall i :: 0 <= i < |records| && DeclaresDirected(records[i], p) ==> d[p] <= records[i].weight)
                           && (exists i :: 0 <= i < |records| && DeclaresDirected(records[i], p) && records[i].weight == d[p]))
  {
    if |records| > 0 {
      var n := |records| - 1;
      var front := records[..n];
      var last := records[n];
      ReconcileLast(records);
      var t0 := ReconcileTables(front).value;
      assert KnownTag(last.tag);
      StepDirected(t0, last);
      var d0 := t0.directed.vals;
      var d := ReconcileTables(records).value.directed.vals;
      assert d == NextDirected(d0, last);
      DirectedIsMinimum(front, p);
      DirectedStep(records, front, d0, d, p);
    }
  }

  /** The inductive step of `DirectedIsMinimum`, on the two maps alone. */
  lemma DirectedStep(records: seq<Record>, front: seq<Record>, d0: map<Pair, int>, d: map<Pair, int>, p: Pair)
    requires |records| > 0 && front == records[..|records| - 1]
    requires d == NextDirected(d0, records[|records| - 1])
    requires p in d0 <==> exists i :: 0 <= i < |front| && DeclaresDirected(front[i], p)
    requires p in d0 ==> && (forall i :: 0 <= i < |front| && DeclaresDirected(front[i], p) ==> d0[p] <= front[i].weight)
                         && (exists i :: 0 <= i < |front| && DeclaresDirected(front[i], p) && front[i].weight == d0[p])
    ensures p in d <==> exists i :: 0 <= i < |records| && DeclaresDirected(records[i], p)
    ensures p in d ==> && (forall i :: 0 <= i < |records| && DeclaresDirected(records[i], p) ==> d[p] <= records[i].weight)
                       && (exists i :: 0 <= i < |records| && DeclaresDirected(records[i], p) && records[i].weight == d[p])
  {
    var n := |records| - 1;
    var last := records[n];
    assert forall j :: 0 <= j < n ==> front[j] == records[j];
    if DeclaresDirected(last, p) {
      if p in d0 {
        var k :| 0 <= k < |front| && DeclaresDirected(front[k], p) && front[k].weight == d0[p];
        if d0[p] <= last.weight {
          assert DeclaresDirected(records[k], p) && records[k].weight == d[p];
        } else {
          assert records[n].weight == d[p];
        }
      } else {
        assert records[n].weight == d[p];
      }
    } else {
      if p in d {
        var k :| 0 <= k < |front| && DeclaresDirected(front[k], p) && front[k].weight == d0[p];
        assert DeclaresDirected(records[k], p);
      }
      if exists i :: 0 <= i < |records| && DeclaresDirected(records[i], p) {
        var i :| 0 <= i < |records| && DeclaresDirected(records[i], p);
        assert i < n && DeclaresDirected(front[i], p);
      }
    }
  }

  /** Every undirected entry comes from an undirected record for that pair
      which carried exactly the stored weight. */
  lemma {:induction false} UndirectedProvenance(records: seq<Record>, s: Pair)
    requires ReconcileTables(records).Ok?
    requires s in ReconcileTables(records).value.undirected.vals
    ensures exists i :: && 0 <= i < |records|
                        && records[i].tag == "U"
                        && SortPair(Edge(records[i])) == s
                        && records[i].weight == ReconcileTables(records).value.undirected.vals[s]
  {
    var front := records[..|records| - 1];
    var last := records[|records| - 1];
    assert forall j :: 0 <= j < |front| ==> front[j] == records[j];
    ReconcileLast(records);
    var t0 := ReconcileTables(front).value;
    var u := ReconcileTables(records).value.undirected.vals;
    if !(last.tag == "U" && SortPair(Edge(last)) == s && last.weight == u[s]) {
      UndirectedKept(t0, last, s);
      UndirectedProvenance(front, s);
      var k :| 0 <= k < |front| && front[k].tag == "U" && SortPair(Edge(front[k])) == s && front[k].weight == u[s];
      assert records[k] == front[k];
    }
  }

  /** An undirected entry after a step that did not store it from the
      record was already there with the same weight. */
  lemma UndirectedKept(t: Tables, rec: Record, s: Pair)
    requires Consistent(t) && KnownTag(rec.tag)
    requires s in StepTables(t, rec).value.undirected.vals
    requires !(rec.tag == "U" && SortPair(Edge(rec)) == s
               && rec.weight == StepTables(t, rec).value.undirected.vals[s])
    ensures s in t.undirected.vals
    ensures t.undirected.vals[s] == StepTables(t, rec).value.undirected.vals[s]
  {
  }

  /** An undirected record for the sorted pair `s`. */
  predicate DeclaresUndirected(rec: Record, s: Pair) {
    rec.tag == "U" && SortPair(Edge(rec)) == s
  }

  /** No directed record names the unordered pair `s`, in either orientation. */
  predicate NoDirectedOn(records: seq<Record>, s: Pair) {
    forall i :: 0 <= i < |records| && records[i].tag == "D" ==> SortPair(Edge(records[i])) != s
  }

  /** When no directed record touches the sorted pair `s`, it is an
      undirected key exactly when some undirected record names it, and its
      weight is the least any of them gives. */
  lemma {:induction false} UndirectedIsMinimum(records: seq<Record>, s: Pair)
    requires ReconcileTables(records).Ok?
    requires Sorted(s) && NoDirectedOn(records, s)
    ensures var u := ReconcileTables(records).value.undirected.vals;
            && (s in u <==> exists i :: 0 <= i < |records| && DeclaresUndirected(records[i], s))
            && (s in u ==> forall i :: 0 <= i < |records| && DeclaresUndirected(records[i], s) ==> u[s] <= records[i].weight)
  {
    if |records| > 0 {
      var n := |records| - 1;
      var front := records[..n];
      assert forall j :: 0 <= j < n ==> front[j] == records[j];
      ReconcileLast(records);
      var t0 := ReconcileTables(front).value;
      var last := records[n];
      UndirectedIsMinimum(front, s);
      PairNotDirected(front, s);
      assert SortPair(Edge(last)) != s || last.tag != "D";
      StepUndirectedAt(t0, last, s);
      UndirectedStep(records, front, t0.undirected.vals, ReconcileTables(records).value.undirected.vals, s);
    }
  }

  /** With no directed record on `s`, neither orientation of `s` is a directed key. */
  lemma PairNotDirected(records: seq<Record>, s: Pair)
    requires ReconcileTables(records).Ok?
    requires Sorted(s) && NoDirectedOn(records, s)
    ensures s !in ReconcileTables(records).value.directed.vals
    ensures Reverse(s) !in ReconcileTables(records).value.directed.vals
  {
    SortPairSymmetric(s);
    DirectedIsMinimum(records, s);
    DirectedIsMinimum(records, Reverse(s));
    forall i | 0 <= i < |records|
      ensures !DeclaresDirected(records[i], s) && !DeclaresDirected(records[i], Reverse(s))
    {
    }
  }

  /** What one step does to the undirected entry of a sorted pair that no
      directed key and no directed record touches. */
  lemma StepUndirectedAt(t0: Tables, rec: Record, s: Pair)
    requires Consistent(t0) && KnownTag(rec.tag) && Sorted(s)
    requires s !in t0.directed.vals && Reverse(s) !in t0.directed.vals
    requires rec.tag == "D" ==> SortPair(Edge(rec)) != s
    ensures var u0 := t0.undirected.vals;
            var u := StepTables(t0, rec).value.undirected.vals;
            && (DeclaresUndirected(rec, s) ==> s in u && u[s] == (if s in u0 then Min(u0[s], rec.weight) else rec.weight))
            && (!DeclaresUndirected(rec, s) ==> (s in u <==> s in u0) && (s in u ==> u[s] == u0[s]))
  {
    SortPairSymmetric(Edge(rec));
    if DeclaresUndirected(rec, s) {
      assert Edge(rec) == s || Edge(rec) == Reverse(s);
    }
  }

  /** The inductive step of `UndirectedIsMinimum`, on the two maps alone. */
  lemma UndirectedStep(records: seq<Record>, front: seq<Record>, u0: map<Pair, int>, u: map<Pair, int>, s: Pair)
    requires |records| > 0 && front == records[..|records| - 1]
    requires var last := records[|records| - 1];
             && (DeclaresUndirected(last, s) ==> s in u && u[s] == (if s in u0 then Min(u0[s], last.weight) else last.weight))
             && (!DeclaresUndirected(last, s) ==> (s in u <==> s in u0) && (s in u ==> u[s] == u0[s]))
    requires s in u0 <==> exists i :: 0 <= i < |front| && DeclaresUndirected(front[i], s)
    requires s in u0 ==> forall i :: 0 <= i < |front| && DeclaresUndirected(front[i], s) ==> u0[s] <= front[i].weight
    ensures s in u <==> exists i :: 0 <= i < |records| && DeclaresUndirected(records[i], s)
    ensures s in u ==> forall i :: 0 <= i < |records| && DeclaresUndirected(records[i], s) ==> u[s] <= records[i].weight
  {
    var n := |records| - 1;
    assert forall j :: 0 <= j < n ==> front[j] == records[j];
    if !DeclaresUndirected(records[n], s) {
      if exists i :: 0 <= i < |records| && DeclaresUndirected(records[i], s) {
        var i :| 0 <= i < |records| && DeclaresUndirected(records[i], s);
        assert i < n && DeclaresUndirected(front[i], s);
      }
      if s in u0 {
        var k :| 0 <= k < |front| && DeclaresUndirected(front[k], s);
        assert DeclaresUndirected(records[k], s);
      }
    }
  }

  /** A directed record in sorted orientation keeps its pair out of the
      undirected table for good. */
  lemma SortedDirectedExcludesUndirected(records: seq<Record>, i: int)
    requires ReconcileTables(records).Ok?
    requires 0 <= i < |records| && records[i].tag == "D" && Sorted(Edge(records[i]))
    ensures SortPair(Edge(records[i])) !in ReconcileTables(records).value.undirected.vals
  {
    DirectedIsMinimum(records, Edge(records[i]));
  }
}
