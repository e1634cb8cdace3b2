/** The reconciler with the undirected guard of minCostFlow.py:65 testing
    both orientations of the pair against the directed table. The code as
    written tests `edge` and `sorted_edge`, which miss the reverse
    orientation whenever `edge` is already sorted. */
module IntendedReconciler {
  import opened Outcomes
  import opened Names
  import opened OrderedDict
  import opened EdgeReconciler

  /** `Consistent`, and no undirected key has its reverse in the directed table. */
  ghost predicate StronglyConsistent(t: Tables) {
    && Consistent(t)
    && forall p :: p in t.undirected.vals ==> Reverse(p) !in t.directed.vals
  }

  /** One record with the corrected guard: an undirected record is also
      dropped when the reverse of its pair is directed. */
  function StepIntended(t: Tables, rec: Record): (r: Result<Tables>)
    requires StronglyConsistent(t)
    ensures r.Ok? <==> KnownTag(rec.tag)
    ensures r.Err? ==> r.error == BadTag(rec.tag)
    ensures r.Ok? ==> StronglyConsistent(r.value)
    ensures r.Ok? ==> r.value.directed.vals == NextDirected(t.directed.vals, rec)
    // The directed table, keys and order included, is the one the code's step gives.
    ensures r.Ok? ==> r.value.directed == StepTables(t, rec).value.directed
    ensures rec.tag == "U" && (Edge(rec) in t.directed.vals || Reverse(Edge(rec)) in t.directed.vals) ==> r == Ok(t)
  {
    if rec.tag == "U" && Reverse(Edge(rec)) in t.directed.vals then
      Ok(t)
    else
      var r := StepTables(t, rec);
      if r.Ok? then
        StepKeepsStrong(t, rec);
        r
      else
        r
  }

  lemma StepKeepsStrong(t: Tables, rec: Record)
    requires StronglyConsistent(t)
    requires KnownTag(rec.tag)
    requires !(rec.tag == "U" && Reverse(Edge(rec)) in t.directed.vals)
    ensures StronglyConsistent(StepTables(t, rec).value)
    ensures StepTables(t, rec).value.directed.vals == NextDirected(t.directed.vals, rec)
  {
    var e := Edge(rec);
    var s := SortPair(e);
    var t' := StepTables(t, rec).value;
    SortPairSymmetric(e);
    forall p | p in t'.undirected.vals
      ensures Reverse(p) !in t'.directed.vals
    {
      SortPairSymmetric(p);
    }
  }

  /** The edge file folded with the corrected step. */
  function ReconcileIntended(records: seq<Record>): (r: Result<Tables>)
    ensures r.Ok? <==> forall i :: 0 <= i < |records| ==> KnownTag(records[i].tag)
    ensures r.Ok? ==> StronglyConsistent(r.value)
  {
    if |records| == 0 then Ok(EmptyTables())
    else
      var front := records[..|records| - 1];
      var t :- ReconcileIntended(front);
      assert forall j :: 0 <= j < |front| ==> front[j] == records[j];
      StepIntended(t, records[|records| - 1])
  }

  /** A record about the unordered pair with sorted key `s`. */
  predicate About(rec: Record, s: Pair) {
    SortPair(Edge(rec)) == s
  }

  /** Some orientation of the pair `s` is a directed key. */
  predicate PairDirected(t: Tables, s: Pair) {
    s in t.directed.vals || Reverse(s) in t.directed.vals
  }

  /** A directed record on the pair leaves some orientation of it directed. */
  ghost predicate DirectedSeen(records: seq<Record>, t: Tables, s: Pair) {
    (exists i :: 0 <= i < |records| && records[i].tag == "D" && About(records[i], s)) ==> PairDirected(t, s)
  }

  /** An undirected record on the pair leaves it undirected, or directed. */
  ghost predicate UndirectedSeen(records: seq<Record>, t: Tables, s: Pair) {
    (exists i :: 0 <= i < |records| && records[i].tag == "U" && About(records[i], s)) ==>
      s in t.undirected.vals || PairDirected(t, s)
  }

  /** An undirected entry never saw a directed record on its pair, is the
      least weight any undirected record on it gave, and is one of them. */
  ghost predicate EntryKept(records: seq<Record>, t: Tables, s: Pair) {
    s in t.undirected.vals ==>
      && (forall i :: 0 <= i < |records| && records[i].tag == "D" ==> !About(records[i], s))
      && (forall i :: 0 <= i < |records| && records[i].tag == "U" && About(records[i], s) ==>
            t.undirected.vals[s] <= records[i].weight)
      && (exists i :: 0 <= i < |records| && records[i].tag == "U" && About(records[i], s)
                      && records[i].weight == t.undirected.vals[s])
  }

  /** What the fold keeps about one sorted pair `s` after `records`. */
  ghost predicate PairHistory(records: seq<Record>, t: Tables, s: Pair) {
    DirectedSeen(records, t, s) && UndirectedSeen(records, t, s) && EntryKept(records, t, s)
  }

  lemma {:induction false} IntendedHistory(records: seq<Record>, s: Pair)
    requires ReconcileIntended(records).Ok?
    requires Sorted(s)
    ensures PairHistory(records, ReconcileIntended(records).value, s)
  {
    if |records| > 0 {
      var n := |records| - 1;
      var front := records[..n];
      var rec := records[n];
      assert forall j :: 0 <= j < n ==> front[j] == records[j];
      var t0 := ReconcileIntended(front).value;
      var t := ReconcileIntended(records).value;
      assert t == StepIntended(t0, rec).value;
      IntendedHistory(front, s);
      HistoryStep(records, t0, t, s);
    }
  }

  /** The inductive step of `IntendedHistory` for the last record. */
  lemma HistoryStep(records: seq<Record>, t0: Tables, t: Tables, s: Pair)
    requires |records| > 0 && Sorted(s)
    requires StronglyConsistent(t0)
    requires StepIntended(t0, records[|records| - 1]) == Ok(t)
    requires PairHistory(records[..|records| - 1], t0, s)
    ensures PairHistory(records, t, s)
  {
    var rec := records[|records| - 1];
    if !About(rec, s) {
      StepOtherPair(t0, rec, t, s);
      HistoryStepOther(records, t0, t, s);
    } else if rec.tag == "D" {
      HistoryStepDirected(records, t0, t, s);
    } else if PairDirected(t0, s) {
      HistoryStepShadowed(records, t0, t, s);
    } else if s in t0.undirected.vals {
      HistoryStepLower(records, t0, t, s);
    } else {
      HistoryStepInsert(records, t0, t, s);
    }
  }

  /** A record about another pair leaves everything about `s` as it was,
      save that the directed table may grow. */
  lemma HistoryStepOther(records: seq<Record>, t0: Tables, t: Tables, s: Pair)
    requires |records| > 0
    requires PairHistory(records[..|records| - 1], t0, s)
    requires !About(records[|records| - 1], s)
    requires forall x :: x in t0.directed.vals ==> x in t.directed.vals
    requires s in t.undirected.vals <==> s in t0.undirected.vals
    requires s in t.undirected.vals ==> t.undirected.vals[s] == t0.undirected.vals[s]
    ensures PairHistory(records, t, s)
  {
    var n := |records| - 1;
    var front := records[..n];
    assert forall i :: 0 <= i < n ==> front[i] == records[i];
    if exists i :: 0 <= i < |records| && records[i].tag == "D" && About(records[i], s) {
      var i :| 0 <= i < |records| && records[i].tag == "D" && About(records[i], s);
      assert front[i].tag == "D" && About(front[i], s);
    }
    if exists i :: 0 <= i < |records| && records[i].tag == "U" && About(records[i], s) {
      var i :| 0 <= i < |records| && records[i].tag == "U" && About(records[i], s);
      assert front[i].tag == "U" && About(front[i], s);
    }
    OtherKeepsEntry(records, t0, t, s);
  }

  lemma OtherKeepsEntry(records: seq<Record>, t0: Tables, t: Tables, s: Pair)
    requires |records| > 0
    requires EntryKept(records[..|records| - 1], t0, s)
    requires !About(records[|records| - 1], s)
    requires s in t.undirected.vals <==> s in t0.undirected.vals
    requires s in t.undirected.vals ==> t.undirected.vals[s] == t0.undirected.vals[s]
    ensures EntryKept(records, t, s)
  {
    var n := |records| - 1;
    var front := records[..n];
    assert forall i :: 0 <= i < n ==> front[i] == records[i];
    if s in t.undirected.vals {
      var i :| 0 <= i < n && front[i].tag == "U" && About(front[i], s)
                          && front[i].weight == t0.undirected.vals[s];
      assert records[i] == front[i];
    }
  }

  /** What one step does to a pair its record is not about. */
  lemma StepOtherPair(t0: Tables, rec: Record, t: Tables, s: Pair)
    requires StronglyConsistent(t0)
    requires StepIntended(t0, rec) == Ok(t)
    requires !About(rec, s)
    ensures forall x :: x in t0.directed.vals ==> x in t.directed.vals
    ensures s in t.undirected.vals <==> s in t0.undirected.vals
    ensures s in t.undirected.vals ==> t.undirected.vals[s] == t0.undirected.vals[s]
  {
  }

  /** A directed record about `s` leaves an orientation of it directed and
      `s` out of the undirected table. */
  lemma HistoryStepDirected(records: seq<Record>, t0: Tables, t: Tables, s: Pair)
    requires |records| > 0 && Sorted(s)
    requires StronglyConsistent(t0)
    requires StepIntended(t0, records[|records| - 1]) == Ok(t)
    requires PairHistory(records[..|records| - 1], t0, s)
    requires About(records[|records| - 1], s) && records[|records| - 1].tag == "D"
    ensures PairHistory(records, t, s)
  {
    var n := |records| - 1;
    var e := Edge(records[n]);
    assert forall j :: 0 <= j < n ==> records[..n][j] == records[j];
    assert forall x :: x in t0.directed.vals ==> x in t.directed.vals;
    assert e == s || e == Reverse(s);
    assert e in t.directed.vals;
    assert s !in t.undirected.vals;
  }

  /** An undirected record about a pair that is already directed, in
      either orientation, is dropped. */
  lemma HistoryStepShadowed(records: seq<Record>, t0: Tables, t: Tables, s: Pair)
    requires |records| > 0 && Sorted(s)
    requires StronglyConsistent(t0)
    requires StepIntended(t0, records[|records| - 1]) == Ok(t)
    requires PairHistory(records[..|records| - 1], t0, s)
    requires About(records[|records| - 1], s) && records[|records| - 1].tag == "U"
    requires PairDirected(t0, s)
    ensures PairHistory(records, t, s)
  {
    var n := |records| - 1;
    var e := Edge(records[n]);
    assert forall j :: 0 <= j < n ==> records[..n][j] == records[j];
    SortPairSymmetric(e);
    assert e == s || e == Reverse(s);
    assert Reverse(Reverse(s)) == s;
    assert t == t0;
  }

  /** An undirected record about an undirected pair keeps the smaller weight. */
  lemma HistoryStepLower(records: seq<Record>, t0: Tables, t: Tables, s: Pair)
    requires |records| > 0 && Sorted(s)
    requires StronglyConsistent(t0)
    requires StepIntended(t0, records[|records| - 1]) == Ok(t)
    requires PairHistory(records[..|records| - 1], t0, s)
    requires About(records[|records| - 1], s) && records[|records| - 1].tag == "U"
    requires !PairDirected(t0, s) && s in t0.undirected.vals
    ensures PairHistory(records, t, s)
  {
    var n := |records| - 1;
    var e := Edge(records[n]);
    assert forall j :: 0 <= j < n ==> records[..n][j] == records[j];
    SortPairSymmetric(e);
    assert e == s || e == Reverse(s);
    assert Reverse(Reverse(s)) == s;
    assert t.directed == t0.directed;
    assert t.undirected.vals[s] == Min(t0.undirected.vals[s], records[n].weight);
  }

  /** An undirected record about a pair nothing has declared yet inserts it. */
  lemma HistoryStepInsert(records: seq<Record>, t0: Tables, t: Tables, s: Pair)
    requires |records| > 0 && Sorted(s)
    requires StronglyConsistent(t0)
    requires StepIntended(t0, records[|records| - 1]) == Ok(t)
    requires PairHistory(records[..|records| - 1], t0, s)
    requires About(records[|records| - 1], s) && records[|records| - 1].tag == "U"
    requires !PairDirected(t0, s) && s !in t0.undirected.vals
    ensures PairHistory(records, t, s)
  {
    var n := |records| - 1;
    var e := Edge(records[n]);
    assert forall j :: 0 <= j < n ==> records[..n][j] == records[j];
    SortPairSymmetric(e);
    assert e == s || e == Reverse(s);
    assert Reverse(Reverse(s)) == s;
    assert t.directed == t0.directed;
    assert t.undirected.vals[s] == records[n].weight;
    assert forall i :: 0 <= i < n ==> !(records[i].tag == "U" && About(records[i], s));
    assert forall i :: 0 <= i < n ==> !(records[i].tag == "D" && About(records[i], s));
  }

  /** With the corrected guard a directed declaration wins over every
      undirected one for the same unordered pair, whatever the order of
      arrival and orientation, and an undirected entry keeps the least
      weight declared for it. */
  lemma {:induction false} IntendedPrecedence(records: seq<Record>, s: Pair)
    requires ReconcileIntended(records).Ok?
    requires s in ReconcileIntended(records).value.undirected.vals
    ensures forall i :: 0 <= i < |records| && records[i].tag == "D" ==> SortPair(Edge(records[i])) != s
    ensures forall i :: 0 <= i < |records| && records[i].tag == "U" && SortPair(Edge(records[i])) == s ==>
              ReconcileIntended(records).value.undirected.vals[s] <= records[i].weight
    ensures exists i :: && 0 <= i < |records| && records[i].tag == "U" && SortPair(Edge(records[i])) == s
                        && records[i].weight == ReconcileIntended(records).value.undirected.vals[s]
  {
    var t := ReconcileIntended(records).value;
    assert Sorted(s);
    IntendedHistory(records, s);
    assert PairHistory(records, t, s);
  }
}
