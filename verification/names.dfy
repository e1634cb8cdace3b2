/** Node names, Python's ordering of `str` values, and the unordered-pair
    key `tuple(sorted((a, b)))` used by the undirected table. */
module Names {

  type Name = string

  /** An edge key: (node1, node2). */
  type Pair = (Name, Name)

  /** The three keys the program writes into the id dictionary itself. */
  const MaxIdKey: Name := "maxID"
  const SourceName: Name := "source"
  const TargetName: Name := "target"

  predicate IsReserved(n: Name) {
    n == MaxIdKey || n == SourceName || n == TargetName
  }

  /** Python `a < b` on strings: lexicographic by code point, a proper
      prefix comes first. */
  predicate Less(a: Name, b: Name)
    decreases |a|
  {
    if |a| == 0 then |b| > 0
    else if |b| == 0 then false
    else a[0] < b[0] || (a[0] == b[0] && Less(a[1..], b[1..]))
  }

  lemma {:induction false} LessIrreflexive(a: Name)
    ensures !Less(a, a)
    decreases |a|
  {
    if |a| > 0 {
      LessIrreflexive(a[1..]);
    }
  }

  lemma {:induction false} LessAsymmetric(a: Name, b: Name)
    ensures Less(a, b) ==> !Less(b, a)
    decreases |a|
  {
    if |a| > 0 && |b| > 0 && a[0] == b[0] {
      LessAsymmetric(a[1..], b[1..]);
    }
  }

  /** Any two distinct strings are ordered one way or the other. */
  lemma {:induction false} LessTotal(a: Name, b: Name)
    ensures a == b || Less(a, b) || Less(b, a)
    decreases |a|
  {
    if |a| > 0 && |b| > 0 && a[0] == b[0] {
      LessTotal(a[1..], b[1..]);
      if a[1..] == b[1..] {
        assert a == [a[0]] + a[1..];
        assert b == [b[0]] + b[1..];
      }
    }
  }

  /** A pair already in `sorted` order. */
  predicate Sorted(p: Pair) {
    !Less(p.1, p.0)
  }

  /** `tuple(sorted(p))`: Python's sort is stable, so the two names are
      swapped only when the second is strictly smaller. */
  function SortPair(p: Pair): (r: Pair)
    ensures Sorted(r)
    ensures r == p || r == (p.1, p.0)
    ensures Sorted(p) ==> r == p
  {
    if Less(p.1, p.0) then
      LessAsymmetric(p.1, p.0);
      (p.1, p.0)
    else
      p
  }

  function Reverse(p: Pair): Pair {
    (p.1, p.0)
  }

  /** Both orientations of a pair share one sorted key. */
  lemma SortPairSymmetric(p: Pair)
    ensures SortPair(Reverse(p)) == SortPair(p)
  {
    LessTotal(p.0, p.1);
    LessAsymmetric(p.0, p.1);
  }
}
