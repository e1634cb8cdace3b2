/** A Python `dict` with `int` values: the key-to-value map together with
    the keys in insertion order, which is the order `items()` yields them.
    Overwriting a key keeps its position; `del` drops it from the order. */
module OrderedDict {

  datatype Dict<K(==)> = Dict(keys: seq<K>, vals: map<K, int>)

  ghost predicate Distinct<K>(s: seq<K>) {
    forall i, j :: 0 <= i < j < |s| ==> s[i] != s[j]
  }

  /** The order lists every key of the map exactly once. */
  ghost predicate Valid<K(!new)>(d: Dict<K>) {
    && Distinct(d.keys)
    && (forall k :: k in d.vals <==> k in d.keys)
  }

  function Empty<K(!new)>(): (d: Dict<K>)
    ensures Valid(d)
    ensures d.vals == map[] && |d.keys| == 0
  {
    Dict([], map[])
  }

  /** `d[k] = v`. */
  function Set<K(!new)>(d: Dict<K>, k: K, v: int): (r: Dict<K>)
    requires Valid(d)
    ensures Valid(r)
    ensures r.vals == d.vals[k := v]
    ensures k in d.vals ==> r.keys == d.keys
    ensures k !in d.vals ==> r.keys == d.keys + [k]
  {
    if k in d.vals then Dict(d.keys, d.vals[k := v])
    else Dict(d.keys + [k], d.vals[k := v])
  }

  /** The sequence `s` with every occurrence of `k` dropped, order kept. */
  function Without<K(==,!new)>(s: seq<K>, k: K): (r: seq<K>)
    ensures forall x :: x in r <==> x in s && x != k
    ensures Distinct(s) ==> Distinct(r)
    ensures Distinct(s) && k in s ==> |r| == |s| - 1
    ensures k !in s ==> r == s
  {
    if |s| == 0 then []
    else if s[0] == k then Without(s[1..], k)
    else
      var rest := Without(s[1..], k);
      assert Distinct(s) ==> Distinct(s[1..]) && s[0] !in rest by {
        if Distinct(s) {
          assert forall i, j :: 0 <= i < j < |s[1..]| ==> s[1..][i] == s[i + 1] && s[1..][j] == s[j + 1];
        }
      }
      [s[0]] + rest
  }

  /** The position of the first occurrence of `k`. */
  function IndexOf<K(==)>(s: seq<K>, k: K): (i: nat)
    requires k in s
    ensures i < |s| && s[i] == k && k !in s[..i]
  {
    if s[0] == k then 0
    else
      assert k in s[1..];
      var j := IndexOf(s[1..], k);
      assert s[..j + 1] == [s[0]] + s[1..][..j];
      j + 1
  }

  /** Past the head of a distinct sequence: the rest is distinct and does
      not hold the head. */
  lemma DistinctTail<K>(s: seq<K>)
    requires Distinct(s) && |s| > 0
    ensures Distinct(s[1..]) && s[0] !in s[1..]
  {
    var tail := s[1..];
    assert forall j :: 0 <= j < |tail| ==> tail[j] == s[j + 1];
  }

  /** Dropping a key that occurs once cuts it out and keeps the order of
      the others. */
  lemma {:induction false} WithoutSplices<K(!new)>(s: seq<K>, k: K)
    requires Distinct(s) && k in s
    ensures Without(s, k) == s[..IndexOf(s, k)] + s[IndexOf(s, k) + 1..]
  {
    var tail := s[1..];
    DistinctTail(s);
    if s[0] == k {
      assert IndexOf(s, k) == 0;
      assert Without(s, k) == Without(tail, k) == tail;
      assert s[..0] + s[1..] == tail;
    } else {
      assert k in tail;
      WithoutSplices(tail, k);
      var j := IndexOf(tail, k);
      assert IndexOf(s, k) == j + 1;
      assert Without(s, k) == [s[0]] + Without(tail, k);
      assert Without(tail, k) == tail[..j] + tail[j + 1..];
      assert s[..j + 1] == [s[0]] + tail[..j];
      assert s[j + 2..] == tail[j + 1..];
      assert [s[0]] + (tail[..j] + tail[j + 1..]) == s[..j + 1] + s[j + 2..];
    }
  }

  /** `del d[k]`; Python raises KeyError on a missing key, the program
      only deletes a key it has just found. */
  function Del<K(!new)>(d: Dict<K>, k: K): (r: Dict<K>)
    requires Valid(d) && k in d.vals
    ensures Valid(r)
    ensures r.vals == d.vals - {k}
    ensures |r.keys| == |d.keys| - 1
    ensures forall x :: x in r.keys ==> x in d.keys
    ensures r.keys == Without(d.keys, k)
    ensures r.keys == d.keys[..IndexOf(d.keys, k)] + d.keys[IndexOf(d.keys, k) + 1..]
  {
    WithoutSplices(d.keys, k);
    Dict(Without(d.keys, k), d.vals - {k})
  }

  lemma {:induction false} DistinctCard<K>(s: seq<K>)
    requires Distinct(s)
    ensures |(set x | x in s)| == |s|
  {
    if |s| > 0 {
      DistinctCard(s[1..]);
      assert (set x | x in s) == {s[0]} + (set x | x in s[1..]);
      assert s[0] !in s[1..];
    }
  }

  /** `len(d)` is the length of the key order. */
  lemma SizeMatches<K(!new)>(d: Dict<K>)
    requires Valid(d)
    ensures |d.vals| == |d.keys|
  {
    DistinctCard(d.keys);
    assert d.vals.Keys == (set x | x in d.keys);
  }
}
