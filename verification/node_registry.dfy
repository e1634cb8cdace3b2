/** The node-id registry `idDict` of `construct_digraph`: every distinct
    node name gets the next dense integer id, in first-seen order. */
module NodeRegistry {
  import opened Names
  import opened OrderedDict

  /** `idDict` together with the counter `curID`. */
  datatype Registry = Registry(ids: Dict<Name>, next: int)

  /** Ids are exactly the positions of the names in insertion order, and
      the counter is the number of names seen. */
  ghost predicate Dense(r: Registry) {
    && Valid(r.ids)
    && r.next == |r.ids.keys|
    && forall i :: 0 <= i < |r.ids.keys| ==> r.ids.vals[r.ids.keys[i]] == i
  }

  function EmptyRegistry(): (r: Registry)
    ensures Dense(r) && r.next == 0 && r.ids.vals == map[]
  {
    Registry(Empty(), 0)
  }

  /** Look a name up, giving it the current counter (which then moves on)
      when it is new. */
  function Intern(r: Registry, name: Name): (r': Registry)
    requires Dense(r)
    ensures Dense(r')
    ensures name in r'.ids.vals
    ensures name in r.ids.vals ==> r' == r
    ensures name !in r.ids.vals ==> r'.ids.vals[name] == r.next && r'.next == r.next + 1
    ensures forall n :: n in r.ids.vals ==> n in r'.ids.vals && r'.ids.vals[n] == r.ids.vals[n]
    ensures forall n :: n in r'.ids.vals ==> n in r.ids.vals || n == name
  {
    if name in r.ids.vals then r
    else Registry(Set(r.ids, name, r.next), r.next + 1)
  }

  /** The ids form a bijection from the registered names onto [0, next). */
  lemma DenseBijection(r: Registry)
    requires Dense(r)
    ensures forall n :: n in r.ids.vals ==> 0 <= r.ids.vals[n] < r.next && r.ids.keys[r.ids.vals[n]] == n
    ensures forall a, b :: a in r.ids.vals && b in r.ids.vals && r.ids.vals[a] == r.ids.vals[b] ==> a == b
    ensures forall i :: 0 <= i < r.next ==> r.ids.keys[i] in r.ids.vals && r.ids.vals[r.ids.keys[i]] == i
    ensures |r.ids.vals| == r.next
  {
    forall n | n in r.ids.vals
      ensures 0 <= r.ids.vals[n] < r.next && r.ids.keys[r.ids.vals[n]] == n
    {
      var i :| 0 <= i < |r.ids.keys| && r.ids.keys[i] == n;
    }
    SizeMatches(r.ids);
  }

  /** Intern every name of `names` in order. */
  function Register(names: seq<Name>): (r: Registry)
    ensures Dense(r)
    ensures forall n :: n in r.ids.vals <==> n in names
  {
    if |names| == 0 then EmptyRegistry()
    else Intern(Register(names[..|names| - 1]), names[|names| - 1])
  }

  /** The counter ends at the number of distinct names (`maxID`). */
  lemma {:induction false} RegisterCount(names: seq<Name>)
    ensures Register(names).next == |(set n | n in names)|
  {
    var r := Register(names);
    DenseBijection(r);
    assert r.ids.vals.Keys == (set n | n in names);
  }

  /** A name's id is the number of distinct names seen before its first
      occurrence; a later occurrence never changes it. */
  lemma {:induction false} RegisterFirstSeen(names: seq<Name>, i: int)
    requires 0 <= i < |names| && names[i] !in names[..i]
    ensures Register(names).ids.vals[names[i]] == |(set n | n in names[..i])|
    decreases |names|
  {
    var front := names[..|names| - 1];
    if i == |names| - 1 {
      assert front == names[..i];
      RegisterCount(front);
    } else {
      assert front[..i] == names[..i];
      RegisterFirstSeen(front, i);
    }
  }
}
