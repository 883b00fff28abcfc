/** The typed state container carried by routes and requests: one value per type. */
module States {
  import opened Options

  type TypeId = nat
  type Value = nat

  /** The map behind the box; None until the first insertion. */
  type Entries = Option<map<TypeId, Value>>

  function Lookup(entries: Entries, k: TypeId): Option<Value> {
    if entries.Some? then Get(entries.value, k) else None
  }

  /** What `extend_from` leaves behind: `over` wins where both have a value. */
  function Overlay(under: Entries, over: Entries): Entries {
    if over.None? then under
    else if under.None? then over
    else Some(under.value + over.value)
  }

  lemma OverlayLookup(under: Entries, over: Entries, k: TypeId)
    ensures Lookup(Overlay(under, over), k) == OrElse(Lookup(over, k), Lookup(under, k))
  {
  }

  lemma OverlayAssociative(a: Entries, b: Entries, c: Entries)
    ensures Overlay(Overlay(a, b), c) == Overlay(a, Overlay(b, c))
  {
    if a.Some? && b.Some? && c.Some? {
      assert (a.value + b.value) + c.value == a.value + (b.value + c.value);
    }
  }

  class State {
    var entries: Entries

    constructor ()
      ensures entries == None
    {
      entries := None;
    }

    method Insert(k: TypeId, v: Value) returns (previous: Option<Value>)
      modifies this
      ensures previous == Lookup(old(entries), k)
      ensures entries == Overlay(old(entries), Some(map[k := v]))
    {
      var m := if entries.Some? then entries.value else map[];
      previous := Get(m, k);
      entries := Some(m[k := v]);
      assert m + map[k := v] == m[k := v];
    }

    method Remove(k: TypeId) returns (previous: Option<Value>)
      modifies this
      ensures previous == Lookup(old(entries), k)
      ensures entries.Some? == old(entries).Some?
      ensures forall j :: Lookup(entries, j) == if j == k then None else Lookup(old(entries), j)
    {
      previous := Lookup(entries, k);
      if entries.Some? {
        entries := Some(entries.value - {k});
      }
    }

    method Clear()
      modifies this
      ensures entries == if old(entries).Some? then Some(map[]) else None
    {
      if entries.Some? {
        entries := Some(map[]);
      }
    }

    /** The entries of `other` are visited in an arbitrary order. */
    method ExtendFrom(other: State)
      modifies this
      ensures entries == Overlay(old(entries), old(other.entries))
    {
      if other.entries.Some? {
        var source := other.entries.value;
        var dst := if entries.Some? then entries.value else map[];
        ghost var start := dst;
        var todo := source.Keys;
        while todo != {}
          invariant todo <= source.Keys
          invariant dst.Keys == start.Keys + (source.Keys - todo)
          invariant forall k | k in dst :: dst[k] == if k in source && k !in todo then source[k] else start[k]
        {
          var k :| k in todo;
          dst := dst[k := source[k]];
          todo := todo - {k};
        }
        assert dst == start + source;
        assert old(entries).None? ==> start + source == source;
        entries := Some(dst);
      }
    }
  }
}
