/**
 * Session-keyed registries: one dictionary from session id to the tracked
 * entity, per entity kind, with the semantics of the .NET `Dictionary` calls the
 * callbacks make.
 */
module Registries {

  /** The outcome of `Dictionary.Add`: it throws `ArgumentException` on a key already present. */
  datatype AddResult = Added | DuplicateKey

  /** `Dictionary.Add(id, e)`: a fresh id gains the entry, an existing one leaves the map alone. */
  function AddEntry<E>(m: map<int, E>, id: int, e: E): (r: map<int, E>)
    ensures r.Keys == m.Keys + {id}
    ensures id in m ==> r == m
    ensures id !in m ==> r[id] == e && |r| == |m| + 1
    ensures forall k :: k in m ==> r[k] == m[k]
  {
    if id in m then m else m[id := e]
  }

  /** The indexer assignment `dict[id] = e`: insert or replace. */
  function PutEntry<E>(m: map<int, E>, id: int, e: E): (r: map<int, E>)
    ensures r.Keys == m.Keys + {id} && r[id] == e
    ensures forall k :: k in m && k != id ==> r[k] == m[k]
    ensures |r| == if id in m then |m| else |m| + 1
  {
    m[id := e]
  }

  /** `Dictionary.Remove(id)`: the key is gone afterwards, silently so if it was absent. */
  function RemoveEntry<E>(m: map<int, E>, id: int): (r: map<int, E>)
    ensures r.Keys == m.Keys - {id}
    ensures forall k :: k in r ==> r[k] == m[k]
    ensures |r| == if id in m then |m| - 1 else |m|
  {
    var r := m - {id};
    assert id in m ==> m.Keys == r.Keys + {id};
    r
  }

  /** Adding a fresh session and removing it again restores the registry. */
  lemma AddThenRemove<E>(m: map<int, E>, id: int, e: E)
    requires id !in m
    ensures RemoveEntry(AddEntry(m, id, e), id) == m
  {
    assert RemoveEntry(AddEntry(m, id, e), id).Keys == m.Keys;
  }

  /** Removing twice is removing once. */
  lemma RemoveIdempotent<E>(m: map<int, E>, id: int)
    ensures RemoveEntry(RemoveEntry(m, id), id) == RemoveEntry(m, id)
  {
  }

  /** An update after an add leaves the same registry as adding the updated value. */
  lemma PutAfterAdd<E>(m: map<int, E>, id: int, e: E, e': E)
    requires id !in m
    ensures PutEntry(AddEntry(m, id, e), id, e') == AddEntry(m, id, e')
  {
  }

  /** One dictionary field of the form, updated in place by the callbacks. */
  class Registry<E> {
    var entries: map<int, E>

    /** `new Dictionary<long, E>(128)`; the capacity is only a sizing hint. */
    constructor ()
      ensures entries == map[]
    {
      entries := map[];
    }

    method Add(id: int, e: E) returns (r: AddResult)
      modifies this
      ensures r == if id in old(entries) then DuplicateKey else Added
      ensures entries == AddEntry(old(entries), id, e)
    {
      if id in entries {
        r := DuplicateKey;
      } else {
        entries := entries[id := e];
        r := Added;
      }
    }

    method Put(id: int, e: E)
      modifies this
      ensures entries == PutEntry(old(entries), id, e)
    {
      entries := entries[id := e];
    }

    /** Returns whether the key was present, as `Dictionary.Remove` does. */
    method Remove(id: int) returns (removed: bool)
      modifies this
      ensures removed == (id in old(entries))
      ensures entries == RemoveEntry(old(entries), id)
    {
      removed := id in entries;
      entries := entries - {id};
    }
  }
}
