/** The on-device note store (the IndexedDB object store `notes`, keyed by
    `id`), as an atomic replace-all map. */
module LocalStore {
  import opened Types

  /** The map that putting the notes one after another into an empty store
      leaves behind: a later note with the same id replaces an earlier one. */
  function Keyed(ns: seq<Note>): (m: map<Id, Note>)
    ensures m.Keys == IdSet(ns)
    ensures forall k :: k in m ==> m[k].id == k
  {
    if ns == [] then map[]
    else
      var init := ns[..|ns| - 1];
      assert ns == init + [ns[|ns| - 1]];
      assert IdSet(ns) == IdSet(init) + {ns[|ns| - 1].id};
      Keyed(init)[ns[|ns| - 1].id := ns[|ns| - 1]]
  }

  /** Without repeated ids every note of the list is what its id maps to. */
  lemma {:induction false} KeyedAt(ns: seq<Note>, k: nat)
    requires DistinctIds(ns) && k < |ns|
    ensures Keyed(ns)[ns[k].id] == ns[k]
  {
    var init := ns[..|ns| - 1];
    if k < |ns| - 1 {
      assert init[k] == ns[k];
      KeyedAt(init, k);
    }
  }

  /** The values of the keyed map are exactly the notes of a distinct-id list. */
  lemma KeyedValues(ns: seq<Note>)
    requires DistinctIds(ns)
    ensures forall n :: n in ns ==> n.id in Keyed(ns) && Keyed(ns)[n.id] == n
    ensures forall k :: k in Keyed(ns) ==> Keyed(ns)[k] in ns
  {
    forall n | n in ns ensures n.id in Keyed(ns) && Keyed(ns)[n.id] == n {
      var k :| 0 <= k < |ns| && ns[k] == n;
      KeyedAt(ns, k);
    }
  }

  lemma KeyedHas(ns: seq<Note>, n: Note)
    requires DistinctIds(ns) && n in ns
    ensures n.id in Keyed(ns) && Keyed(ns)[n.id] == n
  {
    KeyedValues(ns);
  }

  lemma KeyedIn(ns: seq<Note>, k: Id)
    requires DistinctIds(ns) && k in Keyed(ns)
    ensures Keyed(ns)[k] in ns
  {
    KeyedValues(ns);
  }

  /** A map with the list's ids as keys that sends each id to its note is the keyed map. */
  lemma KeyedUnique(ns: seq<Note>, m: map<Id, Note>)
    requires DistinctIds(ns) && m.Keys == IdSet(ns)
    requires forall i :: 0 <= i < |ns| ==> m[ns[i].id] == ns[i]
    ensures Keyed(ns) == m
  {
    forall k | k in m ensures Keyed(ns)[k] == m[k] {
      var n :| n in ns && n.id == k;
      var i :| 0 <= i < |ns| && ns[i] == n;
      KeyedAt(ns, i);
    }
  }

  /** Putting `a` and then `b`: the notes of `b` replace those of `a` with the same id. */
  lemma {:induction false} KeyedAppend(a: seq<Note>, b: seq<Note>)
    ensures Keyed(a + b) == Keyed(a) + Keyed(b)
  {
    if b == [] {
      assert a + b == a;
    } else {
      var init, x := b[..|b| - 1], b[|b| - 1];
      KeyedAppend(a, init);
      assert (a + b)[..|a + b| - 1] == a + init;
      assert Keyed(a + b) == Keyed(a + init)[x.id := x];
      assert Keyed(b) == Keyed(init)[x.id := x];
      MapUnionUpdate(Keyed(a), Keyed(init), x.id, x);
    }
  }

  lemma MapUnionUpdate(m: map<Id, Note>, n: map<Id, Note>, k: Id, v: Note)
    ensures (m + n)[k := v] == m + n[k := v]
  {
  }

  /** The notes object store. `notes[k].id == k` is its key path. */
  class Store {
    var notes: map<Id, Note>

    ghost predicate Valid()
      reads this
    {
      forall k :: k in notes ==> notes[k].id == k
    }

    constructor ()
      ensures Valid() && notes == map[]
    {
      notes := map[];
    }

    /** `getNotesLocal` (a `getAll`): every stored note once, in an order
        this model leaves open. */
    method ReadAll() returns (ns: seq<Note>)
      requires Valid()
      ensures DistinctIds(ns) && |ns| == |notes|
      ensures Keyed(ns) == notes
    {
      ns := [];
      var rest := notes.Keys;
      while rest != {}
        invariant rest <= notes.Keys
        invariant DistinctIds(ns) && IdSet(ns) == notes.Keys - rest
        invariant forall n :: n in ns ==> n.id in notes && notes[n.id] == n
        invariant |ns| + |rest| == |notes.Keys|
        decreases rest
      {
        var k :| k in rest;
        IdSetSnoc(ns, notes[k]);
        ns := ns + [notes[k]];
        rest := rest - {k};
      }
      KeyedValues(ns);
      assert |notes| == |notes.Keys|;
    }

    /** `saveNotesLocal`: clear the store, then put every note in turn. */
    method ReplaceAll(ns: seq<Note>)
      modifies this
      ensures Valid() && notes == Keyed(ns)
    {
      notes := map[];
      var i := 0;
      while i < |ns|
        invariant 0 <= i <= |ns|
        invariant notes == Keyed(ns[..i])
      {
        assert ns[..i + 1][..i] == ns[..i];
        notes := notes[ns[i].id := ns[i]];
        i := i + 1;
      }
      assert ns[..i] == ns;
    }
  }

  lemma IdSetSnoc(ns: seq<Note>, n: Note)
    ensures IdSet(ns + [n]) == IdSet(ns) + {n.id}
  {
    assert forall m :: m in ns + [n] <==> m in ns || m == n;
  }
}
