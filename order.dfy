/** The display order used by the store and the dashboard:
    `notes.sort((a, b) => b.updatedAt - a.updatedAt)`, newest first. */
module Order {
  import opened Types

  predicate SortedDesc(ns: seq<Note>) {
    forall i, j :: 0 <= i < j < |ns| ==> ns[i].updatedAt >= ns[j].updatedAt
  }

  /** Puts `x` in front of the first note that is not newer than it. */
  function Insert(x: Note, ns: seq<Note>): seq<Note> {
    if ns == [] || x.updatedAt >= ns[0].updatedAt then [x] + ns
    else [ns[0]] + Insert(x, ns[1..])
  }

  /** Newest first; notes with equal `updatedAt` keep their input order. */
  function SortDesc(ns: seq<Note>): seq<Note> {
    if ns == [] then [] else Insert(ns[0], SortDesc(ns[1..]))
  }

  lemma {:induction false} InsertPermutes(x: Note, ns: seq<Note>)
    ensures multiset(Insert(x, ns)) == multiset(ns) + multiset{x}
  {
    if ns != [] && x.updatedAt < ns[0].updatedAt {
      InsertPermutes(x, ns[1..]);
      assert ns == [ns[0]] + ns[1..];
    }
  }

  lemma {:induction false} InsertSorted(x: Note, ns: seq<Note>)
    requires SortedDesc(ns)
    ensures SortedDesc(Insert(x, ns))
  {
    if ns != [] && x.updatedAt < ns[0].updatedAt {
      var rest := Insert(x, ns[1..]);
      InsertSorted(x, ns[1..]);
      InsertMembers(x, ns[1..]);
      forall j | 0 <= j < |rest| ensures ns[0].updatedAt >= rest[j].updatedAt {
        assert rest[j] in rest;
        if rest[j] != x {
          var i :| 0 <= i < |ns[1..]| && ns[1..][i] == rest[j];
          assert ns[i + 1] == rest[j];
        }
      }
      SortedCons(ns[0], rest);
    } else {
      SortedCons(x, ns);
    }
  }

  lemma {:induction false} InsertMembers(x: Note, ns: seq<Note>)
    ensures forall y :: y in Insert(x, ns) <==> y == x || y in ns
  {
    if ns != [] && x.updatedAt < ns[0].updatedAt {
      InsertMembers(x, ns[1..]);
      assert forall y :: y in ns <==> y == ns[0] || y in ns[1..];
    }
  }

  lemma SortedCons(a: Note, rest: seq<Note>)
    requires SortedDesc(rest) && forall j :: 0 <= j < |rest| ==> a.updatedAt >= rest[j].updatedAt
    ensures SortedDesc([a] + rest)
  {
    var r := [a] + rest;
    forall i, j | 0 <= i < j < |r| ensures r[i].updatedAt >= r[j].updatedAt {
      assert r[j] == rest[j - 1];
      if i > 0 {
        assert r[i] == rest[i - 1];
      }
    }
  }

  /** The result is ordered newest first and holds exactly the input notes. */
  lemma {:induction false} SortDescCorrect(ns: seq<Note>)
    ensures SortedDesc(SortDesc(ns))
    ensures multiset(SortDesc(ns)) == multiset(ns)
  {
    if ns != [] {
      SortDescCorrect(ns[1..]);
      InsertSorted(ns[0], SortDesc(ns[1..]));
      InsertPermutes(ns[0], SortDesc(ns[1..]));
      assert ns == [ns[0]] + ns[1..];
    }
  }

  /** The notes stamped exactly `t`, in list order. */
  function WithTime(ns: seq<Note>, t: int): seq<Note> {
    if ns == [] then []
    else (if ns[0].updatedAt == t then [ns[0]] else []) + WithTime(ns[1..], t)
  }

  /** Among notes with the same stamp the inserted one comes first. */
  lemma {:induction false} InsertWithTime(x: Note, ns: seq<Note>, t: int)
    ensures WithTime(Insert(x, ns), t) == (if x.updatedAt == t then [x] else []) + WithTime(ns, t)
  {
    if ns == [] || x.updatedAt >= ns[0].updatedAt {
      var r := [x] + ns;
      assert r[0] == x && r[1..] == ns;
    } else {
      var rest := Insert(x, ns[1..]);
      var r := [ns[0]] + rest;
      assert r[0] == ns[0] && r[1..] == rest;
      InsertWithTime(x, ns[1..], t);
    }
  }

  /** The sort is stable: notes with equal `updatedAt` keep their input order,
      as JavaScript's `Array.prototype.sort` does. */
  lemma {:induction false} SortDescStable(ns: seq<Note>, t: int)
    ensures WithTime(SortDesc(ns), t) == WithTime(ns, t)
  {
    if ns != [] {
      SortDescStable(ns[1..], t);
      InsertWithTime(ns[0], SortDesc(ns[1..]), t);
    }
  }

  lemma {:induction false} InsertKeepsIds(x: Note, ns: seq<Note>)
    ensures IdSet(Insert(x, ns)) == IdSet(ns) + {x.id} && |Insert(x, ns)| == |ns| + 1
  {
    if ns != [] && x.updatedAt < ns[0].updatedAt {
      InsertKeepsIds(x, ns[1..]);
      IdSetCons(ns[0], ns[1..]);
      IdSetCons(ns[0], Insert(x, ns[1..]));
      assert ns == [ns[0]] + ns[1..];
    } else {
      IdSetCons(x, ns);
    }
  }

  lemma {:induction false} InsertKeepsDistinct(x: Note, ns: seq<Note>)
    requires DistinctIds(ns) && x.id !in IdSet(ns)
    ensures DistinctIds(Insert(x, ns))
  {
    if ns != [] && x.updatedAt < ns[0].updatedAt {
      IdSetCons(ns[0], ns[1..]);
      assert ns == [ns[0]] + ns[1..];
      InsertKeepsDistinct(x, ns[1..]);
      InsertKeepsIds(x, ns[1..]);
      var r := Insert(x, ns[1..]);
      assert ns[0].id !in IdSet(r);
      forall j | 0 <= j < |r| ensures r[j].id != ns[0].id {
        assert r[j] in r;
      }
    } else {
      forall j | 0 <= j < |ns| ensures ns[j].id != x.id {
        assert ns[j] in ns;
      }
    }
  }

  /** Sorting keeps the set of ids and their distinctness. */
  lemma {:induction false} SortDescKeepsIds(ns: seq<Note>)
    ensures IdSet(SortDesc(ns)) == IdSet(ns) && |SortDesc(ns)| == |ns|
    ensures DistinctIds(ns) ==> DistinctIds(SortDesc(ns))
  {
    if ns != [] {
      SortDescKeepsIds(ns[1..]);
      InsertKeepsIds(ns[0], SortDesc(ns[1..]));
      assert ns == [ns[0]] + ns[1..];
      IdSetCons(ns[0], ns[1..]);
      if DistinctIds(ns) {
        forall j | 0 <= j < |ns| - 1 ensures ns[1..][j].id != ns[0].id { }
        assert ns[0].id !in IdSet(ns[1..]);
        InsertKeepsDistinct(ns[0], SortDesc(ns[1..]));
      }
    }
  }
}
