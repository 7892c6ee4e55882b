/** Discrepancies between what the store promises and what the code does,
    each shown on a concrete or general input, next to the corrected rule
    and the property it restores. */
module Findings {
  import opened Types
  import opened LocalStore
  import opened Supabase
  import opened Reconcile
  import opened ServiceWorker

  // ---------------------------------------------------------------------
  // 1. A note deleted in the app comes back on the next load.

  /** The confirm-delete handler as written saves the remaining notes (an
      upsert) instead of deleting the row, so the cloud still holds the
      note; the next merge takes its ids from the cloud and restores it. */
  lemma DeletedNoteReturns(notes: seq<Note>, id: Id, table: map<Id, Row>)
    requires DistinctIds(notes) && id in table
    ensures var rest := Without(notes, id);
      DistinctIds(rest) &&
      var merged := MergedMap(Keyed(rest), Data(Upserted(table, rest)));
      id in merged && merged[id] == Data(table)[id]
  {
    var rest := Without(notes, id);
    WithoutDistinct(notes, id);
    assert id !in IdSet(rest);
    DataOfUpserted(table, rest);
  }

  /** Deleting the row as well (`deleteNote`) keeps the note away. */
  lemma DeletedNoteStaysDeleted(notes: seq<Note>, id: Id, table: map<Id, Row>)
    ensures id !in MergedMap(Keyed(Without(notes, id)), Data(table - {id}))
  {
  }

  /** Filtering keeps ids distinct. */
  lemma {:induction false} WithoutDistinct(ns: seq<Note>, id: Id)
    requires DistinctIds(ns)
    ensures DistinctIds(Without(ns, id))
  {
    if ns != [] {
      WithoutDistinct(ns[1..], id);
      var rest := Without(ns[1..], id);
      if ns[0].id != id {
        assert Without(ns, id) == [ns[0]] + rest;
        forall j | 0 <= j < |rest| ensures rest[j].id != ns[0].id {
          assert rest[j] in ns[1..];
          var k :| 0 <= k < |ns[1..]| && ns[1..][k] == rest[j];
          assert ns[k + 1] == rest[j];
        }
      }
    }
  }

  // ---------------------------------------------------------------------
  // 2. A note that exists only in the cloud is not written to the local store.

  /** On an empty store and a cloud holding one note, the coded condition does
      not rewrite the store although the merged notes differ from it: the
      note is shown but missing from the store once offline. */
  lemma CloudOnlyNoteNotStored(c: Note)
    ensures var L, C := map[], map[c.id := c];
      !WritesLocal(L, C) && NeedsLocalWrite(L, C) && c.id in MergedMap(L, C)
  {
    var L, C := map[], map[c.id := c];
    assert MergedMap(L, C)[c.id] == c;
  }

  /** The coded condition misses exactly such notes: whenever it skips the
      write, the store differs from the merge only by cloud-only notes. */
  lemma SkippedWriteMissesOnlyCloudNotes(L: map<Id, Note>, C: map<Id, Note>)
    requires !WritesLocal(L, C)
    ensures L.Keys <= C.Keys
    ensures forall k :: k in L ==> MergedMap(L, C)[k] == L[k]
    ensures NeedsLocalWrite(L, C) <==> exists k :: k in C && k !in L
  {
    var M := MergedMap(L, C);
    if !(exists k :: k in C && k !in L) {
      assert M.Keys == L.Keys;
      assert M == L;
    } else {
      var k :| k in C && k !in L;
      assert k in M;
    }
  }

  // ---------------------------------------------------------------------
  // 3. The service worker's latch is undone by the next sync (a consequence
  //    of the worker leaving `updatedAt` alone and of ties going to the cloud).

  /** The latch leaves `updatedAt` as it was, so against the unchanged cloud
      copy it loses the tie: the merge brings back `notified == false` and
      nothing is uploaded. */
  lemma LatchRevertedBySync(L: map<Id, Note>, C: map<Id, Note>, k: Id)
    requires k in L && k in C && C[k].reminder.Some? && !C[k].reminder.value.notified
    requires L[k] == Latched(C[k])
    ensures MergedMap(L, C)[k].reminder.Some? && !MergedMap(L, C)[k].reminder.value.notified
    ensures k !in UploadMap(L, C)
  {
  }

  // ---------------------------------------------------------------------
  // 4. Switching sync on against an empty cloud table empties the store (a
  //    consequence of the cloud deciding which notes exist).

  /** Every local note counts as deleted elsewhere, so the merge is empty and
      the store is rewritten to nothing. */
  lemma EmptyCloudWipesLocal(L: map<Id, Note>)
    ensures MergedMap(L, map[]) == map[]
    ensures WritesLocal(L, map[]) <==> L != map[]
  {
    var none: map<Id, Note> := map[];
    if L != map[] {
      var k :| k in L;
      assert k !in none;
    }
  }
}
