/** Reconciliation of the local snapshot with the cloud snapshot
    (`getNotes` in services/storageService.ts). The cloud decides which ids
    exist; for an id on both sides the local copy wins only when its
    `updatedAt` is strictly greater, and then it is queued for upload. */
module Reconcile {
  import opened Types
  import opened LocalStore

  /** The local copy (if any) is strictly newer than the cloud copy. */
  predicate LocalNewer(local: Option<Note>, c: Note) {
    local.Some? && local.value.updatedAt > c.updatedAt
  }

  /** The copy kept for a cloud note: one of the two copies, at least as new
      as each, and the cloud copy on a tie. */
  function Resolve(local: Option<Note>, c: Note): (r: Note)
    ensures r == c || (local.Some? && r == local.value)
    ensures r.updatedAt >= c.updatedAt
    ensures local.Some? ==> r.updatedAt >= local.value.updatedAt
    ensures local.Some? && local.value.updatedAt == c.updatedAt ==> r == c
  {
    if LocalNewer(local, c) then local.value else c
  }

  function Lookup(m: map<Id, Note>, k: Id): (r: Option<Note>)
    ensures r.Some? <==> k in m
    ensures r.Some? ==> r.value == m[k]
  {
    if k in m then Some(m[k]) else None
  }

  // ---------------------------------------------------------------------
  // The outcome as maps from id to note: L is the local store, C the cloud.

  /** The merged collection: one entry per cloud id. */
  function MergedMap(L: map<Id, Note>, C: map<Id, Note>): (m: map<Id, Note>)
    ensures m.Keys == C.Keys
  {
    map k | k in C :: Resolve(Lookup(L, k), C[k])
  }

  /** The local copies queued for upload. */
  function UploadMap(L: map<Id, Note>, C: map<Id, Note>): (u: map<Id, Note>)
    ensures u.Keys <= L.Keys * C.Keys
  {
    map k | k in C && k in L && L[k].updatedAt > C[k].updatedAt :: L[k]
  }

  /** When the code rewrites the local store: some local note is missing from
      the cloud, or some id held on both sides resolved to the cloud copy. */
  predicate WritesLocal(L: map<Id, Note>, C: map<Id, Note>) {
    (exists k :: k in L && k !in C) ||
    (exists k :: k in L && k in C && L[k].updatedAt <= C[k].updatedAt)
  }

  /** The store has to be rewritten exactly when the merged collection differs from it. */
  predicate NeedsLocalWrite(L: map<Id, Note>, C: map<Id, Note>) {
    MergedMap(L, C) != L
  }

  /** The id set of the result is the cloud's; local-only notes are dropped;
      a local copy survives and is uploaded iff it is strictly newer. */
  lemma MergeRule(L: map<Id, Note>, C: map<Id, Note>, k: Id)
    ensures k in MergedMap(L, C) <==> k in C
    ensures k in UploadMap(L, C) <==> k in L && k in C && L[k].updatedAt > C[k].updatedAt
    ensures k in C ==> MergedMap(L, C)[k] == if k in UploadMap(L, C) then L[k] else C[k]
  {
  }

  /** Last writer wins: the kept copy is one of the two and carries the larger
      timestamp; on a tie it is the cloud copy. */
  lemma MergedIsNewest(L: map<Id, Note>, C: map<Id, Note>, k: Id)
    requires k in C
    ensures MergedMap(L, C)[k] == C[k] || (k in L && MergedMap(L, C)[k] == L[k])
    ensures MergedMap(L, C)[k].updatedAt >= C[k].updatedAt
    ensures k in L ==> MergedMap(L, C)[k].updatedAt >= L[k].updatedAt
    ensures k in L && L[k].updatedAt == C[k].updatedAt ==> MergedMap(L, C)[k] == C[k]
  {
  }

  /** Reconciling the outcome again changes nothing: the store left by a run
      (the merged map) against the cloud left by it (uploads applied) merges
      to the same map, uploads nothing, and needs no write. The rule as coded
      still rewrites whenever the cloud holds anything. */
  lemma {:induction false} ReconcileIdempotent(L: map<Id, Note>, C: map<Id, Note>)
    ensures var L2, C2 := MergedMap(L, C), C + UploadMap(L, C);
      && MergedMap(L2, C2) == L2
      && UploadMap(L2, C2) == map[]
      && !NeedsLocalWrite(L2, C2)
      && (WritesLocal(L2, C2) <==> C2 != map[])
  {
    var L2, C2 := MergedMap(L, C), C + UploadMap(L, C);
    assert C2.Keys == C.Keys;
    forall k | k in C2 ensures L2[k] == C2[k] {
      MergeRule(L, C, k);
    }
    assert MergedMap(L2, C2) == L2;
    assert UploadMap(L2, C2) == map[];
    if C2 != map[] {
      var k :| k in C2;
      assert k in L2 && L2[k].updatedAt <= C2[k].updatedAt;
    }
  }

  // ---------------------------------------------------------------------
  // The loop over the cloud snapshot, as the code runs it on lists.

  /** `notesToUpload` after visiting `cloud`. */
  function Uploads(local: seq<Note>, cloud: seq<Note>): seq<Note> {
    if cloud == [] then []
    else
      var c := cloud[|cloud| - 1];
      var l := FindById(local, c.id);
      Uploads(local, cloud[..|cloud| - 1]) + (if LocalNewer(l, c) then [l.value] else [])
  }

  /** `notes.filter(n => !cloudNoteMap.has(n.id))`. */
  function Dropped(local: seq<Note>, cloud: seq<Note>): (d: seq<Note>)
    ensures |d| > 0 <==> exists n :: n in local && n.id !in IdSet(cloud)
  {
    if local == [] then []
    else
      var rest := Dropped(local[1..], cloud);
      assert forall n :: n in local <==> n == local[0] || n in local[1..];
      if local[0].id !in IdSet(cloud) then [local[0]] + rest else rest
  }

  /** Some id held on both sides resolved to the cloud copy (`hasLocalChanges` in the loop). */
  predicate OverlapToCloud(local: seq<Note>, cloud: seq<Note>) {
    exists c :: c in cloud && FindById(local, c.id).Some? && !Beats(local, c)
  }

  /** The body of `getNotes` once a cloud snapshot is in hand: returns
      `mergedNotes`, `notesToUpload` and whether the local store is rewritten
      (`hasLocalChanges || deletedCount > 0`). */
  method Merge(notes: seq<Note>, cloudNotes: seq<Note>)
    returns (merged: seq<Note>, toUpload: seq<Note>, writeLocal: bool)
    ensures |merged| == |cloudNotes|
    ensures forall i :: 0 <= i < |cloudNotes| ==>
      merged[i] == Resolve(FindById(notes, cloudNotes[i].id), cloudNotes[i])
    ensures toUpload == Uploads(notes, cloudNotes)
    ensures writeLocal <==> OverlapToCloud(notes, cloudNotes) || exists n :: n in notes && n.id !in IdSet(cloudNotes)
  {
    var hasLocalChanges;
    merged, toUpload, hasLocalChanges := VisitCloud(notes, cloudNotes);
    var deletedCount := |Dropped(notes, cloudNotes)|;
    if deletedCount > 0 {
      hasLocalChanges := true;
    }
    writeLocal := hasLocalChanges || deletedCount > 0;
  }

  /** The `cloudNotes.forEach` loop of `getNotes`. */
  method VisitCloud(notes: seq<Note>, cloudNotes: seq<Note>)
    returns (merged: seq<Note>, toUpload: seq<Note>, hasLocalChanges: bool)
    ensures MergeProgress(notes, cloudNotes, |cloudNotes|, merged, toUpload, hasLocalChanges)
    ensures cloudNotes[..|cloudNotes|] == cloudNotes
  {
    merged, toUpload := [], [];
    hasLocalChanges := false;
    var i := 0;
    while i < |cloudNotes|
      invariant MergeProgress(notes, cloudNotes, i, merged, toUpload, hasLocalChanges)
    {
      var cloudNote := cloudNotes[i];
      var localNote := FindById(notes, cloudNote.id);
      MergeStep(notes, cloudNotes, i, merged, toUpload, hasLocalChanges);
      if localNote.Some? && localNote.value.updatedAt > cloudNote.updatedAt {
        merged := merged + [localNote.value];
        toUpload := toUpload + [localNote.value];
      } else {
        merged := merged + [cloudNote];
        if localNote.Some? {
          hasLocalChanges := true;
        }
      }
      i := i + 1;
    }
    assert cloudNotes[..i] == cloudNotes;
  }

  /** The loop of `Merge` after `i` cloud notes. */
  ghost predicate MergeProgress(notes: seq<Note>, cloud: seq<Note>, i: nat, merged: seq<Note>, toUpload: seq<Note>, changed: bool) {
    && i <= |cloud| && |merged| == i
    && (forall j :: 0 <= j < i ==> merged[j] == Resolve(FindById(notes, cloud[j].id), cloud[j]))
    && toUpload == Uploads(notes, cloud[..i])
    && (changed <==> OverlapToCloud(notes, cloud[..i]))
  }

  lemma MergeStep(notes: seq<Note>, cloud: seq<Note>, i: nat, merged: seq<Note>, toUpload: seq<Note>, changed: bool)
    requires i < |cloud| && MergeProgress(notes, cloud, i, merged, toUpload, changed)
    ensures var c, l := cloud[i], FindById(notes, cloud[i].id);
      MergeProgress(notes, cloud, i + 1, merged + [Resolve(l, c)],
        toUpload + (if LocalNewer(l, c) then [l.value] else []), changed || (l.Some? && !LocalNewer(l, c)))
  {
    UploadsStep(notes, cloud, i);
    OverlapStep(notes, cloud, i);
  }

  lemma UploadsStep(local: seq<Note>, cloud: seq<Note>, i: nat)
    requires i < |cloud|
    ensures var c, l := cloud[i], FindById(local, cloud[i].id);
      Uploads(local, cloud[..i + 1]) == Uploads(local, cloud[..i]) + (if LocalNewer(l, c) then [l.value] else [])
  {
    assert cloud[..i + 1][..i] == cloud[..i];
  }

  lemma OverlapStep(local: seq<Note>, cloud: seq<Note>, i: nat)
    requires i < |cloud|
    ensures OverlapToCloud(local, cloud[..i + 1]) <==>
      OverlapToCloud(local, cloud[..i]) || (FindById(local, cloud[i].id).Some? && !Beats(local, cloud[i]))
  {
    assert cloud[..i + 1] == cloud[..i] + [cloud[i]];
    assert forall c :: c in cloud[..i + 1] <==> c in cloud[..i] || c == cloud[i];
  }

  /** `Merge` on snapshots without repeated ids, stated on the maps they stand for. */
  method MergeKeyed(notes: seq<Note>, cloudNotes: seq<Note>)
    returns (merged: seq<Note>, toUpload: seq<Note>, writeLocal: bool)
    requires DistinctIds(notes) && DistinctIds(cloudNotes)
    ensures var L, C := Keyed(notes), Keyed(cloudNotes);
      && DistinctIds(merged) && Keyed(merged) == MergedMap(L, C)
      && DistinctIds(toUpload) && Keyed(toUpload) == UploadMap(L, C)
      && (writeLocal <==> WritesLocal(L, C))
  {
    merged, toUpload, writeLocal := Merge(notes, cloudNotes);
    MergedAgrees(notes, cloudNotes, merged);
    UploadsAgree(notes, cloudNotes);
    WriteAgrees(notes, cloudNotes);
  }

  // ---------------------------------------------------------------------
  // From the lists back to the maps.

  /** The cloud note `c` is beaten by its local copy. */
  predicate Beats(local: seq<Note>, c: Note) {
    LocalNewer(FindById(local, c.id), c)
  }

  /** Every queued upload is the local copy of a cloud note it beats, and every such copy is queued. */
  lemma {:induction false} UploadsMembers(local: seq<Note>, cloud: seq<Note>)
    ensures forall n :: n in Uploads(local, cloud) <==>
      exists c :: c in cloud && Beats(local, c) && n == FindById(local, c.id).value
  {
    if cloud != [] {
      var init, c := cloud[..|cloud| - 1], cloud[|cloud| - 1];
      assert cloud == init + [c];
      UploadsMembers(local, init);
      assert forall d :: d in cloud <==> d in init || d == c;
    }
  }

  lemma {:induction false} UploadsDistinct(local: seq<Note>, cloud: seq<Note>)
    requires DistinctIds(cloud)
    ensures DistinctIds(Uploads(local, cloud))
    ensures IdSet(Uploads(local, cloud)) <= IdSet(cloud)
  {
    if cloud != [] {
      var init, c := cloud[..|cloud| - 1], cloud[|cloud| - 1];
      assert cloud == init + [c];
      DistinctInit(cloud);
      UploadsDistinct(local, init);
      IdSetSnoc(init, c);
      var u, l := Uploads(local, init), FindById(local, c.id);
      if LocalNewer(l, c) {
        DistinctSnoc(u, l.value);
      }
    }
  }

  /** Without repeated ids, dropping the last note keeps ids distinct and the last id is not among the rest. */
  lemma DistinctInit(ns: seq<Note>)
    requires DistinctIds(ns) && ns != []
    ensures DistinctIds(ns[..|ns| - 1]) && ns[|ns| - 1].id !in IdSet(ns[..|ns| - 1])
  {
    var init := ns[..|ns| - 1];
    forall j | 0 <= j < |init| ensures init[j].id != ns[|ns| - 1].id {
      assert init[j] == ns[j];
    }
  }

  lemma DistinctSnoc(ns: seq<Note>, n: Note)
    requires DistinctIds(ns) && n.id !in IdSet(ns)
    ensures DistinctIds(ns + [n]) && IdSet(ns + [n]) == IdSet(ns) + {n.id}
  {
    IdSetSnoc(ns, n);
    forall j | 0 <= j < |ns| ensures ns[j].id != n.id {
      assert ns[j] in ns;
    }
  }

  /** A cloud note and the local copy `find` returns for it, on a local list without repeated ids. */
  lemma FindIsLookup(local: seq<Note>, id: Id)
    requires DistinctIds(local)
    ensures FindById(local, id) == Lookup(Keyed(local), id)
  {
    KeyedValues(local);
    var l := FindById(local, id);
    if l.Some? {
      assert l.value in local;
    }
  }

  /** Each merged entry keeps the id of its cloud note and is resolved against the local map. */
  lemma MergedPointwise(local: seq<Note>, cloud: seq<Note>, merged: seq<Note>)
    requires DistinctIds(local) && DistinctIds(cloud)
    requires |merged| == |cloud|
    requires forall i :: 0 <= i < |cloud| ==> merged[i] == Resolve(FindById(local, cloud[i].id), cloud[i])
    ensures forall i :: 0 <= i < |cloud| ==>
      merged[i].id == cloud[i].id && merged[i] == Resolve(Lookup(Keyed(local), cloud[i].id), cloud[i])
    ensures DistinctIds(merged)
  {
    forall i | 0 <= i < |cloud|
      ensures merged[i].id == cloud[i].id && merged[i] == Resolve(Lookup(Keyed(local), cloud[i].id), cloud[i])
    {
      FindIsLookup(local, cloud[i].id);
    }
  }

  /** On lists without repeated ids, the merged list is the merged map. */
  lemma MergedAgrees(local: seq<Note>, cloud: seq<Note>, merged: seq<Note>)
    requires DistinctIds(local) && DistinctIds(cloud)
    requires |merged| == |cloud|
    requires forall i :: 0 <= i < |cloud| ==> merged[i] == Resolve(FindById(local, cloud[i].id), cloud[i])
    ensures DistinctIds(merged) && Keyed(merged) == MergedMap(Keyed(local), Keyed(cloud))
  {
    MergedPointwise(local, cloud, merged);
    MergedMapOfLists(Keyed(local), cloud, merged);
  }

  lemma MergedMapOfLists(L: map<Id, Note>, cloud: seq<Note>, merged: seq<Note>)
    requires DistinctIds(cloud) && DistinctIds(merged) && |merged| == |cloud|
    requires forall i :: 0 <= i < |cloud| ==>
      merged[i].id == cloud[i].id && merged[i] == Resolve(Lookup(L, cloud[i].id), cloud[i])
    ensures Keyed(merged) == MergedMap(L, Keyed(cloud))
  {
    var M := MergedMap(L, Keyed(cloud));
    SameIds(merged, cloud);
    forall i | 0 <= i < |merged| ensures merged[i].id in M && M[merged[i].id] == merged[i] {
      KeyedAt(cloud, i);
    }
    KeyedUnique(merged, M);
  }

  lemma SameIds(a: seq<Note>, b: seq<Note>)
    requires |a| == |b| && forall i :: 0 <= i < |a| ==> a[i].id == b[i].id
    ensures IdSet(a) == IdSet(b)
  {
    forall k | k in IdSet(a) ensures k in IdSet(b) {
      var n :| n in a && n.id == k;
      var i :| 0 <= i < |a| && a[i] == n;
      assert b[i] in b;
    }
    forall k | k in IdSet(b) ensures k in IdSet(a) {
      var n :| n in b && n.id == k;
      var i :| 0 <= i < |b| && b[i] == n;
      assert a[i] in a;
    }
  }

  /** On lists without repeated ids, the upload queue is the upload map. */
  lemma UploadsAgree(local: seq<Note>, cloud: seq<Note>)
    requires DistinctIds(local) && DistinctIds(cloud)
    ensures DistinctIds(Uploads(local, cloud)) && Keyed(Uploads(local, cloud)) == UploadMap(Keyed(local), Keyed(cloud))
  {
    UploadsDistinct(local, cloud);
    var K, U := Keyed(Uploads(local, cloud)), UploadMap(Keyed(local), Keyed(cloud));
    forall k | k in K ensures k in U && K[k] == U[k] {
      UploadedIsUpload(local, cloud, k);
    }
    forall k | k in U ensures k in K {
      UploadIsUploaded(local, cloud, k);
    }
  }

  lemma {:induction false} UploadedIsUpload(local: seq<Note>, cloud: seq<Note>, k: Id)
    requires DistinctIds(local) && DistinctIds(cloud) && DistinctIds(Uploads(local, cloud))
    requires k in Keyed(Uploads(local, cloud))
    ensures k in UploadMap(Keyed(local), Keyed(cloud))
    ensures Keyed(Uploads(local, cloud))[k] == UploadMap(Keyed(local), Keyed(cloud))[k]
  {
    var u := Uploads(local, cloud);
    var n := Keyed(u)[k];
    KeyedIn(u, k);
    UploadsMembers(local, cloud);
    var c :| c in cloud && Beats(local, c) && n == FindById(local, c.id).value;
    FindIsLookup(local, c.id);
    KeyedHas(cloud, c);
  }

  lemma {:induction false} UploadIsUploaded(local: seq<Note>, cloud: seq<Note>, k: Id)
    requires DistinctIds(local) && DistinctIds(cloud) && DistinctIds(Uploads(local, cloud))
    requires k in UploadMap(Keyed(local), Keyed(cloud))
    ensures k in Keyed(Uploads(local, cloud))
  {
    var C := Keyed(cloud);
    var c := C[k];
    KeyedIn(cloud, k);
    FindIsLookup(local, k);
    assert Beats(local, c);
    UploadsMembers(local, cloud);
    var n := FindById(local, c.id).value;
    assert n in Uploads(local, cloud);
    KeyedHas(Uploads(local, cloud), n);
  }

  /** On lists without repeated ids, the coded write condition is `WritesLocal` of the maps. */
  lemma WriteAgrees(local: seq<Note>, cloud: seq<Note>)
    requires DistinctIds(local) && DistinctIds(cloud)
    ensures (OverlapToCloud(local, cloud) || exists n :: n in local && n.id !in IdSet(cloud))
      <==> WritesLocal(Keyed(local), Keyed(cloud))
  {
    OverlapAgrees(local, cloud);
    DroppedAgrees(local, cloud);
  }

  lemma {:induction false} OverlapAgrees(local: seq<Note>, cloud: seq<Note>)
    requires DistinctIds(local) && DistinctIds(cloud)
    ensures var L, C := Keyed(local), Keyed(cloud);
      OverlapToCloud(local, cloud) <==> exists k :: k in L && k in C && L[k].updatedAt <= C[k].updatedAt
  {
    var L, C := Keyed(local), Keyed(cloud);
    if OverlapToCloud(local, cloud) {
      var c :| c in cloud && FindById(local, c.id).Some? && !Beats(local, c);
      FindIsLookup(local, c.id);
      KeyedHas(cloud, c);
      assert c.id in L && c.id in C && L[c.id].updatedAt <= C[c.id].updatedAt;
    }
    if exists k :: k in L && k in C && L[k].updatedAt <= C[k].updatedAt {
      var k :| k in L && k in C && L[k].updatedAt <= C[k].updatedAt;
      FindIsLookup(local, k);
      KeyedIn(cloud, k);
      assert C[k] in cloud && FindById(local, C[k].id).Some? && !Beats(local, C[k]);
    }
  }

  lemma {:induction false} DroppedAgrees(local: seq<Note>, cloud: seq<Note>)
    ensures (exists n :: n in local && n.id !in IdSet(cloud)) <==> exists k :: k in Keyed(local) && k !in Keyed(cloud)
  {
    if exists n :: n in local && n.id !in IdSet(cloud) {
      var n :| n in local && n.id !in IdSet(cloud);
      assert n.id in IdSet(local);
      assert n.id in Keyed(local) && n.id !in Keyed(cloud);
      assert exists k :: k in Keyed(local) && k !in Keyed(cloud);
    }
  }
}
