/** The background reminder check of the service worker
    (public/service-worker.js): it reads the same notes object store, shows a
    notice for each due reminder and latches `notified` on that note. */
module ServiceWorker {
  import opened Types
  import opened LocalStore
  import opened Notifications

  /** The note with its reminder marked delivered; nothing else, not even
      `updatedAt`, changes. */
  function Latched(n: Note): (l: Note)
    requires n.reminder.Some?
    ensures l.reminder.Some? && l.reminder.value.notified
    ensures l.(reminder := n.reminder) == n
  {
    n.(reminder := Some(n.reminder.value.(notified := true)))
  }

  function LatchIfDue(n: Note, now: int): (l: Note)
    ensures !IsDue(l, now) && l.id == n.id
  {
    if IsDue(n, now) then Latched(n) else n
  }

  /** The store after one full pass at `now`: every due note latched, every other note as it was. */
  function LatchDue(m: map<Id, Note>, now: int): (r: map<Id, Note>)
    ensures r.Keys == m.Keys
  {
    map k | k in m :: LatchIfDue(m[k], now)
  }

  /** Ids of the stored notes that are due at `now`. */
  function DueKeys(m: map<Id, Note>, now: int): set<Id> {
    set k | k in m && IsDue(m[k], now)
  }

  /** A pass leaves nothing due at the same instant, so a second pass fires
      for no note; it changes only the due notes, and only their latch. */
  lemma LatchDueSettles(m: map<Id, Note>, now: int)
    ensures DueKeys(LatchDue(m, now), now) == {}
    ensures LatchDue(LatchDue(m, now), now) == LatchDue(m, now)
    ensures forall k :: k in m && !IsDue(m[k], now) ==> LatchDue(m, now)[k] == m[k]
    ensures forall k :: k in m ==> LatchDue(m, now)[k].updatedAt == m[k].updatedAt
  {
    var r := LatchDue(m, now);
    forall k | k in r ensures LatchIfDue(r[k], now) == r[k] {
      assert !IsDue(r[k], now);
    }
  }

  class Worker {
    const db: LocalStore.Store
    var permission: Permission
    /** `reminderInterval` is set. */
    var intervalStarted: bool
    /** Every notice shown so far. */
    var shown: seq<Notice>

    ghost predicate Valid()
      reads this, db
    {
      db.Valid()
    }

    constructor (db: LocalStore.Store, permission: Permission)
      ensures this.db == db && this.permission == permission
      ensures !intervalStarted && shown == []
    {
      this.db := db;
      this.permission := permission;
      intervalStarted := false;
      shown := [];
    }

    /** `markNoteAsNotified`: latch the stored note and answer true, or answer
        false and write nothing when the note is missing or has no reminder. */
    method MarkNoteAsNotified(noteId: Id) returns (ok: bool)
      requires Valid()
      modifies db
      ensures Valid()
      ensures ok <==> noteId in old(db.notes) && old(db.notes)[noteId].reminder.Some?
      ensures db.notes == if ok then old(db.notes)[noteId := Latched(old(db.notes)[noteId])] else old(db.notes)
    {
      if noteId in db.notes && db.notes[noteId].reminder.Some? {
        db.notes := db.notes[noteId := Latched(db.notes[noteId])];
        return true;
      }
      return false;
    }

    /** `checkReminders` at instant `now`. Without permission nothing happens;
        otherwise every stored due note gets a notice and is latched. The
        pass works on the notes as read at its start (`read`). */
    method CheckReminders(now: int) returns (fired: seq<Id>, ghost read: seq<Note>)
      requires Valid()
      modifies this`shown, db
      ensures Valid()
      ensures permission != Granted ==> fired == [] && db.notes == old(db.notes) && shown == old(shown)
      ensures permission == Granted ==>
        && DistinctIds(read) && Keyed(read) == old(db.notes)
        && db.notes == LatchDue(old(db.notes), now)
        && fired == Ids(Due(read, now))
        && shown == old(shown) + Notices(Due(read, now))
        && (forall i, j :: 0 <= i < j < |fired| ==> fired[i] != fired[j])
        && (forall k :: k in fired <==> k in DueKeys(old(db.notes), now))
    {
      if permission != Granted {
        return [], [];
      }
      fired, read := FullPass(now);
    }

    /** What `checkReminders` does once permission is granted: read the store
        (`read` is what the read returned), then notice and latch. */
    method FullPass(now: int) returns (fired: seq<Id>, ghost read: seq<Note>)
      requires Valid()
      modifies this`shown, db
      ensures Valid()
      ensures DistinctIds(read) && Keyed(read) == old(db.notes)
      ensures db.notes == LatchDue(old(db.notes), now)
      ensures fired == Ids(Due(read, now)) && shown == old(shown) + Notices(Due(read, now))
      ensures forall i, j :: 0 <= i < j < |fired| ==> fired[i] != fired[j]
      ensures forall k :: k in fired <==> k in DueKeys(old(db.notes), now)
    {
      ghost var m := db.notes;
      var notes := db.ReadAll();
      read := notes;
      ReadIsUnvisited(notes, m, now);
      fired := LatchPass(notes, now);
      FiredAreDue(notes, m, now);
      PassLatchesDue(notes, m, db.notes, now);
    }

    /** The loop of `checkReminders` over the notes read: notice and latch each due one. */
    method LatchPass(notes: seq<Note>, now: int) returns (fired: seq<Id>)
      requires Valid() && DistinctIds(notes)
      requires Visited(notes, 0, db.notes, now)
      modifies this`shown, db
      ensures Valid() && db.notes.Keys == old(db.notes).Keys
      ensures Visited(notes, |notes|, db.notes, now)
      ensures fired == Ids(Due(notes, now))
      ensures shown == old(shown) + Notices(Due(notes, now))
    {
      fired := [];
      var i := 0;
      while i < |notes|
        invariant 0 <= i <= |notes|
        invariant db.Valid() && db.notes.Keys == old(db.notes).Keys
        invariant Visited(notes, i, db.notes, now)
        invariant fired == Ids(Due(notes[..i], now))
        invariant shown == old(shown) + Notices(Due(notes[..i], now))
      {
        var note := notes[i];
        ghost var before := db.notes;
        DueStep(notes, i, now);
        var due := Visit(note, now);
        if due {
          fired := fired + [note.id];
        }
        VisitedStep(notes, i, before, db.notes, now);
        i := i + 1;
      }
      assert notes[..i] == notes;
    }

    /** One iteration of that loop: for a due note, show its notice and latch it. */
    method Visit(note: Note, now: int) returns (due: bool)
      requires Valid() && note.id in db.notes && db.notes[note.id] == note
      modifies this`shown, db
      ensures Valid() && due == IsDue(note, now)
      ensures db.notes == old(db.notes)[note.id := LatchIfDue(note, now)]
      ensures shown == if due then old(shown) + [NoticeFor(note)] else old(shown)
    {
      due := IsDue(note, now);
      if due {
        shown := shown + [NoticeFor(note)];
        var _ := MarkNoteAsNotified(note.id);
      } else {
        assert db.notes == db.notes[note.id := note];
      }
    }

    /** `startReminderCheck`: a no-op once the interval runs; otherwise start
        it and check at once (`read` is what that check read). */
    method StartReminderCheck(now: int) returns (ghost read: seq<Note>)
      requires Valid()
      modifies this`intervalStarted, this`shown, db
      ensures Valid() && intervalStarted
      ensures old(intervalStarted) || permission != Granted ==> db.notes == old(db.notes) && shown == old(shown)
      ensures !old(intervalStarted) && permission == Granted ==>
        && DistinctIds(read) && Keyed(read) == old(db.notes)
        && db.notes == LatchDue(old(db.notes), now)
        && shown == old(shown) + Notices(Due(read, now))
    {
      if intervalStarted {
        return [];
      }
      intervalStarted := true;
      var _, r := CheckReminders(now);
      read := r;
    }

    /** One tick of the minute interval (`read` is what its check read). */
    method Tick(now: int) returns (ghost read: seq<Note>)
      requires Valid()
      modifies this`shown, db
      ensures Valid()
      ensures !intervalStarted || permission != Granted ==> db.notes == old(db.notes) && shown == old(shown)
      ensures intervalStarted && permission == Granted ==>
        && DistinctIds(read) && Keyed(read) == old(db.notes)
        && db.notes == LatchDue(old(db.notes), now)
        && shown == old(shown) + Notices(Due(read, now))
    {
      read := [];
      if intervalStarted {
        var _, r := CheckReminders(now);
        read := r;
      }
    }
  }

  /** The first `i` notes of the pass are latched if they were due; the
      others are still stored as read. */
  ghost predicate Visited(notes: seq<Note>, i: nat, db: map<Id, Note>, now: int) {
    && i <= |notes|
    && (forall j :: 0 <= j < i ==> notes[j].id in db && db[notes[j].id] == LatchIfDue(notes[j], now))
    && (forall j :: i <= j < |notes| ==> notes[j].id in db && db[notes[j].id] == notes[j])
  }

  /** Before the pass every note read is stored as read. */
  lemma ReadIsUnvisited(notes: seq<Note>, m: map<Id, Note>, now: int)
    requires DistinctIds(notes) && Keyed(notes) == m
    ensures Visited(notes, 0, m, now)
  {
    forall j | 0 <= j < |notes| ensures notes[j].id in m && m[notes[j].id] == notes[j] {
      KeyedAt(notes, j);
    }
  }

  /** After the pass over a full read, the store is the latched store. */
  lemma PassLatchesDue(notes: seq<Note>, m: map<Id, Note>, after: map<Id, Note>, now: int)
    requires DistinctIds(notes) && Keyed(notes) == m
    requires Visited(notes, |notes|, after, now) && after.Keys == m.Keys
    ensures after == LatchDue(m, now)
  {
    forall k | k in after ensures after[k] == LatchDue(m, now)[k] {
      KeyedIn(notes, k);
      var j :| 0 <= j < |notes| && notes[j] == m[k];
      KeyedAt(notes, j);
    }
  }

  lemma VisitedStep(notes: seq<Note>, i: nat, before: map<Id, Note>, after: map<Id, Note>, now: int)
    requires DistinctIds(notes) && i < |notes| && Visited(notes, i, before, now)
    requires after == before[notes[i].id := LatchIfDue(notes[i], now)]
    ensures Visited(notes, i + 1, after, now)
  {
    forall j | 0 <= j < |notes| && j != i ensures after[notes[j].id] == before[notes[j].id] {
      assert notes[j].id != notes[i].id;
    }
  }

  /** The ids picked from a full read of the store are exactly the store's due
      ids, each once. */
  lemma FiredAreDue(notes: seq<Note>, m: map<Id, Note>, now: int)
    requires DistinctIds(notes) && Keyed(notes) == m
    ensures var fired := Ids(Due(notes, now));
      && (forall i, j :: 0 <= i < j < |fired| ==> fired[i] != fired[j])
      && (forall k :: k in fired <==> k in DueKeys(m, now))
  {
    KeyedValues(notes);
    DueMembers(notes, now);
    DueDistinct(notes, now);
    var d := Due(notes, now);
    var fired := Ids(d);
    forall k ensures k in fired <==> k in DueKeys(m, now) {
      if k in fired {
        var i :| 0 <= i < |fired| && fired[i] == k;
        assert d[i] in d;
      }
      if k in DueKeys(m, now) {
        assert m[k] in d;
        var i :| 0 <= i < |d| && d[i] == m[k];
        assert fired[i] == k;
      }
    }
  }
}
