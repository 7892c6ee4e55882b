/** The dashboard (App.tsx): the in-memory note list, the handlers that
    compute a new whole list from it and persist it, and the filtered view. */
module App {
  import opened Types
  import opened Order
  import opened LocalStore
  import opened Supabase
  import opened Checklist
  import opened Reconcile
  import Storage

  /** `notes.map(n => n.id === id ? f(n) : n)`. */
  function Updated(notes: seq<Note>, id: Id, f: Note -> Note): (r: seq<Note>)
    ensures |r| == |notes|
  {
    if notes == [] then []
    else [if notes[0].id == id then f(notes[0]) else notes[0]] + Updated(notes[1..], id, f)
  }

  /** Every position keeps its note unless that note carries the id, which
      is then rewritten by `f`; order and length are kept. */
  lemma {:induction false} UpdatedAt(notes: seq<Note>, id: Id, f: Note -> Note)
    ensures forall k :: 0 <= k < |notes| ==>
      Updated(notes, id, f)[k] == if notes[k].id == id then f(notes[k]) else notes[k]
  {
    if notes != [] {
      UpdatedAt(notes[1..], id, f);
      var r := Updated(notes, id, f);
      forall k | 1 <= k < |notes|
        ensures r[k] == Updated(notes[1..], id, f)[k - 1] && notes[k] == notes[1..][k - 1]
      { }
    }
  }

  /** Two lists with the same id at every position have the same ids. */
  lemma PositionwiseIds(a: seq<Note>, b: seq<Note>)
    requires |a| == |b| && forall k :: 0 <= k < |a| ==> a[k].id == b[k].id
    ensures IdSet(a) == IdSet(b) && (DistinctIds(a) ==> DistinctIds(b))
  {
    forall x | x in IdSet(a) ensures x in IdSet(b) {
      var n :| n in a && n.id == x;
      var k :| 0 <= k < |a| && a[k] == n;
      assert b[k] in b;
    }
    forall x | x in IdSet(b) ensures x in IdSet(a) {
      var n :| n in b && n.id == x;
      var k :| 0 <= k < |b| && b[k] == n;
      assert a[k] in a;
    }
  }

  /** When `f` keeps the id, the store written from the updated list is the
      old one with that one entry rewritten, or unchanged when the id is absent. */
  lemma UpdatedKeyed(notes: seq<Note>, id: Id, f: Note -> Note)
    requires DistinctIds(notes)
    requires forall k :: 0 <= k < |notes| && notes[k].id == id ==> f(notes[k]).id == id
    ensures DistinctIds(Updated(notes, id, f))
    ensures Keyed(Updated(notes, id, f)) ==
      if id in Keyed(notes) then Keyed(notes)[id := f(Keyed(notes)[id])] else Keyed(notes)
  {
    var r := Updated(notes, id, f);
    UpdatedAt(notes, id, f);
    PositionwiseIds(notes, r);
    var m := if id in Keyed(notes) then Keyed(notes)[id := f(Keyed(notes)[id])] else Keyed(notes);
    forall i | 0 <= i < |r| ensures m[r[i].id] == r[i] {
      KeyedAt(notes, i);
    }
    KeyedUnique(r, m);
  }

  /** The note as `handleSaveNote` stores it: `updatedAt` is the save time. */
  function Stamped(note: Note, now: int): (s: Note)
    ensures s.updatedAt == now && s.id == note.id
  {
    note.(updatedAt := now)
  }

  /** The list after `handleSaveNote(note)`: the stamped note replaces the
      one with its id when editing or when the id is taken, and is put in
      front otherwise. */
  function WithSaved(notes: seq<Note>, note: Note, editing: bool, now: int): seq<Note> {
    var s := Stamped(note, now);
    if editing || s.id in IdSet(notes) then Updated(notes, s.id, _ => s) else [s] + notes
  }

  /** Whatever `updatedAt` the note carried, every copy of it in the saved list
      is stamped with the save time; unless it is an edit of a note that is
      gone, it is in the list. */
  lemma SaveStampsNow(notes: seq<Note>, note: Note, editing: bool, now: int)
    ensures forall n :: n in WithSaved(notes, note, editing, now) && n.id == note.id ==> n == Stamped(note, now)
    ensures (!editing || note.id in IdSet(notes)) ==> Stamped(note, now) in WithSaved(notes, note, editing, now)
  {
    var s := Stamped(note, now);
    var r := WithSaved(notes, note, editing, now);
    if editing || s.id in IdSet(notes) {
      UpdatedAt(notes, s.id, _ => s);
      forall n | n in r && n.id == note.id ensures n == s {
        var k :| 0 <= k < |r| && r[k] == n;
      }
      if note.id in IdSet(notes) {
        var n :| n in notes && n.id == note.id;
        var k :| 0 <= k < |notes| && notes[k] == n;
        assert r[k] == s;
      }
    } else {
      assert forall n :: n in r ==> n == s || n in notes;
    }
  }

  /** Editing, or saving an id already present, rewrites that note in place:
      same length, every other note untouched at its position; editing a note
      that is no longer there leaves the list as it was. */
  lemma SaveInPlace(notes: seq<Note>, note: Note, editing: bool, now: int)
    requires editing || note.id in IdSet(notes)
    ensures |WithSaved(notes, note, editing, now)| == |notes|
    ensures forall k :: 0 <= k < |notes| && notes[k].id != note.id ==> WithSaved(notes, note, editing, now)[k] == notes[k]
    ensures note.id !in IdSet(notes) ==> WithSaved(notes, note, editing, now) == notes
  {
    var s := Stamped(note, now);
    var r := WithSaved(notes, note, editing, now);
    UpdatedAt(notes, s.id, _ => s);
    if note.id !in IdSet(notes) {
      forall k | 0 <= k < |notes| ensures r[k] == notes[k] {
        assert notes[k] in notes;
      }
    }
  }

  /** A new id saved outside the editor of an existing note goes in front. */
  lemma SaveNewPrepends(notes: seq<Note>, note: Note, now: int)
    requires note.id !in IdSet(notes)
    ensures WithSaved(notes, note, false, now) == [Stamped(note, now)] + notes
    ensures |WithSaved(notes, note, false, now)| == |notes| + 1
  {
  }

  /** Save at the level of the store: the saved note is written under its id,
      nothing else changes, and ids stay distinct. */
  lemma SaveKeyed(notes: seq<Note>, note: Note, editing: bool, now: int)
    requires DistinctIds(notes)
    ensures DistinctIds(WithSaved(notes, note, editing, now))
    ensures Keyed(WithSaved(notes, note, editing, now)) ==
      if editing && note.id !in IdSet(notes) then Keyed(notes)
      else Keyed(notes)[note.id := Stamped(note, now)]
  {
    var s := Stamped(note, now);
    if editing || s.id in IdSet(notes) {
      UpdatedKeyed(notes, s.id, _ => s);
    } else {
      PrependKeyed(s, notes);
    }
  }

  /** A note whose id is new, put in front, is simply added to the store. */
  lemma PrependKeyed(s: Note, notes: seq<Note>)
    requires DistinctIds(notes) && s.id !in IdSet(notes)
    ensures DistinctIds([s] + notes)
    ensures Keyed([s] + notes) == Keyed(notes)[s.id := s]
  {
    PrependDistinct(s, notes);
    KeyedAppend([s], notes);
    KeyedOne(s);
    UnionFresh(Keyed(notes), s.id, s);
  }

  lemma PrependDistinct(s: Note, notes: seq<Note>)
    requires DistinctIds(notes) && s.id !in IdSet(notes)
    ensures DistinctIds([s] + notes)
  {
    var r := [s] + notes;
    forall i, j | 0 <= i < j < |r| ensures r[i].id != r[j].id {
      assert r[j] == notes[j - 1] && notes[j - 1] in notes;
      if i > 0 {
        assert r[i] == notes[i - 1];
      }
    }
  }

  lemma KeyedOne(s: Note)
    ensures Keyed([s]) == map[s.id := s]
  {
    assert [s][..0] == [];
  }

  lemma UnionFresh(m: map<Id, Note>, k: Id, v: Note)
    requires k !in m
    ensures map[k := v] + m == m[k := v]
  {
  }

  /** The note after a dashboard checkbox toggle. */
  function NoteToggled(n: Note, itemId: Id, now: int): (t: Note)
    ensures t.id == n.id && t.updatedAt == now
  {
    n.(items := ItemsToggled(n.items, itemId), updatedAt := now)
  }

  /** The list after `handleToggleItem(noteId, itemId)`. */
  function WithToggled(notes: seq<Note>, noteId: Id, itemId: Id, now: int): seq<Note> {
    Updated(notes, noteId, n => NoteToggled(n, itemId, now))
  }

  /** A toggle touches only the note `noteId`: its items are toggled and it is
      stamped, every other field of it and every other note stays as it was. */
  lemma ToggleTouchesOneNote(notes: seq<Note>, noteId: Id, itemId: Id, now: int)
    ensures |WithToggled(notes, noteId, itemId, now)| == |notes|
    ensures forall k :: 0 <= k < |notes| ==> var t := WithToggled(notes, noteId, itemId, now)[k];
      if notes[k].id == noteId then
        t.(items := notes[k].items, updatedAt := notes[k].updatedAt) == notes[k]
        && t.items == ItemsToggled(notes[k].items, itemId) && t.updatedAt == now
      else t == notes[k]
  {
    UpdatedAt(notes, noteId, n => NoteToggled(n, itemId, now));
  }

  /** At the level of the store, a toggle rewrites the one entry `noteId`. */
  lemma ToggleKeyed(notes: seq<Note>, noteId: Id, itemId: Id, now: int)
    requires DistinctIds(notes)
    ensures DistinctIds(WithToggled(notes, noteId, itemId, now))
    ensures Keyed(WithToggled(notes, noteId, itemId, now)) ==
      if noteId in Keyed(notes) then Keyed(notes)[noteId := NoteToggled(Keyed(notes)[noteId], itemId, now)]
      else Keyed(notes)
  {
    UpdatedKeyed(notes, noteId, n => NoteToggled(n, itemId, now));
  }

  /** What reading the chosen backup file gives. */
  datatype ImportFile = Parsed(notes: seq<Note>) | NotAnArray | Unreadable

  /** The imported notes whose ids the current list does not hold, in file order. */
  function NewNotes(notes: seq<Note>, imported: seq<Note>): (r: seq<Note>)
    ensures |r| <= |imported|
  {
    if imported == [] then []
    else (if imported[0].id !in IdSet(notes) then [imported[0]] else []) + NewNotes(notes, imported[1..])
  }

  /** The list after a merge import: the new notes, then the current ones. */
  function MergedImport(notes: seq<Note>, imported: seq<Note>): seq<Note> {
    NewNotes(notes, imported) + notes
  }

  /** The new notes are exactly the imported notes with an unused id. */
  lemma {:induction false} NewNotesMembers(notes: seq<Note>, imported: seq<Note>)
    ensures forall n :: n in NewNotes(notes, imported) <==> n in imported && n.id !in IdSet(notes)
  {
    if imported != [] {
      NewNotesMembers(notes, imported[1..]);
      assert forall n :: n in imported <==> n == imported[0] || n in imported[1..];
    }
  }

  /** Selecting the new notes of a file is done piece by piece, so file order is kept. */
  lemma {:induction false} NewNotesAppend(notes: seq<Note>, a: seq<Note>, b: seq<Note>)
    ensures NewNotes(notes, a + b) == NewNotes(notes, a) + NewNotes(notes, b)
  {
    if a == [] {
      assert a + b == b;
    } else {
      assert (a + b)[0] == a[0] && (a + b)[1..] == a[1..] + b;
      NewNotesAppend(notes, a[1..], b);
    }
  }

  /** A merge import never overwrites a note already present, adds every
      imported id, and the count it reports is the growth of the list. */
  lemma MergeImportKeepsExisting(notes: seq<Note>, imported: seq<Note>)
    ensures var m := Keyed(MergedImport(notes, imported));
      && m.Keys == IdSet(notes) + IdSet(imported)
      && (forall k :: k in Keyed(notes) ==> m[k] == Keyed(notes)[k])
    ensures |MergedImport(notes, imported)| == |notes| + |NewNotes(notes, imported)|
    ensures MergedImport(notes, imported)[|NewNotes(notes, imported)|..] == notes
  {
    KeyedAppend(NewNotes(notes, imported), notes);
    NewNotesMembers(notes, imported);
    var m := Keyed(MergedImport(notes, imported));
    forall x | x in IdSet(imported) ensures x in m {
      var n :| n in imported && n.id == x;
      if x !in IdSet(notes) {
        assert n in NewNotes(notes, imported);
      }
    }
  }

  /** ASCII `toLowerCase`. */
  function Lower(s: string): (r: string)
    ensures |r| == |s|
  {
    if s == [] then []
    else [if 'A' <= s[0] <= 'Z' then (s[0] as int + 32) as char else s[0]] + Lower(s[1..])
  }

  /** `s.startsWith(p)`. */
  predicate StartsWith(s: string, p: string) {
    |p| <= |s| && s[..|p|] == p
  }

  /** `s.includes(p)`. */
  predicate Contains(s: string, p: string) {
    StartsWith(s, p) || (s != [] && Contains(s[1..], p))
  }

  /** `includes` finds `p` exactly when it starts at some position of `s`. */
  lemma {:induction false} ContainsAt(s: string, p: string)
    ensures Contains(s, p) <==> exists i :: 0 <= i <= |s| && StartsWith(s[i..], p)
  {
    if s != [] {
      ContainsAt(s[1..], p);
      assert s[0..] == s;
      if Contains(s[1..], p) {
        var i :| 0 <= i <= |s[1..]| && StartsWith(s[1..][i..], p);
        assert s[1..][i..] == s[i + 1..];
      }
      if exists i :: 0 <= i <= |s| && StartsWith(s[i..], p) {
        var i :| 0 <= i <= |s| && StartsWith(s[i..], p);
        if i > 0 {
          assert s[1..][i - 1..] == s[i..];
        }
      }
    } else {
      assert s[0..] == s;
    }
  }

  /** The search filter of the dashboard for the active category and query. */
  predicate Matches(n: Note, category: string, query: string) {
    var q := Lower(query);
    && n.category == category
    && (Contains(Lower(n.title), q) || Contains(Lower(n.content), q)
        || (n.subcategory.Some? && Contains(Lower(n.subcategory.value), q)))
  }

  function Filtered(notes: seq<Note>, category: string, query: string): (r: seq<Note>)
    ensures |r| <= |notes|
  {
    if notes == [] then []
    else (if Matches(notes[0], category, query) then [notes[0]] else []) + Filtered(notes[1..], category, query)
  }

  /** `filteredNotes`: the matching notes, newest first. */
  function FilteredView(notes: seq<Note>, category: string, query: string): seq<Note> {
    SortDesc(Filtered(notes, category, query))
  }

  lemma {:induction false} FilteredMembers(notes: seq<Note>, category: string, query: string)
    ensures forall n :: n in Filtered(notes, category, query) <==> n in notes && Matches(n, category, query)
  {
    if notes != [] {
      FilteredMembers(notes[1..], category, query);
      assert forall n :: n in notes <==> n == notes[0] || n in notes[1..];
    }
  }

  /** The view holds exactly the notes of the category that match the query
      (each as often as in the list), ordered newest first. */
  lemma FilteredViewCorrect(notes: seq<Note>, category: string, query: string)
    ensures forall n :: n in FilteredView(notes, category, query) <==> n in notes && Matches(n, category, query)
    ensures multiset(FilteredView(notes, category, query)) == multiset(Filtered(notes, category, query))
    ensures SortedDesc(FilteredView(notes, category, query))
  {
    FilteredMembers(notes, category, query);
    var f := Filtered(notes, category, query);
    SortDescCorrect(f);
    forall n ensures n in SortDesc(f) <==> n in f {
      assert n in SortDesc(f) <==> n in multiset(SortDesc(f));
      assert n in f <==> n in multiset(f);
    }
  }

  /** With an empty query the view is the whole category. */
  lemma EmptyQueryShowsCategory(notes: seq<Note>, category: string)
    ensures forall n :: n in FilteredView(notes, category, "") <==> n in notes && n.category == category
  {
    FilteredViewCorrect(notes, category, "");
    forall n | n in notes && n.category == category ensures Matches(n, category, "") {
      assert StartsWith(Lower(n.title), "");
    }
  }

  /** The dashboard's state. `deleteTarget` is the modal's `noteId`. */
  class AppState {
    const store: Storage.Store
    var notes: seq<Note>
    var editingNote: Option<Note>
    var editorOpen: bool
    var deleteModalOpen: bool
    var deleteTarget: Option<Id>
    var darkMode: bool

    ghost predicate Valid()
      reads this, store, store.local, store.cloud
    {
      store.Valid()
    }

    constructor (store: Storage.Store)
      ensures this.store == store && notes == [] && editingNote == None && !editorOpen
      ensures !deleteModalOpen && deleteTarget == None && darkMode
    {
      this.store := store;
      notes := [];
      editingNote := None;
      editorOpen := false;
      deleteModalOpen := false;
      deleteTarget := None;
      darkMode := true;
    }

    /** The mount effects, as written. `init` runs `initDB` up to its first
        `await`; the theme effect then runs with the current `darkMode` and
        stores it; `init` resumes, loads the notes and reads the theme back
        from the settings the effect has just written. On mount `darkMode` is
        the initial `true`, so a stored light theme is overwritten. */
    method Init(constructs: bool)
      requires Valid()
      modifies this`notes, this`darkMode, store`legacyItem, store`settingsItem, store.local, store.cloud`handle, store.cloud`table
      ensures Valid()
      ensures darkMode == old(darkMode)
      ensures store.GetSettings() == old(store.GetSettings()).(darkMode := old(darkMode))
      ensures DistinctIds(notes) && SortedDesc(notes)
      ensures !store.Online() ==> Keyed(notes) == store.local.notes
      ensures store.legacyItem == if old(store.legacyItem) == Some(Storage.LegacyUnparsable) then old(store.legacyItem) else None
      ensures var L, C := Storage.Migrated(old(store.legacyItem), old(store.local.notes)), Data(old(store.cloud.table));
        && (!store.Online() ==> Keyed(notes) == L && store.local.notes == L && store.cloud.table == old(store.cloud.table))
        && (store.Online() ==>
              && Keyed(notes) == MergedMap(L, C)
              && store.local.notes == (if WritesLocal(L, C) then MergedMap(L, C) else L)
              && store.cloud.table == WithRows(old(store.cloud.table), UploadMap(L, C)))
    {
      store.InitDB(constructs);
      SetDarkMode(darkMode, constructs);
      Load();
      darkMode := store.GetSettings().darkMode;
    }

    /** Start-up with the theme read before the theme effect runs, so that
        the effect stores back the theme it read. */
    method InitKeepingTheme(constructs: bool)
      requires Valid()
      modifies this`notes, this`darkMode, store`legacyItem, store`settingsItem, store.local, store.cloud`handle, store.cloud`table
      ensures Valid()
      ensures darkMode == old(store.GetSettings()).darkMode
      ensures store.GetSettings() == old(store.GetSettings())
      ensures DistinctIds(notes) && SortedDesc(notes)
      ensures !store.Online() ==> Keyed(notes) == store.local.notes
      ensures store.legacyItem == if old(store.legacyItem) == Some(Storage.LegacyUnparsable) then old(store.legacyItem) else None
      ensures var L, C := Storage.Migrated(old(store.legacyItem), old(store.local.notes)), Data(old(store.cloud.table));
        && (!store.Online() ==> Keyed(notes) == L && store.local.notes == L && store.cloud.table == old(store.cloud.table))
        && (store.Online() ==>
              && Keyed(notes) == MergedMap(L, C)
              && store.local.notes == (if WritesLocal(L, C) then MergedMap(L, C) else L)
              && store.cloud.table == WithRows(old(store.cloud.table), UploadMap(L, C)))
    {
      store.InitDB(constructs);
      darkMode := store.GetSettings().darkMode;
      SetDarkMode(darkMode, constructs);
      Load();
    }

    /** `setNotes(await getNotes())`, with `getNotes` as written. */
    method Load()
      requires Valid()
      modifies this`notes, store.local, store.cloud`table
      ensures Valid() && DistinctIds(notes) && SortedDesc(notes)
      ensures store.Online() == old(store.Online())
      ensures !old(store.Online()) ==>
        Keyed(notes) == old(store.local.notes) && store.local.notes == old(store.local.notes)
        && store.cloud.table == old(store.cloud.table)
      ensures old(store.Online()) ==> var L, C := old(store.local.notes), Data(old(store.cloud.table));
        && Keyed(notes) == MergedMap(L, C)
        && store.local.notes == (if WritesLocal(L, C) then MergedMap(L, C) else L)
        && store.cloud.table == WithRows(old(store.cloud.table), UploadMap(L, C))
    {
      notes := store.GetNotes();
    }

    /** Loading through the corrected `GetNotesMirrored`: the notes shown are
        the notes stored. */
    method LoadMirrored()
      requires Valid()
      modifies this`notes, store.local, store.cloud`table
      ensures Valid() && DistinctIds(notes) && SortedDesc(notes)
      ensures store.Online() == old(store.Online())
      ensures Keyed(notes) == store.local.notes
      ensures !old(store.Online()) ==> store.local.notes == old(store.local.notes) && store.cloud.table == old(store.cloud.table)
      ensures old(store.Online()) ==> var L, C := old(store.local.notes), Data(old(store.cloud.table));
        && Keyed(notes) == MergedMap(L, C)
        && store.cloud.table == WithRows(old(store.cloud.table), UploadMap(L, C))
    {
      notes := store.GetNotesMirrored();
    }

    /** The theme effect: store the settings with the new `darkMode`; like
        every `saveSettings`, this re-initialises the client from the stored config. */
    method SetDarkMode(dark: bool, constructs: bool)
      modifies this`darkMode, store`settingsItem, store.cloud`handle
      ensures darkMode == dark && store.GetSettings() == old(store.GetSettings()).(darkMode := dark)
      ensures var c := old(store.GetSettings()).supabaseConfig;
        store.cloud.handle == if c.Some? then Storage.Reinitialised(c.value, constructs, old(store.cloud.handle)) else old(store.cloud.handle)
    {
      darkMode := dark;
      store.SaveSettings(store.GetSettings().(darkMode := dark), constructs);
    }

    /** A card click (`Some`) or the new-note button (`None`). */
    method OpenEditor(note: Option<Note>)
      modifies this`editingNote, this`editorOpen
      ensures editingNote == note && editorOpen
      ensures notes == old(notes) && deleteTarget == old(deleteTarget) && deleteModalOpen == old(deleteModalOpen)
    {
      editingNote := note;
      editorOpen := true;
    }

    /** `setNotes(updated)` followed by `saveNotes(updated)`. */
    method Persist(updated: seq<Note>)
      requires Valid()
      modifies this`notes, store.local, store.cloud`table
      ensures Valid() && notes == updated
      ensures store.local.notes == Keyed(updated)
      ensures store.cloud.table ==
        if old(store.Online()) && DistinctIds(updated) then Upserted(old(store.cloud.table), updated) else old(store.cloud.table)
    {
      store.SaveNotes(updated);
      notes := updated;
    }

    method HandleSaveNote(note: Note, now: int)
      requires Valid()
      modifies this`notes, this`editingNote, store.local, store.cloud`table
      ensures Valid()
      ensures notes == WithSaved(old(notes), note, old(editingNote).Some?, now)
      ensures store.local.notes == Keyed(notes)
      ensures store.cloud.table ==
        if old(store.Online()) && DistinctIds(notes) then Upserted(old(store.cloud.table), notes) else old(store.cloud.table)
      ensures editingNote == None && editorOpen == old(editorOpen)
      ensures deleteTarget == old(deleteTarget) && deleteModalOpen == old(deleteModalOpen)
    {
      Persist(WithSaved(notes, note, editingNote.Some?, now));
      editingNote := None;
    }

    method HandleRequestDelete(id: Id)
      modifies this`deleteModalOpen, this`deleteTarget
      ensures deleteModalOpen && deleteTarget == Some(id)
      ensures notes == old(notes) && editingNote == old(editingNote) && editorOpen == old(editorOpen)
    {
      deleteModalOpen := true;
      deleteTarget := Some(id);
    }

    /** The modal's close button: the target is kept. */
    method CloseDeleteModal()
      modifies this`deleteModalOpen
      ensures !deleteModalOpen && deleteTarget == old(deleteTarget) && notes == old(notes)
    {
      deleteModalOpen := false;
    }

    /** `handleConfirmDelete`, as written: without a target (or with the empty
        id, which is falsy) nothing happens; otherwise the note is filtered out
        and the list is persisted with `saveNotes`, which only upserts, so the
        cloud row of the note is left in place. */
    method HandleConfirmDelete()
      requires Valid()
      modifies this`notes, this`editingNote, this`editorOpen, store.local, store.cloud`table
      ensures Valid()
      ensures old(deleteTarget).None? || old(deleteTarget).value == "" ==>
        notes == old(notes) && store.local.notes == old(store.local.notes)
        && store.cloud.table == old(store.cloud.table) && editingNote == old(editingNote)
      ensures old(deleteTarget).Some? && old(deleteTarget).value != "" ==> var id := old(deleteTarget).value;
        && notes == Without(old(notes), id)
        && store.local.notes == Keyed(notes)
        && store.cloud.table ==
             (if old(store.Online()) && DistinctIds(notes) then Upserted(old(store.cloud.table), notes) else old(store.cloud.table))
        && (old(editingNote).Some? && old(editingNote).value.id == id ==> editingNote == None && !editorOpen)
        && (!(old(editingNote).Some? && old(editingNote).value.id == id) ==>
              editingNote == old(editingNote) && editorOpen == old(editorOpen))
      ensures deleteTarget == old(deleteTarget) && deleteModalOpen == old(deleteModalOpen)
    {
      if deleteTarget.None? || deleteTarget.value == "" {
        return;
      }
      var id := deleteTarget.value;
      Persist(Without(notes, id));
      if editingNote.Some? && editingNote.value.id == id {
        editorOpen := false;
        editingNote := None;
      }
    }

    /** The delete the dashboard evidently intends: the same local effect,
        through `deleteNote`, which also removes the cloud row. */
    method HandleConfirmDeleteRemote()
      requires Valid()
      modifies this`notes, this`editingNote, this`editorOpen, store.local, store.cloud`table
      ensures Valid()
      ensures old(deleteTarget).None? || old(deleteTarget).value == "" ==>
        notes == old(notes) && store.local.notes == old(store.local.notes)
        && store.cloud.table == old(store.cloud.table) && editingNote == old(editingNote)
      ensures old(deleteTarget).Some? && old(deleteTarget).value != "" ==> var id := old(deleteTarget).value;
        && notes == Without(old(notes), id)
        && store.local.notes == Keyed(notes)
        && store.cloud.table == (if old(store.Online()) then old(store.cloud.table) - {id} else old(store.cloud.table))
        && (old(editingNote).Some? && old(editingNote).value.id == id ==> editingNote == None && !editorOpen)
        && (!(old(editingNote).Some? && old(editingNote).value.id == id) ==>
              editingNote == old(editingNote) && editorOpen == old(editorOpen))
      ensures deleteTarget == old(deleteTarget) && deleteModalOpen == old(deleteModalOpen)
    {
      if deleteTarget.None? || deleteTarget.value == "" {
        return;
      }
      var id := deleteTarget.value;
      notes := store.DeleteNote(id, notes);
      if editingNote.Some? && editingNote.value.id == id {
        editorOpen := false;
        editingNote := None;
      }
    }

    method HandleToggleItem(noteId: Id, itemId: Id, now: int)
      requires Valid()
      modifies this`notes, store.local, store.cloud`table
      ensures Valid()
      ensures notes == WithToggled(old(notes), noteId, itemId, now)
      ensures store.local.notes == Keyed(notes)
      ensures store.cloud.table ==
        if old(store.Online()) && DistinctIds(notes) then Upserted(old(store.cloud.table), notes) else old(store.cloud.table)
      ensures editingNote == old(editingNote) && deleteTarget == old(deleteTarget)
    {
      Persist(WithToggled(notes, noteId, itemId, now));
    }

    /** `handleImportFile` once the file is read; `replace` is the answer to
        the confirm dialog. Returns the count the merge reports. */
    method HandleImportFile(file: ImportFile, replace: bool) returns (added: Option<nat>)
      requires Valid()
      modifies this`notes, store.local, store.cloud`table
      ensures Valid()
      ensures !file.Parsed? ==> (added == None && notes == old(notes)
        && store.local.notes == old(store.local.notes) && store.cloud.table == old(store.cloud.table))
      ensures file.Parsed? && replace ==> added == None && notes == file.notes
      ensures file.Parsed? && !replace ==>
        notes == MergedImport(old(notes), file.notes) && added == Some(|NewNotes(old(notes), file.notes)|)
      ensures file.Parsed? ==> (store.local.notes == Keyed(notes) && store.cloud.table ==
        if old(store.Online()) && DistinctIds(notes) then Upserted(old(store.cloud.table), notes) else old(store.cloud.table))
      ensures editingNote == old(editingNote) && deleteTarget == old(deleteTarget)
    {
      added := None;
      if file.Parsed? {
        if replace {
          Persist(file.notes);
        } else {
          var newNotes := NewNotes(notes, file.notes);
          Persist(newNotes + notes);
          added := Some(|newNotes|);
        }
      }
    }
  }

  /** Mounting the dashboard over a store, as written: the `useState`
      defaults (dark), then the mount effects. Whatever theme was stored,
      the dashboard comes up dark and the stored theme becomes dark. */
  method Mount(store: Storage.Store, constructs: bool) returns (app: AppState)
    requires store.Valid()
    modifies store`legacyItem, store`settingsItem, store.local, store.cloud`handle, store.cloud`table
    ensures app.store == store && app.Valid()
    ensures app.darkMode && store.GetSettings() == old(store.GetSettings()).(darkMode := true)
  {
    app := new AppState(store);
    app.Init(constructs);
  }

  /** Mounting with the theme read before the theme effect: the stored
      theme is shown and kept. */
  method MountKeepingTheme(store: Storage.Store, constructs: bool) returns (app: AppState)
    requires store.Valid()
    modifies store`legacyItem, store`settingsItem, store.local, store.cloud`handle, store.cloud`table
    ensures app.store == store && app.Valid()
    ensures app.darkMode == old(store.GetSettings()).darkMode && store.GetSettings() == old(store.GetSettings())
  {
    app := new AppState(store);
    app.InitKeepingTheme(constructs);
  }
}
