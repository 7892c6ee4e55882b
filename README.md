# nexusnotes note store, in Dafny

A model of the offline-first note store of nexusnotes, a notes app written in
TypeScript and React. The model covers these parts:

- **The local store.** An IndexedDB object store `notes`, keyed by note id (`LocalStore`).
- **The cloud client.** A Supabase client handle and the remote `notes` table it upserts into, deletes from and reads (`Supabase`).
- **The hybrid store.** `services/storageService.ts`, which ties the two together (`Storage`):
  - the migration of the old localStorage item;
  - the settings with their default;
  - `getNotes`, which reconciles the local snapshot with the cloud snapshot (`Reconcile`): the cloud decides which notes exist, the strictly newer `updatedAt` wins, and ties go to the cloud;
  - `saveNotes` and `deleteNote`.
- **The dashboard handlers.** Save, delete, checkbox toggle, backup import and the search filter (`App`, `Checklist`, `Order`).
- **The reminder checks.** The page-side check and the service worker's background check with its `notified` latch (`Notifications`, `ServiceWorker`).
- **The editors.** The settings dialog, the note editor, the category editor and the calendar view (`SettingsModal`, `NoteEditor`, `Categories`, `Calendar`).

How the model represents the program:

- **Dates.** Instants are integer milliseconds. A calendar day is `(year, month 0..11, day)`, as `getFullYear`, `getMonth` and `getDate` give it.
- **Two-digit years.** The calendar view builds its dates with `new Date(year, month, day)`, which reads a year argument from 0 to 99 as 1900 plus it. `Calendar.FullYear` models that, and the view's operations apply it. So the round trip of `MonthShiftBack` is proved only when the first move lands outside the years 0..99, and `MonthShiftTwoDigitYear` shows where it fails.
- **Stores.** The local store is a `map<Id, Note>` field of a class whose methods reassign it. The cloud table is a `map<Id, Row>`. Each method names in its `modifies` clause the fields it writes, so the connection state (`handle`, `reachable`) and the settings are unchanged wherever a method does not name them.
- **Names.** The category field `label` is called `name`, because `label` is a reserved word in Dafny.
- **Parameters for what the program asks its environment:**
  - whether the network answers (`reachable`);
  - whether `createClient` returns (`constructs`);
  - the current instant (`now`);
  - fresh ids;
  - the conversion of date text or instants to local days (`ofDate`, `ofInstant`).

Where the documented behaviour and the code differ, the model follows the code:

- `getNotes` rewrites the local store only under the coded `hasLocalChanges || deletedCount > 0` condition (`WritesLocal`). It does not rewrite the store whenever the merged notes differ from it (`NeedsLocalWrite`).
- The dashboard's delete saves the remaining notes and never calls `deleteNote`.
- `initSupabase` keeps the previous client when `createClient` throws. It clears the client only when the config is unusable.
- An empty cloud answer is truthy in JavaScript, so it is merged. It then drops every local note.
- An upsert batch that repeats an id is refused, as the database refuses to touch one row twice in one statement.

Two consequences of the code are proved without being logged as defects:

- `Findings.LatchRevertedBySync`: the service worker's latch leaves `updatedAt` alone. So against an unchanged cloud copy it loses the tie, and the next sync brings back `notified == false`.
- `Findings.EmptyCloudWipesLocal`: switching sync on against an empty table empties the local store.

## Model

| member | source | states |
|---|---|---|
| Types.FindById | services/storageService.ts:104 | `find` by id answers a note exactly when the id occurs, and the note answered carries that id |
| Types.FindByIdAt | services/storageService.ts:104 | in a list without repeated ids, `find` returns the note at the index holding the id |
| Types.Without | App.tsx:93 | `filter(n => n.id !== id)` keeps exactly the notes with another id |
| Types.WithoutAbsent | App.tsx:93 | removing an id no note carries changes nothing |
| Types.WithoutAt | App.tsx:93 | without repeated ids, removing the id at index k cuts out exactly that entry and keeps the order of the rest |
| LocalStore.Keyed | services/storageService.ts:62-79 | putting the notes one by one gives a store keyed by id, each key mapping to a note with that id and exactly the list's ids as keys |
| LocalStore.KeyedAt | services/storageService.ts:62-79 | without repeated ids, every note of the list is what the store holds under its id |
| LocalStore.KeyedValues | services/storageService.ts:51-79 | without repeated ids, the stored notes are exactly the notes of the list |
| LocalStore.KeyedUnique | services/storageService.ts:62-79 | any map with the list's ids that sends each id to its note is the stored map |
| LocalStore.KeyedAppend | services/storageService.ts:62-79 | putting `a` then `b` is `b`'s notes overriding `a`'s |
| LocalStore.Store.constructor | services/storageService.ts:27-47 | a new object store is empty and keyed by id |
| LocalStore.Store.ReadAll | services/storageService.ts:51-60 | `getAll` returns every stored note once: no repeated ids, and the list keys back to the store |
| LocalStore.Store.ReplaceAll | services/storageService.ts:62-79 | after clear-then-put the store is exactly the keyed list |
| Order.InsertPermutes | services/storageService.ts:144 | one insertion step adds exactly the inserted note to the multiset |
| Order.InsertSorted | services/storageService.ts:144 | inserting into a newest-first list keeps it newest first |
| Order.InsertMembers | services/storageService.ts:144 | the notes after an insertion are the inserted note and the old ones |
| Order.SortDescCorrect | services/storageService.ts:144 | the sort orders newest first and is a permutation of its input |
| Order.InsertKeepsIds | services/storageService.ts:144 | an insertion adds the note's id and one to the length |
| Order.InsertKeepsDistinct | services/storageService.ts:144 | inserting a note with a new id keeps ids distinct |
| Order.SortDescKeepsIds | services/storageService.ts:144 | sorting keeps the set of ids, the length and their distinctness |
| Order.SortDesc | services/storageService.ts:144 | the newest-first sort, by insertion; its properties are `SortDescCorrect`, `SortDescKeepsIds` and `SortDescStable` |
| Order.InsertWithTime | services/storageService.ts:144 | among the notes with one stamp, an inserted note of that stamp comes before the others, which keep their order |
| Order.SortDescStable | services/storageService.ts:144 | the sort is stable: the notes sharing an `updatedAt` appear in input order, as JavaScript's `sort` keeps them |
| Supabase.RowOf | services/supabaseService.ts:28-32 | a row carries the note's id, its `updatedAt` as `updated_at`, and the whole note as `data` |
| Supabase.WithRows | services/supabaseService.ts:34-36 | an upsert on `id` writes a row for each given note and leaves every other row alone |
| Supabase.WithNoRows | services/supabaseService.ts:34-36 | an upsert of nothing leaves the table as it was |
| Supabase.Upserted | services/supabaseService.ts:20-45 | the table after upserting a batch: its ids added, each of them holding its note's row, other rows unchanged |
| Supabase.Data | services/supabaseService.ts:77 | a fetch hands back one note per row, with the table's ids |
| Supabase.DataOfUpserted | services/supabaseService.ts:20-83 | fetching after an upsert gives the old notes overridden by the upserted ones |
| Supabase.Client.constructor | services/supabaseService.ts:4 | the module starts without a client |
| Supabase.Client.InitSupabase | services/supabaseService.ts:6-18 | true exactly for an enabled config with url and key when `createClient` returns, then the client is set; an unusable config clears the client; a throwing `createClient` keeps the old one |
| Supabase.Client.SyncNotesToCloud | services/supabaseService.ts:20-45 | "Not connected" without a client; success exactly with a client, a reachable server and no repeated id, then the table is the upserted table; on failure the table is unchanged |
| Supabase.Client.DeleteNoteFromCloud | services/supabaseService.ts:47-63 | "Not connected" without a client; success exactly with a client and a reachable server; the row is gone exactly on success |
| Supabase.Client.FetchNotesFromCloud | services/supabaseService.ts:65-83 | a list exactly with a client and a reachable server; it holds the table's notes once each |
| Reconcile.Lookup | services/storageService.ts:95-96 | the map lookup answers exactly for held ids, with the held note |
| Reconcile.LocalNewer | services/storageService.ts:105 | the local copy wins only when it exists and its `updatedAt` is strictly later |
| Reconcile.Resolve | services/storageService.ts:104-113 | the kept copy is the cloud copy or the local one, is at least as new as each, and is the cloud copy on a tie |
| Reconcile.WritesLocal | services/storageService.ts:100-125 | the coded write condition on maps: some local id missing from the cloud, or some shared id resolved to the cloud copy |
| Reconcile.NeedsLocalWrite | services/storageService.ts:124-126 | what the comment at the write intends: the merged notes differ from the stored ones; `Findings.CloudOnlyNoteNotStored` shows it differs from `WritesLocal` |
| Reconcile.Uploads | services/storageService.ts:99-114 | `notesToUpload` after visiting a prefix of the cloud list; `UploadsMembers`, `UploadsDistinct` and `UploadsAgree` characterise it |
| Reconcile.MergedMap | services/storageService.ts:93-114 | the merged collection has exactly the cloud's ids |
| Reconcile.UploadMap | services/storageService.ts:105-108 | uploads are only for ids held on both sides |
| Reconcile.MergeRule | services/storageService.ts:93-118 | an id is kept iff the cloud has it; queued for upload iff held locally and strictly newer there; the kept copy is the local one exactly when it is uploaded |
| Reconcile.MergedIsNewest | services/storageService.ts:105-112 | last writer wins: the kept copy is one of the two, is at least as new as each, and ties go to the cloud |
| Reconcile.ReconcileIdempotent | services/storageService.ts:83-138 | reconciling the outcome again against the cloud the first run left changes nothing and uploads nothing |
| Reconcile.Dropped | services/storageService.ts:118 | some local note is dropped iff some local id is missing from the cloud |
| Reconcile.Merge | services/storageService.ts:95-125 | the merged list follows the cloud list note by note, each resolved against its local copy; the upload queue is `Uploads`; the write flag is the coded condition |
| Reconcile.VisitCloud | services/storageService.ts:103-114 | the `forEach` loop leaves the merge, the queue and `hasLocalChanges` as after visiting every cloud note |
| Reconcile.MergeKeyed | services/storageService.ts:93-128 | on lists without repeated ids the merge is `MergedMap`, the queue is `UploadMap` and the write flag is `WritesLocal` of the two maps |
| Reconcile.UploadsMembers | services/storageService.ts:105-108 | a note is queued iff it is the local copy of a cloud note it strictly beats |
| Reconcile.UploadsDistinct | services/storageService.ts:105-108 | the queue repeats no id and holds only cloud ids |
| Reconcile.FindIsLookup | services/storageService.ts:104 | on a local list without repeated ids, `find` is a lookup in the keyed store |
| Reconcile.MergedPointwise | services/storageService.ts:103-114 | each merged entry keeps its cloud note's id and is resolved against the local map; the merge repeats no id |
| Reconcile.MergedAgrees | services/storageService.ts:103-114 | the merged list keys to `MergedMap` of the two snapshots |
| Reconcile.MergedMapOfLists | services/storageService.ts:103-114 | a list resolved entry by entry against a map keys to `MergedMap` |
| Reconcile.UploadsAgree | services/storageService.ts:105-108 | the upload queue keys to `UploadMap` |
| Reconcile.WriteAgrees | services/storageService.ts:100-125 | the coded write condition on lists is `WritesLocal` on maps |
| Reconcile.OverlapAgrees | services/storageService.ts:109-112 | `hasLocalChanges` from the loop holds iff some shared id resolves to the cloud copy |
| Reconcile.DroppedAgrees | services/storageService.ts:118-122 | `deletedCount > 0` iff some stored id is missing from the cloud map |
| Storage.SettingsOr | services/storageService.ts:182-189 | the stored settings, or `{darkMode: true}` with nothing else when nothing readable is stored |
| Storage.Reinitialised | services/supabaseService.ts:6-18 | the client after `initSupabase` of a stored config: set exactly for a usable config when `createClient` returns or an old client is kept, and then the new client when it returns |
| Storage.Store.GetSettings | services/storageService.ts:182-189 | `getSettings`: the settings item read through `SettingsOr` |
| Storage.Store.constructor | services/storageService.ts:4-7 | the hybrid store over a local store, a client and the two localStorage items |
| Storage.Store.SaveSettings | services/storageService.ts:191-196 | the settings read back are the ones saved; a config re-initialises the client as `initSupabase` does; no config leaves the client alone |
| Storage.Migrated | services/storageService.ts:34-45 | the local notes after the migration: the legacy list keyed by id when it is a non-empty list, otherwise the store as it was |
| Storage.Store.InitDB | services/storageService.ts:27-47 | sync enabled connects the client; the store becomes `Migrated`: a non-empty legacy list is moved into it and the legacy item removed; an empty one is removed; an unparsable one is kept; the settings, the table and reachability are untouched |
| Storage.Store.GetNotes | services/storageService.ts:83-145 | as written: offline, the stored notes and nothing written; online, the cloud's ids with the newer copy (ties to the cloud), the store rewritten only under `WritesLocal`, the strictly newer local copies upserted; newest first, no repeated ids |
| Storage.Store.MergeAndPush | services/storageService.ts:92-137 | once the cloud has answered: merge, store written under the coded condition, newer local copies upserted |
| Storage.Store.PushUploads | services/storageService.ts:131-135 | the table gains exactly the queued notes' rows; an empty queue changes nothing |
| Storage.Store.GetNotesMirrored | services/storageService.ts:83-145 | corrected `getNotes`: the same result and uploads, and the store always holds exactly the notes returned |
| Storage.Store.MergeAndMirror | services/storageService.ts:92-137 | corrected merge step: the store becomes the merged notes |
| Storage.Store.SaveNotes | services/storageService.ts:147-159 | the store becomes the list; online at the call and without repeated ids the table is the upserted table, otherwise unchanged; the connection state is unchanged |
| Storage.Store.DeleteNote | services/storageService.ts:161-178 | the returned list is the list without the id, the store becomes that list, online at the call the row is deleted; the connection state is unchanged |
| Storage.SameNotesSameKeyed | services/storageService.ts:144 | sorting a list without repeated ids does not change the store it keys to |
| Checklist.ItemsToggled | App.tsx:110-112 | the toggled list has the same length |
| Checklist.ToggleFlipsMatching | App.tsx:110-112 | toggling flips `completed` on the entries with that id and nothing else |
| Checklist.ToggleTwice | App.tsx:110-112 | toggling the same id twice gives the list back |
| Checklist.ItemsWithText | components/NoteEditor.tsx:167-169 | the edited list has the same length |
| Checklist.WithTextChangesMatching | components/NoteEditor.tsx:167-169 | editing changes only the text of the entries with that id |
| Checklist.WithTextLastWins | components/NoteEditor.tsx:167-169 | of two edits to the same entry the later remains |
| Checklist.ItemsWithout | components/NoteEditor.tsx:175-177 | deleting never lengthens the list |
| Checklist.ItemsWithoutMembers | components/NoteEditor.tsx:175-177 | deleting keeps exactly the entries with another id |
| Checklist.ItemsWithoutAbsent | components/NoteEditor.tsx:175-177 | deleting an absent id changes nothing |
| Checklist.ItemsWithoutTwice | components/NoteEditor.tsx:175-177 | deleting twice is deleting once |
| Checklist.AttachmentsWithout | components/NoteEditor.tsx:179-181 | removing never lengthens the list |
| Checklist.AttachmentsWithoutMembers | components/NoteEditor.tsx:179-181 | removing keeps exactly the attachments with another id |
| Checklist.AttachmentsWithoutAbsent | components/NoteEditor.tsx:179-181 | removing an absent id changes nothing |
| App.Updated | App.tsx:69 | `map` keeps the length |
| App.UpdatedAt | App.tsx:69 | each position keeps its note unless it carries the id, then it is `f` of it |
| App.UpdatedKeyed | App.tsx:69 | when `f` keeps the id, the stored map is the old one with that id's entry replaced |
| App.Stamped | App.tsx:66 | the saved note carries the save time and its own id |
| App.WithSaved | App.tsx:63-75 | the list `handleSaveNote` builds: the stamped note mapped in place when editing or when its id is taken, put in front otherwise; `SaveStampsNow`, `SaveInPlace`, `SaveNewPrepends` and `SaveKeyed` state its properties |
| App.SaveStampsNow | App.tsx:63-75 | every copy of the saved id in the new list is the stamped note, and it is there when editing or when the id exists |
| App.SaveInPlace | App.tsx:68-72 | editing, or saving an existing id, rewrites in place: same length, other notes unchanged |
| App.SaveNewPrepends | App.tsx:73-74 | a new id saved outside the editor goes in front |
| App.SaveKeyed | App.tsx:63-78 | without repeated ids, save keeps ids distinct and writes the stamped note under its id |
| App.PrependKeyed | App.tsx:74 | a note with a new id put in front is simply added to the store |
| App.NoteToggled | App.tsx:106-114 | the toggled note keeps its id and is stamped with the toggle time |
| App.WithToggled | App.tsx:105-115 | the list `handleToggleItem` builds, `map` over the notes with `NoteToggled` on `noteId`; `ToggleTouchesOneNote` and `ToggleKeyed` state its properties |
| App.ToggleTouchesOneNote | App.tsx:105-115 | only the note `noteId` changes: its items toggled and its time stamped |
| App.ToggleKeyed | App.tsx:105-117 | the store after a toggle differs only in the entry `noteId` |
| App.NewNotes | App.tsx:151-156 | the new notes never outnumber the imported ones |
| App.NewNotesMembers | App.tsx:151-156 | the notes added are exactly the imported ones with an unused id |
| App.NewNotesAppend | App.tsx:151-156 | the selection keeps file order |
| App.MergedImport | App.tsx:151-153 | the merge import: the new notes, then the current ones; `MergeImportKeepsExisting` states its properties |
| App.MergeImportKeepsExisting | App.tsx:151-156 | a merge import keeps every existing note as it was, adds each new one, and puts the new ones in front |
| App.Lower | App.tsx:171-181 | lower-casing keeps the length |
| App.ContainsAt | App.tsx:171-181 | `includes` finds a text exactly when it starts at some position |
| App.Matches | App.tsx:173-178 | a note matches when it is in the category and the lower-cased query occurs in its lower-cased title, content or subcategory |
| App.Filtered | App.tsx:171-181 | the filter never lengthens the list |
| App.FilteredMembers | App.tsx:171-181 | the filter keeps exactly the notes of the category matching the query |
| App.FilteredView | App.tsx:171-181 | `filteredNotes`: the filtered notes sorted newest first; `FilteredViewCorrect` states its properties |
| App.FilteredViewCorrect | App.tsx:171-181 | the view holds exactly the matching notes, newest first, as a permutation of the filtered list |
| App.EmptyQueryShowsCategory | App.tsx:171-181 | with an empty query the view is the whole category |
| App.AppState.constructor | App.tsx:14-31 | the dashboard starts empty, closed, and dark |
| App.AppState.Init | App.tsx:36-59 | as written: the theme effect first stores the current `darkMode`, then `getNotes` as written runs and the theme is read back, so the theme stays what it was and the stored settings take it; the notes are newest first without repeated ids; with `L` the `Migrated` store and `C` the cloud's notes, offline the notes shown and stored are `L` and the table is untouched, online the notes shown are `MergedMap(L, C)`, the store is rewritten only under `WritesLocal` and the table gains the `UploadMap` rows; the legacy item is cleared unless unparsable |
| App.AppState.InitKeepingTheme | App.tsx:36-59 | corrected start-up: the theme is read before the effect stores it, so the stored settings are unchanged and the theme shown is the stored one; the notes, the store, the table and the legacy item end as under `Init` |
| App.AppState.Load | App.tsx:40-41 | `getNotes` as written: offline the stored notes and nothing written; online `MergedMap` of the two snapshots, the store rewritten only under `WritesLocal`, the table gaining the `UploadMap` rows |
| App.AppState.LoadMirrored | App.tsx:40-41 | loading through the corrected `GetNotesMirrored`: the same notes and uploads, and the notes shown are always the notes stored |
| App.AppState.SetDarkMode | App.tsx:51-59 | the stored settings are the old ones with the new `darkMode`, and a stored config re-initialises the client as `Reinitialised` says; nothing else of the dashboard changes |
| App.AppState.OpenEditor | App.tsx:286 | the editor opens on the note clicked, or on a new one |
| App.AppState.Persist | App.tsx:77-78 | the list shown is the new list, the store holds it, and when online at the call it is upserted |
| App.AppState.HandleSaveNote | App.tsx:63-80 | the notes become `WithSaved`, the store holds them, when online at the call they are upserted, the editing note is cleared |
| App.AppState.HandleRequestDelete | App.tsx:83-86 | the modal opens with the target id and nothing else changes |
| App.AppState.CloseDeleteModal | App.tsx:341 | closing the modal changes nothing else, not even the target |
| App.AppState.HandleConfirmDelete | App.tsx:89-102 | as written: no target does nothing; otherwise the notes lose the id, the store holds the rest, the rest is upserted (the row stays), and the editor closes if it held that note |
| App.AppState.HandleConfirmDeleteRemote | App.tsx:89-102 | corrected: the same local effect with `deleteNote`, so when online at the call the row is deleted |
| App.AppState.HandleToggleItem | App.tsx:105-118 | the notes become `WithToggled`, the store holds them, when online at the call they are upserted |
| App.AppState.HandleImportFile | App.tsx:138-168 | an unreadable file or a non-array changes nothing; replace takes the file's notes; merge puts the new notes in front and reports how many; the result is saved and, when online at the call, upserted |
| App.Mount | App.tsx:31-59 | as written: mounting the dashboard over any store shows the dark theme and stores `darkMode: true`, whatever theme was stored |
| App.MountKeepingTheme | App.tsx:31-59 | corrected: mounting shows the stored theme and leaves the stored settings as they were |
| Notifications.IsDue | services/notificationService.ts:61-67 | the due rule: an enabled, undelivered reminder timed no later than now and at most five minutes before |
| Notifications.NoticeFor | services/notificationService.ts:69-73 | the notice body is never empty: an empty content falls back to the fixed text |
| Notifications.ShowNotification | services/notificationService.ts:31-54 | a notice is shown exactly when permission is granted and the `Notification` constructor does not throw, and it is the notice given |
| Notifications.Due | services/notificationService.ts:60-67 | the due notes never outnumber the notes |
| Notifications.DueMembers | services/notificationService.ts:60-67 | exactly the enabled, undelivered reminders timed in the last five minutes up to now are picked |
| Notifications.DueAppend | services/notificationService.ts:60 | the pick keeps list order |
| Notifications.DueDistinct | services/notificationService.ts:60-77 | without repeated ids no note fires twice in one pass |
| Notifications.CheckReminders | services/notificationService.ts:57-80 | the ids reported are the due notes' ids in order, whatever happens to the notices; the notices shown are the due notes' notices in order exactly when permission is granted and the constructor does not throw, otherwise none |
| ServiceWorker.Latched | public/service-worker.js:49-50 | the latch sets `notified` and changes nothing else, not even `updatedAt` |
| ServiceWorker.LatchIfDue | public/service-worker.js:80-99 | after the check a note is no longer due |
| ServiceWorker.LatchDue | public/service-worker.js:79-103 | a pass keeps the store's ids |
| ServiceWorker.DueKeys | public/service-worker.js:79-83 | the ids of the stored notes that are due now |
| ServiceWorker.LatchDueSettles | public/service-worker.js:79-103 | after a pass nothing is due at the same instant, a second pass changes nothing, non-due notes and all `updatedAt` are untouched |
| ServiceWorker.Worker.constructor | public/service-worker.js:110 | no interval, nothing shown |
| ServiceWorker.Worker.MarkNoteAsNotified | public/service-worker.js:39-64 | true iff the note exists with a reminder, then it is latched; otherwise nothing changes |
| ServiceWorker.Worker.CheckReminders | public/service-worker.js:67-107 | without permission nothing happens; with it the notes read are the store once each, the store becomes `LatchDue`, the ids fired are the due ones of the read in order, once each, and the notices added are their notices in that order |
| ServiceWorker.Worker.FullPass | public/service-worker.js:74-103 | the notes read are the store once each; the store becomes `LatchDue`; fired ids are the read's due ids in order, distinct and exactly the due keys; the notices added are the due notes' notices in that order |
| ServiceWorker.Worker.LatchPass | public/service-worker.js:79-103 | the loop visits every note read, fires the due ones in order and adds exactly their notices, in order |
| ServiceWorker.Worker.Visit | public/service-worker.js:80-101 | a due note gets its notice and is latched; any other note is left alone |
| ServiceWorker.Worker.StartReminderCheck | public/service-worker.js:110-116 | a running interval makes it a no-op; otherwise the interval starts and one check runs at once, latching the store and adding the notices of the due notes read, in order |
| ServiceWorker.Worker.Tick | public/service-worker.js:113 | while the interval runs and permission is granted a tick latches the store and adds the notices of the due notes read, in order; otherwise nothing changes |
| ServiceWorker.ReadIsUnvisited | public/service-worker.js:75 | before the loop every note read is stored as read |
| ServiceWorker.PassLatchesDue | public/service-worker.js:79-103 | a full loop over the notes read leaves the latched store |
| ServiceWorker.FiredAreDue | public/service-worker.js:79-99 | the ids fired over a full read are exactly the stored due ids, each once |
| SettingsModal.Usable | services/supabaseService.ts:7 | the config `initSupabase` will try: enabled, with a url and a key |
| SettingsModal.Dialog.constructor | components/SettingsModal.tsx:13-14 | the form starts blank and idle |
| SettingsModal.Dialog.Open | components/SettingsModal.tsx:16-23 | opening loads the stored config when there is one |
| SettingsModal.Dialog.Edit | components/SettingsModal.tsx:13 | typing sets the form |
| SettingsModal.Dialog.HandleSave | components/SettingsModal.tsx:25-45 | saved iff the client builds or sync is off; then the config is stored and status is success; otherwise error and nothing stored; the client follows `initSupabase` |
| NoteEditor.DefaultSubcategory | components/NoteEditor.tsx:49-53 | "Juego" for gaming, "Tarea" for work, "General" otherwise |
| NoteEditor.BuildNote | components/NoteEditor.tsx:67-82 | the note `handleSave` builds from the form and the edited note; `BuildNoteIdentity`, `OpenSaveRoundTrip` and `NewNoteDefaults` state its properties |
| NoteEditor.BuildNoteIdentity | components/NoteEditor.tsx:67-82 | an edit keeps id, category, creation time and pin; a new note takes the fresh id, the active category and `now`; a blank title becomes the untitled title |
| NoteEditor.OpenSaveRoundTrip | components/NoteEditor.tsx:32-82 | opening a note and saving it untouched gives the same note with a new `updatedAt` |
| NoteEditor.NewNoteDefaults | components/NoteEditor.tsx:42-82 | a new note saved at once is untitled, empty and has the category's default subcategory |
| NoteEditor.Editor.constructor | components/NoteEditor.tsx:16-22 | closed with an empty form |
| NoteEditor.Editor.Open | components/NoteEditor.tsx:32-47 | the form is the edited note's fields, or empty with the default subcategory |
| NoteEditor.Editor.Close | components/NoteEditor.tsx:84 | closing keeps the form |
| NoteEditor.Editor.HandleSave | components/NoteEditor.tsx:67-85 | the note handed over is `BuildNote` of the form and the editor closes |
| NoteEditor.Editor.HandleDelete | components/NoteEditor.tsx:86-91 | deletes only an existing note with a delete handler, then closes |
| NoteEditor.Editor.HandleAddItem | components/NoteEditor.tsx:163-165 | one empty, unchecked entry is appended |
| NoteEditor.Editor.UpdateItem | components/NoteEditor.tsx:167-169 | the items become `ItemsWithText` |
| NoteEditor.Editor.ToggleItem | components/NoteEditor.tsx:171-173 | the items become `ItemsToggled` |
| NoteEditor.Editor.DeleteItem | components/NoteEditor.tsx:175-177 | the items become `ItemsWithout` |
| NoteEditor.Editor.RemoveAttachment | components/NoteEditor.tsx:179-181 | the attachments become `AttachmentsWithout` |
| Categories.NotesCount | components/CategoryManager.tsx:36-38 | the count never exceeds the number of notes |
| Categories.NotesCountPositive | components/CategoryManager.tsx:36-38 | the count is positive iff some note uses the category |
| Categories.NotesCountAppend | components/CategoryManager.tsx:36-38 | counting two pieces adds up |
| Categories.Decimal | components/CategoryManager.tsx:41 | `String(n)` is never empty |
| Categories.DecimalRoundTrip | components/CategoryManager.tsx:41 | reading the decimal text back gives the number |
| Categories.NewCategoryIdInjective | components/CategoryManager.tsx:41 | categories created at different instants get different ids |
| Categories.Patched | components/CategoryManager.tsx:54 | `{...cat, ...updates}`: each field given in the patch replaces the category's, the others stay; `PatchTouchesOne` and `EmptyPatch` state it for the list |
| Categories.CategoriesPatched | components/CategoryManager.tsx:52-56 | patching keeps the length |
| Categories.PatchTouchesOne | components/CategoryManager.tsx:52-56 | only entries with the id change, and only in the fields given |
| Categories.EmptyPatch | components/CategoryManager.tsx:52-56 | an empty patch changes nothing |
| Categories.CategoriesWithout | components/CategoryManager.tsx:62 | deleting never lengthens the list |
| Categories.CategoriesWithoutMembers | components/CategoryManager.tsx:62 | deleting keeps exactly the categories with another id |
| Categories.Manager.constructor | components/CategoryManager.tsx:32-34 | the working copy is the given list, with no editing and no warning |
| Categories.Manager.HandleAddCategory | components/CategoryManager.tsx:40-50 | the default category `cat_<now>` is appended and edited |
| Categories.Manager.HandleUpdateCategory | components/CategoryManager.tsx:52-56 | the list becomes `CategoriesPatched` |
| Categories.Manager.HandleDeleteCategory | components/CategoryManager.tsx:58-65 | a category in use only raises the warning with its count; an unused one is removed |
| Categories.Manager.ConfirmDelete | components/CategoryManager.tsx:67-72 | with a warning the warned category is removed and the warning cleared; without one nothing changes |
| Categories.Manager.HandleSave | components/CategoryManager.tsx:74-81 | an empty list is refused; otherwise it is handed over and the editor closes |
| Calendar.DaysInMonth | components/CalendarModal.tsx:74-77 | every month has 28 to 31 days |
| Calendar.Weekday | components/CalendarModal.tsx:76 | `getDay()` lies in 0..6 |
| Calendar.YearLength | components/CalendarModal.tsx:73-77 | a year has 366 days if leap and 365 otherwise |
| Calendar.YearStartStep | components/CalendarModal.tsx:73-77 | consecutive years start a year's length apart |
| Calendar.LeapByDivisors | components/CalendarModal.tsx:74 | a helper of `YearStartStep`, not a property of its own: a leap year, and any year divisible by 100 or 400, is divisible by 4 |
| Calendar.NextMonthWeekday | components/CalendarModal.tsx:73-77 | the next month's 1st comes `DaysInMonth` days later, with its weekday shifted by that |
| Calendar.NoteDay | components/CalendarModal.tsx:48-62 | the day a note is shown on: its scheduled date when set and non-empty, else the day of an enabled reminder, else none |
| Calendar.OnDay | components/CalendarModal.tsx:45-66 | a day's notes never outnumber the notes |
| Calendar.OnDayMembers | components/CalendarModal.tsx:48-62 | a day holds exactly the notes whose day it is: scheduled date first, then an enabled reminder |
| Calendar.OnDayAppend | components/CalendarModal.tsx:47-62 | each bucket keeps list order |
| Calendar.NotesByDate | components/CalendarModal.tsx:45-66 | the map has a bucket for exactly the days some note is on, holding that day's notes in order |
| Calendar.NotesForDate | components/CalendarModal.tsx:130-133 | `getNotesForDate`: the day's bucket, or an empty list; `NotesForDateIsOnDay` states what it holds |
| Calendar.NotesForDateIsOnDay | components/CalendarModal.tsx:130-133 | looking a day up gives that day's notes, and an empty list for a day without any |
| Calendar.FullYear | components/CalendarModal.tsx:73-74 | the multi-argument `Date` constructor reads a year from 0 to 99 as 1900 plus it and any other year as itself, so the year it uses is never 0..99 |
| Calendar.CalendarDays | components/CalendarModal.tsx:69-92 | one blank per weekday before the 1st, then the days 1..n of the month in order, all in the year `FullYear` reads |
| Calendar.MonthShift | components/CalendarModal.tsx:94-96 | the year is read through `FullYear`, the month overflows into it, and the result is a 1st |
| Calendar.MonthShiftMoves | components/CalendarModal.tsx:94-96 | moving by `delta` months lands exactly `delta` months after the month the constructor reads; for a year outside 0..99, `delta` months after the month shown |
| Calendar.MonthShiftBack | components/CalendarModal.tsx:94-96 | moving by `delta` and back returns to the start (as `FullYear` reads it), whenever the first move lands outside the years 0..99 |
| Calendar.MonthShiftTwoDigitYear | components/CalendarModal.tsx:94-96 | the round trip does fail there: one month back from January 100 is December 99, and one month forward from that is January 2000 |
| Calendar.CalendarView.constructor | components/CalendarModal.tsx:39-42 | the view opens on the 1st of today's month (its year read through `FullYear`) with nothing selected |
| Calendar.CalendarView.NavigateMonth | components/CalendarModal.tsx:94-96 | the month shown becomes `MonthShift` of it by `delta`; selection and picker unchanged |
| Calendar.CalendarView.NavigateYear | components/CalendarModal.tsx:98-100 | the year shown becomes `FullYear` of it plus `delta`, same month; selection and picker unchanged |
| Calendar.CalendarView.GoToToday | components/CalendarModal.tsx:102-104 | the view shows today's month, its year read through `FullYear` |
| Calendar.CalendarView.HandleDayClick | components/CalendarModal.tsx:106-115 | clicking the selected day clears it, any other selects it; the picker closes |
| Calendar.CalendarView.HandleCategorySelect | components/CalendarModal.tsx:117-124 | with a selected day a note is requested for that day and category, the selection cleared and the view closed; otherwise nothing happens |
| Findings.DeletedNoteReturns | App.tsx:89-102 | after the dashboard's delete, the next merge brings the note back from the cloud |
| Findings.DeletedNoteStaysDeleted | services/storageService.ts:161-178 | deleting the row as well keeps the note away |
| Findings.WithoutDistinct | App.tsx:93 | filtering keeps ids distinct |
| Findings.CloudOnlyNoteNotStored | services/storageService.ts:100-128 | on an empty store and a one-note cloud the coded condition skips the write although the merge differs |
| Findings.SkippedWriteMissesOnlyCloudNotes | services/storageService.ts:100-128 | whenever the write is skipped, the store differs from the merge only by cloud-only notes |
| Findings.LatchRevertedBySync | public/service-worker.js:49-51 | a latched note whose cloud copy is unchanged merges back to `notified == false` and is not uploaded |
| Findings.EmptyCloudWipesLocal | services/storageService.ts:92-128 | an empty cloud answer empties the merge and rewrites a non-empty store |

## Left out

- Text, dates and time: `toLowerCase` is modelled for ASCII only. Dates are integer milliseconds. The ISO text of `createdAt` and `updatedAt`, time zones, and invalid dates (NaN keys) are not modelled. The conversion of a date text or an instant to a local day is a parameter.
- Storage errors: the IndexedDB request errors and the service worker's failures to open the database are not modelled. Such an error rejects or resolves false in the code; the model assumes every request succeeds.
- Ordering: the fire-and-forget upload and `await` interleavings are left out. A push takes effect at once, and two handlers never run concurrently.
- Storage.Store.GetNotes: the order in which `getAll` returns notes is left open. `ReadAll` promises every stored note once, in some order.
- JSON parsing, `FileReader`, the export download, `alert` and `confirm` become parameters: `ImportFile` and the `replace` flag. The page reload after saving settings is not modelled.
- The microphone, speech recognition and image upload of the note editor are browser APIs and are not modelled. So is the reminder picker component.
- Rendering, icons and colours are left out.
- `requestNotificationPermission`, `registerPeriodicSync` and the service worker's install, cache, fetch, message and notification-click handlers are left out: they only talk to browser APIs.
- NoteEditor.BuildNote: the `||` fallbacks on the id and the category of the edited note are modelled, with the empty text counting as missing. The fallback on `createdAt` is not: an edited note always keeps its `createdAt`, because an integer instant is never missing. The fresh id and `now` are parameters.
- Categories.Manager.HandleUpdateCategory: a `Partial` field explicitly set to `undefined` is modelled as absent.
- Notifications.CheckReminders: the callback `onReminderTriggered` is modelled by returning the ids it would receive, in order.
- Notifications.CheckReminders: whether the `Notification` constructor throws is one flag for the whole pass; a throw for some notes and not others is not modelled.
- The service worker does not await `registration.showNotification`, and a rejection of it is not modelled: every due note's notice is recorded.

## Findings

| source | as written | input that shows it | evidently intended | confidence | as-written member | corrected member |
|---|---|---|---|---|---|---|
| App.tsx:89-102 | the confirm-delete handler saves the remaining notes, an upsert, and never deletes the row; the next `getNotes` takes its ids from the cloud and restores the note | sync on, note `x` in the cloud table; delete `x`, then load | the row is removed too, with `deleteNote` (services/storageService.ts:161-178), so the note stays deleted | not executed; high | App.AppState.HandleConfirmDelete, Findings.DeletedNoteReturns | App.AppState.HandleConfirmDeleteRemote, Findings.DeletedNoteStaysDeleted |
| services/storageService.ts:100-128 | the local store is rewritten only when a shared note resolved to the cloud copy or a local note was dropped; a note that exists only in the cloud does not trigger the write | empty local store, cloud holding one note `c`: `c` is shown but not stored, so it is missing once offline | the store is rewritten whenever the merged notes differ from it, so the store holds exactly what is shown | not executed; high | Storage.Store.GetNotes, Findings.CloudOnlyNoteNotStored | Storage.Store.GetNotesMirrored (used by App.AppState.LoadMirrored), Findings.SkippedWriteMissesOnlyCloudNotes |
| App.tsx:36-59 | on mount the `[darkMode]` effect runs with the initial `true` while `init` waits on `initDB`, so it stores `darkMode: true` before `init` reads the settings back | stored settings with `darkMode: false`; reload the page | the stored theme is read first and survives the reload | not executed; high | App.Mount, App.AppState.Init | App.MountKeepingTheme, App.AppState.InitKeepingTheme |
