/** The hybrid store (services/storageService.ts): the local notes store,
    the settings record, the one-time migration of the old localStorage
    copy, and the cloud client they push to. A push the code does not await
    is modelled as taking effect at once. */
module Storage {
  import opened Types
  import opened Order
  import opened LocalStore
  import opened Supabase
  import opened Reconcile

  /** What the old `omninotes_data_v1` item parses to. */
  datatype Legacy = LegacyNotes(notes: seq<Note>) | LegacyNotArray | LegacyUnparsable

  /** `getSettings`: the stored record, or the default when there is none or it does not parse. */
  function SettingsOr(item: Option<AppSettings>): (s: AppSettings)
    ensures item.None? ==> s == AppSettings(true, None, None, None)
    ensures item.Some? ==> s == item.value
  {
    if item.Some? then item.value else DefaultSettings
  }

  /** The client after `initSupabase(c)` where it was `before`: built from a
      usable config when `createClient` returns, kept when it throws, and
      cleared for a config that is switched off or lacks a url or key. */
  function Reinitialised(c: SupabaseConfig, constructs: bool, before: Option<Endpoint>): (h: Option<Endpoint>)
    ensures h.Some? <==> (c.enabled && c.url != "" && c.key != "" && (constructs || before.Some?))
    ensures h.Some? && constructs ==> h == Some(Endpoint(c.url, c.key))
  {
    if c.enabled && c.url != "" && c.key != "" then
      (if constructs then Some(Endpoint(c.url, c.key)) else before)
    else None
  }

  /** The local notes after the migration of `initDB`: a non-empty legacy
      list replaces the store; anything else leaves the store as it was. */
  function Migrated(legacyItem: Option<Legacy>, stored: map<Id, Note>): (m: map<Id, Note>)
    ensures legacyItem.Some? && legacyItem.value.LegacyNotes? && |legacyItem.value.notes| > 0 ==>
      m.Keys == IdSet(legacyItem.value.notes)
    ensures !(legacyItem.Some? && legacyItem.value.LegacyNotes? && |legacyItem.value.notes| > 0) ==> m == stored
  {
    if legacyItem.Some? && legacyItem.value.LegacyNotes? && |legacyItem.value.notes| > 0
    then Keyed(legacyItem.value.notes) else stored
  }

  class Store {
    const local: LocalStore.Store
    const cloud: Client
    /** localStorage `omninotes_settings_v2`; `None` when missing or unreadable. */
    var settingsItem: Option<AppSettings>
    /** localStorage `omninotes_data_v1`; `None` when missing or empty. */
    var legacyItem: Option<Legacy>

    ghost predicate Valid()
      reads this, local, cloud
    {
      local.Valid() && cloud.Valid()
    }

    constructor (local: LocalStore.Store, cloud: Client, settingsItem: Option<AppSettings>, legacyItem: Option<Legacy>)
      ensures this.local == local && this.cloud == cloud
      ensures this.settingsItem == settingsItem && this.legacyItem == legacyItem
    {
      this.local := local;
      this.cloud := cloud;
      this.settingsItem := settingsItem;
      this.legacyItem := legacyItem;
    }

    function GetSettings(): AppSettings
      reads this
    {
      SettingsOr(settingsItem)
    }

    /** Cloud sync is switched on and a fetch would answer. */
    predicate Online()
      reads this, cloud
    {
      SyncEnabled(GetSettings()) && cloud.handle.Some? && cloud.reachable
    }

    /** `saveSettings`: store the record, and re-initialise the client when it carries a config. */
    method SaveSettings(settings: AppSettings, constructs: bool)
      modifies this`settingsItem, cloud`handle
      ensures GetSettings() == settings
      ensures settings.supabaseConfig.None? ==> cloud.handle == old(cloud.handle)
      ensures settings.supabaseConfig.Some? ==>
        cloud.handle == Reinitialised(settings.supabaseConfig.value, constructs, old(cloud.handle))
    {
      settingsItem := Some(settings);
      if settings.supabaseConfig.Some? {
        var _ := cloud.InitSupabase(settings.supabaseConfig.value, constructs);
      }
    }

    /** `initDB`: connect the client if the stored settings enable sync, then
        move a non-empty legacy note list into the store. A legacy item that
        does not parse is kept. */
    method InitDB(constructs: bool)
      requires Valid()
      modifies this`legacyItem, local, cloud`handle
      ensures Valid()
      ensures settingsItem == old(settingsItem) && cloud.table == old(cloud.table)
      ensures SyncEnabled(GetSettings()) ==> var c := GetSettings().supabaseConfig.value;
        cloud.handle == if c.url != "" && c.key != "" then
          (if constructs then Some(Endpoint(c.url, c.key)) else old(cloud.handle))
        else None
      ensures !SyncEnabled(GetSettings()) ==> cloud.handle == old(cloud.handle)
      ensures local.notes == Migrated(old(legacyItem), old(local.notes))
      ensures legacyItem == if old(legacyItem) == Some(LegacyUnparsable) then old(legacyItem) else None
    {
      var settings := GetSettings();
      if SyncEnabled(settings) {
        var _ := cloud.InitSupabase(settings.supabaseConfig.value, constructs);
      }
      if legacyItem.Some? {
        match legacyItem.value {
          case LegacyNotes(ns) =>
            if |ns| > 0 {
              local.ReplaceAll(ns);
            }
            legacyItem := None;
          case LegacyNotArray =>
            legacyItem := None;
          case LegacyUnparsable =>
        }
      }
    }

    /** `getNotes`, as written. Without a cloud answer the result is the
        local notes; with one, the ids are the cloud's and each note is the
        newer copy, ties going to the cloud. The store is rewritten only
        under `WritesLocal`; the strictly newer local copies are upserted.
        The result is newest first. */
    method GetNotes() returns (result: seq<Note>)
      requires Valid()
      modifies local, cloud`table
      ensures Valid() && cloud.handle == old(cloud.handle) && cloud.reachable == old(cloud.reachable)
      ensures DistinctIds(result) && SortedDesc(result)
      ensures !old(Online()) ==>
        Keyed(result) == old(local.notes) && local.notes == old(local.notes) && cloud.table == old(cloud.table)
      ensures old(Online()) ==> var L, C := old(local.notes), Data(old(cloud.table));
        && Keyed(result) == MergedMap(L, C)
        && local.notes == (if WritesLocal(L, C) then MergedMap(L, C) else L)
        && cloud.table == WithRows(old(cloud.table), UploadMap(L, C))
    {
      var notes := local.ReadAll();
      var settings := GetSettings();
      if SyncEnabled(settings) {
        var cloudNotes := cloud.FetchNotesFromCloud();
        if cloudNotes.Some? {
          notes := MergeAndPush(notes, cloudNotes.value);
        }
      }
      result := SortDesc(notes);
      SortDescCorrect(notes);
      SortDescKeepsIds(notes);
      SameNotesSameKeyed(notes, result);
    }

    /** The part of `getNotes` that runs once the cloud has answered with
        `cloudNotes`: merge, rewrite the store if the code's condition holds,
        upsert the newer local copies. */
    method MergeAndPush(notes: seq<Note>, cloudNotes: seq<Note>) returns (merged: seq<Note>)
      requires Valid() && cloud.handle.Some? && cloud.reachable
      requires DistinctIds(notes) && Keyed(notes) == local.notes
      requires DistinctIds(cloudNotes) && Keyed(cloudNotes) == Data(cloud.table)
      modifies local, cloud`table
      ensures Valid() && cloud.handle == old(cloud.handle) && cloud.reachable
      ensures var L, C := old(local.notes), Data(old(cloud.table));
        && DistinctIds(merged) && Keyed(merged) == MergedMap(L, C)
        && local.notes == (if WritesLocal(L, C) then MergedMap(L, C) else L)
        && cloud.table == WithRows(old(cloud.table), UploadMap(L, C))
    {
      var toUpload, writeLocal;
      merged, toUpload, writeLocal := MergeKeyed(notes, cloudNotes);
      if writeLocal {
        local.ReplaceAll(merged);
      }
      PushUploads(toUpload);
    }

    /** The upload at the end of `getNotes`: one upsert of the newer local
        copies, skipped when there are none. */
    method PushUploads(toUpload: seq<Note>)
      requires Valid() && cloud.handle.Some? && cloud.reachable && DistinctIds(toUpload)
      modifies cloud`table
      ensures Valid()
      ensures cloud.table == WithRows(old(cloud.table), Keyed(toUpload))
    {
      if |toUpload| > 0 {
        var pushed := cloud.SyncNotesToCloud(toUpload);
        assert pushed.Success?;
      } else {
        WithNoRows(cloud.table);
      }
    }

    /** `getNotes` with the store rewritten whenever the merged notes differ
        from it (`NeedsLocalWrite`) instead of under the coded condition: the
        store then always holds exactly the notes returned. */
    method GetNotesMirrored() returns (result: seq<Note>)
      requires Valid()
      modifies local, cloud`table
      ensures Valid() && cloud.handle == old(cloud.handle) && cloud.reachable == old(cloud.reachable)
      ensures DistinctIds(result) && SortedDesc(result)
      ensures local.notes == Keyed(result)
      ensures !old(Online()) ==> local.notes == old(local.notes) && cloud.table == old(cloud.table)
      ensures old(Online()) ==> var L, C := old(local.notes), Data(old(cloud.table));
        && Keyed(result) == MergedMap(L, C)
        && cloud.table == WithRows(old(cloud.table), UploadMap(L, C))
    {
      var notes := local.ReadAll();
      var settings := GetSettings();
      if SyncEnabled(settings) {
        var cloudNotes := cloud.FetchNotesFromCloud();
        if cloudNotes.Some? {
          notes := MergeAndMirror(notes, cloudNotes.value);
        }
      }
      result := SortDesc(notes);
      SortDescCorrect(notes);
      SortDescKeepsIds(notes);
      SameNotesSameKeyed(notes, result);
    }

    /** `MergeAndPush` with the store rewritten exactly when it differs from the merged notes. */
    method MergeAndMirror(notes: seq<Note>, cloudNotes: seq<Note>) returns (merged: seq<Note>)
      requires Valid() && cloud.handle.Some? && cloud.reachable
      requires DistinctIds(notes) && Keyed(notes) == local.notes
      requires DistinctIds(cloudNotes) && Keyed(cloudNotes) == Data(cloud.table)
      modifies local, cloud`table
      ensures Valid() && cloud.handle == old(cloud.handle) && cloud.reachable
      ensures var L, C := old(local.notes), Data(old(cloud.table));
        && DistinctIds(merged) && Keyed(merged) == MergedMap(L, C)
        && local.notes == MergedMap(L, C)
        && cloud.table == WithRows(old(cloud.table), UploadMap(L, C))
    {
      var toUpload, codedWrite;
      merged, toUpload, codedWrite := MergeKeyed(notes, cloudNotes);
      if Keyed(merged) != Keyed(notes) {
        local.ReplaceAll(merged);
      }
      PushUploads(toUpload);
    }

    /** `saveNotes`: replace the local store, then upsert the whole list when sync is on. */
    method SaveNotes(ns: seq<Note>)
      requires Valid()
      modifies local, cloud`table
      ensures Valid() && cloud.handle == old(cloud.handle)
      ensures local.notes == Keyed(ns)
      ensures cloud.table ==
        if old(Online()) && DistinctIds(ns)
        then Upserted(old(cloud.table), ns) else old(cloud.table)
    {
      local.ReplaceAll(ns);
      var settings := GetSettings();
      if SyncEnabled(settings) {
        var _ := cloud.SyncNotesToCloud(ns);
      }
    }

    /** `deleteNote`: drop the id from the list, replace the local store with
        the rest, then ask the cloud to delete that one row when sync is on. */
    method DeleteNote(noteId: Id, currentNotes: seq<Note>) returns (updated: seq<Note>)
      requires Valid()
      modifies local, cloud`table
      ensures Valid() && cloud.handle == old(cloud.handle)
      ensures updated == Without(currentNotes, noteId)
      ensures local.notes == Keyed(updated)
      ensures cloud.table ==
        if old(Online())
        then old(cloud.table) - {noteId} else old(cloud.table)
    {
      updated := Without(currentNotes, noteId);
      local.ReplaceAll(updated);
      var settings := GetSettings();
      if SyncEnabled(settings) {
        var _ := cloud.DeleteNoteFromCloud(noteId);
      }
    }
  }

  /** Two lists holding the same notes, without repeated ids, key to the same map. */
  lemma SameNotesSameKeyed(a: seq<Note>, b: seq<Note>)
    requires DistinctIds(a) && DistinctIds(b) && multiset(a) == multiset(b)
    ensures Keyed(a) == Keyed(b)
  {
    KeyedValues(a);
    forall i | 0 <= i < |b| ensures b[i] in a {
      assert b[i] in multiset(b);
    }
    forall n | n in a ensures n in b {
      assert n in multiset(a);
    }
    assert IdSet(a) == IdSet(b);
    KeyedUnique(b, Keyed(a));
  }
}
