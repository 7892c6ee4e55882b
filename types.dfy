/** The records of the note store (types.ts), with instants as integer
    milliseconds and ISO strings replaced by those integers. */
module Types {

  type Id = string

  datatype Option<+T> = None | Some(value: T)

  /** A checklist entry of a note. */
  datatype NoteItem = NoteItem(id: Id, text: string, completed: bool)

  datatype MediaKind = Image | Audio

  /** An inline media blob; `data` is the base64 text. */
  datatype MediaAttachment = MediaAttachment(
    id: Id, kind: MediaKind, data: string, mimeType: string,
    createdAt: int, transcription: Option<string>)

  /** `notified` is the one-shot latch set when the reminder has been delivered. */
  datatype Reminder = Reminder(enabled: bool, datetime: int, notified: bool)

  /** A note; `updatedAt` is the only signal used to resolve sync conflicts.
      `scheduledDate` keeps the date-only text the editor produces. */
  datatype Note = Note(
    id: Id,
    category: string,
    subcategory: Option<string>,
    title: string,
    content: string,
    items: seq<NoteItem>,
    attachments: seq<MediaAttachment>,
    isPinned: bool,
    scheduledDate: Option<string>,
    reminder: Option<Reminder>,
    createdAt: int,
    updatedAt: int)

  /** `label` of the source is `name` here (`label` is a Dafny keyword). */
  datatype CategoryConfig = CategoryConfig(id: Id, name: string, icon: string, color: string)

  datatype SupabaseConfig = SupabaseConfig(url: string, key: string, enabled: bool)

  datatype AppSettings = AppSettings(
    darkMode: bool,
    lastSync: Option<string>,
    supabaseConfig: Option<SupabaseConfig>,
    notificationsEnabled: Option<bool>)

  /** Settings used when nothing readable is stored. */
  const DefaultSettings := AppSettings(true, None, None, None)

  /** Whether the stored settings switch cloud sync on (`settings.supabaseConfig?.enabled`). */
  predicate SyncEnabled(s: AppSettings) {
    s.supabaseConfig.Some? && s.supabaseConfig.value.enabled
  }

  function IdSet(ns: seq<Note>): set<Id> {
    set n | n in ns :: n.id
  }

  lemma IdSetCons(n: Note, ns: seq<Note>)
    ensures IdSet([n] + ns) == {n.id} + IdSet(ns)
  {
    assert forall m :: m in [n] + ns <==> m == n || m in ns;
  }

  predicate DistinctIds(ns: seq<Note>) {
    forall i, j :: 0 <= i < j < |ns| ==> ns[i].id != ns[j].id
  }

  /** `ns.find(n => n.id === id)`: the first note with that id. */
  function FindById(ns: seq<Note>, id: Id): (r: Option<Note>)
    ensures r.Some? <==> id in IdSet(ns)
    ensures r.Some? ==> r.value in ns && r.value.id == id
  {
    if ns == [] then None
    else if ns[0].id == id then Some(ns[0])
    else
      assert forall n :: n in ns[1..] ==> n in ns;
      assert id in IdSet(ns) ==> id in IdSet(ns[1..]);
      FindById(ns[1..], id)
  }

  /** In a list without repeated ids, `find` returns the note at the index holding the id. */
  lemma {:induction false} FindByIdAt(ns: seq<Note>, k: nat)
    requires DistinctIds(ns) && k < |ns|
    ensures FindById(ns, ns[k].id) == Some(ns[k])
  {
    if k > 0 {
      assert ns[0].id != ns[k].id;
      FindByIdAt(ns[1..], k - 1);
    }
  }

  /** `ns.filter(n => n.id !== id)`. */
  function Without(ns: seq<Note>, id: Id): (r: seq<Note>)
    ensures forall n :: n in r <==> n in ns && n.id != id
    ensures |r| <= |ns|
  {
    if ns == [] then []
    else
      assert forall n :: n in ns <==> n == ns[0] || n in ns[1..];
      (if ns[0].id != id then [ns[0]] else []) + Without(ns[1..], id)
  }

  /** Removing an id that no note carries changes nothing. */
  lemma {:induction false} WithoutAbsent(ns: seq<Note>, id: Id)
    requires id !in IdSet(ns)
    ensures Without(ns, id) == ns
  {
    if ns != [] {
      assert ns[0] in ns;
      assert IdSet(ns[1..]) <= IdSet(ns) by {
        assert forall n :: n in ns[1..] ==> n in ns;
      }
      WithoutAbsent(ns[1..], id);
      assert ns == [ns[0]] + ns[1..];
    }
  }

  /** In a list without repeated ids, removing the id at index `k` cuts out exactly that entry, keeping the order of the rest. */
  lemma {:induction false} WithoutAt(ns: seq<Note>, k: nat)
    requires DistinctIds(ns) && k < |ns|
    ensures Without(ns, ns[k].id) == ns[..k] + ns[k + 1..]
  {
    var tail := ns[1..];
    if k == 0 {
      HeadIdNotInTail(ns);
      WithoutAbsent(tail, ns[0].id);
      assert ns[..0] + ns[1..] == tail;
    } else {
      assert tail[k - 1] == ns[k];
      DistinctTail(ns);
      WithoutAt(tail, k - 1);
      WithoutCons(ns, ns[k].id);
      SpliceCons(ns, k);
    }
  }

  lemma WithoutCons(ns: seq<Note>, id: Id)
    requires ns != [] && ns[0].id != id
    ensures Without(ns, id) == [ns[0]] + Without(ns[1..], id)
  {
  }

  lemma SpliceCons(ns: seq<Note>, k: nat)
    requires 0 < k < |ns|
    ensures [ns[0]] + (ns[1..][..k - 1] + ns[1..][k..]) == ns[..k] + ns[k + 1..]
  {
    assert [ns[0]] + ns[1..][..k - 1] == ns[..k];
    assert ns[1..][k..] == ns[k + 1..];
  }

  lemma DistinctTail(ns: seq<Note>)
    requires DistinctIds(ns) && ns != []
    ensures DistinctIds(ns[1..])
  {
    var tail := ns[1..];
    forall i, j | 0 <= i < j < |tail| ensures tail[i].id != tail[j].id {
      assert tail[i] == ns[i + 1] && tail[j] == ns[j + 1];
    }
  }

  lemma HeadIdNotInTail(ns: seq<Note>)
    requires DistinctIds(ns) && ns != []
    ensures ns[0].id !in IdSet(ns[1..])
  {
    forall j | 0 <= j < |ns| - 1 ensures ns[1..][j].id != ns[0].id {
      assert ns[1..][j] == ns[j + 1];
    }
  }
}
