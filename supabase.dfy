/** The cloud side (services/supabaseService.ts): the module-level client
    handle and the remote `notes` table, keyed by `id`, whose rows carry the
    whole note in `data`. */
module Supabase {
  import opened Types
  import opened LocalStore

  /** A row of the remote table. */
  datatype Row = Row(id: Id, updatedAt: int, data: Note)

  /** What `createClient(url, key)` was built from. */
  datatype Endpoint = Endpoint(url: string, key: string)

  datatype CloudError =
    | NotConnected        // no client handle
    | Transport           // the request failed on the way or was refused
    | RowTouchedTwice     // one upsert batch names the same id twice

  datatype Outcome = Success | Failure(error: CloudError)

  /** `{id, updated_at, data}` for one note. */
  function RowOf(n: Note): (r: Row)
    ensures r.id == n.id && r.updatedAt == n.updatedAt && r.data == n
  {
    Row(n.id, n.updatedAt, n)
  }

  /** The table with a row written for every note of `m`, other rows left alone. */
  function WithRows(table: map<Id, Row>, m: map<Id, Note>): (t: map<Id, Row>)
    ensures t.Keys == table.Keys + m.Keys
    ensures forall k :: k in m ==> t[k] == RowOf(m[k])
    ensures forall k :: k in table && k !in m ==> t[k] == table[k]
  {
    table + map k | k in m :: RowOf(m[k])
  }

  lemma WithNoRows(table: map<Id, Row>)
    ensures WithRows(table, map[]) == table
  {
    var t := WithRows(table, map[]);
    assert t.Keys == table.Keys;
    forall k | k in t ensures t[k] == table[k] { }
  }

  /** The table after `upsert(rows, {onConflict: 'id'})` of a batch without repeated ids. */
  function Upserted(table: map<Id, Row>, ns: seq<Note>): (t: map<Id, Row>)
    requires DistinctIds(ns)
    ensures t.Keys == table.Keys + IdSet(ns)
    ensures forall n :: n in ns ==> t[n.id] == RowOf(n)
    ensures forall k :: k in table && k !in IdSet(ns) ==> t[k] == table[k]
  {
    KeyedValues(ns);
    WithRows(table, Keyed(ns))
  }

  /** The notes a fetch hands back: each row's `data`. */
  function Data(table: map<Id, Row>): (m: map<Id, Note>)
    ensures m.Keys == table.Keys
  {
    map k | k in table :: table[k].data
  }

  /** Fetching after an upsert returns the upserted notes, and every other row as before. */
  lemma DataOfUpserted(table: map<Id, Row>, ns: seq<Note>)
    requires DistinctIds(ns)
    ensures Data(Upserted(table, ns)) == Data(table) + Keyed(ns)
  {
    KeyedValues(ns);
    var l, r := Data(Upserted(table, ns)), Data(table) + Keyed(ns);
    forall k | k in l ensures k in r && l[k] == r[k] {
      if k in IdSet(ns) {
        var n :| n in ns && n.id == k;
      }
    }
  }

  /** The Supabase client handle together with the remote table it talks to.
      `reachable` stands for the network: when false every request fails. */
  class Client {
    var handle: Option<Endpoint>
    var reachable: bool
    var table: map<Id, Row>

    ghost predicate Valid()
      reads this
    {
      forall k :: k in table ==> table[k].id == k && table[k].data.id == k
    }

    constructor (reachable: bool)
      ensures Valid() && handle == None && this.reachable == reachable && table == map[]
    {
      handle := None;
      this.reachable := reachable;
      table := map[];
    }

    /** `initSupabase`. `constructs` is whether `createClient` returns instead
        of throwing; when it throws, the previous handle is left in place. */
    method InitSupabase(config: SupabaseConfig, constructs: bool) returns (ok: bool)
      modifies this`handle
      ensures ok <==> config.enabled && config.url != "" && config.key != "" && constructs
      ensures ok ==> handle == Some(Endpoint(config.url, config.key))
      ensures !(config.enabled && config.url != "" && config.key != "") ==> handle == None
      ensures !ok && config.enabled && config.url != "" && config.key != "" ==> handle == old(handle)
    {
      if config.enabled && config.url != "" && config.key != "" {
        if constructs {
          handle := Some(Endpoint(config.url, config.key));
          return true;
        }
        return false;
      }
      handle := None;
      return false;
    }

    /** `syncNotesToCloud`: one upsert of the rows of `ns`. */
    method SyncNotesToCloud(ns: seq<Note>) returns (r: Outcome)
      requires Valid()
      modifies this`table
      ensures Valid()
      ensures handle.None? ==> r == Failure(NotConnected)
      ensures r.Success? <==> handle.Some? && reachable && DistinctIds(ns)
      ensures r.Success? ==> table == Upserted(old(table), ns)
      ensures r.Failure? ==> table == old(table)
    {
      if handle.None? {
        return Failure(NotConnected);
      }
      if !reachable {
        return Failure(Transport);
      }
      if !DistinctIds(ns) {
        return Failure(RowTouchedTwice);
      }
      table := Upserted(table, ns);
      r := Success;
    }

    /** `deleteNoteFromCloud`: `delete().eq('id', noteId)`. */
    method DeleteNoteFromCloud(noteId: Id) returns (r: Outcome)
      requires Valid()
      modifies this`table
      ensures Valid()
      ensures handle.None? ==> r == Failure(NotConnected)
      ensures r.Success? <==> handle.Some? && reachable
      ensures table == if r.Success? then old(table) - {noteId} else old(table)
    {
      if handle.None? {
        return Failure(NotConnected);
      }
      if !reachable {
        return Failure(Transport);
      }
      table := table - {noteId};
      r := Success;
    }

    /** `fetchNotesFromCloud`: `select('*')` mapped to each row's `data`,
        in an order this model leaves open; `None` stands for `null`. */
    method FetchNotesFromCloud() returns (r: Option<seq<Note>>)
      requires Valid()
      ensures r.Some? <==> handle.Some? && reachable
      ensures r.Some? ==> DistinctIds(r.value) && Keyed(r.value) == Data(table)
    {
      if handle.None? || !reachable {
        return None;
      }
      var ns := [];
      var rest := table.Keys;
      while rest != {}
        invariant rest <= table.Keys
        invariant DistinctIds(ns) && IdSet(ns) == table.Keys - rest
        invariant forall n :: n in ns ==> n.id in table && table[n.id].data == n
        decreases rest
      {
        var k :| k in rest;
        IdSetSnoc(ns, table[k].data);
        ns := ns + [table[k].data];
        rest := rest - {k};
      }
      KeyedValues(ns);
      r := Some(ns);
    }
  }
}
