/** The page-side reminder check (services/notificationService.ts): which
    reminders are due, and the permission gate in front of every notification. */
module Notifications {
  import opened Types

  /** `Notification.permission`, or `'unsupported'` when the API is missing. */
  datatype Permission = Granted | Denied | Default | Unsupported

  /** A notification as shown: title, body and tag. */
  datatype Notice = Notice(title: string, body: string, tag: string)

  /** Five minutes in milliseconds: how far back a reminder may still fire. */
  const DueWindow := 5 * 60 * 1000

  /** Enabled, not yet delivered, and its time lies in the last five minutes up to `now`. */
  predicate IsDue(n: Note, now: int) {
    && n.reminder.Some?
    && n.reminder.value.enabled
    && !n.reminder.value.notified
    && now - DueWindow <= n.reminder.value.datetime <= now
  }

  /** The notice for a due note: an empty content falls back to a fixed body. */
  function NoticeFor(n: Note): (v: Notice)
    ensures v.body != []
  {
    Notice("Recordatorio: " + n.title,
      if n.content != "" then n.content else "Tienes un recordatorio programado",
      "reminder-" + n.id)
  }

  /** `showNotification`: a notice comes up only with permission granted and
      when the `Notification` constructor does not throw (`constructs`); a
      throw is caught and nothing is shown. */
  function ShowNotification(v: Notice, permission: Permission, constructs: bool): (shown: Option<Notice>)
    ensures shown.Some? <==> permission == Granted && constructs
    ensures shown.Some? ==> shown.value == v
  {
    if permission != Granted then None
    else if constructs then Some(v)
    else None
  }

  /** The due notes of a list, in list order. */
  function Due(notes: seq<Note>, now: int): (d: seq<Note>)
    ensures |d| <= |notes|
  {
    if notes == [] then []
    else (if IsDue(notes[0], now) then [notes[0]] else []) + Due(notes[1..], now)
  }

  function Ids(ns: seq<Note>): (r: seq<Id>)
    ensures |r| == |ns| && forall k :: 0 <= k < |ns| ==> r[k] == ns[k].id
  {
    if ns == [] then [] else [ns[0].id] + Ids(ns[1..])
  }

  function Notices(ns: seq<Note>): (r: seq<Notice>)
    ensures |r| == |ns| && forall k :: 0 <= k < |ns| ==> r[k] == NoticeFor(ns[k])
  {
    if ns == [] then [] else [NoticeFor(ns[0])] + Notices(ns[1..])
  }

  /** Exactly the due notes are picked: none in the future, none older than
      five minutes, none disabled or already delivered. */
  lemma {:induction false} DueMembers(notes: seq<Note>, now: int)
    ensures forall n :: n in Due(notes, now) <==> n in notes && IsDue(n, now)
  {
    if notes != [] {
      DueMembers(notes[1..], now);
      assert forall n :: n in notes <==> n == notes[0] || n in notes[1..];
    }
  }

  /** The pick goes note by note, so input order is kept. */
  lemma {:induction false} DueAppend(a: seq<Note>, b: seq<Note>, now: int)
    ensures Due(a + b, now) == Due(a, now) + Due(b, now)
  {
    if a == [] {
      assert a + b == b;
    } else {
      var h := if IsDue(a[0], now) then [a[0]] else [];
      assert (a + b)[0] == a[0] && (a + b)[1..] == a[1..] + b;
      assert Due(a + b, now) == h + Due(a[1..] + b, now);
      DueAppend(a[1..], b, now);
      assert Due(a, now) == h + Due(a[1..], now);
    }
  }

  /** Without repeated ids no note fires twice in one pass. */
  lemma {:induction false} DueDistinct(notes: seq<Note>, now: int)
    requires DistinctIds(notes)
    ensures DistinctIds(Due(notes, now))
  {
    if notes != [] {
      DueDistinct(notes[1..], now);
      DueMembers(notes[1..], now);
      if IsDue(notes[0], now) {
        var d := Due(notes, now);
        forall j | 1 <= j < |d| ensures d[j].id != notes[0].id {
          assert d[j] == Due(notes[1..], now)[j - 1];
          assert d[j] in Due(notes[1..], now);
          var k :| 0 <= k < |notes[1..]| && notes[1..][k] == d[j];
          assert notes[k + 1] == d[j];
        }
      }
    }
  }

  /** `checkReminders(notes, onReminderTriggered)` at instant `now`. Returns the
      ids handed to the callback, in order, and the notices that came up. The
      callback runs for every due note even when the notice is refused or
      the `Notification` constructor throws (`constructs` false). */
  method CheckReminders(notes: seq<Note>, now: int, permission: Permission, constructs: bool)
    returns (triggered: seq<Id>, shown: seq<Notice>)
    ensures triggered == Ids(Due(notes, now))
    ensures shown == if permission == Granted && constructs then Notices(Due(notes, now)) else []
  {
    triggered, shown := [], [];
    var i := 0;
    while i < |notes|
      invariant 0 <= i <= |notes|
      invariant triggered == Ids(Due(notes[..i], now))
      invariant shown == if permission == Granted && constructs then Notices(Due(notes[..i], now)) else []
    {
      var note := notes[i];
      DueStep(notes, i, now);
      if IsDue(note, now) {
        var n := ShowNotification(NoticeFor(note), permission, constructs);
        if n.Some? {
          shown := shown + [n.value];
        }
        triggered := triggered + [note.id];
      }
      i := i + 1;
    }
    assert notes[..i] == notes;
  }

  /** One more note of the pass adds its id and notice exactly when it is due. */
  lemma DueStep(notes: seq<Note>, i: nat, now: int)
    requires i < |notes|
    ensures var d, d' := Due(notes[..i], now), Due(notes[..i + 1], now);
      if IsDue(notes[i], now) then
        Ids(d') == Ids(d) + [notes[i].id] && Notices(d') == Notices(d) + [NoticeFor(notes[i])]
      else
        Ids(d') == Ids(d) && Notices(d') == Notices(d)
  {
    var note := notes[i];
    assert notes[..i + 1] == notes[..i] + [note];
    DueAppend(notes[..i], [note], now);
    IdsAppend(Due(notes[..i], now), Due([note], now));
    NoticesAppend(Due(notes[..i], now), Due([note], now));
    if !IsDue(note, now) {
      assert Due([note], now) == [];
      assert Due(notes[..i], now) + [] == Due(notes[..i], now);
    }
  }

  lemma IdsAppend(a: seq<Note>, b: seq<Note>)
    ensures Ids(a + b) == Ids(a) + Ids(b)
  {
  }

  lemma NoticesAppend(a: seq<Note>, b: seq<Note>)
    ensures Notices(a + b) == Notices(a) + Notices(b)
  {
  }
}
