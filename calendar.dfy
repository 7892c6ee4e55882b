/** The calendar view (components/CalendarModal.tsx): notes grouped by local
    day, the month grid, and month, year and day selection. Dates are
    proleptic Gregorian days with zero-based months, as JavaScript's `Date`
    counts them, except that the multi-argument `Date` constructor reads a
    year argument from 0 to 99 as 1900 plus it (`FullYear`); turning a date
    text or an instant into a local day is a parameter of the model. */
module Calendar {
  import opened Types

  /** A local calendar day; `month` is 0 for January, as in `getMonth()`. */
  datatype Day = Day(year: int, month: int, day: int)

  predicate IsLeap(y: int) {
    y % 4 == 0 && (y % 100 != 0 || y % 400 == 0)
  }

  function DaysInMonth(y: int, m: int): (n: int)
    requires 0 <= m < 12
    ensures 28 <= n <= 31
  {
    if m == 1 then (if IsLeap(y) then 29 else 28)
    else if m == 3 || m == 5 || m == 8 || m == 10 then 30
    else 31
  }

  /** The year `new Date(y, m, d)` uses: an argument from 0 to 99 is read
      as 1900 plus it, any other year as itself. */
  function FullYear(y: int): (r: int)
    ensures r == y || r == y + 1900
    ensures r < 0 || r >= 100
    ensures (y < 0 || y >= 100) ==> r == y
  {
    if 0 <= y <= 99 then y + 1900 else y
  }

  /** Days of year `y` before month `m`. */
  function DaysBeforeMonth(y: int, m: int): int
    requires 0 <= m <= 12
  {
    if m == 0 then 0 else DaysBeforeMonth(y, m - 1) + DaysInMonth(y, m - 1)
  }

  /** Days from 1 January of year 1 to 1 January of year `y` (negative before it). */
  function YearStart(y: int): int {
    var p := y - 1;
    365 * p + p / 4 - p / 100 + p / 400
  }

  /** Day number of a date, consecutive across month and year ends. */
  function DayIndex(d: Day): int
    requires 0 <= d.month < 12
  {
    YearStart(d.year) + DaysBeforeMonth(d.year, d.month) + d.day - 1
  }

  /** `getDay()`: 0 for Sunday; 1 January of year 1 was a Monday. */
  function Weekday(d: Day): (w: int)
    requires 0 <= d.month < 12
    ensures 0 <= w < 7
  {
    (DayIndex(d) + 1) % 7
  }

  /** One year holds 365 days, or 366 in a leap year. */
  lemma YearLength(y: int)
    ensures DaysBeforeMonth(y, 12) == if IsLeap(y) then 366 else 365
  {
    var feb := DaysInMonth(y, 1);
    assert DaysBeforeMonth(y, 1) == 31;
    assert DaysBeforeMonth(y, 2) == 31 + feb;
    assert DaysBeforeMonth(y, 4) == 92 + feb;
    assert DaysBeforeMonth(y, 6) == 153 + feb;
    assert DaysBeforeMonth(y, 8) == 215 + feb;
    assert DaysBeforeMonth(y, 10) == 276 + feb;
  }

  /** Floor division by 4, 100 and 400 steps up by one exactly at multiples. */
  lemma DivSteps(y: int)
    ensures y / 4 - (y - 1) / 4 == if y % 4 == 0 then 1 else 0
    ensures y / 100 - (y - 1) / 100 == if y % 100 == 0 then 1 else 0
    ensures y / 400 - (y - 1) / 400 == if y % 400 == 0 then 1 else 0
  {
  }

  /** Consecutive years start 365 or 366 days apart. */
  lemma YearStartStep(y: int)
    ensures YearStart(y + 1) == YearStart(y) + DaysBeforeMonth(y, 12)
  {
    YearLength(y);
    DivSteps(y);
    LeapByDivisors(y);
  }

  lemma LeapByDivisors(y: int)
    ensures IsLeap(y) ==> (y % 100 != 0 || y % 400 == 0) && y % 4 == 0
    ensures y % 400 == 0 ==> y % 100 == 0 && y % 4 == 0
    ensures y % 100 == 0 ==> y % 4 == 0
  {
    if y % 400 == 0 {
      var q := y / 400;
      assert y == (q * 4) * 100;
      assert y == (q * 100) * 4;
    }
    if y % 100 == 0 {
      var q := y / 100;
      assert y == (q * 25) * 4;
    }
  }

  /** The first of the next month comes `DaysInMonth` days after the first of
      this one, so its weekday is shifted by the month's length. */
  lemma NextMonthWeekday(y: int, m: int)
    requires 0 <= m < 12
    ensures var next := if m == 11 then Day(y + 1, 0, 1) else Day(y, m + 1, 1);
      && DayIndex(next) == DayIndex(Day(y, m, 1)) + DaysInMonth(y, m)
      && Weekday(next) == (Weekday(Day(y, m, 1)) + DaysInMonth(y, m)) % 7
  {
    if m == 11 {
      YearStartStep(y);
    }
  }

  // ---------------------------------------------------------------------
  // Grouping notes by day (`notesByDate`, `getNotesForDate`).

  /** The day a note is shown on: its scheduled date if it has a non-empty
      one, else the day of its reminder if that is enabled, else none.
      `ofDate` reads a `YYYY-MM-DD` text at local midnight; `ofInstant` gives
      the local day of an instant. */
  function NoteDay(n: Note, ofDate: string -> Day, ofInstant: int -> Day): Option<Day> {
    if n.scheduledDate.Some? && n.scheduledDate.value != "" then Some(ofDate(n.scheduledDate.value))
    else if n.reminder.Some? && n.reminder.value.enabled then Some(ofInstant(n.reminder.value.datetime))
    else None
  }

  /** The notes shown on day `d`, in list order. */
  function OnDay(notes: seq<Note>, d: Day, ofDate: string -> Day, ofInstant: int -> Day): (r: seq<Note>)
    ensures |r| <= |notes|
  {
    if notes == [] then []
    else
      var last := notes[|notes| - 1];
      OnDay(notes[..|notes| - 1], d, ofDate, ofInstant) + (if NoteDay(last, ofDate, ofInstant) == Some(d) then [last] else [])
  }

  /** Exactly the notes whose day is `d`; so a note is on at most one day. */
  lemma {:induction false} OnDayMembers(notes: seq<Note>, d: Day, ofDate: string -> Day, ofInstant: int -> Day)
    ensures forall n :: n in OnDay(notes, d, ofDate, ofInstant) <==> n in notes && NoteDay(n, ofDate, ofInstant) == Some(d)
  {
    if notes != [] {
      var init := notes[..|notes| - 1];
      OnDayMembers(init, d, ofDate, ofInstant);
      assert notes == init + [notes[|notes| - 1]];
      assert forall n :: n in notes <==> n in init || n == notes[|notes| - 1];
    }
  }

  /** A bucket is taken from the list piece by piece, so list order is kept. */
  lemma {:induction false} OnDayAppend(a: seq<Note>, b: seq<Note>, d: Day, ofDate: string -> Day, ofInstant: int -> Day)
    ensures OnDay(a + b, d, ofDate, ofInstant) == OnDay(a, d, ofDate, ofInstant) + OnDay(b, d, ofDate, ofInstant)
    decreases |b|
  {
    if b == [] {
      assert a + b == a;
    } else {
      var initB := b[..|b| - 1];
      OnDayAppend(a, initB, d, ofDate, ofInstant);
      assert (a + b)[..|a + b| - 1] == a + initB;
      assert (a + b)[|a + b| - 1] == b[|b| - 1];
    }
  }

  /** The map holds a bucket for exactly the days some note is on, and each
      bucket is that day's notes in list order. */
  ghost predicate IsBucketing(m: map<Day, seq<Note>>, notes: seq<Note>, ofDate: string -> Day, ofInstant: int -> Day) {
    forall d :: (d in m <==> OnDay(notes, d, ofDate, ofInstant) != []) && (d in m ==> m[d] == OnDay(notes, d, ofDate, ofInstant))
  }

  /** `notesByDate`: one pass pushing each dated note onto its day's bucket. */
  method NotesByDate(notes: seq<Note>, ofDate: string -> Day, ofInstant: int -> Day) returns (m: map<Day, seq<Note>>)
    ensures IsBucketing(m, notes, ofDate, ofInstant)
  {
    m := map[];
    var i := 0;
    while i < |notes|
      invariant 0 <= i <= |notes|
      invariant IsBucketing(m, notes[..i], ofDate, ofInstant)
    {
      var note := notes[i];
      assert notes[..i + 1][..i] == notes[..i];
      var day := NoteDay(note, ofDate, ofInstant);
      if day.Some? {
        var key := day.value;
        if key !in m {
          m := m[key := []];
        }
        m := m[key := m[key] + [note]];
      }
      i := i + 1;
    }
    assert notes[..i] == notes;
  }

  /** `getNotesForDate`: the day's bucket, or nothing. */
  function NotesForDate(m: map<Day, seq<Note>>, d: Day): seq<Note> {
    if d in m then m[d] else []
  }

  /** Looking a day up in the grouping gives that day's notes, and an empty list for a day without any. */
  lemma NotesForDateIsOnDay(m: map<Day, seq<Note>>, notes: seq<Note>, d: Day, ofDate: string -> Day, ofInstant: int -> Day)
    requires IsBucketing(m, notes, ofDate, ofInstant)
    ensures NotesForDate(m, d) == OnDay(notes, d, ofDate, ofInstant)
  {
  }

  // ---------------------------------------------------------------------
  // The month grid and navigation.

  /** `calendarDays` for a month: one blank per weekday before the 1st, then
      every day of the month in order. Each day is built with
      `new Date(year, month, i)`, so a year from 0 to 99 shows 1900 plus it. */
  method CalendarDays(year: int, month: int) returns (days: seq<Option<Day>>)
    requires 0 <= month < 12
    ensures var y, pad := FullYear(year), Weekday(Day(FullYear(year), month, 1));
      && |days| == pad + DaysInMonth(y, month)
      && (forall i :: 0 <= i < pad ==> days[i].None?)
      && (forall i :: pad <= i < |days| ==> days[i] == Some(Day(y, month, i - pad + 1)))
  {
    var y := FullYear(year);
    var startPadding := Weekday(Day(y, month, 1));
    var daysInMonth := DaysInMonth(y, month);
    days := [];
    var i := 0;
    while i < startPadding
      invariant 0 <= i <= startPadding && |days| == i
      invariant forall j :: 0 <= j < i ==> days[j].None?
    {
      days := days + [None];
      i := i + 1;
    }
    i := 1;
    while i <= daysInMonth
      invariant 1 <= i <= daysInMonth + 1 && |days| == startPadding + i - 1
      invariant forall j :: 0 <= j < startPadding ==> days[j].None?
      invariant forall j :: startPadding <= j < |days| ==> days[j] == Some(Day(y, month, j - startPadding + 1))
    {
      days := days + [Some(Day(y, month, i))];
      i := i + 1;
    }
  }

  /** Months counted from January of year 0. */
  function MonthIndex(year: int, month: int): int {
    year * 12 + month
  }

  /** `new Date(year, month + delta, 1)`: the year argument is read through
      `FullYear`, then the month overflows into the year. */
  function MonthShift(year: int, month: int, delta: int): (d: Day)
    ensures 0 <= d.month < 12 && d.day == 1
  {
    var total := month + delta;
    Day(FullYear(year) + total / 12, total % 12, 1)
  }

  /** Moving by `delta` months lands exactly `delta` months after the month
      the constructor reads, whatever the wrap; outside the years 0 to 99
      that is `delta` months after the month shown. */
  lemma MonthShiftMoves(year: int, month: int, delta: int)
    ensures var d := MonthShift(year, month, delta);
      MonthIndex(d.year, d.month) == MonthIndex(FullYear(year), month) + delta
    ensures (year < 0 || year >= 100) ==> var d := MonthShift(year, month, delta);
      MonthIndex(d.year, d.month) == MonthIndex(year, month) + delta
  {
    var total := month + delta;
    assert total == (total / 12) * 12 + total % 12;
  }

  /** A month index names one month: so moving there and back returns to the
      start, unless the first move lands in a year from 0 to 99, which the
      move back reads as 1900 plus it. */
  lemma MonthShiftBack(year: int, month: int, delta: int)
    requires 0 <= month < 12
    ensures var d := MonthShift(year, month, delta);
      (d.year < 0 || d.year >= 100) ==> MonthShift(d.year, d.month, -delta) == Day(FullYear(year), month, 1)
  {
    var d := MonthShift(year, month, delta);
    if d.year < 0 || d.year >= 100 {
      var e := MonthShift(d.year, d.month, -delta);
      MonthShiftMoves(year, month, delta);
      MonthShiftMoves(d.year, d.month, -delta);
      MonthIndexUnique(e.year, e.month, FullYear(year), month);
    }
  }

  /** The exception is real: from January of year 100, one month back is
      December of year 99, and one month forward from there is January 2000. */
  lemma MonthShiftTwoDigitYear()
    ensures MonthShift(100, 0, -1) == Day(99, 11, 1)
    ensures MonthShift(99, 11, 1) == Day(2000, 0, 1)
  {
    assert (0 + -1) / 12 == -1 && (0 + -1) % 12 == 11;
  }

  lemma MonthIndexUnique(y1: int, m1: int, y2: int, m2: int)
    requires 0 <= m1 < 12 && 0 <= m2 < 12 && MonthIndex(y1, m1) == MonthIndex(y2, m2)
    ensures y1 == y2 && m1 == m2
  {
  }

  class CalendarView {
    /** `currentDate`: always the 1st of the month shown. */
    var current: Day
    var selected: Option<Day>
    var showCategoryPicker: bool
    var isOpen: bool

    ghost predicate Valid()
      reads this
    {
      current.day == 1 && 0 <= current.month < 12
    }

    constructor (today: Day)
      requires 0 <= today.month < 12
      ensures Valid() && current == Day(FullYear(today.year), today.month, 1)
      ensures selected == None && !showCategoryPicker && isOpen
    {
      current := Day(FullYear(today.year), today.month, 1);
      selected := None;
      showCategoryPicker := false;
      isOpen := true;
    }

    method NavigateMonth(delta: int)
      requires Valid()
      modifies this`current
      ensures Valid() && current == MonthShift(old(current).year, old(current).month, delta)
      ensures selected == old(selected) && showCategoryPicker == old(showCategoryPicker)
    {
      current := MonthShift(current.year, current.month, delta);
    }

    method NavigateYear(delta: int)
      requires Valid()
      modifies this`current
      ensures Valid() && current == Day(FullYear(old(current).year + delta), old(current).month, 1)
      ensures selected == old(selected) && showCategoryPicker == old(showCategoryPicker)
    {
      current := Day(FullYear(current.year + delta), current.month, 1);
    }

    method GoToToday(today: Day)
      requires 0 <= today.month < 12
      modifies this`current
      ensures Valid() && current == Day(FullYear(today.year), today.month, 1)
      ensures selected == old(selected) && showCategoryPicker == old(showCategoryPicker)
    {
      current := Day(FullYear(today.year), today.month, 1);
    }

    /** `handleDayClick`: clicking the selected day clears the selection,
        any other day selects it; the category picker is hidden either way. */
    method HandleDayClick(d: Day)
      modifies this`selected, this`showCategoryPicker
      ensures selected == if old(selected) == Some(d) then None else Some(d)
      ensures !showCategoryPicker
    {
      if selected.Some? && selected.value == d {
        selected := None;
        showCategoryPicker := false;
      } else {
        selected := Some(d);
        showCategoryPicker := false;
      }
    }

    /** `handleCategorySelect`: with a selected day, ask for a note on that day
        in that category, clear the selection and close; otherwise nothing. */
    method HandleCategorySelect(categoryId: string) returns (create: Option<(Day, string)>)
      modifies this`selected, this`showCategoryPicker, this`isOpen
      ensures create.Some? <==> old(selected).Some?
      ensures create.Some? ==> (create.value == (old(selected).value, categoryId)
        && selected == None && !showCategoryPicker && !isOpen)
      ensures create.None? ==> (selected == old(selected)
        && showCategoryPicker == old(showCategoryPicker) && isOpen == old(isOpen))
    {
      if selected.Some? {
        create := Some((selected.value, categoryId));
        showCategoryPicker := false;
        selected := None;
        isOpen := false;
      } else {
        create := None;
      }
    }
  }
}
