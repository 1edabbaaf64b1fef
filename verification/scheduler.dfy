/** The upcoming-birthday report: `find_next_weekday`, `adjust_for_weekend` and
    `get_upcoming_birthdays`. The wall clock is a parameter: `now` is the value
    `datetime.today()` would return, a date with a time of day. */
module Scheduler {
  import opened Results
  import opened Sequences
  import opened Calendar
  import opened Records
  import opened AddressBooks

  const MicrosPerDay: int := 86_400_000_000

  /** The window `get_upcoming_birthdays` uses when called without one. */
  const DefaultWindow: int := 7

  /** A `datetime`: a date and the time of day in microseconds after midnight. */
  datatype Instant = Instant(date: Date, micros: int)

  predicate ValidInstant(t: Instant) {
    ValidDate(t.date) && 0 <= t.micros < MicrosPerDay
  }

  /** A stored birthday is a datetime at midnight, as strptime builds it. */
  function Midnight(d: Date): Instant {
    Instant(d, 0)
  }

  /** `a < b` on datetimes: the date first, then the time of day. */
  predicate InstantBefore(a: Instant, b: Instant) {
    DateBefore(a.date, b.date) || (a.date == b.date && a.micros < b.micros)
  }

  /** `(later - earlier).days`: whole days of the difference, rounded down. */
  function WholeDays(later: Instant, earlier: Instant): int
    requires ValidDate(later.date) && ValidDate(earlier.date)
  {
    ((Ordinal(later.date) - Ordinal(earlier.date)) * MicrosPerDay + (later.micros - earlier.micros)) / MicrosPerDay
  }

  /** From `now` to a later midnight, a partial day does not count. */
  lemma WholeDaysToMidnight(d: Date, now: Instant)
    requires ValidDate(d) && ValidInstant(now)
    ensures WholeDays(Midnight(d), now) == Ordinal(d) - Ordinal(now.date) - (if now.micros > 0 then 1 else 0)
  {
    var k := Ordinal(d) - Ordinal(now.date);
    if now.micros > 0 {
      assert k * MicrosPerDay - now.micros == (k - 1) * MicrosPerDay + (MicrosPerDay - now.micros);
    }
  }

  /** A midnight is before `now` exactly when its day is earlier, or it is
      today's midnight and some of today has passed. */
  lemma MidnightBefore(d: Date, now: Instant)
    requires ValidDate(d) && ValidInstant(now)
    ensures InstantBefore(Midnight(d), now) <==>
      Ordinal(d) < Ordinal(now.date) || (Ordinal(d) == Ordinal(now.date) && now.micros > 0)
  {
    OrdinalMonotone(d, now.date);
    OrdinalInjective(d, now.date);
  }

  /** 31 December 9999 is a Friday. */
  lemma LastDateIsFriday()
    ensures ValidDate(LastDate) && Weekday(LastDate) == 4
  {
    LastOrdinal();
  }

  // ---------------------------------------------------------------------------
  // find_next_weekday, adjust_for_weekend

  /** `find_next_weekday(start, weekday)`: the nearest date strictly after
      `start` that falls on `weekday`, or OverflowError past 31 December 9999. */
  function FindNextWeekday(start: Date, weekday: int): (r: Result<Date, DateError>)
    requires ValidDate(start)
    ensures r.Failure? ==> r.error == Overflow
    ensures r.Success? ==> ValidDate(r.value)
    ensures 0 <= weekday < 7 && r.Success? ==>
      1 <= Ordinal(r.value) - Ordinal(start) <= 7 && Weekday(r.value) == weekday
    ensures 0 <= weekday < 7 && r.Success? ==>
      forall n :: Ordinal(start) < n < Ordinal(r.value) ==> DayOfWeek(n) != weekday
    ensures 0 <= weekday < 7 && Ordinal(start) + 7 <= MaxOrdinal ==> r.Success?
  {
    NextWeekdayFacts(start, weekday);
    AddDays(start, DaysToWeekday(Weekday(start), weekday))
  }

  /** What stepping `days_ahead` days from `start` reaches. */
  lemma NextWeekdayFacts(start: Date, weekday: int)
    requires ValidDate(start)
    ensures 0 <= weekday < 7 ==>
      var ahead := DaysToWeekday(Weekday(start), weekday);
      var r := AddDays(start, ahead);
      && 1 <= ahead <= 7
      && (r.Success? ==> Weekday(r.value) == weekday)
      && (r.Success? ==> forall n :: Ordinal(start) < n < Ordinal(r.value) ==> DayOfWeek(n) != weekday)
  {
    var o := Ordinal(start);
    StepToWeekday(o, weekday);
    var r := AddDays(start, DaysToWeekday(DayOfWeek(o), weekday));
    if r.Success? {
      assert Weekday(r.value) == DayOfWeek(Ordinal(r.value));
    }
  }

  /** `days_ahead`: the target weekday minus the current one, plus a week
      when that is not positive. */
  function DaysToWeekday(current: int, weekday: int): int {
    var ahead := weekday - current;
    if ahead <= 0 then ahead + 7 else ahead
  }

  /** From ordinal `o`, stepping `DaysToWeekday` days reaches the first later
      day with the wanted weekday. */
  lemma StepToWeekday(o: int, weekday: int)
    ensures 0 <= weekday < 7 ==>
      var ahead := DaysToWeekday(DayOfWeek(o), weekday);
      && 1 <= ahead <= 7
      && DayOfWeek(o + ahead) == weekday
      && forall n :: o < n < o + ahead ==> DayOfWeek(n) != weekday
  {
    var w := DayOfWeek(o);
    var ahead := DaysToWeekday(w, weekday);
    if 0 <= weekday < 7 {
      assert 0 <= w < 7;
      DayOfWeekShift(o, ahead);
      assert w + ahead == weekday || w + ahead == weekday + 7;
      forall n | o < n < o + ahead
        ensures DayOfWeek(n) != weekday
      {
        var k := n - o;
        DayOfWeekShift(o, k);
        if w + k < 7 {
          assert DayOfWeek(n) == w + k;
        } else {
          assert DayOfWeek(n) == w + k - 7;
        }
      }
    }
  }

  /** Moving `k` days on moves the weekday `k` places round the week. */
  lemma DayOfWeekShift(o: int, k: int)
    ensures DayOfWeek(o + k) == (DayOfWeek(o) + k) % 7
  {
    var q := (o + 6) / 7;
    assert o + 6 == 7 * q + DayOfWeek(o);
    assert o + k + 6 == 7 * q + (DayOfWeek(o) + k);
  }

  /** `adjust_for_weekend(d)`: a Saturday or Sunday moves to the next Monday,
      any other day stays. The move never leaves the calendar, because the last
      representable day is a Friday. */
  function AdjustForWeekend(d: Date): (r: Result<Date, DateError>)
    requires ValidDate(d)
    ensures r.Success? && ValidDate(r.value) && Weekday(r.value) < 5
    ensures Weekday(d) < 5 ==> r.value == d
    ensures Weekday(d) >= 5 ==> Weekday(r.value) == 0 && 1 <= Ordinal(r.value) - Ordinal(d) <= 2
  {
    if Weekday(d) >= 5 then
      LastDateIsFriday();
      OrdinalRange(d);
      FindNextWeekday(d, 0)
    else Success(d)
  }

  // ---------------------------------------------------------------------------
  // get_upcoming_birthdays

  /** The birthday's day and month in `now`'s year, or in the next year when
      that moment has already passed; `replace(year=...)` raises ValueError when
      the day does not exist in the target year (29 February) or the year is
      past 9999. */
  function NextOccurrence(bd: Date, now: Instant): (r: Result<Date, DateError>)
    requires ValidDate(bd) && ValidInstant(now)
    ensures r.Success? ==> ValidDate(r.value) && r.value.month == bd.month && r.value.day == bd.day
    ensures r.Success? ==> !InstantBefore(Midnight(r.value), now)
    ensures r.Success? ==> r.value.year == now.date.year || r.value.year == now.date.year + 1
    ensures r.Success? ==> forall y :: y < r.value.year && ValidDate(Date(y, bd.month, bd.day)) ==>
      InstantBefore(Midnight(Date(y, bd.month, bd.day)), now)
    ensures var thisYear := Date(now.date.year, bd.month, bd.day);
      r.Failure? <==> (!ValidDate(thisYear) ||
        (InstantBefore(Midnight(thisYear), now) && !ValidDate(Date(now.date.year + 1, bd.month, bd.day))))
    ensures r.Failure? ==> r.error in {YearOutOfRange, DayOutOfRange}
  {
    var thisYear :- ReplaceYear(bd, now.date.year);
    if InstantBefore(Midnight(thisYear), now) then ReplaceYear(bd, now.date.year + 1) else Success(thisYear)
  }

  /** Days from `now` to the occurrence, counted as the report counts them. */
  function DaysAhead(c: Date, now: Instant): int
    requires ValidDate(c) && ValidInstant(now)
  {
    Ordinal(c) - Ordinal(now.date) - (if now.micros > 0 then 1 else 0)
  }

  /** A next occurrence is never behind `now`: the day count is at least 0. */
  lemma OccurrenceNotPast(bd: Date, now: Instant)
    requires ValidDate(bd) && ValidInstant(now)
    requires NextOccurrence(bd, now).Success?
    ensures WholeDays(Midnight(NextOccurrence(bd, now).value), now) >= 0
  {
    var c := NextOccurrence(bd, now).value;
    WholeDaysToMidnight(c, now);
    MidnightBefore(c, now);
  }

  /** One entry of the report: `{"Contact": name, "upcoming birthday": date}`. */
  datatype Reminder = Reminder(name: string, date: Date)

  /** The record has a birthday, its next occurrence exists, and it is at most
      `window` days ahead. */
  predicate IsDue(record: Record, now: Instant, window: int)
    requires WellFormed(record) && ValidInstant(now)
  {
    && record.birthday.Some?
    && NextOccurrence(record.birthday.value, now).Success?
    && DaysAhead(NextOccurrence(record.birthday.value, now).value, now) <= window
  }

  /** The record's birthday cannot be placed: `replace(year=...)` raises. */
  predicate Unplaceable(record: Record, now: Instant)
    requires WellFormed(record) && ValidInstant(now)
  {
    record.birthday.Some? && NextOccurrence(record.birthday.value, now).Failure?
  }

  /** The announced date is the record's next occurrence, moved to the Monday
      after it when it falls on a weekend and otherwise left alone. */
  predicate Announces(rem: Reminder, record: Record, now: Instant)
    requires WellFormed(record) && ValidInstant(now)
  {
    && record.birthday.Some?
    && NextOccurrence(record.birthday.value, now).Success?
    && var c := NextOccurrence(record.birthday.value, now).value;
    && ValidDate(rem.date)
    && Weekday(rem.date) < 5
    && 0 <= Ordinal(rem.date) - Ordinal(c) <= 2
    && (Weekday(c) < 5 ==> rem.date == c)
    && (Weekday(c) >= 5 ==> Weekday(rem.date) == 0)
  }

  /** `Announces` leaves no choice: two reminders for the same record agree on
      the date. */
  lemma AnnouncedDateUnique(a: Reminder, b: Reminder, record: Record, now: Instant)
    requires WellFormed(record) && ValidInstant(now)
    requires Announces(a, record, now) && Announces(b, record, now)
    ensures a.date == b.date
  {
    var c := NextOccurrence(record.birthday.value, now).value;
    if Weekday(c) >= 5 {
      MondayAfterWeekend(Ordinal(c), Ordinal(a.date));
      MondayAfterWeekend(Ordinal(c), Ordinal(b.date));
      OrdinalInjective(a.date, b.date);
    }
  }

  /** Within two days of a Saturday or Sunday there is exactly one Monday. */
  lemma MondayAfterWeekend(c: int, x: int)
    requires DayOfWeek(c) >= 5 && 0 <= x - c <= 2 && DayOfWeek(x) == 0
    ensures x == c + 7 - DayOfWeek(c)
  {
    var w := DayOfWeek(c);
    DayOfWeekShift(c, x - c);
    assert (w + (x - c)) % 7 == 0;
    assert 5 <= w + (x - c) <= 8;
  }

  /** One pass of the loop body of `get_upcoming_birthdays` for one record. */
  function ReminderFor(name: string, record: Record, now: Instant, window: int): (r: Result<Option<Reminder>, DateError>)
    requires WellFormed(record) && ValidInstant(now)
    ensures r.Failure? <==> Unplaceable(record, now)
    ensures r.Success? ==> (r.value.Some? <==> IsDue(record, now, window))
    ensures r.Success? && r.value.Some? ==> r.value.value.name == name && Announces(r.value.value, record, now)
  {
    match record.birthday
    case None => Success(None)
    case Some(bd) =>
      var c :- NextOccurrence(bd, now);
      WholeDaysToMidnight(c, now);
      OccurrenceNotPast(bd, now);
      if 0 <= WholeDays(Midnight(c), now) <= window then
        // adjust_for_weekend cannot raise OverflowError (its contract), so
        // there is no error to pass on here.
        Success(Some(Reminder(name, AdjustForWeekend(c).value)))
      else Success(None)
  }

  function Names(rs: seq<Reminder>): (ns: seq<string>)
    ensures |ns| == |rs| && forall i :: 0 <= i < |rs| ==> ns[i] == rs[i].name
  {
    if |rs| == 0 then [] else [rs[0].name] + Names(rs[1..])
  }

  /** Every key of `keys` names a well-formed record of `data`. */
  ghost predicate KeysIn(data: map<string, Record>, keys: seq<string>) {
    forall i :: 0 <= i < |keys| ==> keys[i] in data && WellFormed(data[keys[i]])
  }

  /** The report over `keys`, in their order; the first record whose birthday
      cannot be placed aborts the whole report. */
  function UpcomingOver(data: map<string, Record>, keys: seq<string>, now: Instant, window: int): Result<seq<Reminder>, DateError>
    requires KeysIn(data, keys) && ValidInstant(now)
    decreases |keys|
  {
    if |keys| == 0 then Success([])
    else
      assert KeysIn(data, keys[1..]);
      Combine(ReminderFor(keys[0], data[keys[0]], now, window), UpcomingOver(data, keys[1..], now, window))
  }

  /** One record's result in front of the report on the records after it: its
      error wins, then theirs; otherwise its reminder, if any, goes first. */
  function Combine(step: Result<Option<Reminder>, DateError>, rest: Result<seq<Reminder>, DateError>): Result<seq<Reminder>, DateError> {
    match step
    case Failure(e) => Failure(e)
    case Success(head) =>
      match rest
      case Failure(e) => Failure(e)
      case Success(tail) => Success((if head.Some? then [head.value] else []) + tail)
  }

  /** `get_upcoming_birthdays(days=window)` with the clock reading `now`. */
  function Upcoming(book: AddressBook, now: Instant, window: int): Result<seq<Reminder>, DateError>
    requires Valid(book) && ValidInstant(now)
  {
    assert KeysIn(book.data, book.order);
    UpcomingOver(book.data, book.order, now, window)
  }

  // ---------------------------------------------------------------------------
  // What the report contains

  lemma {:induction false} OverFailsIff(data: map<string, Record>, keys: seq<string>, now: Instant, window: int)
    requires KeysIn(data, keys) && ValidInstant(now)
    ensures UpcomingOver(data, keys, now, window).Failure? <==>
      exists i :: 0 <= i < |keys| && Unplaceable(data[keys[i]], now)
    decreases |keys|
  {
    if |keys| > 0 {
      OverFailsIff(data, keys[1..], now, window);
      assert forall i :: 1 <= i < |keys| ==> keys[i] == keys[1..][i - 1];
    }
  }

  lemma {:induction false} OverListsDue(data: map<string, Record>, keys: seq<string>, now: Instant, window: int)
    requires KeysIn(data, keys) && ValidInstant(now)
    requires UpcomingOver(data, keys, now, window).Success?
    ensures var out := UpcomingOver(data, keys, now, window).value;
      && (forall k :: k in Names(out) <==> k in keys && IsDue(data[k], now, window))
      && IsSubsequence(Names(out), keys)
    decreases |keys|
  {
    if |keys| > 0 {
      OverListsDue(data, keys[1..], now, window);
      var head := ReminderFor(keys[0], data[keys[0]], now, window).value;
      var tail := UpcomingOver(data, keys[1..], now, window).value;
      var out := UpcomingOver(data, keys, now, window).value;
      assert keys == [keys[0]] + keys[1..];
      if head.Some? {
        assert out == [head.value] + tail;
        assert Names(out) == [keys[0]] + Names(tail);
      } else {
        assert out == tail;
        SkipHead(Names(tail), keys);
      }
    }
  }

  lemma {:induction false} OverAnnounces(data: map<string, Record>, keys: seq<string>, now: Instant, window: int)
    requires KeysIn(data, keys) && ValidInstant(now)
    requires UpcomingOver(data, keys, now, window).Success?
    ensures var out := UpcomingOver(data, keys, now, window).value;
      forall i :: 0 <= i < |out| ==> out[i].name in data && WellFormed(data[out[i].name]) && Announces(out[i], data[out[i].name], now)
    decreases |keys|
  {
    if |keys| > 0 {
      OverAnnounces(data, keys[1..], now, window);
      var head := ReminderFor(keys[0], data[keys[0]], now, window).value;
      var tail := UpcomingOver(data, keys[1..], now, window).value;
      var out := UpcomingOver(data, keys, now, window).value;
      if head.Some? {
        assert out == [head.value] + tail;
      } else {
        assert out == tail;
      }
    }
  }

  /** The report fails exactly when some record's birthday cannot be placed in
      the target year. */
  lemma UpcomingFailsIff(book: AddressBook, now: Instant, window: int)
    requires Valid(book) && ValidInstant(now)
    ensures Upcoming(book, now, window).Failure? <==>
      exists k :: k in book.data && Unplaceable(book.data[k], now)
  {
    OverFailsIff(book.data, book.order, now, window);
  }

  /** A contact is listed exactly when it has a birthday whose next occurrence
      is at most `window` days ahead; contacts are listed once each, in the
      book's key order, and each listed date is that occurrence moved off a
      weekend. */
  lemma UpcomingListsExactlyDue(book: AddressBook, now: Instant, window: int)
    requires Valid(book) && ValidInstant(now)
    requires Upcoming(book, now, window).Success?
    ensures var out := Upcoming(book, now, window).value;
      && (forall k :: k in Names(out) <==> k in book.data && IsDue(book.data[k], now, window))
      && IsSubsequence(Names(out), book.order)
      && (forall i :: 0 <= i < |out| ==> out[i].name in book.data && Announces(out[i], book.data[out[i].name], now))
  {
    OverListsDue(book.data, book.order, now, window);
    OverAnnounces(book.data, book.order, now, window);
  }

  /** A contact without a birthday never appears in the report. */
  lemma UpcomingSkipsMissingBirthdays(book: AddressBook, now: Instant, window: int, name: string)
    requires Valid(book) && ValidInstant(now)
    requires Upcoming(book, now, window).Success?
    requires name in book.data && book.data[name].birthday.None?
    ensures name !in Names(Upcoming(book, now, window).value)
  {
    UpcomingListsExactlyDue(book, now, window);
  }

  /** `birthdays(book)`: the report over the default seven-day window. It
      fails exactly when some birthday cannot be placed; otherwise it lists,
      in key order, exactly the contacts due within seven days. */
  function Birthdays(book: AddressBook, now: Instant): (r: Result<seq<Reminder>, DateError>)
    requires Valid(book) && ValidInstant(now)
    ensures r.Failure? <==> exists k :: k in book.data && Unplaceable(book.data[k], now)
    ensures r.Success? ==>
      && (forall k :: k in Names(r.value) <==> k in book.data && IsDue(book.data[k], now, DefaultWindow))
      && IsSubsequence(Names(r.value), book.order)
      && (forall i :: 0 <= i < |r.value| ==>
            r.value[i].name in book.data && Announces(r.value[i], book.data[r.value[i].name], now))
  {
    UpcomingFailsIff(book, now, DefaultWindow);
    if Upcoming(book, now, DefaultWindow).Success? then
      UpcomingListsExactlyDue(book, now, DefaultWindow);
      Upcoming(book, now, DefaultWindow)
    else
      Upcoming(book, now, DefaultWindow)
  }

  // ---------------------------------------------------------------------------
  // Worked examples

  lemma June2024Ordinals()
    ensures Ordinal(Date(2024, 6, 10)) == 739047
    ensures Ordinal(Date(2024, 6, 15)) == 739052
    ensures Ordinal(Date(2024, 6, 16)) == 739053
    ensures Ordinal(Date(2024, 6, 17)) == 739054
  {
    ClosedFormAgrees(2024);
  }

  /** With the clock at 10:00 on Monday 10 June 2024, a contact born on
      15 June 1990 is listed for Monday 17 June: 15 June 2024 is a Saturday. */
  lemma SaturdayBirthdayMovesToMonday()
    ensures ReminderFor("Ann", Record("Ann", [], Some(Date(1990, 6, 15))), Instant(Date(2024, 6, 10), 36_000_000_000), 7)
      == Success(Some(Reminder("Ann", Date(2024, 6, 17))))
  {
    June2024Ordinals();
    var now := Instant(Date(2024, 6, 10), 36_000_000_000);
    var c := Date(2024, 6, 15);
    assert NextOccurrence(Date(1990, 6, 15), now) == Success(c);
    assert Weekday(c) == 5;
    WholeDaysToMidnight(c, now);
    var shifted := AdjustForWeekend(c).value;
    OrdinalInjective(shifted, Date(2024, 6, 17));
  }

  /** A contact born on 16 June is listed for Monday 17 June 2024, the day
      after the Sunday occurrence, and for no other date. */
  lemma SundayBirthdayMovesToMonday(rem: Reminder)
    requires Announces(rem, Record("Ann", [], Some(Date(1990, 6, 16))), Instant(Date(2024, 6, 10), 0))
    ensures rem.date == Date(2024, 6, 17)
  {
    June2024Ordinals();
    var now := Instant(Date(2024, 6, 10), 0);
    var c := Date(2024, 6, 16);
    assert NextOccurrence(Date(1990, 6, 16), now) == Success(c);
    assert Weekday(c) == 6;
    MondayAfterWeekend(739053, Ordinal(rem.date));
    OrdinalInjective(rem.date, Date(2024, 6, 17));
  }

  /** A 29 February birthday cannot be placed in a common year: the report
      raises ValueError. */
  lemma LeapDayBirthdayInCommonYear()
    ensures ReminderFor("Bo", Record("Bo", [], Some(Date(2000, 2, 29))), Instant(Date(2023, 6, 10), 0), 7)
      == Failure(DayOutOfRange)
  {
    assert ReplaceYear(Date(2000, 2, 29), 2023) == Failure(DayOutOfRange);
  }

  /** In March of a leap year the 29 February birthday has passed, and the
      following year has no such day: the report raises ValueError as well. */
  lemma LeapDayBirthdayAfterItPassed()
    ensures ReminderFor("Bo", Record("Bo", [], Some(Date(2000, 2, 29))), Instant(Date(2024, 3, 1), 0), 7)
      == Failure(DayOutOfRange)
  {
    var now := Instant(Date(2024, 3, 1), 0);
    assert ReplaceYear(Date(2000, 2, 29), 2024) == Success(Date(2024, 2, 29));
    assert InstantBefore(Midnight(Date(2024, 2, 29)), now);
    assert ReplaceYear(Date(2000, 2, 29), 2025) == Failure(DayOutOfRange);
    assert NextOccurrence(Date(2000, 2, 29), now) == Failure(DayOutOfRange);
  }

  // ---------------------------------------------------------------------------
  // The loop of get_upcoming_birthdays

  function Prefixed(acc: seq<Reminder>, r: Result<seq<Reminder>, DateError>): Result<seq<Reminder>, DateError> {
    match r
    case Success(s) => Success(acc + s)
    case Failure(e) => Failure(e)
  }

  lemma PrefixedNothing(r: Result<seq<Reminder>, DateError>)
    ensures Prefixed([], r) == r
  {
    if r.Success? {
      assert [] + r.value == r.value;
    }
  }

  /** One record's step of the report, seen from the accumulated prefix. */
  lemma OverStep(data: map<string, Record>, keys: seq<string>, now: Instant, window: int, acc: seq<Reminder>)
    requires KeysIn(data, keys) && ValidInstant(now) && |keys| > 0
    ensures var step := ReminderFor(keys[0], data[keys[0]], now, window);
      && (step.Failure? ==> Prefixed(acc, UpcomingOver(data, keys, now, window)) == Failure(step.error))
      && (step.Success? ==>
            Prefixed(acc, UpcomingOver(data, keys, now, window)) ==
            Prefixed(acc + (if step.value.Some? then [step.value.value] else []), UpcomingOver(data, keys[1..], now, window)))
  {
    assert KeysIn(data, keys[1..]);
    PrefixedCombine(acc, ReminderFor(keys[0], data[keys[0]], now, window), UpcomingOver(data, keys[1..], now, window));
  }

  /** `Prefixed` distributes over one `Combine` step. */
  lemma PrefixedCombine(acc: seq<Reminder>, step: Result<Option<Reminder>, DateError>, rest: Result<seq<Reminder>, DateError>)
    ensures step.Failure? ==> Prefixed(acc, Combine(step, rest)) == Failure(step.error)
    ensures step.Success? ==>
      Prefixed(acc, Combine(step, rest)) == Prefixed(acc + (if step.value.Some? then [step.value.value] else []), rest)
  {
    if step.Success? && rest.Success? {
      var head := if step.value.Some? then [step.value.value] else [];
      assert acc + (head + rest.value) == (acc + head) + rest.value;
    }
  }

  /** `OverStep` at position `i` of the key list. */
  lemma OverStepAt(data: map<string, Record>, keys: seq<string>, i: nat, now: Instant, window: int, acc: seq<Reminder>)
    requires KeysIn(data, keys) && ValidInstant(now) && i < |keys|
    ensures KeysIn(data, keys[i..]) && KeysIn(data, keys[i + 1..])
    ensures var step := ReminderFor(keys[i], data[keys[i]], now, window);
      && (step.Failure? ==> Prefixed(acc, UpcomingOver(data, keys[i..], now, window)) == Failure(step.error))
      && (step.Success? ==>
            Prefixed(acc, UpcomingOver(data, keys[i..], now, window)) ==
            Prefixed(acc + (if step.value.Some? then [step.value.value] else []), UpcomingOver(data, keys[i + 1..], now, window)))
  {
    assert keys[i..][0] == keys[i] && keys[i..][1..] == keys[i + 1..];
    OverStep(data, keys[i..], now, window, acc);
  }

  /** A valid book's insertion order lists keys of well-formed records. */
  lemma OrderKeysIn(book: AddressBook)
    requires Valid(book)
    ensures KeysIn(book.data, book.order)
  {
    forall i | 0 <= i < |book.order|
      ensures book.order[i] in book.data && WellFormed(book.data[book.order[i]])
    {
      assert book.order[i] in book.order;
    }
  }

  /** The loop body of `get_upcoming_birthdays` for the record under
      `keys[i]`: appends its reminder when it is due, or stops with the
      ValueError of `replace(year=...)`. */
  method VisitRecord(data: map<string, Record>, keys: seq<string>, i: nat, now: Instant, window: int, found: seq<Reminder>)
    returns (found': seq<Reminder>, stop: Option<DateError>)
    requires KeysIn(data, keys) && ValidInstant(now) && i < |keys|
    ensures KeysIn(data, keys[i..]) && KeysIn(data, keys[i + 1..])
    ensures stop.Some? ==> Prefixed(found, UpcomingOver(data, keys[i..], now, window)) == Failure(stop.value)
    ensures stop.None? ==>
      Prefixed(found, UpcomingOver(data, keys[i..], now, window)) == Prefixed(found', UpcomingOver(data, keys[i + 1..], now, window))
  {
    var name := keys[i];
    OverStepAt(data, keys, i, now, window, found);
    var step := ReminderFor(name, data[name], now, window);
    if step.Failure? {
      return found, Some(step.error);
    }
    if step.value.Some? {
      found' := found + [step.value.value];
    } else {
      assert found + [] == found;
      found' := found;
    }
    stop := None;
  }

  /** `get_upcoming_birthdays`: walks the book's items in insertion order,
      appending one reminder per due record; a ValueError from
      `replace(year=...)` ends the walk. */
  method GetUpcomingBirthdays(book: AddressBook, now: Instant, window: int) returns (r: Result<seq<Reminder>, DateError>)
    requires Valid(book) && ValidInstant(now)
    ensures r == Upcoming(book, now, window)
  {
    var keys := book.order;
    OrderKeysIn(book);
    ghost var total := UpcomingOver(book.data, keys, now, window);
    assert keys[0..] == keys;
    PrefixedNothing(total);
    var found: seq<Reminder> := [];
    var i := 0;
    while i < |keys|
      invariant 0 <= i <= |keys|
      invariant KeysIn(book.data, keys) && KeysIn(book.data, keys[i..])
      invariant total == Prefixed(found, UpcomingOver(book.data, keys[i..], now, window))
    {
      var stop;
      found, stop := VisitRecord(book.data, keys, i, now, window, found);
      if stop.Some? {
        return Failure(stop.value);
      }
      i := i + 1;
    }
    assert found + [] == found;
    return Success(found);
  }
}
