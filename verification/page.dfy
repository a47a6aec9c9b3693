/** The page's module-level state (calendar.js lines 4-11): the reminder list, and the month
    and year on show; and the handlers that update it in place. */
module CalendarPage {
  import opened Wrappers
  import opened Reminders
  import opened Grid
  import opened Navigation
  import opened Due

  class Page {
    /** The shown month, 0-based as Date.prototype.getMonth returns it. */
    var currentMonth: int
    var currentYear: int
    /** The reminder objects; the due check sets their `notified` flags in place. */
    var reminders: array<Reminder>

    ghost predicate Valid()
      reads this
    {
      0 <= currentMonth <= 11
    }

    /** Page load: the month and year of `new Date()`, and an empty reminder list. */
    constructor (month: int, year: int)
      requires 0 <= month <= 11
      ensures Valid()
      ensures currentMonth == month && currentYear == year
      ensures fresh(reminders) && reminders[..] == []
    {
      currentMonth := month;
      currentYear := year;
      reminders := new Reminder[0];
    }

    /** The two callbacks of fetchReminders (lines 39-46): the fetched list replaces the local
        one, or a failed fetch leaves it empty; then the grid is redrawn for the shown month.
        Each record keeps the `notified` flag it was fetched with. */
    method Refresh(fetched: Option<seq<Reminder>>) returns (rows: seq<seq<Cell>>)
      requires Valid()
      modifies this`reminders
      ensures Valid()
      ensures fresh(reminders)
      ensures reminders[..] == (if fetched.Some? then fetched.value else [])
      ensures Flatten(rows) == MonthCells(reminders[..], currentMonth, currentYear) && Weeks(rows)
    {
      var data := if fetched.Some? then fetched.value else [];
      reminders := new Reminder[|data|](i requires 0 <= i < |data| => data[i]);
      rows := LoadCalendar(data, currentMonth, currentYear);
    }

    /** The previous-month button (lines 233-238). */
    method PrevMonth()
      requires Valid()
      modifies this`currentMonth, this`currentYear
      ensures Valid()
      ensures (currentMonth, currentYear) == Preceding(old(currentMonth), old(currentYear))
    {
      currentMonth := currentMonth - 1;
      if currentMonth < 0 {
        currentMonth := 11;
        currentYear := currentYear - 1;
      }
    }

    /** The next-month button (lines 242-247). */
    method NextMonth()
      requires Valid()
      modifies this`currentMonth, this`currentYear
      ensures Valid()
      ensures (currentMonth, currentYear) == Following(old(currentMonth), old(currentYear))
    {
      currentMonth := currentMonth + 1;
      if currentMonth > 11 {
        currentMonth := 0;
        currentYear := currentYear + 1;
      }
    }

    /** One tick of the due check at clock reading `now` (lines 212-227): the date and
        "HH:MM" time are read off the clock, then every reminder is compared with them. */
    method CheckDue(now: Clock) returns (alerts: seq<nat>)
      modifies reminders
      ensures alerts == DueIndices(old(reminders[..]), Reading(now))
      ensures reminders[..] == Tick(old(reminders[..]), Reading(now))
    {
      var at := Reading(now);
      alerts := AlertDue(at);
    }

    /** The `forEach` of lines 221-227: every reminder that is due at `at` is marked notified in
        place, and the positions of those that alert are returned in list order. */
    method AlertDue(at: Moment) returns (alerts: seq<nat>)
      modifies reminders
      ensures alerts == DueIndices(old(reminders[..]), at)
      ensures reminders[..] == Tick(old(reminders[..]), at)
    {
      ghost var before := reminders[..];
      alerts := [];
      for i := 0 to reminders.Length
        invariant forall k :: 0 <= k < reminders.Length ==>
          reminders[k] == if k < i then Notify(before[k], at) else before[k]
        invariant alerts == DueIndices(before[..i], at)
      {
        DueIndicesStep(before, at, i);
        var r := reminders[i];
        if IsDue(r, at) {
          alerts := alerts + [i];
          reminders[i] := r.(notified := true);
        }
        assert reminders[i] == Notify(before[i], at);
      }
      assert before[..reminders.Length] == before;
      TickPointwise(before, reminders[..], at);
    }
  }
}
