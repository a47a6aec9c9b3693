/** One tick of the due-reminder check (the `setInterval` callback, calendar.js lines 211-228):
    the current date and "HH:MM" time are compared with every reminder, and each one that
    matches and has not fired yet raises an alert and is marked notified. */
module Due {
  import opened Wrappers
  import opened Text
  import opened Reminders

  /** The reading of `new Date()` the tick uses: getFullYear, getMonth (0-based), getDate,
      getHours and getMinutes. */
  datatype Clock = Clock(year: int, month: int, date: int, hours: nat, minutes: nat)

  /** What Date's getters can return: hours 0..23 and minutes 0..59. */
  predicate ValidClock(now: Clock) {
    0 <= now.month <= 11 && 1 <= now.date <= 31 && now.hours <= 23 && now.minutes <= 59
  }

  /** The values the tick compares against (lines 213-219): date, 1-based month, year, and
      the time as "HH:MM" with both parts zero-padded to two digits. */
  datatype Moment = Moment(d: int, m: int, y: int, t: string)

  function Reading(now: Clock): Moment {
    Moment(now.date, now.month + 1, now.year, ClockString(now.hours, now.minutes))
  }

  /** Line 222: same day, month, year and time, and not alerted yet. */
  predicate IsDue(r: Reminder, at: Moment) {
    r.day == at.d && r.month == at.m && r.year == at.y && r.time == at.t && !r.notified
  }

  /** The effect of the tick on one reminder: a due reminder is marked notified, and nothing
      else about any reminder changes. */
  function Notify(r: Reminder, at: Moment): (r': Reminder)
    ensures r'.notified == (r.notified || IsDue(r, at))
    ensures r'.(notified := r.notified) == r
  {
    if IsDue(r, at) then r.(notified := true) else r
  }

  /** The reminder list after one tick. */
  function Tick(rs: seq<Reminder>, at: Moment): (rs': seq<Reminder>)
    ensures |rs'| == |rs|
    ensures forall i :: 0 <= i < |rs| ==> rs'[i] == Notify(rs[i], at)
  {
    seq(|rs|, i requires 0 <= i < |rs| => Notify(rs[i], at))
  }

  /** The positions of the reminders that raise an alert in one tick, in list order. */
  function DueIndices(rs: seq<Reminder>, at: Moment): (ix: seq<nat>)
    ensures forall k :: 0 <= k < |ix| ==> ix[k] < |rs| && IsDue(rs[ix[k]], at)
    ensures forall i :: 0 <= i < |rs| && IsDue(rs[i], at) ==> i in ix
    ensures forall k, l :: 0 <= k < l < |ix| ==> ix[k] < ix[l]
    decreases |rs|
  {
    if rs == [] then []
    else
      var n := |rs| - 1;
      DueIndices(rs[..n], at) + if IsDue(rs[n], at) then [n] else []
  }

  /** One more reminder appends its position when it is due. */
  lemma DueIndicesStep(rs: seq<Reminder>, at: Moment, i: nat)
    requires i < |rs|
    ensures DueIndices(rs[..i + 1], at) == DueIndices(rs[..i], at) + if IsDue(rs[i], at) then [i] else []
  {
    assert rs[..i + 1][..i] == rs[..i];
  }

  /** A list that holds each reminder after its Notify is the list after the tick. */
  lemma TickPointwise(rs: seq<Reminder>, rs': seq<Reminder>, at: Moment)
    requires |rs'| == |rs|
    requires forall k :: 0 <= k < |rs| ==> rs'[k] == Notify(rs[k], at)
    ensures rs' == Tick(rs, at)
  {
  }

  /** A reminder fires exactly when it is on the clock's date and its time string reads back
      as the clock's hours and minutes, and it has not fired before. */
  lemma DueIff(r: Reminder, now: Clock)
    requires ValidClock(now)
    ensures IsDue(r, Reading(now)) <==>
      && r.day == now.date && r.month == now.month + 1 && r.year == now.year
      && ParseClock(r.time) == Some((now.hours, now.minutes))
      && !r.notified
  {
    var t := Reading(now).t;
    assert t == ClockString(now.hours, now.minutes);
    ClockStringIff(r.time, now.hours, now.minutes);
    assert IsDue(r, Reading(now)) == (r.day == now.date && r.month == now.month + 1
      && r.year == now.year && r.time == t && !r.notified);
  }

  /** The time the tick compares with is always a well-formed "HH:MM" string. */
  lemma ReadingTime(now: Clock)
    requires ValidClock(now)
    ensures |Reading(now).t| == 5 && Reading(now).t[2] == ':'
    ensures ParseClock(Reading(now).t) == Some((now.hours, now.minutes))
  {
    ClockRoundTrip(now.hours, now.minutes);
  }

  /** A second tick at the same time changes nothing and raises no alert: every reminder that
      was due is now notified. */
  lemma TickIdempotent(rs: seq<Reminder>, at: Moment)
    ensures Tick(Tick(rs, at), at) == Tick(rs, at)
    ensures DueIndices(Tick(rs, at), at) == []
  {
    NoneDue(Tick(rs, at), at);
  }

  /** With no reminder due, the tick alerts nobody. */
  lemma {:induction false} NoneDue(rs: seq<Reminder>, at: Moment)
    requires forall i :: 0 <= i < |rs| ==> !IsDue(rs[i], at)
    ensures DueIndices(rs, at) == []
    decreases |rs|
  {
    if rs != [] {
      NoneDue(rs[..|rs| - 1], at);
    }
  }

  /** A reminder raises an alert in a tick exactly when the tick turns its notified flag on. */
  lemma TickMarksAlerted(rs: seq<Reminder>, at: Moment, i: nat)
    requires i < |rs|
    ensures i in DueIndices(rs, at) <==> (!rs[i].notified && Tick(rs, at)[i].notified)
  {
  }
}
