/** The reminder record and how the month grid picks the reminders of one day
    (the `forEach` inside loadCalendar, calendar.js lines 71-78). */
module Reminders {

  /** One reminder as the page holds it. `month` is 1-based, as the store keeps it;
      `notified` is set locally once the due alert has fired. */
  datatype Reminder = Reminder(
    id: string,
    title: string,
    day: int,
    month: int,
    year: int,
    time: string,
    notified: bool)

  /** The test of line 72: a reminder belongs to day `day` of the grid showing the 0-based
      `month` of `year` when its 1-based month is month + 1. */
  predicate OnDay(r: Reminder, day: int, month: int, year: int) {
    r.day == day && r.month == month + 1 && r.year == year
  }

  /** The text of one event entry in a day cell: "<title> (<time>)". */
  function Label(r: Reminder): string {
    r.title + " (" + r.time + ")"
  }

  /** The event labels of one day cell: one per reminder on that day, in list order. */
  function Labels(rs: seq<Reminder>, day: int, month: int, year: int): seq<string>
    decreases |rs|
  {
    if rs == [] then []
    else
      var last := rs[|rs| - 1];
      Labels(rs[..|rs| - 1], day, month, year) + (if OnDay(last, day, month, year) then [Label(last)] else [])
  }

  /** The labels of a concatenated list are those of the first part followed by those of the
      second: labels keep the order of the reminder list. */
  lemma {:induction false} LabelsAppend(xs: seq<Reminder>, ys: seq<Reminder>, day: int, month: int, year: int)
    ensures Labels(xs + ys, day, month, year) == Labels(xs, day, month, year) + Labels(ys, day, month, year)
    decreases |ys|
  {
    if ys != [] {
      var init := ys[..|ys| - 1];
      assert (xs + ys)[..|xs + ys| - 1] == xs + init;
      LabelsAppend(xs, init, day, month, year);
    } else {
      assert xs + ys == xs;
    }
  }

  /** A label appears in the cell exactly when some reminder on that day carries it. */
  lemma {:induction false} LabelsIn(rs: seq<Reminder>, day: int, month: int, year: int, x: string)
    ensures x in Labels(rs, day, month, year)
        <==> exists i :: 0 <= i < |rs| && OnDay(rs[i], day, month, year) && x == Label(rs[i])
    decreases |rs|
  {
    if rs != [] {
      var init := rs[..|rs| - 1];
      LabelsIn(init, day, month, year, x);
      if x in Labels(init, day, month, year) {
        var i :| 0 <= i < |init| && OnDay(init[i], day, month, year) && x == Label(init[i]);
        assert rs[i] == init[i];
      }
      if exists i :: 0 <= i < |rs| && OnDay(rs[i], day, month, year) && x == Label(rs[i]) {
        var i :| 0 <= i < |rs| && OnDay(rs[i], day, month, year) && x == Label(rs[i]);
        if i < |init| {
          assert init[i] == rs[i];
        }
      }
    }
  }

  /** Every reminder on the day contributes exactly one label, so the cell holds as many labels
      as there are reminders on that day. */
  lemma {:induction false} LabelsCount(rs: seq<Reminder>, day: int, month: int, year: int)
    ensures |Labels(rs, day, month, year)| == |OnDayIndices(rs, day, month, year)|
    decreases |rs|
  {
    if rs != [] {
      LabelsCount(rs[..|rs| - 1], day, month, year);
    }
  }

  /** The positions in the list of the reminders on the day, in increasing order. */
  function OnDayIndices(rs: seq<Reminder>, day: int, month: int, year: int): (ix: seq<nat>)
    ensures forall k :: 0 <= k < |ix| ==> ix[k] < |rs| && OnDay(rs[ix[k]], day, month, year)
    ensures forall i :: 0 <= i < |rs| && OnDay(rs[i], day, month, year) ==> i in ix
    ensures forall k, l :: 0 <= k < l < |ix| ==> ix[k] < ix[l]
    decreases |rs|
  {
    if rs == [] then []
    else
      var n := |rs| - 1;
      var ix' := OnDayIndices(rs[..n], day, month, year);
      ix' + if OnDay(rs[n], day, month, year) then [n] else []
  }

  /** The k-th label of the cell is the label of the k-th reminder on that day. */
  lemma {:induction false} LabelsAt(rs: seq<Reminder>, day: int, month: int, year: int, k: nat)
    requires k < |Labels(rs, day, month, year)|
    ensures |Labels(rs, day, month, year)| == |OnDayIndices(rs, day, month, year)|
    ensures Labels(rs, day, month, year)[k] == Label(rs[OnDayIndices(rs, day, month, year)[k]])
    decreases |rs|
  {
    LabelsCount(rs, day, month, year);
    var n := |rs| - 1;
    var init := rs[..n];
    LabelsCount(init, day, month, year);
    if k < |Labels(init, day, month, year)| {
      LabelsAt(init, day, month, year, k);
    }
  }

  /** The loop of lines 71-78: walk the reminder list once and append the label of every
      reminder on the day. */
  method DayLabels(rs: seq<Reminder>, day: int, month: int, year: int) returns (labels: seq<string>)
    ensures labels == Labels(rs, day, month, year)
  {
    labels := [];
    for i := 0 to |rs|
      invariant labels == Labels(rs[..i], day, month, year)
    {
      assert rs[..i + 1][..i] == rs[..i];
      if OnDay(rs[i], day, month, year) {
        labels := labels + [Label(rs[i])];
      }
    }
    assert rs[..|rs|] == rs;
  }
}
