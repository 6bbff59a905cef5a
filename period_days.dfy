/**
 * `getAllPeriodDays` in src/lib/period.ts: every day of every cycle, for
 * highlighting in the calendar. A cycle still open is shown as seven days.
 */
module PeriodDays {
  import opened Wrappers
  import opened LocalDate
  import opened PeriodRecords

  /** The last day shown for a cycle: its end, or six days after an open start. */
  function ShownEnd(c: PeriodCycle): Day {
    c.endDate.GetOr(c.startDate + 6)
  }

  /** The days `from`, `from + 1`, …, `to`; empty when `to` is before `from`. */
  function DayRun(from: Day, to: Day): seq<Day> {
    seq(if from <= to then to - from + 1 else 0, k => from + k)
  }

  /** The days of each cycle in turn, the cycles in list order. */
  function AllPeriodDays(cycles: seq<PeriodCycle>): seq<Day> {
    if cycles == [] then []
    else
      var last := cycles[|cycles| - 1];
      AllPeriodDays(cycles[..|cycles| - 1]) + DayRun(last.startDate, ShownEnd(last))
  }

  /** An open cycle is shown as seven days from its start; a completed one as
      end - start + 1 days, or none when it ends before it starts. */
  lemma ShownDays(c: PeriodCycle)
    ensures c.endDate.None? ==> DayRun(c.startDate, ShownEnd(c)) == [c.startDate, c.startDate + 1, c.startDate + 2,
                                   c.startDate + 3, c.startDate + 4, c.startDate + 5, c.startDate + 6]
    ensures c.endDate.Some? ==>
              |DayRun(c.startDate, ShownEnd(c))| == if c.startDate <= c.endDate.value then c.endDate.value - c.startDate + 1 else 0
  {
  }

  /** A day is highlighted exactly when some cycle shows it. */
  lemma {:induction false} AllPeriodDaysMembers(cycles: seq<PeriodCycle>, d: Day)
    ensures d in AllPeriodDays(cycles) <==>
              exists i :: 0 <= i < |cycles| && cycles[i].startDate <= d <= ShownEnd(cycles[i])
  {
    if cycles != [] {
      var n := |cycles|;
      var prefix := cycles[..n - 1];
      var last := cycles[n - 1];
      AllPeriodDaysMembers(prefix, d);
      assert d in DayRun(last.startDate, ShownEnd(last)) <==> last.startDate <= d <= ShownEnd(last) by {
        if last.startDate <= d <= ShownEnd(last) {
          assert DayRun(last.startDate, ShownEnd(last))[d - last.startDate] == d;
        }
      }
      if exists i :: 0 <= i < n && cycles[i].startDate <= d <= ShownEnd(cycles[i]) {
        var i :| 0 <= i < n && cycles[i].startDate <= d <= ShownEnd(cycles[i]);
        if i < n - 1 { assert prefix[i] == cycles[i]; }
      }
      if exists i :: 0 <= i < |prefix| && prefix[i].startDate <= d <= ShownEnd(prefix[i]) {
        var i :| 0 <= i < |prefix| && prefix[i].startDate <= d <= ShownEnd(prefix[i]);
        assert cycles[i] == prefix[i];
      }
    }
  }

  /** `getAllPeriodDays`: for each cycle, a `while` loop that pushes its days one at a time. */
  method GetAllPeriodDays(cycles: seq<PeriodCycle>) returns (days: seq<Day>)
    ensures days == AllPeriodDays(cycles)
  {
    days := [];
    var i := 0;
    while i < |cycles|
      invariant 0 <= i <= |cycles|
      invariant days == AllPeriodDays(cycles[..i])
    {
      var cycle := cycles[i];
      var startDate := cycle.startDate;
      var endDate := if cycle.endDate.Some? then cycle.endDate.value else startDate + 6;
      var current := startDate;
      ghost var before := days;
      while current <= endDate
        invariant startDate <= current <= if startDate <= endDate then endDate + 1 else startDate
        invariant days == before + DayRun(startDate, current - 1)
      {
        assert DayRun(startDate, current) == DayRun(startDate, current - 1) + [current];
        days := days + [current];
        current := current + 1;
      }
      assert DayRun(startDate, current - 1) == DayRun(startDate, endDate);
      assert cycles[..i + 1][..i] == cycles[..i];
      i := i + 1;
    }
    assert cycles[..i] == cycles;
  }
}
