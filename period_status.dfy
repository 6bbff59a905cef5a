/**
 * The status and prediction engine of src/lib/period.ts (`getPeriodStatus`):
 * whether `today` falls in a cycle, how far into it and how long until it
 * ends, the rolling averages of cycle and period length, and how many days
 * remain until the next period is expected.
 *
 * `Status` is the specification function, written as one function of the inputs;
 * `GetPeriodStatus` is the source's loop-and-assignment procedure, proved to
 * compute it. `cutoff` stands for `subMonths(today, AVERAGE_PERIOD_MONTH)`.
 */
module PeriodStatusEngine {
  import opened Wrappers
  import opened LocalDate
  import opened PeriodRecords

  /** The snapshot `getPeriodStatus` returns. */
  datatype PeriodStatus = PeriodStatus(
    isOnPeriod: bool,
    currentCycle: Option<PeriodCycle>,
    daysUntilEnd: Option<int>,
    daysUntilNext: Option<int>,
    daysSinceStart: Option<int>,
    averageCycleDays: int,
    averagePeriodDays: Option<int>)

  /** Every cycle with an end ends on or after its start. */
  predicate EndsNotBeforeStarts(cycles: seq<PeriodCycle>) {
    forall i :: 0 <= i < |cycles| && cycles[i].endDate.Some? ==> cycles[i].startDate <= cycles[i].endDate.value
  }

  /** The test of the current-cycle loop: a cycle with an end holds `today` when
      `today` is inside [start, end] or equals either end; an open cycle holds it
      from its start day on. */
  predicate InCycle(c: PeriodCycle, today: Day) {
    match c.endDate
    case Some(end) => (c.startDate <= today <= end) || c.startDate == today || end == today
    case None => c.startDate == today || c.startDate < today
  }

  /** For a cycle that does not end before it starts, the test is plain membership. */
  lemma InCycleIsMembership(c: PeriodCycle, today: Day)
    requires c.endDate.Some? ==> c.startDate <= c.endDate.value
    ensures InCycle(c, today) <==> c.startDate <= today && (c.endDate.Some? ==> today <= c.endDate.value)
  {
  }

  /** The cycle the loop stops at: the first in list order that holds `today`. */
  function CurrentCycle(cycles: seq<PeriodCycle>, today: Day): (r: Option<PeriodCycle>)
    ensures r.None? <==> forall i :: 0 <= i < |cycles| ==> !InCycle(cycles[i], today)
    ensures r.Some? ==> exists i :: 0 <= i < |cycles| && cycles[i] == r.value && InCycle(cycles[i], today)
                                    && forall j :: 0 <= j < i ==> !InCycle(cycles[j], today)
  {
    if cycles == [] then None
    else if InCycle(cycles[0], today) then Some(cycles[0])
    else
      var r := CurrentCycle(cycles[1..], today);
      assert forall i :: 1 <= i < |cycles| ==> cycles[i] == cycles[1..][i - 1];
      assert r.Some? ==> exists i :: 0 <= i < |cycles| && cycles[i] == r.value && InCycle(cycles[i], today)
                                       && forall j :: 0 <= j < i ==> !InCycle(cycles[j], today) by {
        if r.Some? {
          var i :| 0 <= i < |cycles[1..]| && cycles[1..][i] == r.value && InCycle(cycles[1..][i], today)
                   && forall j :: 0 <= j < i ==> !InCycle(cycles[1..][j], today);
          assert cycles[i + 1] == r.value;
          forall j | 0 <= j < i + 1 ensures !InCycle(cycles[j], today) {
            if j > 0 { assert cycles[j] == cycles[1..][j - 1]; }
          }
        }
      }
      r
  }

  /** `cycles.filter((c) => c.endDate)`: the cycles that have an end, in order. */
  function Completed(cycles: seq<PeriodCycle>): seq<PeriodCycle> {
    if cycles == [] then []
    else
      var last := cycles[|cycles| - 1];
      Completed(cycles[..|cycles| - 1]) + (if last.endDate.Some? then [last] else [])
  }

  /** The completed cycles are exactly the cycles that have an end. */
  lemma {:induction false} CompletedMembers(cycles: seq<PeriodCycle>)
    ensures forall c :: c in Completed(cycles) <==> c in cycles && c.endDate.Some?
  {
    if cycles != [] {
      var n := |cycles|;
      CompletedMembers(cycles[..n - 1]);
      assert cycles == cycles[..n - 1] + [cycles[n - 1]];
    }
  }

  /** The last completed cycle is the last cycle in the list that has an end. */
  lemma {:induction false} LastCompletedIsLastWithEnd(cycles: seq<PeriodCycle>)
    requires Completed(cycles) != []
    ensures exists i :: 0 <= i < |cycles| && cycles[i] == Completed(cycles)[|Completed(cycles)| - 1]
                        && cycles[i].endDate.Some?
                        && forall j :: i < j < |cycles| ==> cycles[j].endDate.None?
  {
    var n := |cycles|;
    var prefix := cycles[..n - 1];
    if cycles[n - 1].endDate.None? {
      assert Completed(cycles) == Completed(prefix);
      LastCompletedIsLastWithEnd(prefix);
      var i :| 0 <= i < |prefix| && prefix[i] == Completed(prefix)[|Completed(prefix)| - 1]
               && prefix[i].endDate.Some?
               && forall j :: i < j < |prefix| ==> prefix[j].endDate.None?;
      assert cycles[i] == prefix[i];
      forall j | i < j < n ensures cycles[j].endDate.None? {
        if j < n - 1 { assert cycles[j] == prefix[j]; }
      }
    } else {
      assert Completed(cycles)[|Completed(cycles)| - 1] == cycles[n - 1];
    }
  }

  /** Completed cycles of a sorted list are sorted. */
  lemma {:induction false} CompletedKeepsSorted(cycles: seq<PeriodCycle>)
    requires CyclesSorted(cycles)
    ensures CyclesSorted(Completed(cycles))
  {
    if cycles != [] {
      var n := |cycles|;
      var prefix := cycles[..n - 1];
      assert CyclesSorted(prefix);
      CompletedKeepsSorted(prefix);
      var cp := Completed(prefix);
      CompletedMembers(prefix);
      forall c | c in cp ensures c.startDate <= cycles[n - 1].startDate {
        var k :| 0 <= k < |prefix| && prefix[k] == c;
        assert cycles[k] == c;
      }
      var r := Completed(cycles);
      forall i, j | 0 <= i < j < |r| ensures r[i].startDate <= r[j].startDate {
        if j < |cp| {
          assert r[i] == cp[i] && r[j] == cp[j];
        } else {
          assert r[i] == cp[i] && cp[i] in cp;
        }
      }
    }
  }

  /** The list `cycleLengths`: the day gap between each start and the next. */
  function Gaps(cs: seq<PeriodCycle>): seq<int> {
    seq(if |cs| == 0 then 0 else |cs| - 1, k requires 0 <= k < |cs| - 1 => cs[k + 1].startDate - cs[k].startDate)
  }

  /** `reduce((a, b) => a + b, 0)`, adding from the left. */
  function Sum(s: seq<int>): int {
    if s == [] then 0 else Sum(s[..|s| - 1]) + s[|s| - 1]
  }

  /** `Math.round(sum / n)`: the integer nearest to sum/n, a half rounded up. */
  function RoundDiv(sum: int, n: int): (r: int)
    requires n > 0
    ensures 2 * n * r <= 2 * sum + n < 2 * n * r + 2 * n
  {
    (2 * sum + n) / (2 * n)
  }

  /** No average is below a bound every term meets. */
  lemma RoundDivAtLeast(sum: int, n: int, lo: int)
    requires n > 0 && n * lo <= sum
    ensures lo <= RoundDiv(sum, n)
  {
    var r := RoundDiv(sum, n);
    var m := 2 * n;
    assert m * lo <= 2 * sum by { assert m * lo == 2 * (n * lo); }
    assert m * r + m == m * (r + 1);
    if r + 1 <= lo {
      MulKeepsOrder(r + 1, lo, m);
      assert false;
    }
  }

  /** No average is above a bound every term meets. */
  lemma RoundDivAtMost(sum: int, n: int, hi: int)
    requires n > 0 && sum <= n * hi
    ensures RoundDiv(sum, n) <= hi
  {
    var r := RoundDiv(sum, n);
    var m := 2 * n;
    assert 2 * sum <= m * hi by { assert m * hi == 2 * (n * hi); }
    assert m * r <= 2 * sum + n;
    assert m * (hi + 1) == m * hi + m;
    if hi + 1 <= r {
      MulKeepsOrder(hi + 1, r, m);
      assert false;
    }
  }

  /** A sum of terms none below `lo` is at least |s| times `lo`, and likewise above. */
  lemma {:induction false} SumBounds(s: seq<int>, lo: int, hi: int)
    requires forall i :: 0 <= i < |s| ==> lo <= s[i] <= hi
    ensures |s| * lo <= Sum(s) <= |s| * hi
  {
    if s != [] {
      var p := s[..|s| - 1];
      SumBounds(p, lo, hi);
      assert |s| * lo == |p| * lo + lo;
      assert |s| * hi == |p| * hi + hi;
    }
  }

  /** The gaps between consecutive starts add up to the span from first to last start. */
  lemma {:induction false} GapsTelescope(cs: seq<PeriodCycle>)
    requires cs != []
    ensures Sum(Gaps(cs)) == cs[|cs| - 1].startDate - cs[0].startDate
  {
    var n := |cs|;
    if n > 1 {
      var p := cs[..n - 1];
      GapsTelescope(p);
      assert Gaps(cs)[..n - 2] == Gaps(p);
      assert Gaps(cs)[n - 2] == cs[n - 1].startDate - cs[n - 2].startDate;
    }
  }

  /** `averageCycleDays`: the default until there are `averagePeriodMonth`
      completed cycles, then the rounded mean gap between consecutive starts. */
  function AverageCycleDays(completed: seq<PeriodCycle>, cfg: Config): int
    requires ValidConfig(cfg)
  {
    if |completed| >= cfg.averagePeriodMonth then RoundDiv(Sum(Gaps(completed)), |completed| - 1)
    else cfg.averageCycleDays
  }

  /** With enough history the average cycle is the span from the first to the
      last completed start, shared out over the gaps between them. */
  lemma AverageCycleIsMeanSpan(completed: seq<PeriodCycle>, cfg: Config)
    requires ValidConfig(cfg) && |completed| >= cfg.averagePeriodMonth
    ensures AverageCycleDays(completed, cfg)
         == RoundDiv(completed[|completed| - 1].startDate - completed[0].startDate, |completed| - 1)
  {
    GapsTelescope(completed);
  }

  /** With enough history the average cycle lies between the shortest and the longest gap. */
  lemma AverageCycleWithinGaps(completed: seq<PeriodCycle>, cfg: Config, lo: int, hi: int)
    requires ValidConfig(cfg) && |completed| >= cfg.averagePeriodMonth
    requires forall k :: 0 <= k < |completed| - 1 ==> lo <= completed[k + 1].startDate - completed[k].startDate <= hi
    ensures lo <= AverageCycleDays(completed, cfg) <= hi
  {
    var g := Gaps(completed);
    SumBounds(g, lo, hi);
    RoundDivAtLeast(Sum(g), |g|, lo);
    RoundDivAtMost(Sum(g), |g|, hi);
  }

  /** `recentCompletedCycles`: the cycles whose end is not before the cutoff. */
  function Recent(completed: seq<PeriodCycle>, cutoff: Day): seq<PeriodCycle> {
    if completed == [] then []
    else
      var last := completed[|completed| - 1];
      Recent(completed[..|completed| - 1], cutoff)
        + (if last.endDate.Some? && last.endDate.value >= cutoff then [last] else [])
  }

  /** The recent cycles are the cycles that end on or after the cutoff. */
  lemma {:induction false} RecentMembers(completed: seq<PeriodCycle>, cutoff: Day)
    ensures forall c :: c in Recent(completed, cutoff) <==> c in completed && c.endDate.Some? && c.endDate.value >= cutoff
  {
    if completed != [] {
      var n := |completed|;
      RecentMembers(completed[..n - 1], cutoff);
      assert completed == completed[..n - 1] + [completed[n - 1]];
    }
  }

  /** `differenceInDays(e, s) + 1`: the days of a completed cycle, first and last
      included (a cycle without an end, which `Recent` never keeps, counts 0). */
  function PeriodLength(c: PeriodCycle): int {
    c.endDate.GetOr(c.startDate - 1) - c.startDate + 1
  }

  /** `periodLengths`: the inclusive day count of each recent cycle. */
  function PeriodLengths(recent: seq<PeriodCycle>): seq<int> {
    seq(|recent|, k requires 0 <= k < |recent| => PeriodLength(recent[k]))
  }

  /** `averagePeriodDays`: the default when no completed cycle ends on or after
      the cutoff, otherwise the rounded mean inclusive length of those that do. */
  function AveragePeriodDays(completed: seq<PeriodCycle>, cutoff: Day, cfg: Config): int {
    var recent := Recent(completed, cutoff);
    if |recent| > 0 then RoundDiv(Sum(PeriodLengths(recent)), |recent|) else cfg.averagePeriodDays
  }

  /** When the recent cycles all end on or after their start, the average period is at least a day;
      more generally it lies between the shortest and the longest recent period. */
  lemma AveragePeriodWithinLengths(completed: seq<PeriodCycle>, cutoff: Day, cfg: Config, lo: int, hi: int)
    requires Recent(completed, cutoff) != []
    requires forall c :: c in Recent(completed, cutoff) ==> lo <= PeriodLength(c) <= hi
    ensures lo <= AveragePeriodDays(completed, cutoff, cfg) <= hi
  {
    var recent := Recent(completed, cutoff);
    var lengths := PeriodLengths(recent);
    forall k | 0 <= k < |lengths| ensures lo <= lengths[k] <= hi {
      assert recent[k] in recent;
    }
    SumBounds(lengths, lo, hi);
    RoundDivAtLeast(Sum(lengths), |lengths|, lo);
    RoundDivAtMost(Sum(lengths), |lengths|, hi);
  }

  /** Recent cycles that do not end before they start give an average period of at least one day. */
  lemma {:induction false} AveragePeriodAtLeastOneDay(completed: seq<PeriodCycle>, cutoff: Day, cfg: Config)
    requires EndsNotBeforeStarts(completed)
    requires Recent(completed, cutoff) != [] || cfg.averagePeriodDays >= 1
    ensures AveragePeriodDays(completed, cutoff, cfg) >= 1
  {
    var recent := Recent(completed, cutoff);
    if recent != [] {
      var lengths := PeriodLengths(recent);
      RecentMembers(completed, cutoff);
      forall k | 0 <= k < |lengths| ensures 1 <= lengths[k] {
        assert recent[k] in recent;
        var j :| 0 <= j < |completed| && completed[j] == recent[k];
      }
      var top := MaxOf(lengths);
      SumBounds(lengths, 1, top);
      RoundDivAtLeast(Sum(lengths), |lengths|, 1);
    }
  }

  /** The largest element of a non-empty list. */
  function MaxOf(s: seq<int>): (m: int)
    requires s != []
    ensures forall k :: 0 <= k < |s| ==> s[k] <= m
    ensures exists k :: 0 <= k < |s| && s[k] == m
  {
    if |s| == 1 then s[0]
    else
      var m := MaxOf(s[..|s| - 1]);
      assert forall k :: 0 <= k < |s| - 1 ==> s[..|s| - 1][k] == s[k];
      if s[|s| - 1] > m then s[|s| - 1] else m
  }

  /** What `getPeriodStatus` returns for `cycles` on `today`. */
  function Status(cycles: seq<PeriodCycle>, today: Day, cutoff: Day, cfg: Config): (st: PeriodStatus)
    requires ValidConfig(cfg)
    ensures st.isOnPeriod <==> st.currentCycle.Some?
    ensures st.averagePeriodDays.Some?
    ensures st.daysSinceStart.Some? <==> st.isOnPeriod
    ensures st.daysUntilEnd.Some? <==> st.isOnPeriod
  {
    var current := CurrentCycle(cycles, today);
    var completed := Completed(cycles);
    var averageCycleDays := AverageCycleDays(completed, cfg);
    var averagePeriodDays := AveragePeriodDays(completed, cutoff, cfg);
    var daysSinceStart := if current.Some? then Some(today - current.value.startDate) else None;
    var daysUntilEnd :=
      if current.None? then None
      else if current.value.endDate.Some? then Some(current.value.endDate.value - today)
      else Some(current.value.startDate + averagePeriodDays - 1 - today);
    var daysUntilNext :=
      if current.None? && completed != [] then Some(completed[|completed| - 1].startDate + averageCycleDays - today)
      else None;
    PeriodStatus(current.Some?, current, daysUntilEnd, daysUntilNext, daysSinceStart,
                 averageCycleDays, Some(averagePeriodDays))
  }

  /** The day counts of the current cycle: days since its start (never
      negative, zero on the start day), days until its recorded end (never
      negative), or until the end the average period length projects. */
  lemma StatusDayCounts(cycles: seq<PeriodCycle>, today: Day, cutoff: Day, cfg: Config)
    requires ValidConfig(cfg) && EndsNotBeforeStarts(cycles)
    ensures var st := Status(cycles, today, cutoff, cfg);
            st.currentCycle.Some? ==>
              var c := st.currentCycle.value;
              && st.daysSinceStart == Some(today - c.startDate)
              && today - c.startDate >= 0
              && (today == c.startDate ==> st.daysSinceStart == Some(0))
              && (c.endDate.Some? ==> st.daysUntilEnd == Some(c.endDate.value - today) && c.endDate.value - today >= 0)
              && (c.endDate.None? ==>
                    st.daysUntilEnd == Some(c.startDate + st.averagePeriodDays.value - 1 - today))
  {
    var st := Status(cycles, today, cutoff, cfg);
    if st.currentCycle.Some? {
      var i :| 0 <= i < |cycles| && cycles[i] == st.currentCycle.value && InCycle(cycles[i], today);
      InCycleIsMembership(cycles[i], today);
    }
  }

  /** The current cycle is the first cycle in list order that holds `today`,
      and there is one exactly when some cycle holds `today`. A prediction is
      made exactly when there is no current cycle and some cycle has an end. */
  lemma StatusCurrentCycle(cycles: seq<PeriodCycle>, today: Day, cutoff: Day, cfg: Config)
    requires ValidConfig(cfg) && EndsNotBeforeStarts(cycles)
    ensures var st := Status(cycles, today, cutoff, cfg);
            && (st.isOnPeriod <==>
                  exists i :: 0 <= i < |cycles| && cycles[i].startDate <= today
                              && (cycles[i].endDate.Some? ==> today <= cycles[i].endDate.value))
            && (st.currentCycle.Some? ==>
                  exists i :: 0 <= i < |cycles| && cycles[i] == st.currentCycle.value && InCycle(cycles[i], today)
                              && forall j :: 0 <= j < i ==> !InCycle(cycles[j], today))
            && (st.daysUntilNext.Some? <==>
                  !st.isOnPeriod && exists i :: 0 <= i < |cycles| && cycles[i].endDate.Some?)
  {
    forall i | 0 <= i < |cycles| {
      InCycleIsMembership(cycles[i], today);
    }
    CompletedMembers(cycles);
    var completed := Completed(cycles);
    if exists i :: 0 <= i < |cycles| && cycles[i].endDate.Some? {
      var i :| 0 <= i < |cycles| && cycles[i].endDate.Some?;
      assert cycles[i] in completed;
    }
    if completed != [] {
      assert completed[0] in completed;
    }
  }

  /** The prediction: with no current cycle and some completed one, the next
      start is the last completed start plus the average cycle; the count is
      signed, and negative when the period is overdue. */
  lemma StatusPrediction(cycles: seq<PeriodCycle>, today: Day, cutoff: Day, cfg: Config)
    requires ValidConfig(cfg)
    ensures var st := Status(cycles, today, cutoff, cfg);
            st.daysUntilNext.Some? ==>
              exists i :: 0 <= i < |cycles| && cycles[i].endDate.Some?
                          && (forall j :: i < j < |cycles| ==> cycles[j].endDate.None?)
                          && st.daysUntilNext == Some(cycles[i].startDate + st.averageCycleDays - today)
  {
    var st := Status(cycles, today, cutoff, cfg);
    if st.daysUntilNext.Some? {
      LastCompletedIsLastWithEnd(cycles);
    }
  }

  /** The two averages as the engine reports them. */
  lemma StatusAverages(cycles: seq<PeriodCycle>, today: Day, cutoff: Day, cfg: Config)
    requires ValidConfig(cfg)
    ensures var st := Status(cycles, today, cutoff, cfg);
            var completed := Completed(cycles);
            && (|completed| < cfg.averagePeriodMonth ==> st.averageCycleDays == cfg.averageCycleDays)
            && (|completed| >= cfg.averagePeriodMonth ==>
                  st.averageCycleDays
                  == RoundDiv(completed[|completed| - 1].startDate - completed[0].startDate, |completed| - 1))
            && (Recent(completed, cutoff) == [] ==> st.averagePeriodDays == Some(cfg.averagePeriodDays))
  {
    var completed := Completed(cycles);
    if |completed| >= cfg.averagePeriodMonth {
      AverageCycleIsMeanSpan(completed, cfg);
    }
  }

  /** On a list sorted by start, as `parsePeriodCycles` makes it, the average
      cycle is never negative. */
  lemma AverageCycleOfSortedIsNonNegative(cycles: seq<PeriodCycle>, today: Day, cutoff: Day, cfg: Config)
    requires ValidConfig(cfg) && CyclesSorted(cycles) && cfg.averageCycleDays >= 0
    ensures Status(cycles, today, cutoff, cfg).averageCycleDays >= 0
  {
    var completed := Completed(cycles);
    CompletedKeepsSorted(cycles);
    if |completed| >= cfg.averagePeriodMonth {
      var span := completed[|completed| - 1].startDate - completed[0].startDate;
      AverageCycleWithinGaps(completed, cfg, 0, span);
    }
  }

  /** The `for … of` loop of `getPeriodStatus` that stops at the first cycle holding `today`. */
  method FindCurrentCycle(cycles: seq<PeriodCycle>, today: Day) returns (currentCycle: Option<PeriodCycle>)
    ensures currentCycle == CurrentCycle(cycles, today)
  {
    currentCycle := None;
    var i := 0;
    while i < |cycles|
      invariant 0 <= i <= |cycles|
      invariant CurrentCycle(cycles, today) == CurrentCycle(cycles[i..], today)
      invariant currentCycle == None
    {
      var cycle := cycles[i];
      if cycle.endDate.Some? {
        if (cycle.startDate <= today <= cycle.endDate.value) || cycle.startDate == today || cycle.endDate.value == today {
          currentCycle := Some(cycle);
          break;
        }
      } else {
        if cycle.startDate == today || cycle.startDate < today {
          currentCycle := Some(cycle);
          break;
        }
      }
      assert cycles[i..][1..] == cycles[i + 1..];
      i := i + 1;
    }
  }

  /** The index loop of `getPeriodStatus` that pushes the gap between each
      completed start and the one before it into `cycleLengths`. */
  method CycleLengths(completedCycles: seq<PeriodCycle>) returns (cycleLengths: seq<int>)
    ensures cycleLengths == Gaps(completedCycles)
  {
    cycleLengths := [];
    if |completedCycles| == 0 {
      return;
    }
    var k := 1;
    while k < |completedCycles|
      invariant 1 <= k <= |completedCycles|
      invariant cycleLengths == Gaps(completedCycles[..k])
    {
      assert Gaps(completedCycles[..k + 1]) == Gaps(completedCycles[..k])
               + [completedCycles[k].startDate - completedCycles[k - 1].startDate];
      cycleLengths := cycleLengths + [completedCycles[k].startDate - completedCycles[k - 1].startDate];
      k := k + 1;
    }
    assert completedCycles[..k] == completedCycles;
  }

  /** `getPeriodStatus`, step by step as the source does it: a search loop that
      breaks at the first matching cycle, a loop that collects the gaps between
      completed starts, and the day counts assigned branch by branch. The
      precondition on ends keeps `isWithinInterval` away from reversed intervals. */
  method GetPeriodStatus(cycles: seq<PeriodCycle>, today: Day, cutoff: Day, cfg: Config) returns (st: PeriodStatus)
    requires ValidConfig(cfg) && EndsNotBeforeStarts(cycles)
    ensures st == Status(cycles, today, cutoff, cfg)
  {
    var currentCycle := FindCurrentCycle(cycles, today);
    var isOnPeriod := currentCycle != None;

    var completedCycles := Completed(cycles);

    var averageCycleDays := cfg.averageCycleDays;
    if |completedCycles| >= cfg.averagePeriodMonth {
      var cycleLengths := CycleLengths(completedCycles);
      averageCycleDays := RoundDiv(Sum(cycleLengths), |cycleLengths|);
    }

    var averagePeriodDays := cfg.averagePeriodDays;
    var recentCompletedCycles := Recent(completedCycles, cutoff);
    if |recentCompletedCycles| > 0 {
      var periodLengths := PeriodLengths(recentCompletedCycles);
      averagePeriodDays := RoundDiv(Sum(periodLengths), |periodLengths|);
    }

    var daysUntilEnd: Option<int> := None;
    var daysSinceStart: Option<int> := None;
    if currentCycle.Some? {
      var start := currentCycle.value.startDate;
      daysSinceStart := Some(today - start);
      if currentCycle.value.endDate.Some? {
        daysUntilEnd := Some(currentCycle.value.endDate.value - today);
      } else {
        var expectedEnd := start + (averagePeriodDays - 1);
        daysUntilEnd := Some(expectedEnd - today);
      }
    }

    var daysUntilNext: Option<int> := None;
    if !isOnPeriod && |completedCycles| > 0 {
      var lastCycle := completedCycles[|completedCycles| - 1];
      var expectedNextStart := lastCycle.startDate + averageCycleDays;
      if expectedNextStart > today {
        daysUntilNext := Some(expectedNextStart - today);
      } else {
        // overdue: the same difference, zero or negative
        daysUntilNext := Some(expectedNextStart - today);
      }
    }

    assert averageCycleDays == AverageCycleDays(completedCycles, cfg);
    assert averagePeriodDays == AveragePeriodDays(completedCycles, cutoff, cfg);
    assert currentCycle == CurrentCycle(cycles, today);
    assert daysUntilEnd ==
      if currentCycle.None? then None
      else if currentCycle.value.endDate.Some? then Some(currentCycle.value.endDate.value - today)
      else Some(currentCycle.value.startDate + averagePeriodDays - 1 - today);
    assert daysUntilNext ==
      if currentCycle.None? && completedCycles != [] then
        Some(completedCycles[|completedCycles| - 1].startDate + averageCycleDays - today)
      else None;
    st := PeriodStatus(isOnPeriod, currentCycle, daysUntilEnd, daysUntilNext, daysSinceStart,
                       averageCycleDays, Some(averagePeriodDays));
  }
}
