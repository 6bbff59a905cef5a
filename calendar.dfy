/**
 * The date logic of the calendar component (src/components/ui/calendar.tsx):
 * the month grid of whole weeks and the click-driven range selection.
 * Rendering is not modelled.
 *
 * Days are day numbers counted from 1 January 1970, a Thursday, as module
 * LocalDate counts them, so the weekday of day `d` is `(d + 4) % 7`, 0 for
 * Sunday and 6 for Saturday (ECMAScript's `WeekDay`). A month is given by the
 * day number of its first day and its number of days, which is what
 * `startOfMonth` and `endOfMonth` provide.
 */
module Calendar {
  import opened Wrappers
  import opened LocalDate

  /** 0 for Sunday up to 6 for Saturday. */
  function Weekday(d: Day): (w: int)
    ensures 0 <= w < 7
  {
    (d + 4) % 7
  }

  /** `startOfWeek(d, { weekStartsOn: 0 })`: the Sunday on or before `d`. */
  function StartOfWeek(d: Day): (r: Day)
    ensures Weekday(r) == 0 && r <= d < r + 7
  {
    d - Weekday(d)
  }

  /** `endOfWeek(d, { weekStartsOn: 0 })`: the Saturday on or after `d`. */
  function EndOfWeek(d: Day): (r: Day)
    ensures Weekday(r) == 6 && d <= r < d + 7
  {
    d - Weekday(d) + 6
  }

  /** The number of whole weeks from the Sunday before the month's first day
      to the Saturday after its last day. */
  function WeeksSpanned(monthStart: Day, daysInMonth: int): int {
    (EndOfWeek(monthStart + daysInMonth - 1) - StartOfWeek(monthStart) + 1) / 7
  }

  /** From a Sunday to a Saturday not before it is a whole number of weeks. */
  lemma WholeWeeks(monthStart: Day, daysInMonth: int)
    requires daysInMonth >= 1
    ensures EndOfWeek(monthStart + daysInMonth - 1) - StartOfWeek(monthStart) + 1 == 7 * WeeksSpanned(monthStart, daysInMonth)
    ensures WeeksSpanned(monthStart, daysInMonth) >= 1
  {
    var a := monthStart + 4;
    var b := monthStart + daysInMonth - 1 + 4;
    assert a == 7 * (a / 7) + a % 7;
    assert b == 7 * (b / 7) + b % 7;
    assert EndOfWeek(b - 4) - StartOfWeek(a - 4) + 1 == 7 * (b / 7 - a / 7 + 1);
  }

  /** A month of at most 31 days never reaches into a seventh week. */
  lemma MonthFitsSixWeeks(monthStart: Day, daysInMonth: int)
    requires 1 <= daysInMonth <= 31
    ensures WeeksSpanned(monthStart, daysInMonth) <= 6
  {
    WholeWeeks(monthStart, daysInMonth);
  }

  /** Some week of the grid shows `d`. */
  predicate InGrid(weeks: seq<seq<Day>>, d: Day) {
    exists i, j :: 0 <= i < |weeks| && 0 <= j < |weeks[i]| && weeks[i][j] == d
  }

  /** The grid the component renders: the days from the Sunday on or before the
      month's first day to the Saturday on or after its last, cut into weeks of
      seven, then padded with following weeks up to six ("always show 6 weeks").
      Every week has seven consecutive days, the weeks follow each other, the
      whole month is inside, and a month of at most 31 days gets exactly six weeks. */
  method MonthGrid(monthStart: Day, daysInMonth: int) returns (weeks: seq<seq<Day>>)
    requires daysInMonth >= 1
    ensures |weeks| == if WeeksSpanned(monthStart, daysInMonth) < 6 then 6 else WeeksSpanned(monthStart, daysInMonth)
    ensures daysInMonth <= 31 ==> |weeks| == 6
    ensures forall i :: 0 <= i < |weeks| ==> |weeks[i]| == 7
    ensures forall i, j :: 0 <= i < |weeks| && 0 <= j < 7 ==> weeks[i][j] == StartOfWeek(monthStart) + 7 * i + j
    ensures weeks[0][0] == StartOfWeek(monthStart)
    ensures weeks[WeeksSpanned(monthStart, daysInMonth) - 1][6] == EndOfWeek(monthStart + daysInMonth - 1)
    ensures forall d :: monthStart <= d < monthStart + daysInMonth ==> InGrid(weeks, d)
  {
    var monthEnd := monthStart + daysInMonth - 1;
    var calendarStart := StartOfWeek(monthStart);
    var calendarEnd := EndOfWeek(monthEnd);
    WholeWeeks(monthStart, daysInMonth);
    var spanned := WeeksSpanned(monthStart, daysInMonth);

    var days: seq<Day> := [];
    var day := calendarStart;
    while day <= calendarEnd
      invariant calendarStart <= day <= calendarEnd + 1
      invariant |days| == day - calendarStart
      invariant forall k :: 0 <= k < |days| ==> days[k] == calendarStart + k
    {
      days := days + [day];
      day := day + 1;
    }
    assert |days| == 7 * spanned;

    weeks := [];
    var i := 0;
    while i < |days|
      invariant i == 7 * |weeks| && i <= |days|
      invariant forall w :: 0 <= w < |weeks| ==> |weeks[w]| == 7
      invariant forall w, j :: 0 <= w < |weeks| && 0 <= j < 7 ==> weeks[w][j] == calendarStart + 7 * w + j
    {
      var end := if i + 7 < |days| then i + 7 else |days|;
      weeks := weeks + [days[i..end]];
      i := i + 7;
    }
    assert |weeks| == spanned;

    while |weeks| < 6
      invariant |weeks| >= 1
      invariant |weeks| == if spanned < 6 && |weeks| < 6 then |weeks| else (if spanned < 6 then 6 else spanned)
      invariant |weeks| >= spanned
      invariant forall w :: 0 <= w < |weeks| ==> |weeks[w]| == 7
      invariant forall w, j :: 0 <= w < |weeks| && 0 <= j < 7 ==> weeks[w][j] == calendarStart + 7 * w + j
      decreases 6 - |weeks|
    {
      var lastDay := weeks[|weeks| - 1][6];
      var nextWeek: seq<Day> := [];
      var k := 1;
      while k <= 7
        invariant 1 <= k <= 8
        invariant |nextWeek| == k - 1
        invariant forall j :: 0 <= j < |nextWeek| ==> nextWeek[j] == lastDay + j + 1
      {
        nextWeek := nextWeek + [lastDay + k];
        k := k + 1;
      }
      weeks := weeks + [nextWeek];
    }

    if daysInMonth <= 31 {
      MonthFitsSixWeeks(monthStart, daysInMonth);
    }
    forall d | monthStart <= d < monthStart + daysInMonth
      ensures InGrid(weeks, d)
    {
      var off := d - calendarStart;
      assert off == 7 * (off / 7) + off % 7;
      assert weeks[off / 7][off % 7] == d;
    }
  }

  /** `mode`: single-date or range selection. */
  datatype Mode = Single | Range

  /** `DateRange`: a start and, once chosen, an end. */
  datatype DateRange = DateRange(from: Day, to: Option<Day>)

  /** The start is not after the end, whenever there is an end. */
  predicate Ordered(r: DateRange) {
    r.to.Some? ==> r.from <= r.to.value
  }

  /** `isInRange`: in range mode with both ends chosen, the days between the
      two ends, whichever end is earlier; otherwise none. */
  function IsInRange(mode: Mode, selectedRange: Option<DateRange>, date: Day): (r: bool)
    ensures r <==> mode == Range && selectedRange.Some? && selectedRange.value.to.Some?
                   && (selectedRange.value.from <= date <= selectedRange.value.to.value
                       || selectedRange.value.to.value <= date <= selectedRange.value.from)
  {
    if mode != Range || selectedRange.None? || selectedRange.value.to.None? then false
    else
      var from := selectedRange.value.from;
      var to := selectedRange.value.to.value;
      var start := if from < to then from else to;
      var end := if from > to then from else to;
      start <= date <= end
  }

  /** Swapping the two ends does not change which days are in range. */
  lemma IsInRangeIsSymmetric(mode: Mode, from: Day, to: Day, date: Day)
    ensures IsInRange(mode, Some(DateRange(from, Some(to))), date) == IsInRange(mode, Some(DateRange(to, Some(from))), date)
  {
  }

  /** `isRangeStart`: in range mode, the chosen start. */
  function IsRangeStart(mode: Mode, selectedRange: Option<DateRange>, date: Day): bool {
    if mode != Range || selectedRange.None? then false
    else date == selectedRange.value.from
  }

  /** `isRangeEnd`: in range mode, the chosen end, if there is one. */
  function IsRangeEnd(mode: Mode, selectedRange: Option<DateRange>, date: Day): bool {
    if mode != Range || selectedRange.None? || selectedRange.value.to.None? then false
    else date == selectedRange.value.to.value
  }

  /** The range marks: the start mark is on `from` and the end mark on `to`,
      in range mode only; once both ends are chosen, both marked days are
      themselves in range. */
  lemma RangeMarks(mode: Mode, selectedRange: Option<DateRange>, date: Day)
    ensures IsRangeStart(mode, selectedRange, date) <==>
              mode == Range && selectedRange.Some? && date == selectedRange.value.from
    ensures IsRangeEnd(mode, selectedRange, date) <==>
              mode == Range && selectedRange.Some? && selectedRange.value.to == Some(date)
    ensures selectedRange.Some? && selectedRange.value.to.Some?
            && (IsRangeStart(mode, selectedRange, date) || IsRangeEnd(mode, selectedRange, date)) ==>
              IsInRange(mode, selectedRange, date)
  {
  }

  /** What a click hands to the component's callbacks: a new range for
      `onSelectRange`, a date for `onSelect`, or nothing when no callback applies. */
  datatype ClickOutcome = RangeSelected(range: DateRange) | DateSelected(date: Day) | NoAction

  /** `handleDateClick`. In range mode with a range callback, a click starts a
      new range when none is started or the last one is complete, and otherwise
      completes the started range with the clicked day, the earlier day first.
      In single mode, or without a range callback, the clicked day is selected
      and the range stays as it was. */
  function HandleDateClick(mode: Mode, selectedRange: Option<DateRange>, hasOnSelectRange: bool,
                           hasOnSelect: bool, date: Day): (r: ClickOutcome)
    ensures mode == Range && hasOnSelectRange && (selectedRange.None? || selectedRange.value.to.Some?) ==>
              r == RangeSelected(DateRange(date, None))
    ensures mode == Range && hasOnSelectRange && selectedRange.Some? && selectedRange.value.to.None? ==>
              && r.RangeSelected? && r.range.to.Some? && r.range.from <= r.range.to.value
              && ((r.range.from == date && r.range.to.value == selectedRange.value.from)
                  || (r.range.from == selectedRange.value.from && r.range.to.value == date))
    ensures !(mode == Range && hasOnSelectRange) ==> r == if hasOnSelect then DateSelected(date) else NoAction
  {
    if mode == Range && hasOnSelectRange then
      if selectedRange.None? || selectedRange.value.to.Some? then
        RangeSelected(DateRange(date, None))
      else
        var from := selectedRange.value.from;
        if date < from then RangeSelected(DateRange(date, Some(from)))
        else RangeSelected(DateRange(from, Some(date)))
    else if hasOnSelect then DateSelected(date)
    else NoAction
  }

  /** Every range a click produces is ordered, whatever range came before. */
  lemma ClickKeepsRangeOrdered(mode: Mode, selectedRange: Option<DateRange>, hasOnSelectRange: bool,
                               hasOnSelect: bool, date: Day)
    ensures var r := HandleDateClick(mode, selectedRange, hasOnSelectRange, hasOnSelect, date);
            r.RangeSelected? ==> Ordered(r.range)
  {
  }

  /** Two clicks, the range fed back in between as the component's parent does,
      select the span between the two clicked days: the earlier is the range
      start, the later the range end, and the days in range are those between. */
  lemma TwoClicksSelectSpan(selectedRange: Option<DateRange>, first: Day, second: Day, d: Day)
    requires selectedRange.None? || selectedRange.value.to.Some?
    ensures var r1 := HandleDateClick(Range, selectedRange, true, true, first);
            r1.RangeSelected? &&
            var r2 := HandleDateClick(Range, Some(r1.range), true, true, second);
            var lo := if first < second then first else second;
            var hi := if first < second then second else first;
            && r2 == RangeSelected(DateRange(lo, Some(hi)))
            && IsRangeStart(Range, Some(r2.range), lo)
            && IsRangeEnd(Range, Some(r2.range), hi)
            && (IsInRange(Range, Some(r2.range), d) <==> lo <= d <= hi)
  {
  }
}
