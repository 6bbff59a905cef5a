/**
 * The records of the period log and the normalizer that turns the log into
 * cycles ordered by start date (`parsePeriodCycles` in src/lib/period.ts).
 *
 * A date is a day number (`Day`); the string order the source sorts with is
 * the order of these numbers for canonical "yyyy-MM-dd" strings, which module
 * LocalDate proves. An empty `endDate` string is `None`.
 */
module PeriodRecords {
  import opened Wrappers
  import opened LocalDate

  /** One entry of the stored log: a period with an optional end and a note. */
  datatype PeriodEvent = PeriodEvent(startDate: Day, endDate: Option<Day>, note: string)

  /** A cycle as the status engine sees it: the log entry without its note. */
  datatype PeriodCycle = PeriodCycle(startDate: Day, endDate: Option<Day>)

  /** The constants the engine reads from its constants module, whose values
      are not part of this model: the default period length, the default cycle
      length, and the month count that is both the window for period lengths
      and the number of completed cycles needed before cycle gaps are averaged. */
  datatype Config = Config(averagePeriodDays: int, averageCycleDays: int, averagePeriodMonth: int)

  /** The engine divides by the number of gaps once there are at least
      `averagePeriodMonth` completed cycles; that is one gap or more only when
      the threshold is at least 2. */
  predicate ValidConfig(cfg: Config) {
    cfg.averagePeriodMonth >= 2
  }

  /** The rule of the log: a record's end, when it has one, is not before its start. */
  predicate RecordsOrdered(events: seq<PeriodEvent>) {
    forall e :: e in events && e.endDate.Some? ==> e.startDate <= e.endDate.value
  }

  /** The two comparators the source sorts with: `a.startDate.localeCompare(b.startDate)`
      and its reverse `b.startDate.localeCompare(a.startDate)`. */
  datatype Order = Ascending | Descending

  /** `a` may stand before `b` in a list sorted by `order`. */
  predicate Precedes(a: Day, b: Day, order: Order) {
    if order == Ascending then a <= b else b <= a
  }

  /** Every earlier record's start precedes every later record's start. */
  predicate SortedByStart(s: seq<PeriodEvent>, order: Order) {
    forall i, j :: 0 <= i < j < |s| ==> Precedes(s[i].startDate, s[j].startDate, order)
  }

  /** Cycles in ascending order of start date. */
  predicate CyclesSorted(cs: seq<PeriodCycle>) {
    forall i, j :: 0 <= i < j < |cs| ==> cs[i].startDate <= cs[j].startDate
  }

  /** The records whose start is `day`, in their order in `s`. */
  function WithStart(s: seq<PeriodEvent>, day: Day): seq<PeriodEvent> {
    if s == [] then []
    else (if s[0].startDate == day then [s[0]] else []) + WithStart(s[1..], day)
  }

  /** Puts `x` in front of the first record it precedes, so that `x` stays
      before records with an equal start: one step of a stable insertion sort. */
  function Insert(x: PeriodEvent, s: seq<PeriodEvent>, order: Order): (r: seq<PeriodEvent>)
    ensures multiset(r) == multiset(s) + multiset{x}
    ensures |r| == |s| + 1
  {
    if s == [] || Precedes(x.startDate, s[0].startDate, order) then [x] + s
    else
      assert s == [s[0]] + s[1..];
      [s[0]] + Insert(x, s[1..], order)
  }

  lemma SortedTail(s: seq<PeriodEvent>, order: Order)
    requires s != [] && SortedByStart(s, order)
    ensures SortedByStart(s[1..], order)
  {
    forall i, j | 0 <= i < j < |s[1..]|
      ensures Precedes(s[1..][i].startDate, s[1..][j].startDate, order)
    {
      assert s[1..][i] == s[i + 1] && s[1..][j] == s[j + 1];
    }
  }

  /** A record that precedes every record of a sorted list may go in front of it. */
  lemma ConsKeepsSorted(h: PeriodEvent, t: seq<PeriodEvent>, order: Order)
    requires SortedByStart(t, order)
    requires forall e :: e in t ==> Precedes(h.startDate, e.startDate, order)
    ensures SortedByStart([h] + t, order)
  {
    var r := [h] + t;
    forall i, j | 0 <= i < j < |r|
      ensures Precedes(r[i].startDate, r[j].startDate, order)
    {
      assert r[j] == t[j - 1] && t[j - 1] in t;
      if i > 0 { assert r[i] == t[i - 1]; }
    }
  }

  /** Inserting into a sorted list gives a sorted list. */
  lemma {:induction false} InsertKeepsSorted(x: PeriodEvent, s: seq<PeriodEvent>, order: Order)
    requires SortedByStart(s, order)
    ensures SortedByStart(Insert(x, s, order), order)
  {
    if s == [] || Precedes(x.startDate, s[0].startDate, order) {
      forall e | e in s ensures Precedes(x.startDate, e.startDate, order) {
        var k :| 0 <= k < |s| && s[k] == e;
        if k > 0 { assert Precedes(s[0].startDate, s[k].startDate, order); }
      }
      ConsKeepsSorted(x, s, order);
    } else {
      SortedTail(s, order);
      InsertKeepsSorted(x, s[1..], order);
      var rest := Insert(x, s[1..], order);
      forall e | e in rest ensures Precedes(s[0].startDate, e.startDate, order) {
        assert e in multiset(rest);
        if e != x {
          assert e in multiset(s[1..]);
          var k :| 0 <= k < |s[1..]| && s[1..][k] == e;
          assert s[k + 1] == e;
        }
      }
      ConsKeepsSorted(s[0], rest, order);
    }
  }

  /** The stable sort the source gets from `Array.prototype.sort` with a
      start-date comparator: an insertion sort from the back of the list. */
  function SortByStart(s: seq<PeriodEvent>, order: Order): (r: seq<PeriodEvent>)
    ensures multiset(r) == multiset(s)
    ensures |r| == |s|
    ensures SortedByStart(r, order)
  {
    if s == [] then []
    else
      assert s == [s[0]] + s[1..];
      var rest := SortByStart(s[1..], order);
      InsertKeepsSorted(s[0], rest, order);
      Insert(s[0], rest, order)
  }

  /** `WithStart` of a list with a given first record. */
  lemma WithStartOfCons(h: PeriodEvent, t: seq<PeriodEvent>, day: Day)
    ensures WithStart([h] + t, day) == (if h.startDate == day then [h] else []) + WithStart(t, day)
  {
    assert ([h] + t)[0] == h && ([h] + t)[1..] == t;
  }

  /** Inserting into a sorted list keeps the records of every start date in
      their order, with `x` first among those that share its start. */
  lemma {:induction false} InsertKeepsSameStartOrder(x: PeriodEvent, s: seq<PeriodEvent>, order: Order, day: Day)
    requires SortedByStart(s, order)
    ensures WithStart(Insert(x, s, order), day)
         == (if x.startDate == day then [x] else []) + WithStart(s, day)
  {
    if s == [] || Precedes(x.startDate, s[0].startDate, order) {
      WithStartOfCons(x, s, day);
    } else {
      SortedTail(s, order);
      InsertKeepsSameStartOrder(x, s[1..], order, day);
      var rest := Insert(x, s[1..], order);
      var tail := WithStart(s[1..], day);
      WithStartOfCons(s[0], rest, day);
      WithStartOfCons(s[0], s[1..], day);
      assert s == [s[0]] + s[1..];
      if s[0].startDate == day {
        assert x.startDate != day;
        assert WithStart(rest, day) == tail;
        assert WithStart(s, day) == [s[0]] + tail;
      } else if x.startDate == day {
        assert WithStart(rest, day) == [x] + tail;
        assert WithStart(s, day) == tail;
      } else {
        assert WithStart(rest, day) == tail;
        assert WithStart(s, day) == tail;
      }
    }
  }

  /** The sort is stable: the records that share a start date come out in
      the order they went in. With sortedness and the permutation property
      this fixes the output completely. */
  lemma {:induction false} SortIsStable(s: seq<PeriodEvent>, order: Order, day: Day)
    ensures WithStart(SortByStart(s, order), day) == WithStart(s, day)
  {
    if s != [] {
      SortIsStable(s[1..], order, day);
      InsertKeepsSameStartOrder(s[0], SortByStart(s[1..], order), order, day);
    }
  }

  /** A list that is already sorted is returned as it is. */
  lemma {:induction false} SortOfSortedIsIdentity(s: seq<PeriodEvent>, order: Order)
    requires SortedByStart(s, order)
    ensures SortByStart(s, order) == s
  {
    if s != [] {
      SortedTail(s, order);
      SortOfSortedIsIdentity(s[1..], order);
      assert s == [s[0]] + s[1..];
    }
  }

  /** Sorting twice is sorting once. */
  lemma SortIsIdempotent(s: seq<PeriodEvent>, order: Order)
    ensures SortByStart(SortByStart(s, order), order) == SortByStart(s, order)
  {
    SortOfSortedIsIdentity(SortByStart(s, order), order);
  }

  /** The cycle of a log entry: its dates without its note. */
  function ToCycle(e: PeriodEvent): PeriodCycle {
    PeriodCycle(e.startDate, e.endDate)
  }

  /** `map` over a list of entries with `ToCycle`. */
  function ToCycles(s: seq<PeriodEvent>): (r: seq<PeriodCycle>)
    ensures |r| == |s|
    ensures forall i :: 0 <= i < |s| ==> r[i] == ToCycle(s[i])
  {
    if s == [] then [] else [ToCycle(s[0])] + ToCycles(s[1..])
  }

  lemma {:induction false} ToCyclesOfInsert(x: PeriodEvent, s: seq<PeriodEvent>, order: Order)
    ensures multiset(ToCycles(Insert(x, s, order))) == multiset(ToCycles(s)) + multiset{ToCycle(x)}
  {
    if s == [] || Precedes(x.startDate, s[0].startDate, order) {
      assert ToCycles([x] + s) == [ToCycle(x)] + ToCycles(s);
    } else {
      ToCyclesOfInsert(x, s[1..], order);
      var rest := Insert(x, s[1..], order);
      assert ToCycles([s[0]] + rest) == [ToCycle(s[0])] + ToCycles(rest);
      assert ToCycles(s) == [ToCycle(s[0])] + ToCycles(s[1..]);
    }
  }

  /** The (start, end) pairs survive the sort as a multiset. */
  lemma {:induction false} ToCyclesOfSort(s: seq<PeriodEvent>, order: Order)
    ensures multiset(ToCycles(SortByStart(s, order))) == multiset(ToCycles(s))
  {
    if s != [] {
      ToCyclesOfSort(s[1..], order);
      ToCyclesOfInsert(s[0], SortByStart(s[1..], order), order);
      assert ToCycles(s) == [ToCycle(s[0])] + ToCycles(s[1..]);
    }
  }

  /** The cycles whose start is `day`, in their order in `cs`. */
  function CyclesWithStart(cs: seq<PeriodCycle>, day: Day): seq<PeriodCycle> {
    if cs == [] then []
    else (if cs[0].startDate == day then [cs[0]] else []) + CyclesWithStart(cs[1..], day)
  }

  /** Dropping the notes commutes with picking the records of one start. */
  lemma {:induction false} ToCyclesOfWithStart(s: seq<PeriodEvent>, day: Day)
    ensures CyclesWithStart(ToCycles(s), day) == ToCycles(WithStart(s, day))
  {
    if s != [] {
      var cs := ToCycles(s);
      assert cs[0] == ToCycle(s[0]);
      assert cs[1..] == ToCycles(s[1..]);
      ToCyclesOfWithStart(s[1..], day);
      var head := if s[0].startDate == day then [s[0]] else [];
      assert ToCycles(head + WithStart(s[1..], day)) == ToCycles(head) + ToCycles(WithStart(s[1..], day)) by {
        if head != [] {
          assert (head + WithStart(s[1..], day))[1..] == WithStart(s[1..], day);
        } else {
          assert head + WithStart(s[1..], day) == WithStart(s[1..], day);
        }
      }
    }
  }

  /** `parsePeriodCycles`: a copy of the log sorted by start date, with the
      notes dropped. Its cycles are the log's (start, end) pairs, one for one,
      in ascending order of start; the log itself is a value and is unchanged. */
  function ParsePeriodCycles(events: seq<PeriodEvent>): (cycles: seq<PeriodCycle>)
    ensures |cycles| == |events|
    ensures CyclesSorted(cycles)
    ensures multiset(cycles) == multiset(ToCycles(events))
  {
    var sorted := SortByStart(events, Ascending);
    ToCyclesOfSort(events, Ascending);
    ToCycles(sorted)
  }

  /** The cycles `parsePeriodCycles` gives for one start date are that date's
      records of the log, in their order in the log: the stable sort leaves
      records with equal starts as they were. */
  lemma ParsedCyclesOfOneStart(events: seq<PeriodEvent>, day: Day)
    ensures CyclesWithStart(ParsePeriodCycles(events), day) == ToCycles(WithStart(events, day))
  {
    SortIsStable(events, Ascending, day);
    ToCyclesOfWithStart(SortByStart(events, Ascending), day);
  }
}
