/**
 * The four edits of the period log in src/lib/period.ts: `addPeriodStart`,
 * `addPeriodEnd`, `deletePeriodCycle` and `updatePeriodCycle`. Each takes the
 * log as a value and returns a new log.
 */
module PeriodEdits {
  import opened Wrappers
  import opened LocalDate
  import opened PeriodRecords

  /** `addPeriodStart`: the log plus one record that starts on `date` and ends
      `averagePeriodDays` days later, with an empty note, sorted by start. */
  function AddPeriodStart(events: seq<PeriodEvent>, date: Day, cfg: Config): (r: seq<PeriodEvent>)
    ensures |r| == |events| + 1
    ensures SortedByStart(r, Ascending)
    ensures multiset(r) == multiset(events) + multiset{PeriodEvent(date, Some(date + cfg.averagePeriodDays), "")}
  {
    var added := PeriodEvent(date, Some(date + cfg.averagePeriodDays), "");
    assert multiset(events + [added]) == multiset(events) + multiset{added};
    SortByStart(events + [added], Ascending)
  }

  /** A record may be closed on `date`: it has no end yet and did not start after `date`. */
  predicate OpenBy(e: PeriodEvent, date: Day) {
    e.endDate.None? && e.startDate <= date
  }

  /** `find` with `OpenBy`: the first record of `s` that may be closed on `date`. */
  function FindOpenBy(s: seq<PeriodEvent>, date: Day): (r: Option<PeriodEvent>)
    ensures r.Some? ==> r.value in s && OpenBy(r.value, date)
    ensures r.None? <==> forall e :: e in s ==> !OpenBy(e, date)
    ensures r.Some? ==> exists i :: 0 <= i < |s| && s[i] == r.value && forall j :: 0 <= j < i ==> !OpenBy(s[j], date)
  {
    if s == [] then None
    else if OpenBy(s[0], date) then Some(s[0])
    else
      assert forall e :: e in s ==> e == s[0] || e in s[1..];
      FindOpenBy(s[1..], date)
  }

  /** In a list sorted by descending start, the first record that may be closed
      is one with the latest start among all such records. */
  lemma {:induction false} FirstOpenIsLatest(s: seq<PeriodEvent>, date: Day)
    requires SortedByStart(s, Descending)
    ensures FindOpenBy(s, date).Some? ==>
              forall e :: e in s && OpenBy(e, date) ==> e.startDate <= FindOpenBy(s, date).value.startDate
  {
    if s != [] && !OpenBy(s[0], date) {
      SortedTail(s, Descending);
      FirstOpenIsLatest(s[1..], date);
      assert forall e :: e in s ==> e == s[0] || e in s[1..];
    } else if s != [] {
      forall e | e in s && OpenBy(e, date) ensures e.startDate <= s[0].startDate {
        var k :| 0 <= k < |s| && s[k] == e;
        if k > 0 { assert Precedes(s[0].startDate, s[k].startDate, Descending); }
      }
    }
  }

  /** The `map` of `addPeriodEnd`: each record that starts on `start` gets
      `date` as its end; the others stay as they are. */
  function CloseStart(events: seq<PeriodEvent>, start: Day, date: Day): (r: seq<PeriodEvent>)
    ensures |r| == |events|
    ensures forall i :: 0 <= i < |events| ==> r[i].startDate == events[i].startDate && r[i].note == events[i].note
    ensures forall i :: 0 <= i < |events| && events[i].startDate == start ==> r[i].endDate == Some(date)
    ensures forall i :: 0 <= i < |events| && events[i].startDate != start ==> r[i] == events[i]
  {
    seq(|events|, i requires 0 <= i < |events| =>
      if events[i].startDate == start then events[i].(endDate := Some(date)) else events[i])
  }

  /** A sort keeps the members of the log. */
  lemma SortKeepsMembers(events: seq<PeriodEvent>, order: Order)
    ensures forall e :: e in events <==> e in SortByStart(events, order)
  {
    var sorted := SortByStart(events, order);
    assert forall e :: e in events <==> e in multiset(events);
    assert forall e :: e in sorted <==> e in multiset(sorted);
  }

  /** `addPeriodEnd`. With no record that may be closed on `date` the log comes
      back as it is. Otherwise the target is such a record with the latest start,
      and every record sharing the target's start, open or not, gets `date` as
      its end; the other records and the order stay as they were. */
  function AddPeriodEnd(events: seq<PeriodEvent>, date: Day): (r: seq<PeriodEvent>)
    ensures (forall e :: e in events ==> !OpenBy(e, date)) ==> r == events
    ensures |r| == |events|
    ensures (exists e :: e in events && OpenBy(e, date)) ==>
              exists t :: t in events && OpenBy(t, date)
                && (forall e :: e in events && OpenBy(e, date) ==> e.startDate <= t.startDate)
                && r == CloseStart(events, t.startDate, date)
  {
    var sorted := SortByStart(events, Descending);
    var target := FindOpenBy(sorted, date);
    SortKeepsMembers(events, Descending);
    FirstOpenIsLatest(sorted, date);
    if target.None? then events
    else CloseStart(events, target.value.startDate, date)
  }

  /** After a successful `addPeriodEnd`, no record with the target's start is open any more. */
  lemma AddPeriodEndClosesTarget(events: seq<PeriodEvent>, date: Day)
    requires exists e :: e in events && OpenBy(e, date)
    ensures exists t :: t in events && OpenBy(t, date)
              && forall e :: e in AddPeriodEnd(events, date) && e.startDate == t.startDate ==> e.endDate == Some(date)
  {
    var r := AddPeriodEnd(events, date);
    var t :| t in events && OpenBy(t, date)
                && (forall e :: e in events && OpenBy(e, date) ==> e.startDate <= t.startDate)
                && r == CloseStart(events, t.startDate, date);
    forall e | e in r && e.startDate == t.startDate ensures e.endDate == Some(date) {
      var k :| 0 <= k < |r| && r[k] == e;
      assert r[k].startDate == events[k].startDate;
    }
  }

  /** `filter` with `e.startDate !== day`. */
  function Without(s: seq<PeriodEvent>, day: Day): seq<PeriodEvent> {
    if s == [] then []
    else (if s[0].startDate == day then [] else [s[0]]) + Without(s[1..], day)
  }

  lemma {:induction false} WithoutCounts(s: seq<PeriodEvent>, day: Day)
    ensures forall e :: multiset(Without(s, day))[e] == if e.startDate == day then 0 else multiset(s)[e]
  {
    if s != [] {
      WithoutCounts(s[1..], day);
      assert s == [s[0]] + s[1..];
    }
  }

  lemma {:induction false} WithoutOfConcat(a: seq<PeriodEvent>, b: seq<PeriodEvent>, day: Day)
    ensures Without(a + b, day) == Without(a, day) + Without(b, day)
  {
    if a == [] {
      assert a + b == b;
    } else {
      assert (a + b)[0] == a[0];
      assert (a + b)[1..] == a[1..] + b;
      WithoutOfConcat(a[1..], b, day);
    }
  }

  /** `deletePeriodCycle`: the records whose start differs from `startDate`, in
      their order, each as often as in the log. The end date argument plays no part. */
  function DeletePeriodCycle(events: seq<PeriodEvent>, startDate: Day, endDate: Option<Day>): (r: seq<PeriodEvent>)
    ensures forall e :: e in r <==> e in events && e.startDate != startDate
    ensures forall e :: multiset(r)[e] == if e.startDate == startDate then 0 else multiset(events)[e]
  {
    WithoutCounts(events, startDate);
    Without(events, startDate)
  }

  /** Deleting a start that no record has gives back the same log. */
  lemma {:induction false} DeleteAbsentIsIdentity(events: seq<PeriodEvent>, startDate: Day, endDate: Option<Day>)
    requires forall e :: e in events ==> e.startDate != startDate
    ensures DeletePeriodCycle(events, startDate, endDate) == events
  {
    if events != [] {
      assert events[0] in events;
      assert forall e :: e in events[1..] ==> e in events;
      DeleteAbsentIsIdentity(events[1..], startDate, endDate);
      assert events == [events[0]] + events[1..];
    }
  }

  /** Deleting twice is deleting once. */
  lemma DeleteIsIdempotent(events: seq<PeriodEvent>, startDate: Day, endDate: Option<Day>)
    ensures DeletePeriodCycle(DeletePeriodCycle(events, startDate, endDate), startDate, endDate)
         == DeletePeriodCycle(events, startDate, endDate)
  {
    DeleteAbsentIsIdentity(DeletePeriodCycle(events, startDate, endDate), startDate, endDate);
  }

  /** Deletion keeps the order of the log: it works on each part of a split log on its own. */
  lemma DeleteKeepsOrder(a: seq<PeriodEvent>, b: seq<PeriodEvent>, startDate: Day, endDate: Option<Day>)
    ensures DeletePeriodCycle(a + b, startDate, endDate)
         == DeletePeriodCycle(a, startDate, endDate) + DeletePeriodCycle(b, startDate, endDate)
  {
    WithoutOfConcat(a, b, startDate);
  }

  /** The new dates for a record: `updates.endDate ?? ""`, so both `null` and
      the empty string are `None`. */
  datatype CycleUpdate = CycleUpdate(startDate: Day, endDate: Option<Day>)

  /** The record as the `map` in `updatePeriodCycle` leaves it. */
  function Edit(e: PeriodEvent, oldStartDate: Day, updates: CycleUpdate): PeriodEvent {
    if e.startDate == oldStartDate then e.(startDate := updates.startDate, endDate := updates.endDate) else e
  }

  /** The edited log: `updatePeriodCycle`'s `map`, record by record. */
  function EditAll(events: seq<PeriodEvent>, oldStartDate: Day, updates: CycleUpdate): seq<PeriodEvent> {
    seq(|events|, i requires 0 <= i < |events| => Edit(events[i], oldStartDate, updates))
  }

  /** Each record of the log appears edited, and each edited record comes from one of the log. */
  lemma EditAllMembers(events: seq<PeriodEvent>, oldStartDate: Day, updates: CycleUpdate)
    ensures forall e :: e in events ==> Edit(e, oldStartDate, updates) in EditAll(events, oldStartDate, updates)
    ensures forall e :: e in EditAll(events, oldStartDate, updates) ==>
              exists o :: o in events && e == Edit(o, oldStartDate, updates)
  {
    var edited := EditAll(events, oldStartDate, updates);
    forall e | e in events ensures Edit(e, oldStartDate, updates) in edited {
      var k :| 0 <= k < |events| && events[k] == e;
      assert edited[k] == Edit(e, oldStartDate, updates);
    }
    forall e | e in edited ensures exists o :: o in events && e == Edit(o, oldStartDate, updates) {
      var k :| 0 <= k < |edited| && edited[k] == e;
      assert events[k] in events;
    }
  }

  /** `updatePeriodCycle`: every record that starts on `oldStartDate` takes the
      new dates and keeps its note; the log is then sorted by start again. No
      record is lost or added, and the others only move. */
  function UpdatePeriodCycle(events: seq<PeriodEvent>, oldStartDate: Day, updates: CycleUpdate): (r: seq<PeriodEvent>)
    ensures |r| == |events|
    ensures SortedByStart(r, Ascending)
    ensures multiset(r) == multiset(EditAll(events, oldStartDate, updates))
    ensures forall e :: e in events && e.startDate != oldStartDate ==> e in r
    ensures forall e :: e in events && e.startDate == oldStartDate ==>
              e.(startDate := updates.startDate, endDate := updates.endDate) in r
    ensures forall e :: e in r ==>
              (e in events && e.startDate != oldStartDate)
              || exists o :: o in events && o.startDate == oldStartDate
                             && e == o.(startDate := updates.startDate, endDate := updates.endDate)
  {
    var edited := EditAll(events, oldStartDate, updates);
    var r := SortByStart(edited, Ascending);
    assert forall e :: e in r <==> e in edited by {
      assert forall e :: e in r <==> e in multiset(r);
      assert forall e :: e in edited <==> e in multiset(edited);
    }
    EditAllMembers(events, oldStartDate, updates);
    r
  }
}
