/**
 * What the edits of the log mean for the status the engine reports on the
 * cycles `parsePeriodCycles` makes of the edited log, and worked averaging
 * and prediction examples.
 */
module PeriodProperties {
  import opened Wrappers
  import opened LocalDate
  import opened PeriodRecords
  import opened PeriodEdits
  import opened PeriodStatusEngine

  /** A record of the log becomes a cycle of `parsePeriodCycles`. */
  lemma {:induction false} RecordBecomesCycle(events: seq<PeriodEvent>, e: PeriodEvent)
    requires e in events
    ensures ToCycle(e) in ParsePeriodCycles(events)
  {
    var k :| 0 <= k < |events| && events[k] == e;
    var cycles := ParsePeriodCycles(events);
    assert ToCycles(events)[k] == ToCycle(e);
    assert ToCycle(e) in multiset(ToCycles(events));
    assert ToCycle(e) in multiset(cycles);
  }

  /** A cycle of `parsePeriodCycles` comes from a record of the log. */
  lemma {:induction false} CycleComesFromRecord(events: seq<PeriodEvent>, c: PeriodCycle)
    requires c in ParsePeriodCycles(events)
    ensures exists e :: e in events && ToCycle(e) == c
  {
    var cycles := ParsePeriodCycles(events);
    assert c in multiset(cycles);
    assert c in multiset(ToCycles(events));
    var k :| 0 <= k < |events| && ToCycles(events)[k] == c;
    assert events[k] in events;
  }

  /** A cycle that holds `today` makes `today` a period day. */
  lemma {:induction false} HeldDayIsOnPeriod(cycles: seq<PeriodCycle>, c: PeriodCycle, today: Day, cutoff: Day, cfg: Config)
    requires ValidConfig(cfg) && c in cycles && InCycle(c, today)
    ensures Status(cycles, today, cutoff, cfg).isOnPeriod
  {
    var k :| 0 <= k < |cycles| && cycles[k] == c;
  }

  /** Logging a start on `date` puts `date` in a period in the status the
      engine computes from the log, for any earlier log. */
  lemma StartedPeriodIsCurrent(events: seq<PeriodEvent>, date: Day, cutoff: Day, cfg: Config)
    requires ValidConfig(cfg)
    ensures Status(ParsePeriodCycles(AddPeriodStart(events, date, cfg)), date, cutoff, cfg).isOnPeriod
  {
    var r := AddPeriodStart(events, date, cfg);
    var added := PeriodEvent(date, Some(date + cfg.averagePeriodDays), "");
    assert added in multiset(r);
    RecordBecomesCycle(r, added);
    HeldDayIsOnPeriod(ParsePeriodCycles(r), ToCycle(added), date, cutoff, cfg);
  }

  /** The first start logged in an empty log, seen on its own day: day 0 of the
      period, which is recorded as ending `averagePeriodDays` days later, no
      prediction, the default cycle length, and a period length of
      `averagePeriodDays + 1` days once the cycle is recent. */
  lemma FirstStartOfEmptyLog(date: Day, cutoff: Day, cfg: Config)
    requires ValidConfig(cfg)
    ensures var n := cfg.averagePeriodDays;
            Status(ParsePeriodCycles(AddPeriodStart([], date, cfg)), date, cutoff, cfg)
            == PeriodStatus(true, Some(PeriodCycle(date, Some(date + n))), Some(n), None, Some(0),
                            cfg.averageCycleDays, Some(if date + n >= cutoff then n + 1 else n))
  {
    var n := cfg.averagePeriodDays;
    var c := PeriodCycle(date, Some(date + n));
    FirstStartParses(date, cfg);
    OneCycleStatus(c, date, cutoff, cfg);
  }

  /** An empty log with one start logged parses to that one cycle. */
  lemma FirstStartParses(date: Day, cfg: Config)
    ensures ParsePeriodCycles(AddPeriodStart([], date, cfg)) == [PeriodCycle(date, Some(date + cfg.averagePeriodDays))]
  {
    var e := PeriodEvent(date, Some(date + cfg.averagePeriodDays), "");
    assert [] + [e] == [e];
    assert SortByStart([e], Ascending) == [e] by {
      assert [e][1..] == [];
    }
    assert ToCycles([e]) == [ToCycle(e)] by {
      assert [e][1..] == [];
    }
  }

  /** The status of a log of one completed cycle, seen on its first day. */
  lemma OneCycleStatus(c: PeriodCycle, today: Day, cutoff: Day, cfg: Config)
    requires ValidConfig(cfg) && c.endDate.Some? && c.startDate == today
    ensures Status([c], today, cutoff, cfg)
            == PeriodStatus(true, Some(c), Some(c.endDate.value - today), None, Some(0), cfg.averageCycleDays,
                            Some(if c.endDate.value >= cutoff then c.endDate.value - c.startDate + 1 else cfg.averagePeriodDays))
  {
    assert CurrentCycle([c], today) == Some(c);
    assert Completed([c]) == [c] by {
      assert [c][..0] == [];
    }
    assert Recent([c], cutoff) == if c.endDate.value >= cutoff then [c] else [] by {
      assert [c][..0] == [];
    }
    if c.endDate.value >= cutoff {
      var len := c.endDate.value - c.startDate + 1;
      assert PeriodLengths([c]) == [len];
      assert Sum([len]) == len by {
        assert [len][..0] == [];
      }
    }
  }

  /** Closing a period on `date` keeps `date` inside that period. */
  lemma ClosedPeriodStillHoldsItsEnd(events: seq<PeriodEvent>, date: Day, cutoff: Day, cfg: Config)
    requires ValidConfig(cfg)
    requires exists e :: e in events && OpenBy(e, date)
    ensures Status(ParsePeriodCycles(AddPeriodEnd(events, date)), date, cutoff, cfg).isOnPeriod
  {
    var r := AddPeriodEnd(events, date);
    var t :| t in events && OpenBy(t, date)
             && (forall e :: e in events && OpenBy(e, date) ==> e.startDate <= t.startDate)
             && r == CloseStart(events, t.startDate, date);
    var k :| 0 <= k < |events| && events[k] == t;
    var closed := t.(endDate := Some(date));
    assert r[k] == closed;
    RecordBecomesCycle(r, closed);
    HeldDayIsOnPeriod(ParsePeriodCycles(r), ToCycle(closed), date, cutoff, cfg);
  }

  /** After a deletion no cycle starts on the deleted start date, and every
      cycle left was a cycle before. */
  lemma DeletedCycleIsGone(events: seq<PeriodEvent>, startDate: Day, endDate: Option<Day>, c: PeriodCycle)
    requires c in ParsePeriodCycles(DeletePeriodCycle(events, startDate, endDate))
    ensures c.startDate != startDate
    ensures c in ParsePeriodCycles(events)
  {
    var r := DeletePeriodCycle(events, startDate, endDate);
    CycleComesFromRecord(r, c);
    var e :| e in r && ToCycle(e) == c;
    RecordBecomesCycle(events, e);
  }

  /** After an update of a start the log holds, the new dates are a cycle. */
  lemma UpdatedCycleIsPresent(events: seq<PeriodEvent>, oldStartDate: Day, updates: CycleUpdate)
    requires exists e :: e in events && e.startDate == oldStartDate
    ensures PeriodCycle(updates.startDate, updates.endDate) in ParsePeriodCycles(UpdatePeriodCycle(events, oldStartDate, updates))
  {
    var e :| e in events && e.startDate == oldStartDate;
    var r := UpdatePeriodCycle(events, oldStartDate, updates);
    RecordBecomesCycle(r, e.(startDate := updates.startDate, endDate := updates.endDate));
  }

  /** Three completed cycles 28 days apart average to a 28-day cycle. */
  lemma ThreeRegularCycles(first: Day, today: Day, cutoff: Day, cfg: Config)
    requires ValidConfig(cfg) && cfg.averagePeriodMonth <= 3
    ensures var cycles := [PeriodCycle(first, Some(first + 4)), PeriodCycle(first + 28, Some(first + 32)),
                           PeriodCycle(first + 56, Some(first + 60))];
            Status(cycles, today, cutoff, cfg).averageCycleDays == 28
  {
    var cycles := [PeriodCycle(first, Some(first + 4)), PeriodCycle(first + 28, Some(first + 32)),
                   PeriodCycle(first + 56, Some(first + 60))];
    assert Completed(cycles) == cycles by {
      assert cycles[..1][..0] == [];
      assert Completed(cycles[..1]) == cycles[..1];
      assert cycles[..2][..1] == cycles[..1];
      assert Completed(cycles[..2]) == cycles[..2];
      assert cycles[..2] + [cycles[2]] == cycles;
    }
    AverageCycleIsMeanSpan(cycles, cfg);
  }

  /** The prediction from one completed cycle with the default 28-day cycle:
      with the last start on day `first`, 19 days later the next start is 9 days
      away, and 35 days later it is 7 days overdue. */
  lemma PredictionFromOneCycle(first: Day, cutoff: Day, cfg: Config)
    requires ValidConfig(cfg) && cfg.averageCycleDays == 28
    ensures var cycles := [PeriodCycle(first, Some(first + 4))];
            && Status(cycles, first + 19, cutoff, cfg).daysUntilNext == Some(9)
            && Status(cycles, first + 35, cutoff, cfg).daysUntilNext == Some(-7)
  {
    var cycles := [PeriodCycle(first, Some(first + 4))];
    assert Completed(cycles) == cycles by {
      assert cycles[..0] == [];
    }
    assert CurrentCycle(cycles, first + 19) == None && CurrentCycle(cycles, first + 35) == None;
    assert AverageCycleDays(cycles, cfg) == 28;
  }

  /** Three cycles are too few when the threshold is above three: the default
      cycle length is reported, as it is at a threshold of six months. */
  lemma ThreeCyclesBelowThreshold(first: Day, today: Day, cutoff: Day, cfg: Config)
    requires ValidConfig(cfg) && cfg.averagePeriodMonth > 3
    ensures var cycles := [PeriodCycle(first, Some(first + 4)), PeriodCycle(first + 28, Some(first + 32)),
                           PeriodCycle(first + 56, Some(first + 60))];
            Status(cycles, today, cutoff, cfg).averageCycleDays == cfg.averageCycleDays
  {
    var cycles := [PeriodCycle(first, Some(first + 4)), PeriodCycle(first + 28, Some(first + 32)),
                   PeriodCycle(first + 56, Some(first + 60))];
    assert |Completed(cycles)| <= 3 by {
      CompletedMembers(cycles);
      CompletedIsNoLonger(cycles);
    }
  }

  /** The filter keeps at most as many cycles as it is given. */
  lemma {:induction false} CompletedIsNoLonger(cycles: seq<PeriodCycle>)
    ensures |Completed(cycles)| <= |cycles|
  {
    if cycles != [] {
      CompletedIsNoLonger(cycles[..|cycles| - 1]);
    }
  }

  /** A log that keeps its rule parses to cycles that keep it, which is what
      the status engine requires of its input. */
  lemma ParsedLogEndsNotBeforeStarts(events: seq<PeriodEvent>)
    requires RecordsOrdered(events)
    ensures EndsNotBeforeStarts(ParsePeriodCycles(events))
  {
    var cycles := ParsePeriodCycles(events);
    forall i | 0 <= i < |cycles| && cycles[i].endDate.Some?
      ensures cycles[i].startDate <= cycles[i].endDate.value
    {
      CycleComesFromRecord(events, cycles[i]);
    }
  }

  /** Logging a start keeps the rule when the default period length is not negative. */
  lemma AddPeriodStartKeepsRule(events: seq<PeriodEvent>, date: Day, cfg: Config)
    requires RecordsOrdered(events) && cfg.averagePeriodDays >= 0
    ensures RecordsOrdered(AddPeriodStart(events, date, cfg))
  {
    var r := AddPeriodStart(events, date, cfg);
    forall e | e in r ensures e in events || e == PeriodEvent(date, Some(date + cfg.averagePeriodDays), "") {
      assert e in multiset(r);
    }
  }

  /** Closing a period keeps the rule: the end is never before the start it closes. */
  lemma AddPeriodEndKeepsRule(events: seq<PeriodEvent>, date: Day)
    requires RecordsOrdered(events)
    ensures RecordsOrdered(AddPeriodEnd(events, date))
  {
    var r := AddPeriodEnd(events, date);
    if exists t :: t in events && OpenBy(t, date) {
      var t :| t in events && OpenBy(t, date)
               && (forall e :: e in events && OpenBy(e, date) ==> e.startDate <= t.startDate)
               && r == CloseStart(events, t.startDate, date);
      forall e | e in r && e.endDate.Some? ensures e.startDate <= e.endDate.value {
        var k :| 0 <= k < |r| && r[k] == e;
        assert events[k] in events;
      }
    }
  }

  /** Deleting keeps the rule. */
  lemma DeleteKeepsRule(events: seq<PeriodEvent>, startDate: Day, endDate: Option<Day>)
    requires RecordsOrdered(events)
    ensures RecordsOrdered(DeletePeriodCycle(events, startDate, endDate))
  {
  }

  /** Updating keeps the rule when the new dates keep it themselves. */
  lemma UpdateKeepsRule(events: seq<PeriodEvent>, oldStartDate: Day, updates: CycleUpdate)
    requires RecordsOrdered(events)
    requires updates.endDate.Some? ==> updates.startDate <= updates.endDate.value
    ensures RecordsOrdered(UpdatePeriodCycle(events, oldStartDate, updates))
  {
  }
}
