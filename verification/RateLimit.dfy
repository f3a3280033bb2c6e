// collector/Database.cpp: how far apart the rate limit keeps the rows of a numeric
// sensor.

module RateLimit {
  import opened IntervalHistory
  import opened Database

  /** When a sensor's rows begin. */
  function StartsOf<V>(table: seq<Row<V>>, sensor: nat): seq<Time>
  {
    if table == [] then []
    else
      var last := table[|table| - 1];
      StartsOf(table[..|table| - 1], sensor) + (if last.sensor == sensor then [last.start] else [])
  }

  lemma {:induction false} StartsExtended<V>(table: seq<Row<V>>, id: nat, now: Time, sensor: nat)
    ensures StartsOf(Extended(table, id, now), sensor) == StartsOf(table, sensor)
    decreases |table|
  {
    if 1 <= id <= |table| {
      var m := |table| - 1;
      var t := Extended(table, id, now);
      if id == |table| {
        assert t[..m] == table[..m];
      } else {
        assert t[..m] == Extended(table[..m], id, now);
        StartsExtended(table[..m], id, now, sensor);
      }
    }
  }

  lemma StartsAppend<V>(table: seq<Row<V>>, row: Row<V>, sensor: nat)
    ensures StartsOf(table + [row], sensor) == StartsOf(table, sensor) + if row.sensor == sensor then [row.start] else []
  {
    assert (table + [row])[..|table + [row]| - 1] == table;
  }

  lemma AddStarts<V>(l: Ledger<V>, op: Op<V>, sensor: nat)
    ensures var a, b := StartsOf(l.table, sensor), StartsOf(Add(l, op).table, sensor);
      b == a || (op.sensor == sensor && b == a + [op.now])
  {
    hide StartsOf, Extended;
    var table := if IdValid(l, op.sensor) && op.updateOk then Extended(l.table, l.ids[op.sensor], op.now) else l.table;
    if IdValid(l, op.sensor) {
      StartsExtended(l.table, l.ids[op.sensor], op.now, sensor);
    }
    StartsAppend(table, Row(op.sensor, op.value, op.now, op.now), sensor);
  }

  predicate Apart(starts: seq<Time>, limit: int)
  {
    forall i :: 0 <= i < |starts| - 1 ==> starts[i + 1] - starts[i] >= limit
  }

  ghost predicate RateInv(db: Db, sensor: nat, clock: Time)
  {
    var starts := StartsOf(db.numericTable, sensor);
    && Apart(starts, db.limit)
    && (starts != [] ==>
          && starts[|starts| - 1] <= clock
          && (db.limit != 0 ==> sensor in db.lastWrites && starts[|starts| - 1] <= db.lastWrites[sensor]))
  }

  lemma ApartSnoc(starts: seq<Time>, limit: int, now: Time)
    requires Apart(starts, limit) && (starts != [] ==> now - starts[|starts| - 1] >= limit)
    ensures Apart(starts + [now], limit)
  {}

  lemma AddedRowKeepsApart(db: Db, sensor: nat, clock: Time, now: Time)
    requires RateInv(db, sensor, clock) && clock <= now && RateOk(db, sensor, now)
    ensures Apart(StartsOf(db.numericTable, sensor) + [now], db.limit)
  {
    hide StartsOf, Apart;
    ApartSnoc(StartsOf(db.numericTable, sensor), db.limit, now);
  }

  lemma NumberStepRate(db: Db, e: Event, sensor: nat, clock: Time)
    requires RateInv(db, sensor, clock) && clock <= e.now
    requires e.reading.Number? && Accepted(db, e)
    ensures RateInv(Step(db, e), sensor, e.now)
  {
    hide StartsOf, Add, Apart, Noted;
    var s := e.reading.sensor;
    var op := Op(e.now, s, e.reading.number, e.updateOk, e.insertOk);
    NotedKeeps(db, s, sensor, e.now);
    AddStarts(Ledger(db.numericTable, db.numericCache, db.ids), op, sensor);
    if s == sensor {
      AddedRowKeepsApart(db, sensor, clock, e.now);
    }
  }

  lemma NotedKeeps(db: Db, s: nat, sensor: nat, now: Time)
    ensures var n := Noted(db, s, now);
      && n.numericTable == db.numericTable && n.numericCache == db.numericCache && n.ids == db.ids && n.limit == db.limit
      && (db.limit != 0 && s == sensor ==> sensor in n.lastWrites && n.lastWrites[sensor] == now)
      && (s != sensor && sensor in db.lastWrites ==> sensor in n.lastWrites && n.lastWrites[sensor] == db.lastWrites[sensor])
  {}

  lemma StepRate(db: Db, e: Event, sensor: nat, clock: Time)
    requires RateInv(db, sensor, clock) && clock <= e.now
    ensures RateInv(Step(db, e), sensor, e.now)
  {
    if e.reading.Number? && Accepted(db, e) {
      NumberStepRate(db, e, sensor, clock);
    } else {
      OtherStepRate(db, e, sensor, clock);
    }
  }

  lemma OtherStepRate(db: Db, e: Event, sensor: nat, clock: Time)
    requires RateInv(db, sensor, clock) && clock <= e.now && !(e.reading.Number? && Accepted(db, e))
    ensures RateInv(Step(db, e), sensor, e.now)
  {
    hide StartsOf, Add, Apart, Accepted;
    assert Step(db, e).numericTable == db.numericTable;
  }

  lemma {:induction false} RunRate(limit: int, connected: bool, events: seq<Event>, sensor: nat)
    requires ClockRuns(events) && events != []
    ensures RateInv(Run(Start(limit, connected), events), sensor, events[|events| - 1].now)
    decreases |events|
  {
    hide Step, StartsOf, RateInv;
    var init, last := events[..|events| - 1], events[|events| - 1];
    if init == [] {
      StartRate(limit, connected, sensor, last.now);
      StepRate(Start(limit, connected), last, sensor, last.now);
    } else {
      RunRate(limit, connected, init, sensor);
      StepRate(Run(Start(limit, connected), init), last, sensor, init[|init| - 1].now);
    }
  }

  lemma StartRate(limit: int, connected: bool, sensor: nat, clock: Time)
    ensures RateInv(Start(limit, connected), sensor, clock)
  {}

  lemma {:induction false} ApartSpan(starts: seq<Time>, limit: int, n: nat)
    requires Apart(starts, limit) && n < |starts|
    ensures starts[n] - starts[0] >= n * limit
  {
    if n > 0 {
      ApartSpan(starts, limit, n - 1);
      assert n * limit == (n - 1) * limit + limit;
    }
  }

  lemma {:induction false} RunKeepsLimit(db: Db, events: seq<Event>)
    ensures Run(db, events).limit == db.limit
    decreases |events|
  {
    hide Add;
    if events != [] {
      RunKeepsLimit(db, events[..|events| - 1]);
    }
  }

  /** However fast samples come in: n rows of a numeric sensor span at least
      (n - 1) times the limit, failing queries or not. */
  lemma {:induction false} RateBound(limit: int, connected: bool, events: seq<Event>, sensor: nat)
    requires ClockRuns(events)
    ensures var starts := StartsOf(Run(Start(limit, connected), events).numericTable, sensor);
      starts != [] ==> starts[|starts| - 1] - starts[0] >= (|starts| - 1) * limit
  {
    hide Step, StartsOf;
    var db := Run(Start(limit, connected), events);
    var starts := StartsOf(db.numericTable, sensor);
    if events == [] {
      NoStarts(sensor);
    } else if starts != [] {
      RunRate(limit, connected, events, sensor);
      RunKeepsLimit(Start(limit, connected), events);
      ApartSpan(starts, limit, |starts| - 1);
    }
  }

  lemma NoStarts(sensor: nat)
    ensures StartsOf<real>([], sensor) == []
  {}

  // ----- Which samples are stored -----

  /** Of the samples of a numeric sensor: the first, and then each one that comes at
      least `limit` after the last that was kept. */
  function Kept(limit: int, events: seq<Event>, sensor: nat): seq<Sample<real>>
  {
    if events == [] then []
    else
      var kept, e := Kept(limit, events[..|events| - 1], sensor), events[|events| - 1];
      if e.reading.Number? && e.reading.sensor == sensor
         && (limit == 0 || kept == [] || e.now - kept[|kept| - 1].at >= limit)
      then kept + [Sample(e.now, e.reading.number)] else kept
  }

  function Flags(events: seq<Event>, sensor: nat): seq<Sample<bool>>
  {
    if events == [] then []
    else
      var e := events[|events| - 1];
      Flags(events[..|events| - 1], sensor)
      + (if e.reading.Flag? && e.reading.sensor == sensor then [Sample(e.now, e.reading.flag)] else [])
  }

  function Texts(events: seq<Event>, sensor: nat): seq<Sample<string>>
  {
    if events == [] then []
    else
      var e := events[|events| - 1];
      Texts(events[..|events| - 1], sensor)
      + (if e.reading.Text? && e.reading.sensor == sensor then [Sample(e.now, e.reading.text)] else [])
  }

  lemma LogSnoc<V>(ops: seq<Op<V>>, op: Op<V>, sensor: nat)
    ensures LogOf(ops + [op], sensor) ==
      if op.sensor == sensor then LogOf(ops, sensor) + [Sample(op.now, op.value)] else LogOf(ops, sensor)
    ensures ops + [] == ops
  {
    assert (ops + [op])[..|ops + [op]| - 1] == ops;
  }

  /** What the limiter remembers of a sensor. */
  ghost predicate Remembers(db: Db, sensor: nat, kept: seq<Sample<real>>)
  {
    db.limit != 0 ==>
      && (sensor in db.lastWrites <==> kept != [])
      && (kept != [] ==> db.lastWrites[sensor] == kept[|kept| - 1].at)
  }

  lemma StepRemembers(db: Db, e: Event, sensor: nat, kept: seq<Sample<real>>)
    requires db.connected && Remembers(db, sensor, kept)
    ensures var keeps := e.reading.Number? && e.reading.sensor == sensor
        && (db.limit == 0 || kept == [] || e.now - kept[|kept| - 1].at >= db.limit);
      && (e.reading.Number? && e.reading.sensor == sensor ==> (Accepted(db, e) <==> keeps))
      && Remembers(Step(db, e), sensor, if keeps then kept + [Sample(e.now, e.reading.number)] else kept)
      && Step(db, e).limit == db.limit && Step(db, e).connected == db.connected
  {
    hide Add;
  }

  lemma {:induction false} KeptIsLog(limit: int, events: seq<Event>, sensor: nat)
    ensures var start := Start(limit, true); var db := Run(start, events);
      && LogOf(NumberOps(start, events), sensor) == Kept(limit, events, sensor)
      && Remembers(db, sensor, Kept(limit, events, sensor)) && db.limit == limit && db.connected
    decreases |events|
  {
    hide Step, LogOf, Remembers, RateOk;
    var start := Start(limit, true);
    if events == [] {
      NothingKept(limit, sensor);
    } else {
      var init, e := events[..|events| - 1], events[|events| - 1];
      KeptIsLog(limit, init, sensor);
      StepRemembers(Run(start, init), e, sensor, Kept(limit, init, sensor));
      if e.reading.Number? {
        LogSnoc(NumberOps(start, init), Op(e.now, e.reading.sensor, e.reading.number, e.updateOk, e.insertOk), sensor);
      } else {
        assert NumberOps(start, init) + [] == NumberOps(start, init);
      }
    }
  }

  lemma {:induction false} FlagsAreLog(limit: int, events: seq<Event>, sensor: nat)
    ensures LogOf(FlagOps(Start(limit, true), events), sensor) == Flags(events, sensor)
    decreases |events|
  {
    hide Step, LogOf, Remembers, RateOk, Run;
    var start := Start(limit, true);
    NothingKept(limit, sensor);
    if events != [] {
      var init, e := events[..|events| - 1], events[|events| - 1];
      FlagsAreLog(limit, init, sensor);
      KeptIsLog(limit, init, 0);
      assert FlagOps(start, init) + [] == FlagOps(start, init) && Flags(init, sensor) + [] == Flags(init, sensor);
      if e.reading.Flag? {
        LogSnoc(FlagOps(start, init), Op(e.now, e.reading.sensor, e.reading.flag, e.updateOk, e.insertOk), sensor);
      }
    }
  }

  lemma {:induction false} TextsAreLog(limit: int, events: seq<Event>, sensor: nat)
    ensures LogOf(TextOps(Start(limit, true), events), sensor) == Texts(events, sensor)
    decreases |events|
  {
    hide Step, LogOf, Remembers, RateOk, Run;
    var start := Start(limit, true);
    NothingKept(limit, sensor);
    if events != [] {
      var init, e := events[..|events| - 1], events[|events| - 1];
      TextsAreLog(limit, init, sensor);
      KeptIsLog(limit, init, 0);
      assert TextOps(start, init) + [] == TextOps(start, init) && Texts(init, sensor) + [] == Texts(init, sensor);
      if e.reading.Text? {
        LogSnoc(TextOps(start, init), Op(e.now, e.reading.sensor, e.reading.text, e.updateOk, e.insertOk), sensor);
      }
    }
  }

  lemma NothingKept(limit: int, sensor: nat)
    ensures LogOf<real>([], sensor) == [] && LogOf<bool>([], sensor) == [] && LogOf<string>([], sensor) == []
    ensures Remembers(Start(limit, true), sensor, [])
  {}

  /** With all queries successful: a numeric sensor's rows are the history of exactly
      its first sample and then each at least the limit after the last one stored;
      those of the others are the histories of all their samples. */
  lemma {:induction false} TablesKeepSamples(limit: int, events: seq<Event>, sensor: nat)
    requires AllInEnum(events) && ClockRuns(events) && QueriesSucceed(events)
    ensures var db := Run(Start(limit, true), events);
      && IsHistory(RowsOf(db.numericTable, sensor), Kept(limit, events, sensor))
      && IsHistory(RowsOf(db.booleanTable, sensor), Flags(events, sensor))
      && IsHistory(RowsOf(db.stateTable, sensor), Texts(events, sensor))
  {
    hide Run, IsHistory, RowsOf, LogOf;
    TablesAreHistories(limit, true, events, sensor);
    KeptIsLog(limit, events, sensor);
    FlagsAreLog(limit, events, sensor);
    TextsAreLog(limit, events, sensor);
  }

  /** Without a connection nothing is stored at all. */
  lemma {:induction false} NothingUnconnected(limit: int, events: seq<Event>)
    ensures Run(Start(limit, false), events) == Start(limit, false)
    decreases |events|
  {
    if events != [] {
      NothingUnconnected(limit, events[..|events| - 1]);
    }
  }

  /** The limit never makes a sensor's history older than itself: right after a sample
      at time t the sensor's newest row ends later than t - limit, and without a
      limit at t. */
  lemma {:induction false} NewestRowIsFresh(limit: int, events: seq<Event>, sensor: nat)
    requires AllInEnum(events) && ClockRuns(events) && QueriesSucceed(events) && events != []
    requires var r := events[|events| - 1].reading; r.Number? && r.sensor == sensor
    ensures var rows := RowsOf(Run(Start(limit, true), events).numericTable, sensor); var t := events[|events| - 1].now;
      && rows != []
      && (limit == 0 ==> rows[|rows| - 1].end == t)
      && (limit > 0 ==> t - limit < rows[|rows| - 1].end <= t)
  {
    hide Run, RowsOf;
    TablesKeepSamples(limit, events, sensor);
    var kept := Kept(limit, events, sensor);
    assert kept != [];
    KeptInTime(limit, events, sensor);
  }

  lemma {:induction false} KeptInTime(limit: int, events: seq<Event>, sensor: nat)
    requires ClockRuns(events)
    ensures var kept := Kept(limit, events, sensor);
      kept != [] ==> events != [] && kept[|kept| - 1].at <= events[|events| - 1].now
    decreases |events|
  {
    if events != [] {
      KeptInTime(limit, events[..|events| - 1], sensor);
    }
  }
}
