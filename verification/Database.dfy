// collector/Database.cpp and Database.h: three kinds of sensors, each with its table
// and value cache, one map of last insert ids, and a rate limit for the numeric
// kind. Whether the database executes a query is an input of every step.

module Database {
  import opened IntervalHistory

  /** A sample for a sensor; the source's enums keep the three kinds' sensor
      numbers apart. */
  datatype Reading =
    | Number(sensor: nat, number: real)
    | Flag(sensor: nat, flag: bool)
    | Text(sensor: nat, text: string)

  const NUMERIC_LAST: nat := 28
  const BOOLEAN_FIRST: nat := 100
  const BOOLEAN_LAST: nat := 125
  const STATE_FIRST: nat := 200
  const STATE_LAST: nat := 203

  predicate InEnum(r: Reading)
  {
    match r
    case Number(sensor, _) => 1 <= sensor <= NUMERIC_LAST
    case Flag(sensor, _) => BOOLEAN_FIRST <= sensor <= BOOLEAN_LAST
    case Text(sensor, _) => STATE_FIRST <= sensor <= STATE_LAST
  }

  datatype Event = Event(now: Time, reading: Reading, updateOk: bool, insertOk: bool)

  datatype Db = Db(
    limit: int, connected: bool, lastWrites: map<nat, Time>, ids: map<nat, nat>,
    numericTable: seq<Row<real>>, numericCache: map<nat, real>,
    booleanTable: seq<Row<bool>>, booleanCache: map<nat, bool>,
    stateTable: seq<Row<string>>, stateCache: map<nat, string>)

  function Start(limit: int, connected: bool): Db
  {
    Db(limit, connected, map[], map[], [], map[], [], map[], [], map[])
  }

  // ----- Steps -----

  predicate RateOk(db: Db, sensor: nat, now: Time)
  {
    db.limit == 0 || sensor !in db.lastWrites || now - db.lastWrites[sensor] >= db.limit
  }

  function Noted(db: Db, sensor: nat, now: Time): Db
  {
    if db.limit == 0 then db else db.(lastWrites := db.lastWrites[sensor := now])
  }

  /** A sample that gets as far as the tables. */
  predicate Accepted(db: Db, e: Event)
  {
    db.connected && (e.reading.Number? ==> RateOk(db, e.reading.sensor, e.now))
  }

  function AddNumber(db: Db, op: Op<real>): Db
  {
    var l := Add(Ledger(db.numericTable, db.numericCache, db.ids), op);
    db.(numericTable := l.table, numericCache := l.cache, ids := l.ids)
  }

  function AddFlag(db: Db, op: Op<bool>): Db
  {
    var l := Add(Ledger(db.booleanTable, db.booleanCache, db.ids), op);
    db.(booleanTable := l.table, booleanCache := l.cache, ids := l.ids)
  }

  function AddText(db: Db, op: Op<string>): Db
  {
    var l := Add(Ledger(db.stateTable, db.stateCache, db.ids), op);
    db.(stateTable := l.table, stateCache := l.cache, ids := l.ids)
  }

  function Step(db: Db, e: Event): Db
  {
    if !Accepted(db, e) then db
    else match e.reading
      case Number(sensor, value) => AddNumber(Noted(db, sensor, e.now), Op(e.now, sensor, value, e.updateOk, e.insertOk))
      case Flag(sensor, value) => AddFlag(db, Op(e.now, sensor, value, e.updateOk, e.insertOk))
      case Text(sensor, value) => AddText(db, Op(e.now, sensor, value, e.updateOk, e.insertOk))
  }

  function Run(db: Db, events: seq<Event>): Db
  {
    if events == [] then db else Step(Run(db, events[..|events| - 1]), events[|events| - 1])
  }

  // ----- Each kind on its own -----

  function NumberOps(db: Db, events: seq<Event>): seq<Op<real>>
  {
    if events == [] then []
    else
      var init, e := events[..|events| - 1], events[|events| - 1];
      NumberOps(db, init) +
      (if e.reading.Number? && Accepted(Run(db, init), e)
       then [Op(e.now, e.reading.sensor, e.reading.number, e.updateOk, e.insertOk)] else [])
  }

  function FlagOps(db: Db, events: seq<Event>): seq<Op<bool>>
  {
    if events == [] then []
    else
      var init, e := events[..|events| - 1], events[|events| - 1];
      FlagOps(db, init) +
      (if e.reading.Flag? && Accepted(Run(db, init), e)
       then [Op(e.now, e.reading.sensor, e.reading.flag, e.updateOk, e.insertOk)] else [])
  }

  function TextOps(db: Db, events: seq<Event>): seq<Op<string>>
  {
    if events == [] then []
    else
      var init, e := events[..|events| - 1], events[|events| - 1];
      TextOps(db, init) +
      (if e.reading.Text? && Accepted(Run(db, init), e)
       then [Op(e.now, e.reading.sensor, e.reading.text, e.updateOk, e.insertOk)] else [])
  }

  ghost predicate AllInEnum(events: seq<Event>)
  {
    forall i :: 0 <= i < |events| ==> InEnum(events[i].reading)
  }

  /** The shared map of ids shows a kind the ids of its own sensors. */
  predicate SameIds(ids: map<nat, nat>, own: map<nat, nat>, first: nat, last: nat)
  {
    && (forall s :: s in own ==> first <= s <= last)
    && (forall s | first <= s <= last :: s in ids <==> s in own)
    && (forall s | first <= s <= last :: s in own ==> ids[s] == own[s])
  }

  ghost predicate Split(db: Db, numbers: Ledger<real>, flags: Ledger<bool>, texts: Ledger<string>)
  {
    && db.numericTable == numbers.table && db.numericCache == numbers.cache
    && db.booleanTable == flags.table && db.booleanCache == flags.cache
    && db.stateTable == texts.table && db.stateCache == texts.cache
    && SameIds(db.ids, numbers.ids, 1, NUMERIC_LAST)
    && SameIds(db.ids, flags.ids, BOOLEAN_FIRST, BOOLEAN_LAST)
    && SameIds(db.ids, texts.ids, STATE_FIRST, STATE_LAST)
  }

  lemma AddOwn<V>(table: seq<Row<V>>, cache: map<nat, V>, ids: map<nat, nat>, own: map<nat, nat>, op: Op<V>, first: nat, last: nat)
    requires SameIds(ids, own, first, last) && first <= op.sensor <= last
    ensures var a := Add(Ledger(table, cache, ids), op); var b := Add(Ledger(table, cache, own), op);
      a.table == b.table && a.cache == b.cache && SameIds(a.ids, b.ids, first, last)
  {}

  lemma AddOther<V>(table: seq<Row<V>>, cache: map<nat, V>, ids: map<nat, nat>, op: Op<V>, own: map<nat, nat>, first: nat, last: nat)
    requires SameIds(ids, own, first, last) && !(first <= op.sensor <= last)
    ensures SameIds(Add(Ledger(table, cache, ids), op).ids, own, first, last)
  {}

  lemma StepSplits(db: Db, e: Event, numbers: Ledger<real>, flags: Ledger<bool>, texts: Ledger<string>)
    requires Split(db, numbers, flags, texts) && InEnum(e.reading) && Accepted(db, e)
    ensures match e.reading
      case Number(s, v) => Split(Step(db, e), Add(numbers, Op(e.now, s, v, e.updateOk, e.insertOk)), flags, texts)
      case Flag(s, v) => Split(Step(db, e), numbers, Add(flags, Op(e.now, s, v, e.updateOk, e.insertOk)), texts)
      case Text(s, v) => Split(Step(db, e), numbers, flags, Add(texts, Op(e.now, s, v, e.updateOk, e.insertOk)))
  {
    hide Add, SameIds;
    match e.reading
    case Number(s, v) =>
      var op := Op(e.now, s, v, e.updateOk, e.insertOk);
      AddOwn(db.numericTable, db.numericCache, db.ids, numbers.ids, op, 1, NUMERIC_LAST);
      AddOther(db.numericTable, db.numericCache, db.ids, op, flags.ids, BOOLEAN_FIRST, BOOLEAN_LAST);
      AddOther(db.numericTable, db.numericCache, db.ids, op, texts.ids, STATE_FIRST, STATE_LAST);
    case Flag(s, v) =>
      var op := Op(e.now, s, v, e.updateOk, e.insertOk);
      AddOwn(db.booleanTable, db.booleanCache, db.ids, flags.ids, op, BOOLEAN_FIRST, BOOLEAN_LAST);
      AddOther(db.booleanTable, db.booleanCache, db.ids, op, numbers.ids, 1, NUMERIC_LAST);
      AddOther(db.booleanTable, db.booleanCache, db.ids, op, texts.ids, STATE_FIRST, STATE_LAST);
    case Text(s, v) =>
      var op := Op(e.now, s, v, e.updateOk, e.insertOk);
      AddOwn(db.stateTable, db.stateCache, db.ids, texts.ids, op, STATE_FIRST, STATE_LAST);
      AddOther(db.stateTable, db.stateCache, db.ids, op, numbers.ids, 1, NUMERIC_LAST);
      AddOther(db.stateTable, db.stateCache, db.ids, op, flags.ids, BOOLEAN_FIRST, BOOLEAN_LAST);
  }

  lemma AddAllSnoc<V>(ops: seq<Op<V>>, op: Op<V>)
    ensures AddAll(ops + [op]) == Add(AddAll(ops), op)
    ensures ops + [] == ops
  {
    hide Add;
    assert (ops + [op])[..|ops + [op]| - 1] == ops;
  }

  /** The database is three separate ledgers: the kinds share the map of ids, but
      never an entry of it. */
  lemma {:induction false} RunSplits(limit: int, connected: bool, events: seq<Event>)
    requires AllInEnum(events)
    ensures var db := Start(limit, connected);
      Split(Run(db, events), AddAll(NumberOps(db, events)), AddAll(FlagOps(db, events)), AddAll(TextOps(db, events)))
    decreases |events|
  {
    hide Add, Step, Accepted, AddAll;
    var db := Start(limit, connected);
    if events == [] {
      StartSplits(limit, connected);
    } else {
      var init, e := events[..|events| - 1], events[|events| - 1];
      RunSplits(limit, connected, init);
      var n, f, t := NumberOps(db, init), FlagOps(db, init), TextOps(db, init);
      assert n + [] == n && f + [] == f && t + [] == t;
      if Accepted(Run(db, init), e) {
        StepSplits(Run(db, init), e, AddAll(n), AddAll(f), AddAll(t));
        match e.reading
        case Number(s, v) => AddAllSnoc(n, Op(e.now, s, v, e.updateOk, e.insertOk));
        case Flag(s, v) => AddAllSnoc(f, Op(e.now, s, v, e.updateOk, e.insertOk));
        case Text(s, v) => AddAllSnoc(t, Op(e.now, s, v, e.updateOk, e.insertOk));
      } else {
        RefusedStep(Run(db, init), e);
      }
    }
  }

  lemma StartSplits(limit: int, connected: bool)
    ensures Split(Start(limit, connected), AddAll([]), AddAll([]), AddAll([]))
  {}

  lemma RefusedStep(db: Db, e: Event)
    requires !Accepted(db, e)
    ensures Step(db, e) == db
  {}

  // ----- The ledgers' properties, on the database -----

  predicate ClockRuns(events: seq<Event>)
  {
    forall i, j :: 0 <= i < j < |events| ==> events[i].now <= events[j].now
  }

  predicate QueriesSucceed(events: seq<Event>)
  {
    forall i :: 0 <= i < |events| ==> events[i].updateOk && events[i].insertOk
  }

  predicate NoLater<V>(ops: seq<Op<V>>, now: Time)
  {
    forall i :: 0 <= i < |ops| ==> ops[i].now <= now
  }

  lemma {:induction false} OpsFollowClock(db: Db, events: seq<Event>)
    requires ClockRuns(events)
    ensures Monotone(NumberOps(db, events)) && Monotone(FlagOps(db, events)) && Monotone(TextOps(db, events))
    ensures forall now :: (forall i :: 0 <= i < |events| ==> events[i].now <= now) ==>
      NoLater(NumberOps(db, events), now) && NoLater(FlagOps(db, events), now) && NoLater(TextOps(db, events), now)
    decreases |events|
  {
    hide Accepted, Run;
    if events != [] {
      var init, e := events[..|events| - 1], events[|events| - 1];
      OpsFollowClock(db, init);
      assert NoLater(NumberOps(db, init), e.now) && NoLater(FlagOps(db, init), e.now) && NoLater(TextOps(db, init), e.now);
      forall now | forall i :: 0 <= i < |events| ==> events[i].now <= now
        ensures NoLater(NumberOps(db, events), now) && NoLater(FlagOps(db, events), now) && NoLater(TextOps(db, events), now)
      {
        assert events[|events| - 1].now <= now;
        assert forall i :: 0 <= i < |init| ==> init[i] == events[i];
      }
    }
  }

  lemma {:induction false} OpsSucceed(db: Db, events: seq<Event>)
    requires QueriesSucceed(events)
    ensures AllSucceed(NumberOps(db, events)) && AllSucceed(FlagOps(db, events)) && AllSucceed(TextOps(db, events))
    decreases |events|
  {
    hide Accepted;
    if events != [] {
      OpsSucceed(db, events[..|events| - 1]);
    }
  }

  /** Under any pattern of failing queries, cache and id of a sensor, in the table
      of its kind, are present together and point at that sensor's newest row. */
  lemma {:induction false} CachesAgreeWithTables(limit: int, connected: bool, events: seq<Event>, sensor: nat)
    requires AllInEnum(events)
    ensures var db := Run(Start(limit, connected), events);
      && (1 <= sensor <= NUMERIC_LAST ==> Describes(Ledger(db.numericTable, db.numericCache, db.ids), sensor))
      && (BOOLEAN_FIRST <= sensor <= BOOLEAN_LAST ==> Describes(Ledger(db.booleanTable, db.booleanCache, db.ids), sensor))
      && (STATE_FIRST <= sensor <= STATE_LAST ==> Describes(Ledger(db.stateTable, db.stateCache, db.ids), sensor))
  {
    hide AddAll, Run, NumberOps, FlagOps, TextOps;
    var db := Start(limit, connected);
    RunSplits(limit, connected, events);
    CacheAgreesWithTable(NumberOps(db, events));
    CacheAgreesWithTable(FlagOps(db, events));
    CacheAgreesWithTable(TextOps(db, events));
    AgreeAt(AddAll(NumberOps(db, events)), sensor);
    AgreeAt(AddAll(FlagOps(db, events)), sensor);
    AgreeAt(AddAll(TextOps(db, events)), sensor);
  }

  /** With a clock that never goes back, and any pattern of failing queries. */
  lemma RowsDisjoint(limit: int, connected: bool, events: seq<Event>)
    requires AllInEnum(events) && ClockRuns(events)
    ensures var db := Run(Start(limit, connected), events);
      Disjoint(db.numericTable) && Disjoint(db.booleanTable) && Disjoint(db.stateTable)
  {
    hide AddAll, Run, NumberOps, FlagOps, TextOps, Disjoint;
    var db := Start(limit, connected);
    RunSplits(limit, connected, events);
    OpsFollowClock(db, events);
    RowsNeverOverlap(NumberOps(db, events));
    RowsNeverOverlap(FlagOps(db, events));
    RowsNeverOverlap(TextOps(db, events));
  }

  /** When all queries succeed, every table is the history of the accepted samples
      of each of its sensors. */
  lemma {:induction false} TablesAreHistories(limit: int, connected: bool, events: seq<Event>, sensor: nat)
    requires AllInEnum(events) && ClockRuns(events) && QueriesSucceed(events)
    ensures var start := Start(limit, connected); var db := Run(start, events);
      && IsHistory(RowsOf(db.numericTable, sensor), LogOf(NumberOps(start, events), sensor))
      && IsHistory(RowsOf(db.booleanTable, sensor), LogOf(FlagOps(start, events), sensor))
      && IsHistory(RowsOf(db.stateTable, sensor), LogOf(TextOps(start, events), sensor))
  {
    hide AddAll, Run, NumberOps, FlagOps, TextOps, IsHistory;
    var db := Start(limit, connected);
    RunSplits(limit, connected, events);
    OpsFollowClock(db, events);
    OpsSucceed(db, events);
    TableIsHistory(NumberOps(db, events), sensor);
    TableIsHistory(FlagOps(db, events), sensor);
    TableIsHistory(TextOps(db, events), sensor);
  }
}
