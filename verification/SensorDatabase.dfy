// collector/Database.cpp: the object itself. Each method is proved to do what the
// machine of module Database does.

module SensorDatabase {
  import opened IntervalHistory
  import opened Database

  class SensorDatabase {
    const limit: int
    const connected: bool
    var lastWrites: map<nat, Time>
    var lastInsertIds: map<nat, nat>
    /** What the server holds. */
    var numericTable: seq<Row<real>>
    var booleanTable: seq<Row<bool>>
    var stateTable: seq<Row<string>>
    var numericCache: map<nat, real>
    var booleanCache: map<nat, bool>
    var stateCache: map<nat, string>

    ghost function View(): Db
      reads this
    {
      Db(limit, connected, lastWrites, lastInsertIds,
         numericTable, numericCache, booleanTable, booleanCache, stateTable, stateCache)
    }

    constructor (limit: int, connected: bool)
      ensures View() == Start(limit, connected)
    {
      this.limit, this.connected := limit, connected;
      lastWrites, lastInsertIds := map[], map[];
      numericTable, booleanTable, stateTable := [], [], [];
      numericCache, booleanCache, stateCache := map[], map[], map[];
    }

    method CheckAndUpdateRateLimit(sensor: nat, now: Time) returns (ok: bool)
      modifies this`lastWrites
      ensures ok == RateOk(old(View()), sensor, now)
      ensures View() == if ok then Noted(old(View()), sensor, now) else old(View())
    {
      if limit == 0 {
        return true;
      }
      if sensor in lastWrites {
        var difference := now - lastWrites[sensor];
        if difference < limit {
          return false;
        }
      }
      lastWrites := lastWrites[sensor := now];
      return true;
    }

    /** The update query against one of the tables. */
    static method EndRow<V>(table: seq<Row<V>>, id: nat, now: Time, ok: bool) returns (r: seq<Row<V>>)
      ensures r == if ok then Extended(table, id, now) else table
    {
      r := table;
      if ok && 1 <= id <= |table| {
        r := r[id - 1 := r[id - 1].(end := now)];
      }
    }

    /** The two queries of a sample, and what is remembered of them. */
    static method Store<V(==)>(table: seq<Row<V>>, cache: map<nat, V>, lastInsertIds: map<nat, nat>,
                               sensor: nat, value: V, now: Time, updateOk: bool, insertOk: bool)
      returns (newTable: seq<Row<V>>, newCache: map<nat, V>, newIds: map<nat, nat>)
      ensures Ledger(newTable, newCache, newIds) == Add(Ledger(table, cache, lastInsertIds), Op(now, sensor, value, updateOk, insertOk))
    {
      hide Extended;
      newTable, newCache, newIds := table, cache, lastInsertIds;
      var valueChanged := sensor !in cache || cache[sensor] != value;
      var idValid := sensor in lastInsertIds && lastInsertIds[sensor] != 0;
      if idValid {
        newTable := EndRow(newTable, lastInsertIds[sensor], now, updateOk);
      }
      if (valueChanged || !idValid) && insertOk {
        newTable := newTable + [Row(sensor, value, now, now)];
        newIds := newIds[sensor := |newTable|];
        newCache := newCache[sensor := value];
      }
    }

    method AddNumericValue(sensor: nat, value: real, now: Time, updateOk: bool, insertOk: bool)
      modifies this
      ensures View() == Step(old(View()), Event(now, Number(sensor, value), updateOk, insertOk))
    {
      hide Add, RateOk;
      if !connected {
        return;
      }
      var withinLimit := CheckAndUpdateRateLimit(sensor, now);
      if !withinLimit {
        return;
      }
      numericTable, numericCache, lastInsertIds :=
        Store(numericTable, numericCache, lastInsertIds, sensor, value, now, updateOk, insertOk);
    }

    method AddBooleanValue(sensor: nat, value: bool, now: Time, updateOk: bool, insertOk: bool)
      modifies this
      ensures View() == Step(old(View()), Event(now, Flag(sensor, value), updateOk, insertOk))
    {
      hide Add;
      if !connected {
        return;
      }
      booleanTable, booleanCache, lastInsertIds :=
        Store(booleanTable, booleanCache, lastInsertIds, sensor, value, now, updateOk, insertOk);
    }

    method AddStateValue(sensor: nat, value: string, now: Time, updateOk: bool, insertOk: bool)
      modifies this
      ensures View() == Step(old(View()), Event(now, Text(sensor, value), updateOk, insertOk))
    {
      hide Add;
      if !connected {
        return;
      }
      stateTable, stateCache, lastInsertIds :=
        Store(stateTable, stateCache, lastInsertIds, sensor, value, now, updateOk, insertOk);
    }

    /** Samples as they come in: every run of the machine is a run of the object. */
    method Execute(events: seq<Event>)
      modifies this
      ensures View() == Run(old(View()), events)
    {
      hide Step;
      for i := 0 to |events|
        invariant View() == Run(old(View()), events[..i])
      {
        var e := events[i];
        match e.reading {
          case Number(sensor, value) => AddNumericValue(sensor, value, e.now, e.updateOk, e.insertOk);
          case Flag(sensor, value) => AddBooleanValue(sensor, value, e.now, e.updateOk, e.insertOk);
          case Text(sensor, value) => AddStateValue(sensor, value, e.now, e.updateOk, e.insertOk);
        }
        RunStep(old(View()), events, i);
      }
      assert events[..|events|] == events;
    }
  }

  lemma RunStep(db: Db, events: seq<Event>, i: nat)
    requires i < |events|
    ensures Run(db, events[..i + 1]) == Step(Run(db, events[..i]), events[i])
  {
    var some := events[..i + 1];
    assert some[..|some| - 1] == events[..i];
  }
}
