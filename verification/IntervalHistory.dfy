// collector/Database.cpp: one kind of sensor value, its table, its value cache and
// its ids. A row says that a sensor had a value from start to end.

module IntervalHistory {

  type Time = int

  datatype Row<V> = Row(sensor: nat, value: V, start: Time, end: Time)

  /** Rows get ids 1, 2, 3, ... in order of insertion. */
  datatype Ledger<V> = Ledger(table: seq<Row<V>>, cache: map<nat, V>, ids: map<nat, nat>)

  function Empty<V>(): Ledger<V>
  {
    Ledger([], map[], map[])
  }

  /** A sample that passed the rate limit, and whether its two queries succeed. */
  datatype Op<V> = Op(now: Time, sensor: nat, value: V, updateOk: bool, insertOk: bool)

  predicate IdValid<V>(l: Ledger<V>, sensor: nat)
  {
    sensor in l.ids && l.ids[sensor] != 0
  }

  predicate ValueChanged<V(==)>(l: Ledger<V>, sensor: nat, value: V)
  {
    sensor !in l.cache || l.cache[sensor] != value
  }

  /** The update query: no row with that id, no change. */
  function Extended<V>(table: seq<Row<V>>, id: nat, now: Time): (r: seq<Row<V>>)
    ensures |r| == |table|
  {
    if 1 <= id <= |table| then table[id - 1 := table[id - 1].(end := now)] else table
  }

  function Add<V(==)>(l: Ledger<V>, op: Op<V>): Ledger<V>
  {
    var table := if IdValid(l, op.sensor) && op.updateOk then Extended(l.table, l.ids[op.sensor], op.now) else l.table;
    if (ValueChanged(l, op.sensor, op.value) || !IdValid(l, op.sensor)) && op.insertOk then
      Ledger(table + [Row(op.sensor, op.value, op.now, op.now)],
             l.cache[op.sensor := op.value], l.ids[op.sensor := |table| + 1])
    else l.(table := table)
  }

  function AddAll<V(==)>(ops: seq<Op<V>>): Ledger<V>
  {
    if ops == [] then Empty() else Add(AddAll(ops[..|ops| - 1]), ops[|ops| - 1])
  }

  // ----- Cache and ids describe the newest rows -----

  predicate NoneBehind<V>(table: seq<Row<V>>, k: nat, sensor: nat)
  {
    forall j :: k <= j < |table| ==> table[j].sensor != sensor
  }

  predicate Describes<V(==)>(l: Ledger<V>, sensor: nat)
  {
    if sensor in l.ids then
      && sensor in l.cache && 1 <= l.ids[sensor] <= |l.table|
      && l.table[l.ids[sensor] - 1].sensor == sensor
      && l.table[l.ids[sensor] - 1].value == l.cache[sensor]
      && NoneBehind(l.table, l.ids[sensor], sensor)
    else sensor !in l.cache && NoneBehind(l.table, 0, sensor)
  }

  ghost predicate Agree<V>(l: Ledger<V>)
  {
    forall sensor: nat :: Describes(l, sensor)
  }

  lemma AddAgrees<V>(l: Ledger<V>, op: Op<V>)
    requires Agree(l)
    ensures Agree(Add(l, op))
  {
    var r := Add(l, op);
    assert Describes(l, op.sensor);
    forall sensor: nat
      ensures Describes(r, sensor)
    {
      assert Describes(l, sensor);
      AddDescribes(l, op, sensor);
    }
  }

  lemma AddDescribes<V>(l: Ledger<V>, op: Op<V>, sensor: nat)
    requires Describes(l, sensor) && Describes(l, op.sensor)
    ensures Describes(Add(l, op), sensor)
  {}

  /** Whatever queries fail: for every sensor the value cache and the last insert
      id belong together and point at the sensor's newest row. */
  lemma {:induction false} CacheAgreesWithTable<V>(ops: seq<Op<V>>)
    ensures Agree(AddAll(ops))
    decreases |ops|
  {
    hide Add, Describes;
    if ops == [] {
      EmptyAgrees<V>();
    } else {
      CacheAgreesWithTable(ops[..|ops| - 1]);
      AddAgrees(AddAll(ops[..|ops| - 1]), ops[|ops| - 1]);
    }
  }

  lemma EmptyAgrees<V>()
    ensures Agree<V>(Empty())
  {}

  // ----- Rows do not overlap -----

  predicate Monotone<V>(ops: seq<Op<V>>)
  {
    forall i, j :: 0 <= i < j < |ops| ==> ops[i].now <= ops[j].now
  }

  ghost predicate Disjoint<V>(table: seq<Row<V>>)
  {
    forall i, j :: 0 <= i < j < |table| && table[i].sensor == table[j].sensor ==> table[i].end <= table[j].start
  }

  ghost predicate Past<V>(table: seq<Row<V>>, clock: Time)
  {
    forall i :: 0 <= i < |table| ==> table[i].start <= table[i].end <= clock
  }

  lemma ExtendDisjoint<V>(l: Ledger<V>, op: Op<V>, clock: Time)
    requires Agree(l) && Disjoint(l.table) && Past(l.table, clock) && clock <= op.now
    requires IdValid(l, op.sensor)
    ensures var t := Extended(l.table, l.ids[op.sensor], op.now); Disjoint(t) && Past(t, op.now)
  {
    assert Describes(l, op.sensor);
  }

  lemma AppendDisjoint<V>(table: seq<Row<V>>, row: Row<V>)
    requires Disjoint(table) && Past(table, row.start) && row.start == row.end
    ensures Disjoint(table + [row]) && Past(table + [row], row.start)
  {}

  lemma AddDisjoint<V>(l: Ledger<V>, op: Op<V>, clock: Time)
    requires Agree(l) && Disjoint(l.table) && Past(l.table, clock) && clock <= op.now
    ensures Disjoint(Add(l, op).table) && Past(Add(l, op).table, op.now)
  {
    hide Agree, Disjoint, Extended;
    var table := if IdValid(l, op.sensor) && op.updateOk then Extended(l.table, l.ids[op.sensor], op.now) else l.table;
    if IdValid(l, op.sensor) && op.updateOk {
      ExtendDisjoint(l, op, clock);
    }
    AppendDisjoint(table, Row(op.sensor, op.value, op.now, op.now));
  }

  /** With a clock that never goes back, one sensor's rows never overlap, whatever
      queries fail. */
  lemma {:induction false} RowsNeverOverlap<V>(ops: seq<Op<V>>)
    requires Monotone(ops)
    ensures Disjoint(AddAll(ops).table)
    ensures ops != [] ==> Past(AddAll(ops).table, ops[|ops| - 1].now)
    decreases |ops|
  {
    hide Add, Agree, Disjoint, Past;
    if ops == [] {
      NoRows<V>();
    } else {
      var init, last := ops[..|ops| - 1], ops[|ops| - 1];
      RowsNeverOverlap(init);
      CacheAgreesWithTable(init);
      if init == [] {
        NoRows<V>();
        assert Past(AddAll(init).table, last.now) by { NoRowsPast<V>(last.now); }
        AddDisjoint(AddAll(init), last, last.now);
      } else {
        AddDisjoint(AddAll(init), last, init[|init| - 1].now);
      }
    }
  }

  lemma NoRows<V>()
    ensures Disjoint<V>([])
  {}

  lemma NoRowsPast<V>(clock: Time)
    ensures Past<V>([], clock)
  {}

  // ----- The sample log -----

  datatype Sample<V> = Sample(at: Time, value: V)

  /** One sensor's rows, and one sensor's samples. */
  function RowsOf<V>(table: seq<Row<V>>, sensor: nat): seq<Row<V>>
  {
    if table == [] then []
    else
      var last := table[|table| - 1];
      RowsOf(table[..|table| - 1], sensor) + (if last.sensor == sensor then [last] else [])
  }

  function LogOf<V>(ops: seq<Op<V>>, sensor: nat): seq<Sample<V>>
  {
    if ops == [] then []
    else
      var last := ops[|ops| - 1];
      LogOf(ops[..|ops| - 1], sensor) + (if last.sensor == sensor then [Sample(last.now, last.value)] else [])
  }

  /** How often the value has changed up to and including sample i. */
  function Changes<V(==)>(log: seq<Sample<V>>, i: nat): nat
    requires i < |log|
  {
    if i == 0 then 0
    else Changes(log, i - 1) + (if log[i].value != log[i - 1].value then 1 else 0)
  }

  predicate StartsRun<V(==)>(log: seq<Sample<V>>, i: nat)
    requires i < |log|
  {
    i == 0 || log[i].value != log[i - 1].value
  }

  /** The rows a log should give: one for each run of equal values. Sample i lies in
      the row counted by the changes up to it, which has its value; the sample
      that starts a run starts its row and ends the one before; the last row ends
      with the last sample. */
  predicate Covers<V(==)>(row: Row<V>, log: seq<Sample<V>>, i: nat)
    requires i < |log|
  {
    && row.value == log[i].value && row.start <= log[i].at <= row.end
    && (StartsRun(log, i) ==> row.start == log[i].at)
  }

  predicate IsHistory<V(==)>(rows: seq<Row<V>>, log: seq<Sample<V>>)
  {
    if log == [] then rows == []
    else
      && |rows| == Changes(log, |log| - 1) + 1
      && rows[|rows| - 1].end == log[|log| - 1].at
      && (forall i :: 0 <= i < |log| ==> Changes(log, i) < |rows| && Covers(rows[Changes(log, i)], log, i))
      && (forall i :: 0 < i < |log| && StartsRun(log, i) ==>
            Changes(log, i) > 0 && rows[Changes(log, i) - 1].end == log[i].at)
  }

  /** What a sample does to its sensor's rows when both queries succeed. */
  function Continued<V(==)>(rows: seq<Row<V>>, sensor: nat, s: Sample<V>): seq<Row<V>>
  {
    var next := Row(sensor, s.value, s.at, s.at);
    if rows == [] then [next]
    else
      var n := |rows| - 1;
      var ended := rows[n := rows[n].(end := s.at)];
      if rows[n].value != s.value then ended + [next] else ended
  }

  lemma {:induction false} ChangesPrefix<V>(log: seq<Sample<V>>, s: Sample<V>, i: nat)
    requires i < |log|
    ensures Changes(log + [s], i) == Changes(log, i)
    ensures StartsRun(log + [s], i) == StartsRun(log, i)
  {
    if i > 0 {
      ChangesPrefix(log, s, i - 1);
    }
  }

  lemma {:induction false} ChangesGrow<V>(log: seq<Sample<V>>, i: nat, j: nat)
    requires i <= j < |log|
    ensures Changes(log, i) <= Changes(log, j)
    decreases j
  {
    if i < j {
      ChangesGrow(log, i, j - 1);
    }
  }

  lemma HistoryContinues<V>(rows: seq<Row<V>>, log: seq<Sample<V>>, sensor: nat, s: Sample<V>)
    requires IsHistory(rows, log)
    requires log != [] ==> log[|log| - 1].at <= s.at
    ensures IsHistory(Continued(rows, sensor, s), log + [s])
  {
    var all, r := log + [s], Continued(rows, sensor, s);
    if log != [] {
      var n := |log| - 1;
      ChangesPrefix(log, s, n);
      assert Covers(rows[Changes(log, n)], log, n);
      forall i | 0 <= i < |all|
        ensures Changes(all, i) < |r| && Covers(r[Changes(all, i)], all, i)
      {
        if i < |log| {
          OldSampleCovered(rows, log, sensor, s, i);
        }
      }
      forall i | 0 < i < |all| && StartsRun(all, i)
        ensures Changes(all, i) > 0 && r[Changes(all, i) - 1].end == all[i].at
      {
        if i < |log| {
          ChangesPrefix(log, s, i);
          ChangesGrow(log, i, n);
          assert Changes(log, i) > 0 && rows[Changes(log, i) - 1].end == log[i].at;
        }
      }
    }
  }

  lemma OldSampleCovered<V>(rows: seq<Row<V>>, log: seq<Sample<V>>, sensor: nat, s: Sample<V>, i: nat)
    requires IsHistory(rows, log) && i < |log| && log[|log| - 1].at <= s.at
    ensures var r := Continued(rows, sensor, s);
      Changes(log + [s], i) < |r| && Covers(r[Changes(log + [s], i)], log + [s], i)
  {
    ChangesPrefix(log, s, i);
    assert Covers(rows[Changes(log, i)], log, i);
  }

  // ----- The table refines the log -----

  lemma {:induction false} RowsOfAppend<V>(table: seq<Row<V>>, row: Row<V>, sensor: nat)
    ensures RowsOf(table + [row], sensor) == RowsOf(table, sensor) + if row.sensor == sensor then [row] else []
  {
    assert (table + [row])[..|table + [row]| - 1] == table;
  }

  lemma {:induction false} RowsOfNone<V>(table: seq<Row<V>>, sensor: nat)
    requires NoneBehind(table, 0, sensor)
    ensures RowsOf(table, sensor) == []
    decreases |table|
  {
    if table != [] {
      RowsOfNone(table[..|table| - 1], sensor);
    }
  }

  /** Ending the newest row of a sensor ends the last of its rows. */
  lemma {:induction false} RowsOfExtended<V>(table: seq<Row<V>>, id: nat, now: Time, sensor: nat)
    requires 1 <= id <= |table| && NoneBehind(table, id, table[id - 1].sensor)
    ensures var rows := RowsOf(table, sensor); var n := |rows| - 1;
      if table[id - 1].sensor == sensor
      then rows != [] && rows[n] == table[id - 1]
           && RowsOf(Extended(table, id, now), sensor) == rows[n := rows[n].(end := now)]
      else RowsOf(Extended(table, id, now), sensor) == rows
    decreases |table|
  {
    var m := |table| - 1;
    var t := Extended(table, id, now);
    if id == |table| {
      assert t[..m] == table[..m];
    } else {
      assert t[..m] == Extended(table[..m], id, now);
      RowsOfExtended(table[..m], id, now, sensor);
    }
  }

  lemma AddContinues<V>(l: Ledger<V>, op: Op<V>, sensor: nat)
    requires Agree(l) && op.updateOk && op.insertOk
    ensures RowsOf(Add(l, op).table, sensor) ==
      if op.sensor == sensor then Continued(RowsOf(l.table, sensor), sensor, Sample(op.now, op.value))
      else RowsOf(l.table, sensor)
  {
    hide Agree, RowsOf;
    assert Describes(l, op.sensor) by { AgreeAt(l, op.sensor); }
    var row := Row(op.sensor, op.value, op.now, op.now);
    if IdValid(l, op.sensor) {
      RowsOfExtended(l.table, l.ids[op.sensor], op.now, sensor);
      RowsOfAppend(Extended(l.table, l.ids[op.sensor], op.now), row, sensor);
    } else {
      RowsOfNone(l.table, op.sensor);
      RowsOfAppend(l.table, row, sensor);
    }
  }

  lemma AgreeAt<V>(l: Ledger<V>, sensor: nat)
    requires Agree(l)
    ensures Describes(l, sensor)
  {}

  predicate AllSucceed<V>(ops: seq<Op<V>>)
  {
    forall i :: 0 <= i < |ops| ==> ops[i].updateOk && ops[i].insertOk
  }

  lemma {:induction false} LogPast<V>(ops: seq<Op<V>>, sensor: nat, now: Time)
    requires forall i :: 0 <= i < |ops| ==> ops[i].now <= now
    ensures forall i :: 0 <= i < |LogOf(ops, sensor)| ==> LogOf(ops, sensor)[i].at <= now
    decreases |ops|
  {
    if ops != [] {
      LogPast(ops[..|ops| - 1], sensor, now);
    }
  }

  /** With a monotone clock and successful queries each sensor's rows are the run-
      length encoding of its samples. */
  lemma {:induction false} TableIsHistory<V>(ops: seq<Op<V>>, sensor: nat)
    requires Monotone(ops) && AllSucceed(ops)
    ensures IsHistory(RowsOf(AddAll(ops).table, sensor), LogOf(ops, sensor))
    decreases |ops|
  {
    hide Add, Agree, IsHistory, Continued;
    if ops == [] {
      NothingYet<V>(sensor);
    } else {
      var init, last := ops[..|ops| - 1], ops[|ops| - 1];
      TableIsHistory(init, sensor);
      CacheAgreesWithTable(init);
      AddContinues(AddAll(init), last, sensor);
      LogPast(init, sensor, last.now);
      if last.sensor == sensor {
        HistoryContinues(RowsOf(AddAll(init).table, sensor), LogOf(init, sensor), sensor, Sample(last.now, last.value));
      } else {
        assert LogOf(ops, sensor) == LogOf(init, sensor);
      }
    }
  }

  lemma NothingYet<V>(sensor: nat)
    ensures IsHistory<V>(RowsOf([], sensor), LogOf([], sensor))
  {}

  /** The sample with which run k begins. */
  lemma {:induction false} RunStart<V>(log: seq<Sample<V>>, k: nat, j: nat) returns (i: nat)
    requires j < |log| && k <= Changes(log, j)
    ensures i <= j && Changes(log, i) == k && StartsRun(log, i)
    decreases j
  {
    if j == 0 {
      i := 0;
    } else if Changes(log, j - 1) >= k {
      i := RunStart(log, k, j - 1);
    } else {
      i := j;
    }
  }

  /** In a history, rows follow each other without a gap, and no two neighbours
      have the same value. */
  lemma HistoryIsContiguous<V>(rows: seq<Row<V>>, log: seq<Sample<V>>, k: nat)
    requires IsHistory(rows, log) && k + 1 < |rows|
    ensures rows[k].end == rows[k + 1].start && rows[k].value != rows[k + 1].value
  {
    var i := RunStart(log, k + 1, |log| - 1);
    assert Covers(rows[Changes(log, i)], log, i);
    assert i > 0;
    assert Covers(rows[Changes(log, i - 1)], log, i - 1);
    assert rows[Changes(log, i) - 1].end == log[i].at;
  }
}
