// Scheduler and sessions on a bus where nobody answers, read requests only: what
// each command costs, and that its client hears of it.

module SilentReads {
  import opened Bytes
  import opened Telegram
  import opened Collector
  import opened Bookkeeping
  import Scheduler
  import Session

  predicate ReadsOnly(orders: seq<Order>)
  {
    forall i :: 0 <= i < |orders| ==> orders[i].Read?
  }

  /** Nobody sends, and clients only read. */
  predicate Quiet(sys: System, e: Event)
  {
    match e.action
    case Command(_, orders) => ReadsOnly(orders)
    case PcMessage(_) => false
    case _ => true
  }

  predicate QuietRun(sys: System, events: seq<Event>)
  {
    events == []
    || (QuietRun(sys, events[..|events| - 1]) && Quiet(Run(sys, events[..|events| - 1]), events[|events| - 1]))
  }

  // ----- The books -----

  function RepeatsLeft(s: Session.Session): int
  {
    if s.active.Some? then s.retriesLeft - 1 else 0
  }

  /** Telegrams of a client sent, queued, and still to be repeated. */
  function Booked(sys: System, c: Client): int
    requires c < |sys.sessions|
  {
    Count(sys.sched.dispatched, c) + Count(sys.sched.pending, c) + RepeatsLeft(sys.sessions[c])
  }

  /** Timeout reports a client has had or will have. */
  function Announced(sys: System, c: Client): nat
    requires c < |sys.sessions|
  {
    TimesTold(sys.told, c, TimedOut) + (if sys.sessions[c].active.Some? then 1 else 0)
  }

  /** What the commands of a run should cost client c: a command of k telegrams
      costs k + 4. */
  function Cost(sys: System, events: seq<Event>, c: Client): nat
  {
    if events == [] then 0
    else
      var init := events[..|events| - 1];
      var k := Queued(Run(sys, init), events[|events| - 1], c);
      Cost(sys, init, c) + (if k > 0 then k + 4 else 0)
  }

  // ----- What a quiet run keeps -----

  predicate AsksAll(rs: seq<Scheduler.Request>)
  {
    forall i :: 0 <= i < |rs| ==> rs[i].msg.AsksAnswer()
  }

  predicate WaitsForReply(h: Scheduler.Handler)
  {
    match h
    case SendReady(m) => m.AsksAnswer()
    case ResponseExpired(fake) => !fake
  }

  /** Only reads are queued or under way, and a current client is one with exactly
      one telegram under way. */
  ghost predicate OneUnderWay(s: Scheduler.State)
  {
    && AsksAll(s.pending)
    && (s.responseWait.Some? ==> !s.responseWait.value.fakeAnswer)
    && (s.sendWait.Some? ==> s.sendWait.value.msg.AsksAnswer())
    && (forall i :: 0 <= i < |s.ready| ==> WaitsForReply(s.ready[i]))
    && (s.current.None? ==> s.pending == [])
    && (if s.responseWait.Some? then 1 else 0) + (if s.sendWait.Some? then 1 else 0) + |s.ready|
       == (if s.current.Some? then 1 else 0)
  }

  ghost predicate ActiveAsks(s: Session.Session)
  {
    s.active.Some? ==> s.active.value.AsksAnswer()
  }

  /** A client with an active request is current or queued. */
  ghost predicate Heard(sys: System, c: Client)
    requires c < |sys.sessions|
  {
    sys.sessions[c].active.Some? ==> sys.sched.current == Some(c) || Count(sys.sched.pending, c) > 0
  }

  ghost predicate Books(sys: System)
  {
    && SessionsValid(sys) && OneUnderWay(sys.sched)
    && (forall c :: 0 <= c < |sys.sessions| ==> ActiveAsks(sys.sessions[c]) && Heard(sys, c))
  }

  // ----- One telegram under way -----

  lemma DispatchOne(s: Scheduler.State, m: Message, now: Time)
    requires m.AsksAnswer() && s.responseWait.None? && s.sendWait.None? && s.ready == []
    ensures var t := Scheduler.Dispatch(s, m, now);
      && t.ready == []
      && (|| (t.responseWait.Some? && !t.responseWait.value.fakeAnswer && t.sendWait.None?)
          || (t.responseWait.None? && t.sendWait.Some? && t.sendWait.value.msg == m))
  {}

  lemma ContinueOne(s: Scheduler.State, now: Time)
    requires AsksAll(s.pending) && s.responseWait.None? && s.sendWait.None? && s.ready == []
    ensures OneUnderWay(Scheduler.Continue(s, now))
  {
    hide Scheduler.Dispatch;
    ContinueQueue(s, now);
    if s.pending != [] {
      DispatchOne(s.(current := Some(s.pending[0].client)), s.pending[0].msg, now);
    }
  }

  lemma {:induction false} SubmitAllOne(s: Scheduler.State, rs: seq<Scheduler.Request>, now: Time)
    requires OneUnderWay(s) && AsksAll(rs)
    ensures OneUnderWay(Scheduler.SubmitAll(s, rs, now))
    decreases |rs|
  {
    hide Scheduler.Continue;
    if rs != [] {
      var n := |rs| - 1;
      SubmitAllOne(s, rs[..n], now);
      var m := Scheduler.SubmitAll(s, rs[..n], now);
      if m.current.None? {
        ContinueOne(m.(pending := m.pending + [rs[n]], submitted := m.submitted + [rs[n]]), now);
      }
    }
  }

  lemma TimeoutOne(s: Scheduler.State, i: nat, rs: seq<Scheduler.Request>, now: Time)
    requires OneUnderWay(s) && i < |s.ready| && s.ready[i].ResponseExpired? && AsksAll(rs)
    ensures s.ready[i] == Scheduler.ResponseExpired(false)
    ensures OneUnderWay(Scheduler.RunHandler(Scheduler.TakeReady(s, i), s.ready[i], rs, now))
  {
    hide Scheduler.Continue, Scheduler.Callback;
    var t := Scheduler.TakeReady(s, i);
    CallbackIs(t, rs, now);
    ContinueOne(Scheduler.Callback(t, rs, now), now);
  }

  lemma CallbackIs(s: Scheduler.State, rs: seq<Scheduler.Request>, now: Time)
    requires s.current.Some?
    ensures Scheduler.Callback(s, rs, now) == s.(pending := s.pending + rs, submitted := s.submitted + rs)
  {
    hide Scheduler.Submit;
    Scheduler.SubmitAllWhileBusy(s, rs, now);
  }

  lemma SendOne(s: Scheduler.State, i: nat, now: Time)
    requires OneUnderWay(s) && i < |s.ready| && s.ready[i].SendReady?
    ensures OneUnderWay(Scheduler.RunHandler(Scheduler.TakeReady(s, i), s.ready[i], [], now))
  {}

  lemma TimersOne(s: Scheduler.State, e: Scheduler.Event)
    requires OneUnderWay(s) && (e.action.ResponseTimer? || e.action.SendTimer?)
    ensures OneUnderWay(Scheduler.Step(s, e))
  {}

  // ----- Commands -----

  lemma ReadOrder(s: Session.Session, o: Order)
    requires o.Read? && ActiveAsks(s)
    ensures var ms := Telegrams(s, o);
      && ActiveAsks(Obey(s, o)) && |ms| <= 1
      && (forall i :: 0 <= i < |ms| ==> ms[i].AsksAnswer())
      && (if ms == [] then Obey(s, o).active == s.active && Obey(s, o).retriesLeft == s.retriesLeft
          else Obey(s, o).active.Some? && Obey(s, o).retriesLeft == Session.MAX_REQUEST_RETRIES)
  {}

  /** A command of read orders leaves the session active with all its retries, or,
      if it needs no telegram, as it was. */
  lemma {:induction false} ReadOrders(s: Session.Session, orders: seq<Order>)
    requires ReadsOnly(orders) && ActiveAsks(s)
    ensures var ms := AllTelegrams(s, orders);
      && ActiveAsks(ObeyAll(s, orders))
      && (forall i :: 0 <= i < |ms| ==> ms[i].AsksAnswer())
      && (if ms == [] then ObeyAll(s, orders).active == s.active && ObeyAll(s, orders).retriesLeft == s.retriesLeft
          else ObeyAll(s, orders).active.Some? && ObeyAll(s, orders).retriesLeft == Session.MAX_REQUEST_RETRIES)
    decreases |orders|
  {
    hide Obey, Telegrams;
    if orders != [] {
      var n := |orders| - 1;
      ReadOrders(s, orders[..n]);
      ReadOrder(ObeyAll(s, orders[..n]), orders[n]);
    }
  }

  lemma CommandBooks(sys: System, e: Event)
    requires Books(sys) && e.action.Command? && ReadsOnly(e.action.orders)
    ensures Books(Step(sys, e))
  {
    hide Scheduler.SubmitAll, Count, AllTelegrams, ObeyAll, OneUnderWay, Session.Valid;
    var d := e.action.client;
    if Accepts(sys, d) {
      var s := sys.sessions[d];
      var rs := From(d, AllTelegrams(s, e.action.orders));
      var t := Step(sys, e);
      ObeyAllValid(s, e.action.orders);
      ReadOrders(s, e.action.orders);
      SubmitAllOne(sys.sched, rs, e.now);
      OneMeansQueued(sys.sched);
      SubmitAllQueue(sys.sched, rs, e.now);
      forall c | 0 <= c < |t.sessions|
        ensures Heard(t, c)
      {
        CommandHeard(sys, rs, d, t.sched, c);
      }
    }
  }

  lemma OneMeansQueued(s: Scheduler.State)
    requires OneUnderWay(s)
    ensures s.current.None? ==> s.pending == []
  {}

  lemma CommandHeard(sys: System, rs: seq<Scheduler.Request>, d: Client, t: Scheduler.State, c: Client)
    requires forall i :: 0 <= i < |rs| ==> rs[i].client == d
    requires sys.sched.current.None? ==> sys.sched.pending == []
    requires t.current == if sys.sched.current.None? && rs != [] then Some(rs[0].client) else sys.sched.current
    requires t.pending == sys.sched.pending + (if sys.sched.current.None? && rs != [] then rs[1..] else rs)
    ensures Count(t.pending, c) >= Count(sys.sched.pending, c)
    ensures sys.sched.current == Some(c) ==> t.current == Some(c)
    ensures c == d && rs != [] ==> t.current == Some(c) || Count(t.pending, c) > 0
  {
    hide Count;
    var added := if sys.sched.current.None? && rs != [] then rs[1..] else rs;
    CountConcat(sys.sched.pending, added, c);
    if c == d && rs != [] && sys.sched.current.Some? {
      CountPositive(rs, 0);
    }
  }

  lemma CommandBooked(sys: System, e: Event, c: Client)
    requires Books(sys) && e.action.Command? && ReadsOnly(e.action.orders) && c < |sys.sessions|
    ensures |Step(sys, e).sessions| == |sys.sessions|
    ensures var k := Queued(sys, e, c);
      && Booked(Step(sys, e), c) == Booked(sys, c) + (if k > 0 then k + 4 else 0)
      && Announced(Step(sys, e), c) == Announced(sys, c) + (if k > 0 then 1 else 0)
  {
    hide Scheduler.SubmitAll, Count, AllTelegrams, ObeyAll, OneUnderWay, Session.Valid;
    var d := e.action.client;
    if Accepts(sys, d) {
      var s := sys.sessions[d];
      var ms := AllTelegrams(s, e.action.orders);
      ReadOrders(s, e.action.orders);
      SubmitAllBooks(sys.sched, From(d, ms), e.now, c);
      CountFrom(d, ms, c);
    }
  }

  // ----- Timeouts -----

  lemma TimeoutSession(s: Session.Session)
    requires Session.Valid(s) && ActiveAsks(s)
    ensures var o := Session.OnTimeout(s);
      && Session.Valid(o.session) && ActiveAsks(o.session) && |o.sends| <= 1
      && (forall i :: 0 <= i < |o.sends| ==> o.sends[i].AsksAnswer())
      && |o.sends| + RepeatsLeft(o.session) == RepeatsLeft(s)
      && (o.session.active.Some? <==> o.sends != [])
      && (o.result.Failure? <==> s.active.Some? && o.session.active.None?)
  {}

  lemma TimeoutBooks(sys: System, i: nat, now: Time)
    requires Books(sys) && i < |sys.sched.ready| && sys.sched.ready[i].ResponseExpired?
    ensures Books(Step(sys, Event(now, Completion(i))))
  {
    hide Scheduler.RunHandler, Count, OneUnderWay, Session.OnTimeout, Session.OnIncomingMessage;
    var t := Scheduler.TakeReady(sys.sched, i);
    var rs := Answers(sys, Session.Timeout);
    OneIsTimeout(sys.sched, i);
    if HasCurrent(sys) {
      TimeoutSession(Current(sys));
    }
    TimeoutOne(sys.sched, i, rs, now);
    TimeoutQueue(t, rs, now);
    var u := Step(sys, Event(now, Completion(i)));
    forall c | 0 <= c < |u.sessions|
      ensures Heard(u, c)
    {
      TimeoutHeard(sys, rs, u.sched, c);
      if HasCurrent(sys) && c == sys.sched.current.value && u.sessions[c].active.Some? {
        assert rs[0].client == c;
      } else {
        assert Heard(sys, c);
      }
    }
  }

  lemma OneIsTimeout(s: Scheduler.State, i: nat)
    requires OneUnderWay(s) && i < |s.ready| && s.ready[i].ResponseExpired?
    ensures s.ready[i] == Scheduler.ResponseExpired(false) && s.current.Some?
  {}

  /** Whoever was queued still is, or has become current. */
  lemma TimeoutHeard(sys: System, rs: seq<Scheduler.Request>, t: Scheduler.State, c: Client)
    requires sys.sched.current.Some?
    requires var q := sys.sched.pending + rs;
      && t.current == (if q == [] then None else Some(q[0].client))
      && t.pending == (if q == [] then [] else q[1..])
    ensures Count(sys.sched.pending, c) > 0 ==> t.current == Some(c) || Count(t.pending, c) > 0
    ensures (exists k :: 0 <= k < |rs| && rs[k].client == c) ==> t.current == Some(c) || Count(t.pending, c) > 0
  {
    hide Count;
    var q := sys.sched.pending + rs;
    CountConcat(sys.sched.pending, rs, c);
    if exists k :: 0 <= k < |rs| && rs[k].client == c {
      var k :| 0 <= k < |rs| && rs[k].client == c;
      CountPositive(rs, k);
    }
    if q != [] {
      assert q == [q[0]] + q[1..];
      CountConcat([q[0]], q[1..], c);
      CountOne(q[0], c);
    } else {
      EmptyCount(c);
    }
  }

  lemma TimeoutBooked(sys: System, i: nat, now: Time, c: Client)
    requires Books(sys) && i < |sys.sched.ready| && sys.sched.ready[i].ResponseExpired? && c < |sys.sessions|
    ensures var u := Step(sys, Event(now, Completion(i)));
      |u.sessions| == |sys.sessions| && Booked(u, c) == Booked(sys, c) && Announced(u, c) == Announced(sys, c)
  {
    hide Scheduler.Continue, Scheduler.Callback, Count, TimesTold, OneUnderWay, Session.OnTimeout, Session.OnIncomingMessage;
    var t := Scheduler.TakeReady(sys.sched, i);
    var rs := Answers(sys, Session.Timeout);
    OneIsTimeout(sys.sched, i);
    CallbackIs(t, rs, now);
    ContinueBooks(Scheduler.Callback(t, rs, now), now, c);
    CountConcat(t.pending, rs, c);
    if HasCurrent(sys) {
      var d := sys.sched.current.value;
      var o := React(sys, Session.Timeout);
      TimeoutSession(Current(sys));
      CountFrom(d, o.sends, c);
      TimesToldSnoc(sys.told, Told(d, TimedOut), c, TimedOut);
    } else {
      EmptyCount(c);
    }
  }

  // ----- Whole runs -----

  lemma OtherStepsBooks(sys: System, e: Event)
    requires Books(sys)
    requires || e.action.ResponseTimer? || e.action.SendTimer?
             || (e.action.Completion? && (e.action.index >= |sys.sched.ready| || sys.sched.ready[e.action.index].SendReady?))
    ensures Books(Step(sys, e))
    ensures |Step(sys, e).sessions| == |sys.sessions|
    ensures forall c :: 0 <= c < |sys.sessions| ==>
      Booked(Step(sys, e), c) == Booked(sys, c) && Announced(Step(sys, e), c) == Announced(sys, c)
  {
    hide Count, TimesTold, Session.Valid;
    match e.action
    case ResponseTimer => TimersOne(sys.sched, Scheduler.Event(e.now, Scheduler.ResponseTimer));
    case SendTimer => TimersOne(sys.sched, Scheduler.Event(e.now, Scheduler.SendTimer));
    case Completion(i) =>
      if i < |sys.sched.ready| {
        SendOne(sys.sched, i, e.now);
      }
    case _ =>
  }

  lemma StepBooks(sys: System, e: Event, c: Client)
    requires Books(sys) && Quiet(sys, e) && c < |sys.sessions|
    ensures Books(Step(sys, e)) && |Step(sys, e).sessions| == |sys.sessions|
    ensures var k := Queued(sys, e, c);
      && Booked(Step(sys, e), c) == Booked(sys, c) + (if k > 0 then k + 4 else 0)
      && Announced(Step(sys, e), c) == Announced(sys, c) + (if k > 0 then 1 else 0)
  {
    hide Step, Books, Booked, Announced, AllTelegrams;
    if e.action.Command? {
      CommandBooks(sys, e);
      CommandBooked(sys, e, c);
    } else if e.action.Completion? && e.action.index < |sys.sched.ready|
              && sys.sched.ready[e.action.index].ResponseExpired? {
      TimeoutBooks(sys, e.action.index, e.now);
      TimeoutBooked(sys, e.action.index, e.now, c);
    } else {
      OtherStepsBooks(sys, e);
    }
  }

  lemma {:induction false} RunBooks(sys: System, events: seq<Event>, c: Client)
    requires Books(sys) && QuietRun(sys, events) && c < |sys.sessions|
    ensures Books(Run(sys, events)) && |Run(sys, events).sessions| == |sys.sessions|
    ensures Booked(Run(sys, events), c) == Booked(sys, c) + Cost(sys, events, c)
    ensures Announced(Run(sys, events), c) == Announced(sys, c) + Commands(sys, events, c)
    decreases |events|
  {
    hide Step, Books, Booked, Announced, Quiet, Queued;
    if events != [] {
      var init := events[..|events| - 1];
      RunBooks(sys, init, c);
      StepBooks(Run(sys, init), events[|events| - 1], c);
    }
  }

  lemma RestedBooks(sys: System)
    requires AtRest(sys) && NobodyWaits(sys)
    ensures Books(sys)
  {}

  lemma AtRestNobodyWaits(sys: System)
    requires Books(sys) && sys.sched.current.None?
    ensures NobodyWaits(sys)
  {
    forall c | 0 <= c < |sys.sessions|
      ensures sys.sessions[c].active.None?
    {
      EmptyCount(c);
      assert Heard(sys, c);
    }
  }

  /** On a silent bus, with read commands only, from rest to rest: each command of
      k telegrams costs its client exactly k + 4, and each one is reported as timed
      out exactly once. */
  lemma {:induction false} ReadsCost(sys: System, events: seq<Event>, c: Client)
    requires AtRest(sys) && NobodyWaits(sys) && c < |sys.sessions|
    ensures var t := Run(sys, events);
      QuietRun(sys, events) && t.sched.current.None? ==>
        && Count(t.sched.dispatched, c) == Count(sys.sched.dispatched, c) + Cost(sys, events, c)
        && TimesTold(t.told, c, TimedOut) == TimesTold(sys.told, c, TimedOut) + Commands(sys, events, c)
        && NobodyWaits(t)
  {
    hide Run, Books, OneUnderWay, QuietRun, Cost, Commands;
    var t := Run(sys, events);
    if QuietRun(sys, events) && t.sched.current.None? {
      RestedBooks(sys);
      RunBooks(sys, events, c);
      AtRestNobodyWaits(t);
      RestQueue(t);
      EmptyCount(c);
    }
  }

  lemma RestQueue(sys: System)
    requires Books(sys) && sys.sched.current.None?
    ensures sys.sched.pending == []
  {}

  // ----- On the wire -----

  /** And that is what goes out: at rest the wire has carried each telegram that was
      dispatched once, so k + 4 of client c for each of its commands, and nothing
      else. */
  lemma {:induction false} ReadsOnWire(sys: System, events: seq<Event>, c: Client)
    requires AtRest(sys) && NobodyWaits(sys) && c < |sys.sessions| && Scheduler.ExactlyOnce(sys.sched)
    ensures var s, t := sys.sched, Run(sys, events).sched;
      var before, after := Scheduler.Messages(OfClient(s.dispatched, c)), Scheduler.Messages(OfClient(t.dispatched, c));
      QuietRun(sys, events) && t.current.None? ==>
        && multiset(Scheduler.OnWire(s.wire)) == multiset(Scheduler.Messages(s.dispatched))
        && multiset(Scheduler.OnWire(t.wire)) == multiset(Scheduler.Messages(t.dispatched))
        && multiset(before) <= multiset(Scheduler.OnWire(s.wire)) && multiset(after) <= multiset(Scheduler.OnWire(t.wire))
        && |after| == |before| + Cost(sys, events, c)
  {
    hide Run, Books, QuietRun, Cost, Commands, NobodyWaits, Scheduler.OnWire, Scheduler.Sending;
    var t := Run(sys, events);
    if QuietRun(sys, events) && t.sched.current.None? {
      RestedBooks(sys);
      RunBooks(sys, events, c);
      BooksAtRest(t);
      ReadsCost(sys, events, c);
      AllSentAtRest(sys, events);
      NothingInLine(sys.sched);
      NothingInLine(t.sched);
      OfClientCount(sys.sched.dispatched, c);
      OfClientCount(t.sched.dispatched, c);
    }
  }

  lemma BooksAtRest(sys: System)
    requires Books(sys) && sys.sched.current.None?
    ensures AtRest(sys)
  {}
}
