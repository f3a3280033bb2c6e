// Scheduler and sessions on a bus where nobody answers, writes only: what goes out,
// and what clients are told, when the scheduler makes up the answers.

module SilentWrites {
  import opened Bytes
  import opened Telegram
  import opened Collector
  import opened Bookkeeping
  import opened Clients
  import opened Verdicts
  import opened Stranding
  import Scheduler
  import Session

  predicate WritesOnly(orders: seq<Order>)
  {
    forall i :: 0 <= i < |orders| ==> orders[i].Write?
  }

  /** Nobody sends, and clients only write. */
  predicate Quiet(e: Event)
  {
    match e.action
    case Command(_, orders) => WritesOnly(orders)
    case PcMessage(_) => false
    case _ => true
  }

  predicate QuietRun(events: seq<Event>)
  {
    forall i :: 0 <= i < |events| ==> Quiet(events[i])
  }

  /** The write telegrams of the commands of client c that were accepted. */
  function Written(sys: System, events: seq<Event>, c: Client): nat
  {
    if events == [] then 0
    else
      var init, last := events[..|events| - 1], events[|events| - 1];
      Written(sys, init, c)
      + (if last.action.Command? && last.action.client == c && Accepts(Run(sys, init), c) then |last.action.orders| else 0)
  }

  // ----- Only writes are under way -----

  predicate AllWrites(rs: seq<Scheduler.Request>)
  {
    forall i :: 0 <= i < |rs| ==> rs[i].msg.dest < 0x80
  }

  predicate WaitsForNobody(h: Scheduler.Handler)
  {
    match h
    case SendReady(m) => m.dest < 0x80
    case ResponseExpired(fake) => fake
  }

  predicate OnlyWrites(s: Scheduler.State)
  {
    && AllWrites(s.pending)
    && (s.responseWait.Some? ==> s.responseWait.value.fakeAnswer)
    && (s.sendWait.Some? ==> s.sendWait.value.msg.dest < 0x80)
    && (forall i :: 0 <= i < |s.ready| ==> WaitsForNobody(s.ready[i]))
  }

  lemma ContinueWrites(s: Scheduler.State, now: Time)
    requires OnlyWrites(s)
    ensures OnlyWrites(Scheduler.Continue(s, now))
  {}

  lemma {:induction false} SubmitAllWrites(s: Scheduler.State, rs: seq<Scheduler.Request>, now: Time)
    requires OnlyWrites(s) && AllWrites(rs)
    ensures OnlyWrites(Scheduler.SubmitAll(s, rs, now))
    decreases |rs|
  {
    hide Scheduler.Continue;
    if rs != [] {
      var n := |rs| - 1;
      SubmitAllWrites(s, rs[..n], now);
      var m := Scheduler.SubmitAll(s, rs[..n], now);
      ContinueWrites(m.(pending := m.pending + [rs[n]], submitted := m.submitted + [rs[n]]), now);
    }
  }

  lemma {:induction false} WriteTelegrams(s: Session.Session, orders: seq<Order>)
    requires WritesOnly(orders)
    ensures |AllTelegrams(s, orders)| == |orders|
    ensures forall i :: 0 <= i < |AllTelegrams(s, orders)| ==> AllTelegrams(s, orders)[i].dest < 0x80
    decreases |orders|
  {
    if orders != [] {
      WriteTelegrams(s, orders[..|orders| - 1]);
    }
  }

  lemma HeardWrites(s: Scheduler.State, m: Message, now: Time)
    requires OnlyWrites(s)
    ensures OnlyWrites(Scheduler.HandlePcMessage(s, m, [], now))
  {
    hide Scheduler.Continue;
    var s1 := s.(lastComm := s.lastComm[m.source := now], responseWait := None);
    NoCallback(s1, now);
    ContinueWrites(s1, now);
  }

  lemma NoCallback(s: Scheduler.State, now: Time)
    ensures Scheduler.Callback(s, [], now) == s
  {}

  lemma ExpiryWrites(s: Scheduler.State, now: Time)
    requires OnlyWrites(s)
    ensures OnlyWrites(Scheduler.RunHandler(s, Scheduler.ResponseExpired(true), [], now))
  {
    hide Scheduler.Continue, Scheduler.HandlePcMessage, OnlyWrites;
    HeardWrites(s, Scheduler.FAKE_ANSWER, now);
    ContinueWrites(if s.current.Some? then Scheduler.HandlePcMessage(s, Scheduler.FAKE_ANSWER, [], now) else s, now);
  }

  lemma TakeReadyWrites(s: Scheduler.State, i: nat)
    requires OnlyWrites(s) && i < |s.ready|
    ensures OnlyWrites(Scheduler.TakeReady(s, i)) && WaitsForNobody(s.ready[i])
  {}

  lemma SendWrites(s: Scheduler.State, m: Message, now: Time)
    requires OnlyWrites(s) && m.dest < 0x80
    ensures OnlyWrites(Scheduler.DoSend(s, m, now))
  {}

  lemma TimerWrites(s: Scheduler.State, e: Scheduler.Event)
    requires OnlyWrites(s) && (e.action.ResponseTimer? || e.action.SendTimer?)
    ensures OnlyWrites(Scheduler.Step(s, e))
  {}

  lemma StepWrites(sys: System, e: Event)
    requires OnlyWrites(sys.sched) && Quiet(e)
    ensures OnlyWrites(Step(sys, e).sched)
    ensures Seen(sys, e).Some? ==> Seen(sys, e).value == News(true)
  {
    hide OnlyWrites, Scheduler.SubmitAll, Scheduler.RunHandler, Scheduler.Step, Scheduler.TakeReady, Answers, Reacted,
         AllTelegrams, ObeyAll;
    match e.action
    case Command(c, orders) =>
      if Accepts(sys, c) {
        WriteTelegrams(sys.sessions[c], orders);
        SubmitAllWrites(sys.sched, From(c, AllTelegrams(sys.sessions[c], orders)), e.now);
      }
    case ResponseTimer => TimerWrites(sys.sched, Scheduler.Event(e.now, Scheduler.ResponseTimer));
    case SendTimer => TimerWrites(sys.sched, Scheduler.Event(e.now, Scheduler.SendTimer));
    case Completion(i) =>
      if i < |sys.sched.ready| {
        var t := Scheduler.TakeReady(sys.sched, i);
        TakeReadyWrites(sys.sched, i);
        match sys.sched.ready[i]
        case SendReady(m) =>
          RunSend(t, m, e.now);
          SendWrites(t, m, e.now);
        case ResponseExpired(fake) =>
          SettledByFake(sys, 0);
          ExpiryWrites(t, e.now);
      }
  }

  // ----- What is sent and told -----

  lemma StepWritten(sys: System, e: Event, c: Client)
    requires OnlyWrites(sys.sched) && Quiet(e) && c < |sys.sessions|
    ensures InBooks(Step(sys, e).sched, c) == InBooks(sys.sched, c)
      + if e.action.Command? && e.action.client == c && Accepts(sys, c) then |e.action.orders| else 0
    ensures TimesTold(Step(sys, e).told, c, Failed) == TimesTold(sys.told, c, Failed)
    ensures TimesTold(Step(sys, e).told, c, TimedOut) == TimesTold(sys.told, c, TimedOut)
  {
    hide Step, OnlyWrites, InBooks, AllTelegrams, TimesTold, Session.HandleResponse, Session.HandleRaw;
    StepWrites(sys, e);
    StepBooked(sys, e, c);
    RequestsOf(sys, e, c);
    ToldStep(sys, e);
    FakeAnswerIs();
    if e.action.Command? && Accepts(sys, c) {
      WriteTelegrams(sys.sessions[c], e.action.orders);
    }
    if sys.sched.current.Some? {
      TimesToldSnoc(sys.told, Told(sys.sched.current.value, Ok), c, Failed);
      TimesToldSnoc(sys.told, Told(sys.sched.current.value, Ok), c, TimedOut);
    }
  }

  lemma {:induction false} RunWritten(sys: System, events: seq<Event>, c: Client)
    requires OnlyWrites(sys.sched) && QuietRun(events) && c < |sys.sessions|
    ensures var t := Run(sys, events);
      && OnlyWrites(t.sched) && |t.sessions| == |sys.sessions|
      && InBooks(t.sched, c) == InBooks(sys.sched, c) + Written(sys, events, c)
      && TimesTold(t.told, c, Failed) == TimesTold(sys.told, c, Failed)
      && TimesTold(t.told, c, TimedOut) == TimesTold(sys.told, c, TimedOut)
    decreases |events|
  {
    hide Step, OnlyWrites, InBooks, TimesTold, Quiet;
    if events != [] {
      var init, last := events[..|events| - 1], events[|events| - 1];
      RunWritten(sys, init, c);
      StepWrites(Run(sys, init), last);
      StepWritten(Run(sys, init), last, c);
      SessionStep(Run(sys, init), last, c);
    }
  }

  lemma RestedOnlyWrites(sys: System)
    requires AtRest(sys)
    ensures OnlyWrites(sys.sched) && Scheduler.Live(sys.sched)
  {}

  lemma QuietIsProper(events: seq<Event>)
    requires QuietRun(events)
    ensures ProperRun(events)
  {}

  /** On a silent bus, with write commands only, from rest to rest: each command of k
      writes has put exactly k telegrams on the wire. No client is told FAIL or
      ERRTIMEOUT; each is told OK once for each of its commands, but for the one a
      client still waits on that was left behind. */
  lemma {:induction false} WritesCost(sys: System, events: seq<Event>, c: Client)
    requires AtRest(sys) && Scheduler.ExactlyOnce(sys.sched) && SessionsValid(sys)
    requires c < |sys.sessions| && sys.sessions[c].active.None? && Proper(sys.sessions[c])
    ensures var t := Run(sys, events);
      QuietRun(events) && AtRest(t) ==>
        && multiset(Scheduler.OnWire(t.sched.wire)) == multiset(Scheduler.Messages(t.sched.dispatched))
        && Count(t.sched.dispatched, c) == Count(sys.sched.dispatched, c) + Written(sys, events, c)
        && TimesTold(t.told, c, Failed) == TimesTold(sys.told, c, Failed)
        && TimesTold(t.told, c, TimedOut) == TimesTold(sys.told, c, TimedOut)
        && c < |t.sessions|
        && TimesTold(t.told, c, Ok) + Busy(t.sessions[c]) == TimesTold(sys.told, c, Ok) + Commands(sys, events, c)
        && (t.sessions[c].active.Some? <==>
              exists k :: 0 <= k < |events| && LeavesBehind(Run(sys, events[..k]), events[k], c))
  {
    hide Run, Written, Commands, TimesTold, Count, LeavesBehind, Scheduler.ExactlyOnce, SessionsValid, Scheduler.Live,
         OnlyWrites, Proper, Scheduler.OnWire, Scheduler.Messages, Scheduler.Sending;
    var t := Run(sys, events);
    if QuietRun(events) && AtRest(t) {
      RestedOnlyWrites(sys);
      RunWritten(sys, events, c);
      QuietIsProper(events);
      OneVerdictEach(sys, events, c);
      AllSentAtRest(sys, events);
      NothingInLine(t.sched);
      RestedBooks(sys, c);
      RestedBooks(t, c);
      StrandedExactly(sys, events, c);
    }
  }

  lemma RestedBooks(sys: System, c: Client)
    requires AtRest(sys)
    ensures InBooks(sys.sched, c) == Count(sys.sched.dispatched, c)
    ensures c < |sys.sessions| ==> (Stranded(sys, c) <==> sys.sessions[c].active.Some?)
    ensures Scheduler.ExactlyOnce(sys.sched) ==> sys.sched.dispatched == sys.sched.submitted
  {
    EmptyCount(c);
    assert sys.sched.dispatched + [] == sys.sched.dispatched;
  }

  // ----- One client on its own -----

  predicate OnlyFrom(events: seq<Event>, c: Client)
  {
    forall i :: 0 <= i < |events| && events[i].action.Command? ==> events[i].action.client == c
  }

  predicate Alone(s: Scheduler.State, c: Client)
  {
    s.current in {None, Some(c)} && forall i :: 0 <= i < |s.pending| ==> s.pending[i].client == c
  }

  lemma CommandAlone(sys: System, orders: seq<Order>, now: Time, c: Client)
    requires Alone(sys.sched, c) && Scheduler.Live(sys.sched)
    ensures Alone(Step(sys, Event(now, Command(c, orders))).sched, c)
  {
    hide Scheduler.SubmitAll, AllTelegrams, ObeyAll, Scheduler.Outstanding;
    if Accepts(sys, c) {
      SubmitAllQueue(sys.sched, From(c, AllTelegrams(sys.sessions[c], orders)), now);
    }
  }

  lemma ExpiryAlone(s: Scheduler.State, now: Time, c: Client)
    requires Alone(s, c)
    ensures Alone(Scheduler.RunHandler(s, Scheduler.ResponseExpired(true), [], now), c)
  {
    hide Scheduler.RunHandler;
    if s.current.Some? {
      FakeQueue(s, [], now);
    } else {
      FakeWithoutClient(s, [], now);
      ContinueQueue(s, now);
    }
  }

  lemma CompletionAlone(sys: System, i: nat, now: Time, c: Client)
    requires Alone(sys.sched, c) && OnlyWrites(sys.sched) && i < |sys.sched.ready|
    ensures Alone(Step(sys, Event(now, Completion(i))).sched, c)
  {
    hide Alone, OnlyWrites, Scheduler.RunHandler, Scheduler.TakeReady, Answers, Reacted;
    var t := Scheduler.TakeReady(sys.sched, i);
    TakeReadyWrites(sys.sched, i);
    SameQueue(sys.sched, i);
    AloneQueue(sys.sched, t, c);
    match sys.sched.ready[i]
    case SendReady(m) =>
      RunSend(t, m, now);
      AloneQueue(t, Scheduler.DoSend(t, m, now), c);
    case ResponseExpired(fake) =>
      SettledByFake(sys, 0);
      ExpiryAlone(t, now, c);
  }

  lemma SameQueue(s: Scheduler.State, i: nat)
    requires i < |s.ready|
    ensures Scheduler.TakeReady(s, i).current == s.current && Scheduler.TakeReady(s, i).pending == s.pending
  {}

  lemma AloneQueue(s: Scheduler.State, t: Scheduler.State, c: Client)
    requires Alone(s, c) && t.current == s.current && t.pending == s.pending
    ensures Alone(t, c)
  {}

  lemma TimersAlone(sys: System, e: Event, c: Client)
    requires Alone(sys.sched, c)
    requires || e.action.ResponseTimer? || e.action.SendTimer?
             || (e.action.Completion? && e.action.index >= |sys.sched.ready|)
    ensures Alone(Step(sys, e).sched, c)
  {}

  lemma AloneStep(sys: System, e: Event, c: Client)
    requires Alone(sys.sched, c) && Inv(sys) && Quiet(e) && OnlyWrites(sys.sched)
    requires e.action.Command? ==> e.action.client == c
    ensures Alone(Step(sys, e).sched, c)
  {
    hide Alone, OnlyWrites, SessionsValid, Scheduler.Live, Step;
    match e.action
    case Command(d, orders) => CommandAlone(sys, orders, e.now, c);
    case ResponseTimer => TimersAlone(sys, e, c);
    case SendTimer => TimersAlone(sys, e, c);
    case Completion(i) =>
      if i < |sys.sched.ready| {
        CompletionAlone(sys, i, e.now, c);
      } else {
        TimersAlone(sys, e, c);
      }
  }

  predicate NeverBehind(sys: System, events: seq<Event>, c: Client)
  {
    forall k :: 0 <= k < |events| ==> !LeavesBehind(Run(sys, events[..k]), events[k], c)
  }

  lemma NeverBehindSnoc(sys: System, events: seq<Event>, c: Client)
    ensures events == [] ==> NeverBehind(sys, events, c)
    ensures events != [] ==>
      var init, last := events[..|events| - 1], events[|events| - 1];
      NeverBehind(sys, events, c) <==> NeverBehind(sys, init, c) && !LeavesBehind(Run(sys, init), last, c)
  {
    hide LeavesBehind, Run;
    if events != [] {
      var init := events[..|events| - 1];
      assert forall k :: 0 <= k < |init| ==> init[..k] == events[..k] && init[k] == events[k];
    }
  }

  lemma {:induction false} AloneRun(sys: System, events: seq<Event>, c: Client)
    requires AtRest(sys) && Inv(sys) && QuietRun(events) && OnlyFrom(events, c) && c < |sys.sessions|
    ensures Alone(Run(sys, events).sched, c) && NeverBehind(sys, events, c)
    decreases |events|
  {
    hide Step, Alone, Inv, Quiet, OnlyWrites, LeavesBehind, NeverBehind;
    NeverBehindSnoc(sys, events, c);
    if events == [] {
      RestedAlone(sys, c);
    } else {
      var n := |events| - 1;
      var init, last := events[..n], events[n];
      AloneRun(sys, init, c);
      RunInv(sys, init);
      RestedOnlyWrites(sys);
      RunWritten(sys, init, c);
      AloneStep(Run(sys, init), last, c);
      AloneIsServed(Run(sys, init), last, c);
    }
  }

  lemma RestedAlone(sys: System, c: Client)
    requires AtRest(sys)
    ensures Alone(sys.sched, c)
  {}

  lemma AloneIsServed(sys: System, e: Event, c: Client)
    requires Alone(sys.sched, c) && Quiet(e)
    ensures !LeavesBehind(sys, e, c)
  {}

  /** A client on its own is never left behind: from rest to rest it is idle again, and
      has been told OK exactly once for each command. */
  lemma {:induction false} WriterAlone(sys: System, events: seq<Event>, c: Client)
    requires AtRest(sys) && Scheduler.ExactlyOnce(sys.sched) && SessionsValid(sys)
    requires c < |sys.sessions| && sys.sessions[c].active.None? && Proper(sys.sessions[c])
    ensures var t := Run(sys, events);
      QuietRun(events) && OnlyFrom(events, c) && AtRest(t) ==>
        && c < |t.sessions| && t.sessions[c].active.None?
        && TimesTold(t.told, c, Ok) == TimesTold(sys.told, c, Ok) + Commands(sys, events, c)
  {
    hide Run, Commands, TimesTold, Count, LeavesBehind, Scheduler.ExactlyOnce, SessionsValid, Scheduler.Live, Proper,
         Scheduler.OnWire, Scheduler.Messages, OnlyFrom, QuietRun, Written;
    if QuietRun(events) && OnlyFrom(events, c) && AtRest(Run(sys, events)) {
      RestedOnlyWrites(sys);
      WritesCost(sys, events, c);
      AloneRun(sys, events, c);
    }
  }

  // ----- How long it takes -----

  lemma OneOrder(s: Session.Session, o: Order)
    ensures ObeyAll(s, [o]) == Obey(s, o) && AllTelegrams(s, [o]) == Telegrams(s, o)
  {
    assert [o][..0] == [];
    assert ObeyAll(s, []) == s && AllTelegrams(s, []) == [];
  }

  /** The device has had its rest. */
  predicate Rested(s: Scheduler.State, dest: Byte, now: Time)
  {
    dest in s.lastComm ==> now - s.lastComm[dest] >= 101_000
  }

  lemma SentFromRest(s: Scheduler.State, c: Client, m: Message, now: Time)
    requires s.current.None? && s.pending == [] && s.responseWait.None? && s.sendWait.None? && s.ready == []
    requires Rested(s, m.dest, now)
    ensures var t := Scheduler.SubmitAll(s, From(c, [m]), now);
      && t.wire == s.wire + [Scheduler.Sent(now, m)] && t.current == Some(c) && t.pending == []
      && t.responseWait == Some(Scheduler.ResponseWait(m.dest < 0x80, now + if m.dest < 0x80 then 200_000 else 1_000_000))
      && t.sendWait.None? && t.ready == [] && t.lastComm == s.lastComm[m.dest := now]
  {
    var r := Scheduler.Request(c, m);
    assert From(c, [m]) == [r] && [r][..0] == [];
    assert Scheduler.SubmitAll(s, [], now) == s;
  }

  lemma FakeEnds(s: Scheduler.State, now: Time)
    requires s.current.Some? && s.pending == [] && s.sendWait.None? && s.ready == []
    ensures var t := Scheduler.RunHandler(s, Scheduler.ResponseExpired(true), [], now);
      && t.current.None? && t.pending == [] && t.responseWait.None? && t.sendWait.None? && t.ready == []
      && t.wire == s.wire
  {
    NoCallback(s.(lastComm := s.lastComm[Scheduler.FAKE_ANSWER.source := now], responseWait := None), now);
  }

  /** A single write to a rested device: it is on the wire at once, as a write. For
      200 ms nothing comes of it; then its client is told OK and everything is at
      rest. */
  lemma WriteTakes200ms(sys: System, c: Client, dest: Byte, typ: Word, at: Byte, data: seq<Byte>, t0: Time, t1: Time, t2: Time)
    requires AtRest(sys) && Accepts(sys, c) && Rested(sys.sched, dest % 0x80, t0)
    ensures var sent := Step(sys, Event(t0, Command(c, [Write(dest, typ, at, data)])));
      && sent.sched.wire == sys.sched.wire + [Scheduler.Sent(t0, Build(dest, typ, at, data, false))]
      && (if t1 < t0 + 200_000 then Step(sent, Event(t1, ResponseTimer)) == sent
          else
            var done := Step(Step(sent, Event(t1, ResponseTimer)), Event(t2, Completion(0)));
            && AtRest(done) && done.sched.wire == sent.sched.wire && done.told == sys.told + [Told(c, Ok)]
            && c < |done.sessions| && done.sessions[c].active.None?)
  {
    hide Scheduler.SubmitAll, Scheduler.RunHandler, ObeyAll, AllTelegrams, Session.HandleResponse, Session.HandleRaw;
    var o := Write(dest, typ, at, data);
    var m := Build(dest, typ, at, data, false);
    OneOrder(sys.sessions[c], o);
    SentFromRest(sys.sched, c, m, t0);
    var sent := Step(sys, Event(t0, Command(c, [o])));
    if t1 >= t0 + 200_000 {
      var mid := Step(sent, Event(t1, ResponseTimer));
      var e := Event(t2, Completion(0));
      assert mid.sched.ready == [Scheduler.ResponseExpired(true)];
      AcknowledgedOnce(mid, e, c);
      SettledByFake(mid, c);
      FakeEnds(Scheduler.TakeReady(mid.sched, 0), t2);
    }
  }

  /** A single read that nobody answers: for a second nothing comes of it; then it is
      repeated. */
  lemma ReadTakesASecond(sys: System, c: Client, dest: Byte, typ: Word, offset: nat, length: nat, raw: bool, t0: Time, t1: Time, t2: Time)
    requires AtRest(sys) && Accepts(sys, c) && length > 0 && t1 <= t2 && Rested(sys.sched, SetBit7(dest), t0)
    ensures var sent := Step(sys, Event(t0, Command(c, [Read(dest, typ, offset, length, raw)])));
      var m := Build(dest, typ, (offset % 256) as Byte, [(length % 256) as Byte], true);
      && sent.sched.wire == sys.sched.wire + [Scheduler.Sent(t0, m)]
      && (if t1 < t0 + 1_000_000 then Step(sent, Event(t1, ResponseTimer)) == sent
          else
            var next := Step(Step(sent, Event(t1, ResponseTimer)), Event(t2, Completion(0)));
            next.sched.wire == sent.sched.wire + [Scheduler.Sent(t2, m)] && next.told == sys.told)
  {
    hide Scheduler.SubmitAll, Scheduler.RunHandler, ObeyAll, AllTelegrams, Session.HandleResponse, Session.HandleRaw;
    var o := Read(dest, typ, offset, length, raw);
    var m := Build(dest, typ, (offset % 256) as Byte, [(length % 256) as Byte], true);
    OneOrder(sys.sessions[c], o);
    assert Telegrams(sys.sessions[c], o) == [m];
    SentFromRest(sys.sched, c, m, t0);
    var sent := Step(sys, Event(t0, Command(c, [o])));
    if t1 >= t0 + 1_000_000 {
      var mid := Step(sent, Event(t1, ResponseTimer));
      assert mid.sched.ready == [Scheduler.ResponseExpired(false)];
      assert Answers(mid, Session.Timeout) == From(c, [m]);
      RepeatedAtOnce(Scheduler.TakeReady(mid.sched, 0), c, m, t2);
    }
  }

  lemma RepeatedAtOnce(s: Scheduler.State, c: Client, m: Message, now: Time)
    requires s.current.Some? && s.pending == [] && Rested(s, m.dest, now)
    ensures Scheduler.RunHandler(s, Scheduler.ResponseExpired(false), From(c, [m]), now).wire == s.wire + [Scheduler.Sent(now, m)]
  {
    hide Scheduler.SubmitAll;
    Scheduler.SubmitAllWhileBusy(s, From(c, [m]), now);
  }
}
