// Scheduler and sessions together: collector/CommandScheduler.cpp calling back
// into collector/ApiCommandParser.cpp, any number of clients.

module Collector {
  import opened Bytes
  import opened Telegram
  import Scheduler
  import Session

  type Client = Scheduler.Client
  type Time = Scheduler.Time

  /** The line a client gets at the end: OK, FAIL or ERRTIMEOUT. */
  datatype Verdict = Ok | Failed | TimedOut

  datatype Told = Told(client: Client, verdict: Verdict)

  /** Client n is the n-th connection; and what clients were told, oldest first. */
  datatype System = System(sched: Scheduler.State, sessions: seq<Session.Session>, told: seq<Told>)

  /** What a command line amounts to: read requests and write telegrams. */
  datatype Order =
    | Read(dest: Byte, typ: Word, offset: nat, length: nat, raw: bool)
    | Write(dest: Byte, typ: Word, at: Byte, data: seq<Byte>)

  datatype Action =
    | Command(client: Client, orders: seq<Order>)
    | PcMessage(msg: Message)
    | ResponseTimer
    | SendTimer
    | Completion(index: nat)

  datatype Event = Event(now: Time, action: Action)

  // ----- Commands -----

  function Obey(s: Session.Session, o: Order): Session.Session
  {
    match o
    case Read(dest, typ, offset, length, raw) => Session.StartRequest(s, dest, typ, offset, length, true, raw)
    case Write(dest, typ, offset, data) => Session.SendCommand(s, dest, typ, offset, data, false)
  }

  function Telegrams(s: Session.Session, o: Order): seq<Message>
  {
    match o
    case Read(dest, typ, offset, length, _) => Session.StartAsks(s, dest, typ, offset, length)
    case Write(dest, typ, offset, data) => [Build(dest, typ, offset, data, false)]
  }

  function ObeyAll(s: Session.Session, orders: seq<Order>): Session.Session
  {
    if orders == [] then s else Obey(ObeyAll(s, orders[..|orders| - 1]), orders[|orders| - 1])
  }

  function AllTelegrams(s: Session.Session, orders: seq<Order>): seq<Message>
  {
    if orders == [] then []
    else AllTelegrams(s, orders[..|orders| - 1])
         + Telegrams(ObeyAll(s, orders[..|orders| - 1]), orders[|orders| - 1])
  }

  function From(c: Client, ms: seq<Message>): (rs: seq<Scheduler.Request>)
    ensures |rs| == |ms|
    ensures forall i :: 0 <= i < |rs| ==> rs[i] == Scheduler.Request(c, ms[i])
  {
    seq(|ms|, i requires 0 <= i < |ms| => Scheduler.Request(c, ms[i]))
  }

  /** A client with an active request is refused as busy. */
  predicate Accepts(sys: System, c: Client)
  {
    c < |sys.sessions| && sys.sessions[c].active.None?
  }

  // ----- Callbacks -----

  /** The client a callback would go to. */
  predicate HasCurrent(sys: System)
  {
    sys.sched.current.Some? && sys.sched.current.value < |sys.sessions|
  }

  function Current(sys: System): Session.Session
    requires HasCurrent(sys)
  {
    sys.sessions[sys.sched.current.value]
  }

  /** The current client's reaction to a reply or a timeout. */
  function React(sys: System, e: Session.Event): Session.Outcome
    requires HasCurrent(sys)
  {
    Session.Respond(Current(sys), e)
  }

  /** What the connection makes of the result of a callback. */
  function VerdictOf(e: Session.Event, result: Session.Result): Option<Verdict>
  {
    match e
    case Reply(_) => (match result case Success => Some(Ok) case Failure => Some(Failed) case Ongoing => None)
    case Timeout => if result.Failure? then Some(TimedOut) else None
  }

  function Answers(sys: System, e: Session.Event): seq<Scheduler.Request>
  {
    if HasCurrent(sys) then From(sys.sched.current.value, React(sys, e).sends) else []
  }

  function Reacted(sys: System, e: Session.Event): System
  {
    if !HasCurrent(sys) then sys
    else
      var c := sys.sched.current.value;
      var o := React(sys, e);
      sys.(sessions := sys.sessions[c := o.session],
           told := match VerdictOf(e, o.result) case Some(v) => sys.told + [Told(c, v)] case None => sys.told)
  }

  /** What the completion of a response wait tells the current client. */
  function News(fakeAnswer: bool): Session.Event
  {
    if fakeAnswer then Session.Reply(Scheduler.FAKE_ANSWER) else Session.Timeout
  }

  function Step(sys: System, e: Event): System
  {
    match e.action
    case Command(c, orders) =>
      if !Accepts(sys, c) then sys
      else
        var s := sys.sessions[c];
        sys.(sched := Scheduler.SubmitAll(sys.sched, From(c, AllTelegrams(s, orders)), e.now),
             sessions := sys.sessions[c := ObeyAll(s, orders)])
    case PcMessage(m) =>
      Reacted(sys, Session.Reply(m))
        .(sched := Scheduler.HandlePcMessage(sys.sched, m, Answers(sys, Session.Reply(m)), e.now))
    case ResponseTimer =>
      sys.(sched := Scheduler.Step(sys.sched, Scheduler.Event(e.now, Scheduler.ResponseTimer)))
    case SendTimer =>
      sys.(sched := Scheduler.Step(sys.sched, Scheduler.Event(e.now, Scheduler.SendTimer)))
    case Completion(i) =>
      if i >= |sys.sched.ready| then sys
      else
        var h := sys.sched.ready[i];
        var t := Scheduler.TakeReady(sys.sched, i);
        match h
        case SendReady(_) => sys.(sched := Scheduler.RunHandler(t, h, [], e.now))
        case ResponseExpired(fake) =>
          Reacted(sys, News(fake)).(sched := Scheduler.RunHandler(t, h, Answers(sys, News(fake)), e.now))
  }

  function Run(sys: System, events: seq<Event>): System
  {
    if events == [] then sys
    else Step(Run(sys, events[..|events| - 1]), events[|events| - 1])
  }

  // ----- What every run keeps -----

  ghost predicate SessionsValid(sys: System)
  {
    forall c :: 0 <= c < |sys.sessions| ==> Session.Valid(sys.sessions[c])
  }

  ghost predicate Inv(sys: System)
  {
    Scheduler.Live(sys.sched) && SessionsValid(sys)
  }

  lemma {:induction false} ObeyAllValid(s: Session.Session, orders: seq<Order>)
    requires Session.Valid(s)
    ensures Session.Valid(ObeyAll(s, orders))
    decreases |orders|
  {
    if orders != [] {
      ObeyAllValid(s, orders[..|orders| - 1]);
    }
  }

  lemma ContinueQueue(s: Scheduler.State, now: Time)
    ensures var t := Scheduler.Continue(s, now);
      && t.current == (if s.pending == [] then None else Some(s.pending[0].client))
      && t.pending == (if s.pending == [] then [] else s.pending[1..])
  {
    hide Scheduler.Dispatch;
    if s.pending != [] {
      Scheduler.DispatchKeepsQueue(s.(current := Some(s.pending[0].client)), s.pending[0].msg, now);
    }
  }

  /** Current client and queue after a batch of submissions. */
  lemma {:induction false} SubmitAllQueue(s: Scheduler.State, rs: seq<Scheduler.Request>, now: Time)
    requires s.current.None? ==> s.pending == []
    ensures var t := Scheduler.SubmitAll(s, rs, now);
      && t.current == (if s.current.None? && rs != [] then Some(rs[0].client) else s.current)
      && t.pending == s.pending + (if s.current.None? && rs != [] then rs[1..] else rs)
    decreases |rs|
  {
    hide Scheduler.Continue;
    if rs != [] {
      var n := |rs| - 1;
      SubmitAllQueue(s, rs[..n], now);
      var m := Scheduler.SubmitAll(s, rs[..n], now);
      if m.current.None? {
        assert rs[..n] == [];
        ContinueQueue(m.(pending := m.pending + [rs[n]], submitted := m.submitted + [rs[n]]), now);
      }
    }
  }

  lemma CallbackQueue(s: Scheduler.State, rs: seq<Scheduler.Request>, now: Time)
    ensures var t := Scheduler.Callback(s, rs, now);
      t.current == s.current && t.pending == if s.current.Some? then s.pending + rs else s.pending
  {
    hide Scheduler.Submit;
    if s.current.Some? {
      Scheduler.SubmitAllWhileBusy(s, rs, now);
    }
  }

  /** The queue once the completions of a response wait or a PC message are done:
      the callback's requests come in at the end, one or two leave at the front. */
  function Popped(s: Scheduler.State, rs: seq<Scheduler.Request>): seq<Scheduler.Request>
  {
    if s.current.Some? then s.pending + rs else s.pending
  }

  lemma PcQueue(s: Scheduler.State, m: Message, rs: seq<Scheduler.Request>, now: Time)
    ensures var t := Scheduler.HandlePcMessage(s, m, rs, now); var q := Popped(s, rs);
      && t.current == (if q == [] then None else Some(q[0].client))
      && t.pending == (if q == [] then [] else q[1..])
  {
    hide Scheduler.Continue, Scheduler.Callback;
    var s1 := s.(lastComm := s.lastComm[m.source := now], responseWait := None);
    CallbackQueue(s1, rs, now);
    ContinueQueue(Scheduler.Callback(s1, rs, now), now);
  }

  lemma TimeoutQueue(s: Scheduler.State, rs: seq<Scheduler.Request>, now: Time)
    ensures var t := Scheduler.RunHandler(s, Scheduler.ResponseExpired(false), rs, now); var q := Popped(s, rs);
      && t.current == (if q == [] then None else Some(q[0].client))
      && t.pending == (if q == [] then [] else q[1..])
  {
    hide Scheduler.Continue, Scheduler.Callback;
    CallbackQueue(s, rs, now);
    ContinueQueue(Scheduler.Callback(s, rs, now), now);
  }

  /** After a made-up answer two requests leave the queue. */
  lemma FakeQueue(s: Scheduler.State, rs: seq<Scheduler.Request>, now: Time)
    requires s.current.Some?
    ensures var t := Scheduler.RunHandler(s, Scheduler.ResponseExpired(true), rs, now); var q := s.pending + rs;
      && t.current == (if |q| < 2 then None else Some(q[1].client))
      && t.pending == (if |q| < 2 then [] else q[2..])
  {
    hide Scheduler.Continue, Scheduler.HandlePcMessage;
    PcQueue(s, Scheduler.FAKE_ANSWER, rs, now);
    ContinueQueue(Scheduler.HandlePcMessage(s, Scheduler.FAKE_ANSWER, rs, now), now);
  }

  lemma {:induction false} SubmitAllLive(s: Scheduler.State, rs: seq<Scheduler.Request>, now: Time)
    requires Scheduler.Live(s)
    ensures Scheduler.Live(Scheduler.SubmitAll(s, rs, now))
    decreases |rs|
  {
    hide Scheduler.Submit, Scheduler.Live;
    if rs != [] {
      var n := |rs| - 1;
      SubmitAllLive(s, rs[..n], now);
      Scheduler.StepLive(Scheduler.SubmitAll(s, rs[..n], now), Scheduler.Event(now, Scheduler.Command(rs[n])));
    }
  }

  lemma ReactedValid(sys: System, e: Session.Event)
    requires SessionsValid(sys)
    ensures SessionsValid(Reacted(sys, e))
  {
    hide Session.Valid, Session.Respond;
    if HasCurrent(sys) {
      Session.RespondValid(Current(sys), e);
    }
  }

  lemma StepInv(sys: System, e: Event)
    requires Inv(sys)
    ensures Inv(Step(sys, e))
  {
    hide Scheduler.SubmitAll, Scheduler.HandlePcMessage, Scheduler.RunHandler, Scheduler.Step, Session.Valid, Reacted, Answers;
    match e.action
    case Command(c, orders) =>
      if Accepts(sys, c) {
        ObeyAllValid(sys.sessions[c], orders);
        SubmitAllLive(sys.sched, From(c, AllTelegrams(sys.sessions[c], orders)), e.now);
      }
    case PcMessage(m) =>
      ReactedValid(sys, Session.Reply(m));
      Scheduler.HandlePcLive(sys.sched, m, Answers(sys, Session.Reply(m)), e.now);
    case ResponseTimer =>
      Scheduler.StepLive(sys.sched, Scheduler.Event(e.now, Scheduler.ResponseTimer));
    case SendTimer =>
      Scheduler.StepLive(sys.sched, Scheduler.Event(e.now, Scheduler.SendTimer));
    case Completion(i) =>
      if i < |sys.sched.ready| {
        var h := sys.sched.ready[i];
        var t := Scheduler.TakeReady(sys.sched, i);
        match h
        case SendReady(_) =>
          Scheduler.RunHandlerLive(t, h, [], e.now);
        case ResponseExpired(fake) =>
          ReactedValid(sys, News(fake));
          Scheduler.RunHandlerLive(t, h, Answers(sys, News(fake)), e.now);
      }
  }

  lemma {:induction false} RunInv(sys: System, events: seq<Event>)
    requires Inv(sys)
    ensures Inv(Run(sys, events))
    decreases |events|
  {
    hide Inv, Step;
    if events != [] {
      RunInv(sys, events[..|events| - 1]);
      StepInv(Run(sys, events[..|events| - 1]), events[|events| - 1]);
    }
  }

  // ----- The scheduler's part of a run -----

  function Submissions(rs: seq<Scheduler.Request>, now: Time): (es: seq<Scheduler.Event>)
    ensures |es| == |rs|
  {
    if rs == [] then []
    else Submissions(rs[..|rs| - 1], now) + [Scheduler.Event(now, Scheduler.Command(rs[|rs| - 1]))]
  }

  /** What the scheduler sees of an event. */
  function SchedulerEvents(sys: System, e: Event): seq<Scheduler.Event>
  {
    match e.action
    case Command(c, orders) =>
      if Accepts(sys, c) then Submissions(From(c, AllTelegrams(sys.sessions[c], orders)), e.now) else []
    case PcMessage(m) => [Scheduler.Event(e.now, Scheduler.PcMessage(m, Answers(sys, Session.Reply(m))))]
    case ResponseTimer => [Scheduler.Event(e.now, Scheduler.ResponseTimer)]
    case SendTimer => [Scheduler.Event(e.now, Scheduler.SendTimer)]
    case Completion(i) =>
      var news := if i < |sys.sched.ready| && sys.sched.ready[i].ResponseExpired?
                  then Answers(sys, News(sys.sched.ready[i].fakeAnswer)) else [];
      [Scheduler.Event(e.now, Scheduler.Completion(i, news))]
  }

  function SchedulerRun(sys: System, events: seq<Event>): seq<Scheduler.Event>
  {
    if events == [] then []
    else SchedulerRun(sys, events[..|events| - 1])
         + SchedulerEvents(Run(sys, events[..|events| - 1]), events[|events| - 1])
  }

  lemma {:induction false} SubmissionsAre(s: Scheduler.State, rs: seq<Scheduler.Request>, now: Time)
    ensures Scheduler.Run(s, Submissions(rs, now)) == Scheduler.SubmitAll(s, rs, now)
    decreases |rs|
  {
    hide Scheduler.Submit;
    if rs != [] {
      var n := |rs| - 1;
      var es := Submissions(rs, now);
      SubmissionsAre(s, rs[..n], now);
      assert es[..|es| - 1] == Submissions(rs[..n], now);
    }
  }

  lemma StepIsScheduled(sys: System, e: Event)
    ensures Step(sys, e).sched == Scheduler.Run(sys.sched, SchedulerEvents(sys, e))
  {
    hide Scheduler.SubmitAll, Scheduler.HandlePcMessage, Scheduler.RunHandler, Scheduler.TakeReady, Scheduler.Run,
         Answers, AllTelegrams, ObeyAll, Reacted;
    var es := SchedulerEvents(sys, e);
    if |es| == 1 {
      assert es == [] + [es[0]];
      Scheduler.RunNothing(sys.sched);
      Scheduler.RunSnoc(sys.sched, [], es[0]);
    }
    if e.action.Command? {
      if Accepts(sys, e.action.client) {
        SubmissionsAre(sys.sched, From(e.action.client, AllTelegrams(sys.sessions[e.action.client], e.action.orders)), e.now);
      } else {
        Scheduler.RunNothing(sys.sched);
      }
    }
  }

  /** The scheduler inside the system goes through a run of the bare scheduler, so
      all that is proved of those holds here. */
  lemma {:induction false} RunIsScheduled(sys: System, events: seq<Event>)
    ensures Run(sys, events).sched == Scheduler.Run(sys.sched, SchedulerRun(sys, events))
    decreases |events|
  {
    hide Step, SchedulerEvents, Scheduler.Run;
    if events == [] {
      Scheduler.RunNothing(sys.sched);
    } else {
      var init, last := events[..|events| - 1], events[|events| - 1];
      RunIsScheduled(sys, init);
      StepIsScheduled(Run(sys, init), last);
      Scheduler.RunSplit(sys.sched, SchedulerRun(sys, init), SchedulerEvents(Run(sys, init), last));
    }
  }

  /** With real clients, too, each request goes out exactly once, and once nothing
      is under way everything that was ever submitted is on the wire. */
  lemma AllSentAtRest(sys: System, events: seq<Event>)
    requires Scheduler.ExactlyOnce(sys.sched)
    ensures Scheduler.ExactlyOnce(Run(sys, events).sched)
    ensures var s := Run(sys, events).sched;
      s.pending == [] && s.sendWait.None? && s.ready == [] ==>
        multiset(Scheduler.OnWire(s.wire)) == multiset(Scheduler.Messages(s.submitted))
  {
    hide Run, Scheduler.Run, SchedulerRun, Scheduler.Messages, Scheduler.OnWire, Scheduler.Sending;
    var s := Run(sys, events).sched;
    RunIsScheduled(sys, events);
    Scheduler.RunKeepsExactlyOnce(sys.sched, SchedulerRun(sys, events));
    if s.pending == [] && s.sendWait.None? && s.ready == [] {
      assert s.dispatched + [] == s.dispatched;
      NothingInLine(s);
    }
  }

  lemma NothingInLine(s: Scheduler.State)
    requires s.sendWait.None? && s.ready == []
    ensures Scheduler.Line(s) == Scheduler.OnWire(s.wire)
  {}

  // ----- A silent bus -----

  /** Events that happen without anybody outside doing anything: an armed timer
      expires, a queued handler runs. */
  predicate Silent(sys: System, e: Event)
  {
    match e.action
    case Command(_, _) => false
    case PcMessage(_) => false
    case ResponseTimer => sys.sched.responseWait.Some? && sys.sched.responseWait.value.due <= e.now
    case SendTimer => sys.sched.sendWait.Some? && sys.sched.sendWait.value.due <= e.now
    case Completion(i) => i < |sys.sched.ready|
  }

  predicate SilentRun(sys: System, events: seq<Event>)
  {
    events == []
    || (SilentRun(sys, events[..|events| - 1]) && Silent(Run(sys, events[..|events| - 1]), events[|events| - 1]))
  }

  function Retries(sessions: seq<Session.Session>): nat
  {
    if sessions == [] then 0
    else Retries(sessions[..|sessions| - 1]) + RetriesOf(sessions[|sessions| - 1])
  }

  function RetriesOf(s: Session.Session): nat
  {
    if s.active.Some? then s.retriesLeft else 0
  }

  function ReadyWeight(ready: seq<Scheduler.Handler>): nat
  {
    if ready == [] then 0
    else ReadyWeight(ready[..|ready| - 1]) + WeightOf(ready[|ready| - 1])
  }

  function WeightOf(h: Scheduler.Handler): nat
  {
    if h.SendReady? then 3 else 1
  }

  /** What is under way: a wait weighs more than its handler, and a send more than
      the response wait it arms. */
  function UnderWay(s: Scheduler.State): nat
  {
    (if s.responseWait.Some? then 2 else 0) + (if s.sendWait.Some? then 4 else 0) + ReadyWeight(s.ready)
  }

  /** The termination measure: the length of the queue plus the retries the active
      requests have left, refined by what is under way. */
  function Measure(sys: System): nat
  {
    5 * (|sys.sched.pending| + Retries(sys.sessions)) + UnderWay(sys.sched)
  }

  lemma {:induction false} RetriesUpdate(sessions: seq<Session.Session>, c: nat, s: Session.Session)
    requires c < |sessions|
    ensures Retries(sessions[c := s]) + RetriesOf(sessions[c]) == Retries(sessions) + RetriesOf(s)
    decreases |sessions|
  {
    hide RetriesOf;
    var n := |sessions| - 1;
    if c == n {
      assert sessions[c := s][..n] == sessions[..n];
    } else {
      assert sessions[c := s][..n] == sessions[..n][c := s];
      RetriesUpdate(sessions[..n], c, s);
    }
  }

  lemma {:induction false} ReadyWeightConcat(a: seq<Scheduler.Handler>, b: seq<Scheduler.Handler>)
    ensures ReadyWeight(a + b) == ReadyWeight(a) + ReadyWeight(b)
    decreases |b|
  {
    if b == [] {
      assert a + b == a;
    } else {
      var n := |b| - 1;
      assert (a + b)[..|a + b| - 1] == a + b[..n];
      ReadyWeightConcat(a, b[..n]);
    }
  }

  lemma ReadyWeightOne(h: Scheduler.Handler)
    ensures ReadyWeight([h]) == WeightOf(h)
  {
    assert [h][..0] == [];
  }

  lemma TakeReadyWeight(s: Scheduler.State, i: nat)
    requires i < |s.ready|
    ensures UnderWay(Scheduler.TakeReady(s, i)) + WeightOf(s.ready[i]) == UnderWay(s)
  {
    hide ReadyWeight, WeightOf;
    assert s.ready == s.ready[..i] + [s.ready[i]] + s.ready[i + 1..];
    ReadyWeightConcat(s.ready[..i] + [s.ready[i]], s.ready[i + 1..]);
    ReadyWeightConcat(s.ready[..i], [s.ready[i]]);
    ReadyWeightOne(s.ready[i]);
    ReadyWeightConcat(s.ready[..i], s.ready[i + 1..]);
  }

  lemma DispatchWeight(s: Scheduler.State, m: Message, now: Time)
    ensures UnderWay(Scheduler.Dispatch(s, m, now)) <= UnderWay(s) + 4
  {
    ReadyWeightConcat(s.ready, Scheduler.AbortedSend(s));
    if s.sendWait.Some? {
      ReadyWeightOne(Scheduler.SendReady(s.sendWait.value.msg));
    }
  }

  /** Queue and timers together. */
  function Load(s: Scheduler.State): nat
  {
    5 * |s.pending| + UnderWay(s)
  }

  lemma ContinueLoad(s: Scheduler.State, now: Time)
    ensures Load(Scheduler.Continue(s, now)) <= Load(s)
  {
    hide Scheduler.Dispatch, ReadyWeight;
    if s.pending != [] {
      var s1 := s.(current := Some(s.pending[0].client));
      DispatchWeight(s1, s.pending[0].msg, now);
      Scheduler.DispatchKeepsQueue(s1, s.pending[0].msg, now);
    }
  }

  lemma CallbackLoad(s: Scheduler.State, rs: seq<Scheduler.Request>, now: Time)
    ensures Load(Scheduler.Callback(s, rs, now)) <= Load(s) + 5 * |rs|
  {
    hide Scheduler.SubmitAll, ReadyWeight;
    if s.current.Some? {
      Scheduler.SubmitAllWhileBusy(s, rs, now);
    }
  }

  lemma HandlerLoad(s: Scheduler.State, h: Scheduler.Handler, rs: seq<Scheduler.Request>, now: Time)
    requires h.ResponseExpired?
    ensures Load(Scheduler.RunHandler(s, h, rs, now)) <= Load(s) + 5 * |rs|
  {
    hide Scheduler.Continue, Scheduler.Callback, UnderWay;
    if !h.fakeAnswer {
      CallbackLoad(s, rs, now);
      ContinueLoad(Scheduler.Callback(s, rs, now), now);
    } else if s.current.None? {
      ContinueLoad(s, now);
    } else {
      var m := Scheduler.FAKE_ANSWER;
      var s1 := s.(lastComm := s.lastComm[m.source := now], responseWait := None);
      assert Load(s1) <= Load(s) by {
        LessUnderWay(s, s1);
      }
      CallbackLoad(s1, rs, now);
      ContinueLoad(Scheduler.Callback(s1, rs, now), now);
      ContinueLoad(Scheduler.HandlePcMessage(s, m, rs, now), now);
    }
  }

  lemma LessUnderWay(s: Scheduler.State, t: Scheduler.State)
    requires t.responseWait.None? && t.sendWait == s.sendWait && t.ready == s.ready
    ensures UnderWay(t) <= UnderWay(s)
  {}

  lemma SendLoad(s: Scheduler.State, m: Message, now: Time)
    ensures Load(Scheduler.DoSend(s, m, now)) <= Load(s) + 2
  {
    hide ReadyWeight;
  }

  /** Each retry a callback submits costs the session one of its retries. */
  lemma ReactionPays(sys: System, fake: bool)
    requires SessionsValid(sys)
    ensures |Answers(sys, News(fake))| + Retries(Reacted(sys, News(fake)).sessions) <= Retries(sys.sessions)
  {
    hide Retries;
    if HasCurrent(sys) {
      var c := sys.sched.current.value;
      FakeAnswerIs();
      SilentReaction(Current(sys), fake);
      RetriesUpdate(sys.sessions, c, React(sys, News(fake)).session);
    }
  }

  lemma FakeAnswerIs()
    ensures Scheduler.FAKE_ANSWER.Type() == 0xff && Scheduler.FAKE_ANSWER.offset == 1
  {}

  lemma SilentReaction(s: Session.Session, fake: bool)
    requires Session.Valid(s)
    ensures var o := Session.Respond(s, News(fake));
      |o.sends| + RetriesOf(o.session) <= RetriesOf(s)
  {
    hide Session.HandleResponse, Session.HandleRaw;
    FakeAnswerIs();
  }

  /** Every silent step makes the measure smaller. */
  lemma SilentStepProgress(sys: System, e: Event)
    requires Inv(sys) && Silent(sys, e)
    ensures Measure(Step(sys, e)) < Measure(sys)
  {
    hide Scheduler.RunHandler, Scheduler.TakeReady, Retries, Reacted, Answers, UnderWay;
    match e.action
    case ResponseTimer => TimerWeight(sys.sched, Scheduler.Event(e.now, Scheduler.ResponseTimer));
    case SendTimer => TimerWeight(sys.sched, Scheduler.Event(e.now, Scheduler.SendTimer));
    case Completion(i) =>
      CompletionProgress(sys, i, e.now);
  }

  lemma TimerWeight(s: Scheduler.State, e: Scheduler.Event)
    requires (e.action.ResponseTimer? && s.responseWait.Some? && s.responseWait.value.due <= e.now)
          || (e.action.SendTimer? && s.sendWait.Some? && s.sendWait.value.due <= e.now)
    ensures UnderWay(Scheduler.Step(s, e)) < UnderWay(s)
    ensures Scheduler.Step(s, e).pending == s.pending
  {
    var h := Scheduler.Step(s, e).ready[|s.ready|];
    ReadyWeightConcat(s.ready, [h]);
    ReadyWeightOne(h);
  }

  lemma CompletionProgress(sys: System, i: nat, now: Time)
    requires Inv(sys) && i < |sys.sched.ready|
    ensures Measure(Step(sys, Event(now, Completion(i)))) < Measure(sys)
  {
    hide Retries, Reacted, Answers, UnderWay, Session.Valid, Scheduler.Live, Scheduler.RunHandler;
    var h := sys.sched.ready[i];
    var t := Scheduler.TakeReady(sys.sched, i);
    TakeReadyWeight(sys.sched, i);
    match h
    case SendReady(m) =>
      RunSend(t, m, now);
      SendLoad(t, m, now);
    case ResponseExpired(fake) =>
      ReactionPays(sys, fake);
      HandlerLoad(t, h, Answers(sys, News(fake)), now);
      ReactedSched(sys, News(fake));
  }

  lemma RunSend(t: Scheduler.State, m: Message, now: Time)
    ensures Scheduler.RunHandler(t, Scheduler.SendReady(m), [], now) == Scheduler.DoSend(t, m, now)
  {}

  lemma ReactedSched(sys: System, e: Session.Event)
    ensures Reacted(sys, e).sched == sys.sched
  {}

  /** On a silent bus every run comes to an end, within as many steps as the
      measure says. */
  lemma {:induction false} SilentRunsEnd(sys: System, events: seq<Event>)
    requires Inv(sys) && SilentRun(sys, events)
    ensures |events| + Measure(Run(sys, events)) <= Measure(sys)
    decreases |events|
  {
    hide Inv, Silent, Step, Measure;
    if events != [] {
      var init := events[..|events| - 1];
      SilentRunsEnd(sys, init);
      RunInv(sys, init);
      SilentStepProgress(Run(sys, init), events[|events| - 1]);
    }
  }

  /** And where no silent step is left, whenever it might happen, the scheduler is
      idle and its queue empty. */
  lemma EndIsIdle(sys: System)
    requires Inv(sys)
    requires forall e :: !Silent(sys, e)
    ensures sys.sched.current.None? && sys.sched.pending == []
    ensures sys.sched.responseWait.None? && sys.sched.sendWait.None? && sys.sched.ready == []
  {
    var s := sys.sched;
    assert s.responseWait.Some? ==> !Silent(sys, Event(s.responseWait.value.due, ResponseTimer));
    assert s.sendWait.Some? ==> !Silent(sys, Event(s.sendWait.value.due, SendTimer));
    assert !Silent(sys, Event(0, Completion(0)));
  }

  /** Any state clients, commands and telegrams can lead to. */
  lemma {:induction false} ReachableSilentRunsEnd(sys: System, history: seq<Event>, events: seq<Event>)
    requires Inv(sys) && SilentRun(Run(sys, history), events)
    ensures |events| <= Measure(Run(sys, history))
    ensures (forall e :: !Silent(Run(Run(sys, history), events), e)) ==>
      var s := Run(Run(sys, history), events).sched; s.current.None? && s.pending == []
  {
    hide Inv, Silent, Step, Measure, Run, SilentRun;
    var mid := Run(sys, history);
    RunInv(sys, history);
    SilentRunsEnd(mid, events);
    RunInv(mid, events);
    if forall e :: !Silent(Run(mid, events), e) {
      EndIsIdle(Run(mid, events));
    }
  }
}
