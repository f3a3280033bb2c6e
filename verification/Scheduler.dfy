// collector/CommandScheduler.cpp: EmsCommandSender, as a machine whose events are
// submissions, messages from the bus, timer expiries and queued completion
// handlers. Times are microseconds.

module Scheduler {
  import opened Bytes
  import opened Telegram

  type Client = nat
  type Time = int

  const RESPONSE_GAP: int := 101_000
  const MIN_DISTANCE: int := 100_000
  const REQUEST_TIMEOUT: int := 1_000_000
  const FAKE_ANSWER_DELAY: int := 200_000

  datatype Request = Request(client: Client, msg: Message)

  datatype SendWait = SendWait(msg: Message, due: Time)

  datatype ResponseWait = ResponseWait(fakeAnswer: bool, due: Time)

  /** A completion handler the event loop still has to run. An aborted send wait
      sends just like an expired one. An aborted response wait does nothing, so it
      is not kept; one that had already expired can no longer be called back. */
  datatype Handler = ResponseExpired(fakeAnswer: bool) | SendReady(msg: Message)

  datatype Sent = Sent(at: Time, msg: Message)

  /** m_currentClient, m_pending, the waits on the two timers, the event loop's
      queue, m_lastCommTimes; and the history: what was sent when, what was
      submitted, what was taken off the queue. */
  datatype State = State(
    current: Option<Client>, pending: seq<Request>,
    responseWait: Option<ResponseWait>, sendWait: Option<SendWait>, ready: seq<Handler>,
    lastComm: map<Byte, Time>,
    wire: seq<Sent>, submitted: seq<Request>, dispatched: seq<Request>)

  const INIT := State(None, [], None, None, [], map[], [], [], [])

  /** Requests with bit 7 of the destination clear are writes; nobody answers
      them, so the scheduler makes up an answer. */
  predicate WantsFakeAnswer(m: Message)
  {
    m.dest < 0x80
  }

  const FAKE_ANSWER := Build(0x0b, 0xff, 0x01, [], false)

  // ----- The member functions -----

  function WaitForResponse(fakeAnswer: bool, now: Time): ResponseWait
  {
    ResponseWait(fakeAnswer, now + if fakeAnswer then FAKE_ANSWER_DELAY else REQUEST_TIMEOUT)
  }

  function DoSend(s: State, m: Message, now: Time): State
  {
    s.(wire := s.wire + [Sent(now, m)],
       responseWait := Some(WaitForResponse(WantsFakeAnswer(m), now)),
       lastComm := s.lastComm[m.dest := now])
  }

  predicate TooSoon(s: State, m: Message, now: Time)
  {
    m.dest in s.lastComm && now - s.lastComm[m.dest] < RESPONSE_GAP
  }

  function AbortedSend(s: State): seq<Handler>
  {
    if s.sendWait.Some? then [SendReady(s.sendWait.value.msg)] else []
  }

  /** Send now, or wait until the destination has had its rest. Arming the send
      timer aborts the wait that was on it. */
  function Dispatch(s: State, m: Message, now: Time): State
  {
    if TooSoon(s, m, now) then
      s.(ready := s.ready + AbortedSend(s),
         sendWait := Some(SendWait(m, s.lastComm[m.dest] + MIN_DISTANCE)))
    else DoSend(s, m, now)
  }

  function Continue(s: State, now: Time): State
  {
    if s.pending == [] then s.(current := None)
    else
      var item := s.pending[0];
      Dispatch(s.(current := Some(item.client)), item.msg, now)
        .(pending := s.pending[1..], dispatched := s.dispatched + [item])
  }

  function Submit(s: State, r: Request, now: Time): State
  {
    var s1 := s.(pending := s.pending + [r], submitted := s.submitted + [r]);
    if s.current.None? then Continue(s1, now) else s1
  }

  function SubmitAll(s: State, rs: seq<Request>, now: Time): State
  {
    if rs == [] then s
    else Submit(SubmitAll(s, rs[..|rs| - 1], now), rs[|rs| - 1], now)
  }

  /** Whatever the current client's callback submits; without a current client
      there is no callback. */
  function Callback(s: State, resubmitted: seq<Request>, now: Time): State
  {
    if s.current.Some? then SubmitAll(s, resubmitted, now) else s
  }

  /** What a message does before the queue moves on. */
  function Heard(s: State, m: Message, resubmitted: seq<Request>, now: Time): State
  {
    Callback(s.(lastComm := s.lastComm[m.source := now], responseWait := None), resubmitted, now)
  }

  function HandlePcMessage(s: State, m: Message, resubmitted: seq<Request>, now: Time): State
  {
    Continue(Heard(s, m, resubmitted, now), now)
  }

  function RunHandler(s: State, h: Handler, resubmitted: seq<Request>, now: Time): State
  {
    match h
    case SendReady(m) => DoSend(s, m, now)
    case ResponseExpired(false) => Continue(Callback(s, resubmitted, now), now)
    case ResponseExpired(true) =>
      Continue(if s.current.Some? then HandlePcMessage(s, FAKE_ANSWER, resubmitted, now) else s, now)
  }

  datatype Action =
    | Command(request: Request)
    | PcMessage(msg: Message, answers: seq<Request>)
    | ResponseTimer
    | SendTimer
    | Completion(index: nat, answers: seq<Request>)

  datatype Event = Event(now: Time, action: Action)

  function TakeReady(s: State, i: nat): State
    requires i < |s.ready|
  {
    s.(ready := s.ready[..i] + s.ready[i + 1..])
  }

  function Step(s: State, e: Event): State
  {
    match e.action
    case Command(r) => Submit(s, r, e.now)
    case PcMessage(m, answers) => HandlePcMessage(s, m, answers, e.now)
    case ResponseTimer =>
      if s.responseWait.Some? && s.responseWait.value.due <= e.now
      then s.(responseWait := None, ready := s.ready + [ResponseExpired(s.responseWait.value.fakeAnswer)])
      else s
    case SendTimer =>
      if s.sendWait.Some? && s.sendWait.value.due <= e.now
      then s.(sendWait := None, ready := s.ready + [SendReady(s.sendWait.value.msg)])
      else s
    case Completion(i, answers) =>
      if i < |s.ready| then RunHandler(TakeReady(s, i), s.ready[i], answers, e.now) else s
  }

  function Run(s: State, events: seq<Event>): State
  {
    if events == [] then s
    else Step(Run(s, events[..|events| - 1]), events[|events| - 1])
  }

  lemma RunNothing(s: State)
    ensures Run(s, []) == s
  {}

  lemma RunSnoc(s: State, events: seq<Event>, e: Event)
    ensures Run(s, events + [e]) == Step(Run(s, events), e)
  {
    hide Step;
    assert (events + [e])[..|events + [e]| - 1] == events;
  }

  lemma {:induction false} RunSplit(s: State, a: seq<Event>, b: seq<Event>)
    ensures Run(s, a + b) == Run(Run(s, a), b)
    decreases |b|
  {
    hide Step;
    if b == [] {
      assert a + b == a;
    } else {
      var n := |b| - 1;
      assert (a + b)[..|a + b| - 1] == a + b[..n];
      RunSplit(s, a, b[..n]);
    }
  }

  // ----- Re-entrant submissions only queue -----

  lemma {:induction false} SubmitAllWhileBusy(s: State, rs: seq<Request>, now: Time)
    requires s.current.Some?
    ensures SubmitAll(s, rs, now) == s.(pending := s.pending + rs, submitted := s.submitted + rs)
    decreases |rs|
  {
    if rs == [] {
      assert s.pending + rs == s.pending && s.submitted + rs == s.submitted;
    } else {
      var n := |rs| - 1;
      SubmitAllWhileBusy(s, rs[..n], now);
      assert s.pending + rs[..n] + [rs[n]] == s.pending + rs;
      assert s.submitted + rs[..n] + [rs[n]] == s.submitted + rs;
    }
  }

  // ----- What has been dispatched -----

  function Messages(rs: seq<Request>): seq<Message>
  {
    seq(|rs|, i requires 0 <= i < |rs| => rs[i].msg)
  }

  function OnWire(wire: seq<Sent>): seq<Message>
  {
    seq(|wire|, i requires 0 <= i < |wire| => wire[i].msg)
  }

  /** What handlers in the event loop's queue will send. */
  function Sending(ready: seq<Handler>): seq<Message>
  {
    if ready == [] then []
    else Sending(ready[..|ready| - 1]) + (if ready[|ready| - 1].SendReady? then [ready[|ready| - 1].msg] else [])
  }

  function Held(w: Option<SendWait>): seq<Message>
  {
    if w.Some? then [w.value.msg] else []
  }

  function Waiting(s: State): seq<Message>
  {
    Sending(s.ready) + Held(s.sendWait)
  }

  /** Everything that was dispatched, as it would go out without overtaking. */
  function Line(s: State): seq<Message>
  {
    OnWire(s.wire) + Waiting(s)
  }

  lemma {:induction false} SendingConcat(a: seq<Handler>, b: seq<Handler>)
    ensures Sending(a + b) == Sending(a) + Sending(b)
    decreases |b|
  {
    if b == [] {
      assert a + b == a;
    } else {
      var n := |b| - 1;
      assert (a + b)[..|a + b| - 1] == a + b[..n];
      SendingConcat(a, b[..n]);
    }
  }

  lemma SendingOne(h: Handler)
    ensures Sending([h]) == if h.SendReady? then [h.msg] else []
  {
    assert [h][..0] == [];
  }

  /** Taking handler i out. */
  lemma TakeReadySending(s: State, i: nat)
    requires i < |s.ready|
    ensures var a, b, h := Sending(s.ready[..i]), Sending(s.ready[i + 1..]), s.ready[i];
      && Sending(s.ready) == a + (if h.SendReady? then [h.msg] else []) + b
      && Sending(TakeReady(s, i).ready) == a + b
  {
    hide Sending;
    assert s.ready == s.ready[..i] + [s.ready[i]] + s.ready[i + 1..];
    SendingConcat(s.ready[..i] + [s.ready[i]], s.ready[i + 1..]);
    SendingConcat(s.ready[..i], [s.ready[i]]);
    SendingOne(s.ready[i]);
    SendingConcat(s.ready[..i], s.ready[i + 1..]);
  }

  lemma DoSendLine(s: State, m: Message, now: Time)
    ensures OnWire(DoSend(s, m, now).wire) == OnWire(s.wire) + [m]
    ensures Waiting(DoSend(s, m, now)) == Waiting(s)
  {}

  /** A dispatched message joins the end of the line, or goes out ahead of all that
      wait. */
  lemma DispatchLine(s: State, m: Message, now: Time)
    ensures var t := Dispatch(s, m, now);
      if TooSoon(s, m, now)
      then t.wire == s.wire && Waiting(t) == Waiting(s) + [m]
      else OnWire(t.wire) == OnWire(s.wire) + [m] && Waiting(t) == Waiting(s)
  {
    hide Sending;
    if TooSoon(s, m, now) {
      SendingConcat(s.ready, AbortedSend(s));
      NothingSending();
      if s.sendWait.Some? {
        SendingOne(SendReady(s.sendWait.value.msg));
      }
    } else {
      DoSendLine(s, m, now);
    }
  }

  lemma NothingSending()
    ensures Sending([]) == []
  {}

  lemma DispatchKeepsQueue(s: State, m: Message, now: Time)
    ensures var t := Dispatch(s, m, now);
      && t.pending == s.pending && t.submitted == s.submitted && t.dispatched == s.dispatched
      && t.current == s.current
  {}

  // ----- The shape of an event -----

  /** The event runs a handler of the send timer. */
  predicate RunsSender(s: State, e: Event)
  {
    e.action.Completion? && e.action.index < |s.ready| && s.ready[e.action.index].SendReady?
  }

  /** The states in which an event takes the next request off the queue: none, one,
      or two for a made-up answer. */
  function Continues(s: State, e: Event): (ts: seq<State>)
    ensures |ts| <= 2
  {
    match e.action
    case Command(r) =>
      if s.current.None? then [s.(pending := s.pending + [r], submitted := s.submitted + [r])] else []
    case PcMessage(m, answers) => [Heard(s, m, answers, e.now)]
    case ResponseTimer => []
    case SendTimer => []
    case Completion(i, answers) =>
      if i >= |s.ready| then []
      else
        var t := TakeReady(s, i);
        match s.ready[i]
        case SendReady(_) => []
        case ResponseExpired(false) => [Callback(t, answers, e.now)]
        case ResponseExpired(true) =>
          if t.current.None? then [t]
          else [Heard(t, FAKE_ANSWER, answers, e.now), HandlePcMessage(t, FAKE_ANSWER, answers, e.now)]
  }

  /** Between s and t nothing was dispatched or sent, and the times of last
      communication were only moved up to now. */
  predicate Quiet(s: State, t: State, now: Time)
  {
    && t.wire == s.wire && t.dispatched == s.dispatched
    && t.sendWait == s.sendWait && Sending(t.ready) == Sending(s.ready)
    && (s.submitted == s.dispatched + s.pending ==> t.submitted == t.dispatched + t.pending)
    && (forall d :: d in s.lastComm ==> d in t.lastComm && t.lastComm[d] in {s.lastComm[d], now})
    && (forall d :: d in t.lastComm ==> d in s.lastComm || t.lastComm[d] == now)
  }

  lemma CallbackQuiet(s: State, rs: seq<Request>, now: Time)
    ensures Quiet(s, Callback(s, rs, now), now)
  {
    hide SubmitAll, Sending;
    if s.current.Some? {
      SubmitAllWhileBusy(s, rs, now);
      assert s.dispatched + s.pending + rs == s.dispatched + (s.pending + rs);
    }
  }

  lemma HeardQuiet(s: State, m: Message, rs: seq<Request>, now: Time)
    ensures Quiet(s, Heard(s, m, rs, now), now)
  {
    hide Callback, Sending;
    CallbackQuiet(s.(lastComm := s.lastComm[m.source := now], responseWait := None), rs, now);
  }

  lemma QuietOn(s: State, t: State, u: State, now: Time)
    requires Quiet(s, t, now) && Quiet(t, u, now)
    ensures Quiet(s, u, now)
  {
    hide Sending;
  }

  lemma TakeExpiredQuiet(s: State, i: nat, now: Time)
    requires i < |s.ready| && s.ready[i].ResponseExpired?
    ensures Quiet(s, TakeReady(s, i), now)
  {
    hide Sending;
    TakeReadySending(s, i);
  }

  /** All but the send timer: something quiet, and then the queue moves on as often
      as Continues says. */
  lemma EventShape(s: State, e: Event)
    requires !RunsSender(s, e) && !e.action.SendTimer?
    ensures var ts, t := Continues(s, e), Step(s, e);
      && Quiet(s, if ts == [] then t else ts[0], e.now)
      && (ts != [] ==> t == Continue(ts[|ts| - 1], e.now))
      && (|ts| == 2 ==> ts[1] == Continue(ts[0], e.now))
  {
    hide Quiet, Continue, Callback, Heard, TakeReady;
    match e.action
    case Command(r) => SubmitShape(s, r, e.now);
    case PcMessage(m, answers) => HeardQuiet(s, m, answers, e.now);
    case ResponseTimer => ResponseTimerQuiet(s, e);
    case Completion(i, answers) =>
      if i < |s.ready| {
        var t := TakeReady(s, i);
        TakeExpiredQuiet(s, i, e.now);
        if !s.ready[i].fakeAnswer {
          CallbackQuiet(t, answers, e.now);
          QuietOn(s, t, Callback(t, answers, e.now), e.now);
        } else if t.current.Some? {
          HeardQuiet(t, FAKE_ANSWER, answers, e.now);
          QuietOn(s, t, Heard(t, FAKE_ANSWER, answers, e.now), e.now);
        }
      } else {
        NothingQuiet(s, e.now);
      }
  }

  lemma NothingQuiet(s: State, now: Time)
    ensures Quiet(s, s, now)
  {}

  lemma SubmitShape(s: State, r: Request, now: Time)
    ensures Quiet(s, s.(pending := s.pending + [r], submitted := s.submitted + [r]), now)
  {
    assert s.dispatched + s.pending + [r] == s.dispatched + (s.pending + [r]);
  }

  lemma ResponseTimerQuiet(s: State, e: Event)
    requires e.action.ResponseTimer?
    ensures Quiet(s, Step(s, e), e.now)
  {
    hide Sending;
    var t := Step(s, e);
    if t != s {
      var h := t.ready[|s.ready|];
      SendingConcat(s.ready, [h]);
      SendingOne(h);
    }
  }

  /** An expired send timer hands its message over to a handler, at the same place in
      the line. */
  lemma SendTimerShape(s: State, e: Event)
    requires e.action.SendTimer?
    ensures var t := Step(s, e);
      && t == s.(sendWait := t.sendWait, ready := t.ready) && Waiting(t) == Waiting(s)
  {
    hide Sending;
    var t := Step(s, e);
    if t != s {
      var h := t.ready[|s.ready|];
      SendingConcat(s.ready, [h]);
      SendingOne(h);
    }
  }

  /** A handler of the send timer takes its message out of the line and onto the
      wire. */
  lemma SenderShape(s: State, e: Event)
    requires RunsSender(s, e)
    ensures var i, t := e.action.index, Step(s, e);
      var a, b, m := Sending(s.ready[..i]), Sending(s.ready[i + 1..]), s.ready[i].msg;
      && t == DoSend(TakeReady(s, i), m, e.now)
      && OnWire(t.wire) == OnWire(s.wire) + [m]
      && Waiting(s) == a + [m] + (b + Held(s.sendWait)) && Waiting(t) == a + (b + Held(s.sendWait))
  {
    hide Sending;
    var i := e.action.index;
    TakeReadySending(s, i);
    DoSendLine(TakeReady(s, i), s.ready[i].msg, e.now);
  }

  // ----- Exactly once -----

  /** Nothing is lost, duplicated or overtaken on its way through the queue, and
      everything taken off the queue is on the wire, on the send timer, or in a
      handler that will send it. */
  ghost predicate ExactlyOnce(s: State)
  {
    && s.submitted == s.dispatched + s.pending
    && multiset(Messages(s.dispatched)) == multiset(Line(s))
  }

  lemma QuietExactlyOnce(s: State, t: State, now: Time)
    requires ExactlyOnce(s) && Quiet(s, t, now)
    ensures ExactlyOnce(t)
  {
    hide Messages, OnWire, Sending;
  }

  lemma MessagesSnoc(rs: seq<Request>, r: Request)
    ensures Messages(rs + [r]) == Messages(rs) + [r.msg]
  {}

  /** What moving on does to the books. */
  lemma ContinueLine(s: State, now: Time)
    requires s.pending != []
    ensures var m, t := s.pending[0].msg, Continue(s, now);
      && Messages(t.dispatched) == Messages(s.dispatched) + [m]
      && t.dispatched + t.pending == s.dispatched + s.pending && t.submitted == s.submitted
      && (if TooSoon(s, m, now)
          then t.wire == s.wire && Waiting(t) == Waiting(s) + [m]
          else OnWire(t.wire) == OnWire(s.wire) + [m] && Waiting(t) == Waiting(s))
  {
    hide Dispatch, OnWire, Sending, Messages;
    var item := s.pending[0];
    var s1 := s.(current := Some(item.client));
    DispatchLine(s1, item.msg, now);
    DispatchKeepsQueue(s1, item.msg, now);
    MessagesSnoc(s.dispatched, item);
    assert s.pending == [item] + s.pending[1..];
  }

  lemma ContinueExactlyOnce(s: State, now: Time)
    requires ExactlyOnce(s)
    ensures ExactlyOnce(Continue(s, now))
  {
    hide Dispatch, OnWire, Waiting, Messages;
    if s.pending != [] {
      ContinueLine(s, now);
    } else {
      IdleWaiting(s);
    }
  }

  lemma IdleWaiting(s: State)
    ensures Waiting(s.(current := None)) == Waiting(s)
  {}

  lemma SenderExactlyOnce(s: State, e: Event)
    requires ExactlyOnce(s) && RunsSender(s, e)
    ensures ExactlyOnce(Step(s, e))
  {
    hide OnWire, Waiting, Messages, Sending;
    SenderShape(s, e);
  }

  lemma StepExactlyOnce(s: State, e: Event)
    requires ExactlyOnce(s)
    ensures ExactlyOnce(Step(s, e))
  {
    hide *;
    if RunsSender(s, e) {
      SenderExactlyOnce(s, e);
    } else if e.action.SendTimer? {
      SendTimerExactlyOnce(s, e);
    } else {
      var ts := Continues(s, e);
      EventShape(s, e);
      QuietExactlyOnce(s, if ts == [] then Step(s, e) else ts[0], e.now);
      if ts != [] {
        ContinueExactlyOnce(ts[0], e.now);
        ContinueExactlyOnce(ts[|ts| - 1], e.now);
      }
    }
  }

  lemma SendTimerExactlyOnce(s: State, e: Event)
    requires ExactlyOnce(s) && e.action.SendTimer?
    ensures ExactlyOnce(Step(s, e))
  {
    hide OnWire, Waiting, Messages, Step;
    SendTimerShape(s, e);
  }

  lemma InitExactlyOnce()
    ensures ExactlyOnce(INIT)
  {}

  lemma {:induction false} RunKeepsExactlyOnce(s: State, events: seq<Event>)
    requires ExactlyOnce(s)
    ensures ExactlyOnce(Run(s, events))
    decreases |events|
  {
    hide ExactlyOnce, Step;
    if events != [] {
      RunKeepsExactlyOnce(s, events[..|events| - 1]);
      StepExactlyOnce(Run(s, events[..|events| - 1]), events[|events| - 1]);
    }
  }

  /** Over every run: requests leave the queue in the order they came, and each
      one is sent exactly once or is about to be. */
  lemma {:induction false} RunExactlyOnce(events: seq<Event>)
    ensures ExactlyOnce(Run(INIT, events))
  {
    hide ExactlyOnce, Run;
    InitExactlyOnce();
    RunKeepsExactlyOnce(INIT, events);
  }

  // ----- Never wedged -----

  /** Some timer or handler will act on its own. */
  predicate Outstanding(s: State)
  {
    s.responseWait.Some? || s.sendWait.Some? || s.ready != []
  }

  /** Without a current client nothing is queued, and with one something is
      bound to happen. */
  predicate Live(s: State)
  {
    && (s.current.None? ==> s.pending == [])
    && (s.current.Some? ==> Outstanding(s))
  }

  lemma ContinueLive(s: State, now: Time)
    ensures Live(Continue(s, now))
  {}

  lemma StepLive(s: State, e: Event)
    requires Live(s)
    ensures Live(Step(s, e))
  {
    hide Continue, Callback, HandlePcMessage, DoSend;
    match e.action
    case Command(r) =>
      ContinueLive(s.(pending := s.pending + [r], submitted := s.submitted + [r]), e.now);
    case PcMessage(m, answers) => HandlePcLive(s, m, answers, e.now);
    case ResponseTimer =>
    case SendTimer =>
    case Completion(i, answers) =>
      if i < |s.ready| {
        RunHandlerLive(TakeReady(s, i), s.ready[i], answers, e.now);
      }
  }

  lemma HandlePcLive(s: State, m: Message, rs: seq<Request>, now: Time)
    ensures Live(HandlePcMessage(s, m, rs, now))
  {
    hide Continue, Callback;
    var s1 := s.(lastComm := s.lastComm[m.source := now], responseWait := None);
    ContinueLive(Callback(s1, rs, now), now);
  }

  lemma RunHandlerLive(s: State, h: Handler, rs: seq<Request>, now: Time)
    requires s.current.None? ==> s.pending == []
    ensures Live(RunHandler(s, h, rs, now))
  {
    hide Continue, Callback, HandlePcMessage;
    match h
    case SendReady(m) =>
    case ResponseExpired(false) => ContinueLive(Callback(s, rs, now), now);
    case ResponseExpired(true) =>
      ContinueLive(if s.current.Some? then HandlePcMessage(s, FAKE_ANSWER, rs, now) else s, now);
  }

  lemma {:induction false} RunLive(events: seq<Event>)
    ensures Live(Run(INIT, events))
    decreases |events|
  {
    hide Step;
    if events != [] {
      RunLive(events[..|events| - 1]);
      StepLive(Run(INIT, events[..|events| - 1]), events[|events| - 1]);
    }
  }
}
