// collector/CommandScheduler.cpp and collector/ApiCommandParser.cpp: the scheduler
// moves on whether or not the current client's request is settled. When that
// leaves a client behind, and that it is never picked up again.

module Stranding {
  import opened Bytes
  import opened Telegram
  import opened Collector
  import Scheduler
  import Session

  predicate NotQueued(rs: seq<Scheduler.Request>, c: Client)
  {
    forall i :: 0 <= i < |rs| ==> rs[i].client != c
  }

  /** Client c waits for an answer, but is neither current nor queued. */
  predicate Stranded(sys: System, c: Client)
  {
    && c < |sys.sessions| && sys.sessions[c].active.Some?
    && sys.sched.current != Some(c) && NotQueued(sys.sched.pending, c)
  }

  lemma FromOther(d: Client, ms: seq<Message>, c: Client)
    requires c != d
    ensures NotQueued(From(d, ms), c)
  {}

  lemma AnswersOther(sys: System, e: Session.Event, c: Client)
    requires sys.sched.current != Some(c)
    ensures NotQueued(Answers(sys, e), c)
    ensures c < |sys.sessions| ==> c < |Reacted(sys, e).sessions| && Reacted(sys, e).sessions[c] == sys.sessions[c]
  {
    hide Session.Respond;
    if HasCurrent(sys) {
      FromOther(sys.sched.current.value, React(sys, e).sends, c);
    }
  }

  lemma CommandLeaves(sys: System, e: Event, c: Client)
    requires Stranded(sys, c) && Scheduler.Live(sys.sched) && e.action.Command?
    ensures Stranded(Step(sys, e), c) && Step(sys, e).sessions[c] == sys.sessions[c]
  {
    hide Scheduler.SubmitAll, AllTelegrams, ObeyAll, Scheduler.Outstanding;
    var d := e.action.client;
    if Accepts(sys, d) {
      var rs := From(d, AllTelegrams(sys.sessions[d], e.action.orders));
      FromOther(d, AllTelegrams(sys.sessions[d], e.action.orders), c);
      SubmitAllQueue(sys.sched, rs, e.now);
    }
  }

  lemma PcLeaves(sys: System, e: Event, c: Client)
    requires Stranded(sys, c) && e.action.PcMessage?
    ensures Stranded(Step(sys, e), c) && Step(sys, e).sessions[c] == sys.sessions[c]
  {
    hide Scheduler.HandlePcMessage, Answers, Reacted;
    var news := Session.Reply(e.action.msg);
    AnswersOther(sys, news, c);
    PcQueue(sys.sched, e.action.msg, Answers(sys, news), e.now);
  }

  lemma CompletionLeaves(sys: System, e: Event, c: Client)
    requires Stranded(sys, c) && e.action.Completion? && e.action.index < |sys.sched.ready|
    ensures Stranded(Step(sys, e), c) && Step(sys, e).sessions[c] == sys.sessions[c]
  {
    hide Scheduler.RunHandler, Answers, Reacted;
    var i := e.action.index;
    var t := Scheduler.TakeReady(sys.sched, i);
    match sys.sched.ready[i]
    case SendReady(m) => RunSend(t, m, e.now);
    case ResponseExpired(fake) =>
      var rs := Answers(sys, News(fake));
      AnswersOther(sys, News(fake), c);
      if !fake {
        TimeoutQueue(t, rs, e.now);
      } else if t.current.Some? {
        FakeQueue(t, rs, e.now);
      } else {
        FakeWithoutClient(t, rs, e.now);
        ContinueQueue(t, e.now);
      }
  }

  lemma FakeWithoutClient(t: Scheduler.State, rs: seq<Scheduler.Request>, now: Time)
    requires t.current.None?
    ensures Scheduler.RunHandler(t, Scheduler.ResponseExpired(true), rs, now) == Scheduler.Continue(t, now)
  {}

  /** Once left behind, always left behind: no event whatsoever, neither the late
      answer nor a timer nor a command, touches the client's request again, and its
      own commands are refused as busy. */
  lemma StrandedStep(sys: System, e: Event, c: Client)
    requires Stranded(sys, c) && Inv(sys)
    ensures Stranded(Step(sys, e), c) && Step(sys, e).sessions[c] == sys.sessions[c]
    ensures !Accepts(sys, c)
  {
    hide Stranded, Step;
    assert !Accepts(sys, c) by {
      StrandedIsBusy(sys, c);
    }
    match e.action
    case Command(_, _) => CommandLeaves(sys, e, c);
    case PcMessage(_) => PcLeaves(sys, e, c);
    case ResponseTimer => OthersLeave(sys, e, c);
    case SendTimer => OthersLeave(sys, e, c);
    case Completion(i) =>
      if i < |sys.sched.ready| {
        CompletionLeaves(sys, e, c);
      } else {
        OthersLeave(sys, e, c);
      }
  }

  lemma StrandedIsBusy(sys: System, c: Client)
    requires Stranded(sys, c)
    ensures c < |sys.sessions| && !Accepts(sys, c)
  {}

  lemma OthersLeave(sys: System, e: Event, c: Client)
    requires Stranded(sys, c)
    requires || e.action.ResponseTimer? || e.action.SendTimer?
             || (e.action.Completion? && e.action.index >= |sys.sched.ready|)
    ensures Stranded(Step(sys, e), c) && Step(sys, e).sessions[c] == sys.sessions[c]
  {}

  lemma {:induction false} StrandedForever(sys: System, events: seq<Event>, c: Client)
    requires Stranded(sys, c) && Inv(sys)
    ensures Stranded(Run(sys, events), c) && Run(sys, events).sessions[c] == sys.sessions[c]
    decreases |events|
  {
    hide Step, Inv;
    if events != [] {
      var init := events[..|events| - 1];
      StrandedForever(sys, init, c);
      RunInv(sys, init);
      StrandedStep(Run(sys, init), events[|events| - 1], c);
    }
  }

  // ----- How it happens -----

  /** The session of an active request passes over this message: it is not for the
      request, or the request is for a type that is neither handled nor output
      raw. */
  predicate PassesOver(s: Session.Session, m: Message)
  {
    m.Type() != 0xff && (Session.Matches(s, m) ==> !s.raw && !Session.Handled(s.requestType))
  }

  lemma SettledOrAsking(s: Session.Session, m: Message)
    requires s.active.Some?
    ensures var o := Session.OnIncomingMessage(s, m);
      (o.session.active.Some? && o.sends == []) <==> PassesOver(s, m)
  {
    hide Session.ParseRecords, Session.AskForRest, Session.ContactLines;
    if m.Type() != 0xff && Session.Matches(s, m) {
      HandledOrAsking(Session.Accept(s, m.data));
    }
  }

  lemma HandledOrAsking(s: Session.Session)
    requires s.active.Some?
    ensures var o := if s.raw then Session.HandleRaw(s) else Session.HandleResponse(s);
      && o.session.active.Some?
      && (o.sends == [] <==> !o.result.Ongoing?)
      && (o.result.Failure? <==> !s.raw && !Session.Handled(s.requestType))
  {
    hide Session.ParseRecords;
  }

  /** A message from the bus leaves the current client behind exactly when its
      session passes over it and nothing else of that client is queued. */
  lemma StrandedByMessage(sys: System, m: Message, now: Time)
    requires HasCurrent(sys) && Current(sys).active.Some?
    ensures var c := sys.sched.current.value;
      Stranded(Step(sys, Event(now, PcMessage(m))), c) <==>
      (PassesOver(Current(sys), m) && NotQueued(sys.sched.pending, c))
  {
    hide Scheduler.HandlePcMessage, Session.OnIncomingMessage, PassesOver;
    var c := sys.sched.current.value;
    var news := Session.Reply(m);
    var rs := Answers(sys, news);
    SettledOrAsking(Current(sys), m);
    PcQueue(sys.sched, m, rs, now);
    assert rs != [] ==> rs[0].client == c;
    MovesOn(sys.sched.pending, rs, c);
  }

  /** One request leaves the front of the queue, after rs has joined it: client c
      is served still if and only if it was queued or is in rs. */
  lemma MovesOn(pending: seq<Scheduler.Request>, rs: seq<Scheduler.Request>, c: Client)
    ensures var q := pending + rs;
      (q == [] || (q[0].client != c && NotQueued(q[1..], c))) <==> NotQueued(pending, c) && NotQueued(rs, c)
  {
    var q := pending + rs;
    assert q != [] ==> q == [q[0]] + q[1..];
    NotQueuedConcat(pending, rs, c);
    if q != [] {
      NotQueuedConcat([q[0]], q[1..], c);
    }
  }

  lemma NotQueuedConcat(a: seq<Scheduler.Request>, b: seq<Scheduler.Request>, c: Client)
    ensures NotQueued(a + b, c) <==> NotQueued(a, c) && NotQueued(b, c)
  {
    assert forall i :: 0 <= i < |a| ==> (a + b)[i] == a[i];
    assert forall i :: 0 <= i < |b| ==> (a + b)[|a| + i] == b[i];
  }

  /** Client c's request goes to the front and past: the made-up answer to the
      current client's write moves the queue on once, which makes c current, and
      then once more. */
  predicate SkippedByWrite(sys: System, i: nat, c: Client)
  {
    && i < |sys.sched.ready| && sys.sched.ready[i] == Scheduler.ResponseExpired(true)
    && sys.sched.current.Some? && sys.sched.current != Some(c)
    && c < |sys.sessions| && sys.sessions[c].active.Some?
    && sys.sched.pending != [] && sys.sched.pending[0].client == c
    && NotQueued(sys.sched.pending[1..], c)
  }

  /** The current client's session passes over a message, and nothing else of the
      client is queued. */
  predicate SkippedByMessage(sys: System, m: Message, c: Client)
  {
    && sys.sched.current == Some(c) && c < |sys.sessions| && sys.sessions[c].active.Some?
    && PassesOver(sys.sessions[c], m) && NotQueued(sys.sched.pending, c)
  }

  predicate LeavesBehind(sys: System, e: Event, c: Client)
  {
    match e.action
    case PcMessage(m) => SkippedByMessage(sys, m, c)
    case Completion(i) => SkippedByWrite(sys, i, c)
    case _ => false
  }

  /** A client other than the current one, when one request leaves the front of the
      queue, is served still. */
  lemma OthersMoveUp(sys: System, news: Session.Event, c: Client, t: Scheduler.State)
    requires Scheduler.Live(sys.sched) && !Stranded(sys, c) && sys.sched.current != Some(c)
    requires var q := Popped(sys.sched, Answers(sys, news));
      && t.current == (if q == [] then None else Some(q[0].client))
      && t.pending == (if q == [] then [] else q[1..])
    ensures !Stranded(Reacted(sys, news).(sched := t), c)
  {
    hide Answers, Reacted, Scheduler.Outstanding;
    var rs := Answers(sys, news);
    AnswersOther(sys, news, c);
    ReactedCount(sys, news);
    if sys.sched.current.Some? {
      MovesOn(sys.sched.pending, rs, c);
    }
  }

  lemma ReactedCount(sys: System, news: Session.Event)
    ensures |Reacted(sys, news).sessions| == |sys.sessions|
  {}

  lemma MessageStrands(sys: System, m: Message, now: Time, c: Client)
    requires Inv(sys) && !Stranded(sys, c)
    ensures Stranded(Step(sys, Event(now, PcMessage(m))), c) <==> SkippedByMessage(sys, m, c)
  {
    hide Scheduler.HandlePcMessage, Answers, Reacted, PassesOver, SessionsValid, Scheduler.Outstanding;
    var news := Session.Reply(m);
    PcQueue(sys.sched, m, Answers(sys, news), now);
    if sys.sched.current != Some(c) {
      OthersMoveUp(sys, news, c, Scheduler.HandlePcMessage(sys.sched, m, Answers(sys, news), now));
    } else if c < |sys.sessions| && sys.sessions[c].active.Some? {
      StrandedByMessage(sys, m, now);
    } else {
      IdleStaysIdle(sys, news, c);
    }
  }

  lemma IdleStaysIdle(sys: System, news: Session.Event, c: Client)
    requires c < |sys.sessions| ==> sys.sessions[c].active.None?
    ensures c < |Reacted(sys, news).sessions| ==> Reacted(sys, news).sessions[c].active.None?
  {
    hide Session.HandleResponse, Session.HandleRaw;
  }

  /** A timeout leaves nobody behind: the current client gives up or is queued
      again. */
  lemma TimeoutStrandsNobody(sys: System, i: nat, now: Time, c: Client)
    requires Inv(sys) && !Stranded(sys, c)
    requires i < |sys.sched.ready| && sys.sched.ready[i] == Scheduler.ResponseExpired(false)
    ensures !Stranded(Step(sys, Event(now, Completion(i))), c)
  {
    hide Scheduler.RunHandler, Answers, Reacted, SessionsValid, Scheduler.Outstanding;
    var t := Scheduler.TakeReady(sys.sched, i);
    var rs := Answers(sys, Session.Timeout);
    var after := Scheduler.RunHandler(t, Scheduler.ResponseExpired(false), rs, now);
    TimeoutQueue(t, rs, now);
    if sys.sched.current != Some(c) {
      OthersMoveUp(sys, Session.Timeout, c, after);
    } else if c < |sys.sessions| && sys.sessions[c].active.Some? {
      GivesUpOrRepeats(sys, c);
      MovesOn(t.pending, rs, c);
    } else {
      IdleStaysIdle(sys, Session.Timeout, c);
    }
  }

  lemma GivesUpOrRepeats(sys: System, c: Client)
    requires sys.sched.current == Some(c) && c < |sys.sessions| && sys.sessions[c].active.Some?
    ensures c < |Reacted(sys, Session.Timeout).sessions|
    ensures Reacted(sys, Session.Timeout).sessions[c].active.None? || !NotQueued(Answers(sys, Session.Timeout), c)
  {
    var rs := Answers(sys, Session.Timeout);
    if rs != [] {
      assert rs[0].client == c;
    }
  }

  /** The made-up answer settles the current client, and leaves another one behind
      exactly when its only queued request is the first in the queue. */
  lemma StrandedByWrite(sys: System, i: nat, now: Time, c: Client)
    requires Inv(sys) && !Stranded(sys, c)
    requires i < |sys.sched.ready| && sys.sched.ready[i] == Scheduler.ResponseExpired(true)
    ensures Stranded(Step(sys, Event(now, Completion(i))), c) <==> SkippedByWrite(sys, i, c)
  {
    hide Scheduler.RunHandler, Answers, Reacted, SessionsValid, Scheduler.Outstanding;
    var t := Scheduler.TakeReady(sys.sched, i);
    var rs := Answers(sys, News(true));
    SettledByFake(sys, c);
    if t.current.None? {
      FakeWithoutClient(t, rs, now);
      ContinueQueue(t, now);
      NobodyReacts(sys, News(true));
    } else {
      FakeQueue(t, rs, now);
      assert t.pending + [] == t.pending;
      ReactedCount(sys, News(true));
      if sys.sched.current != Some(c) {
        AnswersOther(sys, News(true), c);
        TwoMoveOn(t.pending, c);
      }
    }
  }

  lemma NobodyReacts(sys: System, news: Session.Event)
    requires sys.sched.current.None?
    ensures Reacted(sys, news) == sys && Answers(sys, news) == []
  {}

  lemma SettledByFake(sys: System, c: Client)
    ensures Answers(sys, News(true)) == []
    ensures sys.sched.current == Some(c) && c < |Reacted(sys, News(true)).sessions| ==>
      Reacted(sys, News(true)).sessions[c].active.None?
  {
    hide Session.HandleResponse, Session.HandleRaw;
    FakeAnswerIs();
  }

  lemma TwoMoveOn(q: seq<Scheduler.Request>, c: Client)
    ensures (|q| < 2 || (q[1].client != c && NotQueued(q[2..], c))) <==>
      NotQueued(q, c) || (q[0].client == c && NotQueued(q[1..], c))
  {
    if q != [] {
      assert q == [q[0]] + q[1..];
      NotQueuedConcat([q[0]], q[1..], c);
    }
    if |q| >= 2 {
      assert q[1..] == [q[1]] + q[2..];
      NotQueuedConcat([q[1]], q[2..], c);
    }
  }

  lemma CommandStrandsNobody(sys: System, d: Client, orders: seq<Order>, now: Time, c: Client)
    requires Inv(sys) && !Stranded(sys, c)
    ensures !Stranded(Step(sys, Event(now, Command(d, orders))), c)
  {
    hide Scheduler.SubmitAll, AllTelegrams, ObeyAll, Scheduler.Outstanding, SessionsValid;
    if Accepts(sys, d) {
      var ms := AllTelegrams(sys.sessions[d], orders);
      var rs := From(d, ms);
      SubmitAllQueue(sys.sched, rs, now);
      NotQueuedConcat(sys.sched.pending, rs, c);
      if c == d {
        ActiveHasAsked(sys.sessions[d], orders);
        if ms != [] {
          assert rs[0].client == c;
        }
      }
    }
  }

  lemma {:induction false} ActiveHasAsked(s: Session.Session, orders: seq<Order>)
    requires s.active.None?
    ensures ObeyAll(s, orders).active.Some? ==> AllTelegrams(s, orders) != []
    decreases |orders|
  {
    if orders != [] {
      ActiveHasAsked(s, orders[..|orders| - 1]);
    }
  }

  lemma SendStrandsNobody(sys: System, i: nat, now: Time, c: Client)
    requires !Stranded(sys, c) && i < |sys.sched.ready| && sys.sched.ready[i].SendReady?
    ensures !Stranded(Step(sys, Event(now, Completion(i))), c)
  {
    RunSend(Scheduler.TakeReady(sys.sched, i), sys.sched.ready[i].msg, now);
  }

  lemma TimersStrandNobody(sys: System, e: Event, c: Client)
    requires !Stranded(sys, c)
    requires || e.action.ResponseTimer? || e.action.SendTimer?
             || (e.action.Completion? && e.action.index >= |sys.sched.ready|)
    ensures !Stranded(Step(sys, e), c)
  {}

  /** These are all the ways there are: in any state a run can reach, an event
      leaves client c behind if and only if it is a message its session passes over
      or a made-up answer that skips its request, and nothing else of it is
      queued. */
  lemma LeftBehindExactly(sys: System, e: Event, c: Client)
    requires Inv(sys) && !Stranded(sys, c)
    ensures Stranded(Step(sys, e), c) <==> LeavesBehind(sys, e, c)
  {
    hide Stranded, Step, Inv, SkippedByMessage;
    match e.action
    case Command(d, orders) => CommandStrandsNobody(sys, d, orders, e.now, c);
    case PcMessage(m) => MessageStrands(sys, m, e.now, c);
    case ResponseTimer => TimersStrandNobody(sys, e, c);
    case SendTimer => TimersStrandNobody(sys, e, c);
    case Completion(i) =>
      if i >= |sys.sched.ready| {
        TimersStrandNobody(sys, e, c);
      } else {
        match sys.sched.ready[i]
        case SendReady(_) => SendStrandsNobody(sys, i, e.now, c);
        case ResponseExpired(false) => TimeoutStrandsNobody(sys, i, e.now, c);
        case ResponseExpired(true) => StrandedByWrite(sys, i, e.now, c);
      }
  }

  /** Over whole runs: client c ends up behind exactly if it started out behind or
      one of those events happened on the way. */
  lemma {:induction false} StrandedExactly(sys: System, events: seq<Event>, c: Client)
    requires Inv(sys)
    ensures Stranded(Run(sys, events), c) <==>
      Stranded(sys, c) || exists k :: 0 <= k < |events| && LeavesBehind(Run(sys, events[..k]), events[k], c)
    decreases |events|
  {
    hide Step, Inv, Stranded, LeavesBehind;
    if events != [] {
      var n := |events| - 1;
      var init, last := events[..n], events[n];
      var mid := Run(sys, init);
      StrandedExactly(sys, init, c);
      RunInv(sys, init);
      assert forall k :: 0 <= k < n ==> init[..k] == events[..k] && init[k] == events[k];
      if Stranded(mid, c) {
        StrandedStep(mid, last, c);
      } else {
        LeftBehindExactly(mid, last, c);
      }
    }
  }

  /** So without them every client with an active request is current or queued. */
  lemma NobodyLeftBehind(sys: System, events: seq<Event>, c: Client)
    requires Inv(sys) && c < |sys.sessions| && sys.sessions[c].active.None?
    requires forall k :: 0 <= k < |events| ==> !LeavesBehind(Run(sys, events[..k]), events[k], c)
    ensures var t := Run(sys, events);
      c < |t.sessions| && t.sessions[c].active.Some? ==> t.sched.current == Some(c) || !NotQueued(t.sched.pending, c)
  {
    hide Run, Inv, LeavesBehind;
    StrandedExactly(sys, events, c);
  }
}
