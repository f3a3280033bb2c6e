// What clients are told in the end (collector/CommandHandler.cpp): OK, FAIL or
// ERRTIMEOUT.

module Verdicts {
  import opened Bytes
  import opened Telegram
  import opened Collector
  import opened Bookkeeping
  import opened Clients
  import Scheduler
  import Session

  /** An event tells at most the current client something. */
  lemma ToldStep(sys: System, e: Event)
    ensures Step(sys, e).told ==
      if Seen(sys, e).Some? && HasCurrent(sys) && VerdictOf(Seen(sys, e).value, React(sys, Seen(sys, e).value).result).Some?
      then sys.told + [Told(sys.sched.current.value, VerdictOf(Seen(sys, e).value, React(sys, Seen(sys, e).value).result).value)]
      else sys.told
  {
    hide Scheduler.SubmitAll, Scheduler.HandlePcMessage, Scheduler.RunHandler, Scheduler.Step, ObeyAll, AllTelegrams,
         Session.Respond, Answers;
  }

  // ----- Acknowledgements -----

  /** A telegram of type 0xff, or the answer the scheduler makes up for a write. */
  predicate Acknowledges(sys: System, e: Event)
  {
    || (e.action.PcMessage? && e.action.msg.Type() == 0xff)
    || (e.action.Completion? && e.action.index < |sys.sched.ready|
        && sys.sched.ready[e.action.index] == Scheduler.ResponseExpired(true))
  }

  predicate Refuses(e: Event)
  {
    e.action.PcMessage? && e.action.msg.offset == 0x04
  }

  /** In every state: an acknowledgement that reaches an active current client settles
      its request and tells it FAIL if it is a refusal (offset 4), and otherwise OK,
      exactly once, and nobody else anything. */
  lemma AcknowledgedOnce(sys: System, e: Event, c: Client)
    requires sys.sched.current == Some(c) && c < |sys.sessions| && sys.sessions[c].active.Some?
    requires Acknowledges(sys, e)
    ensures Step(sys, e).told == sys.told + [Told(c, if Refuses(e) then Failed else Ok)]
    ensures c < |Step(sys, e).sessions| && Step(sys, e).sessions[c].active.None?
  {
    hide Step, Session.HandleResponse, Session.HandleRaw;
    ToldStep(sys, e);
    SessionStep(sys, e, c);
    FakeAnswerIs();
  }

  // ----- Replies -----

  /** A reply that fits an active request of the current client. */
  predicate Fits(sys: System, m: Message, c: Client)
  {
    && sys.sched.current == Some(c) && c < |sys.sessions| && sys.sessions[c].active.Some?
    && m.Type() != 0xff && Session.Matches(sys.sessions[c], m)
  }

  /** Replies with parameters, unless they are output raw, settle the request at once;
      those of a type that is not handled tell the client FAIL, and leave the request
      as it is. */
  lemma ParameterReply(sys: System, m: Message, now: Time, c: Client)
    requires Fits(sys, m, c) && !sys.sessions[c].raw
    ensures var t := Step(sys, Event(now, PcMessage(m))); c < |t.sessions|
    ensures var t := Step(sys, Event(now, PcMessage(m)));
      && (m.Type() in {0x0015, 0x00ea, 0x0140, 0x01a5, 0x01af, 0x01b9, 0x01f5} ==>
            t.told == sys.told + [Told(c, Ok)] && t.sessions[c].active.None?)
      && (m.Type() !in {0x02, 0x0015, 0x00bf, 0x00c0, 0x00c2, 0x00ea, 0x0137, 0x0140, 0x01a5, 0x01af, 0x01b9, 0x01f5} ==>
            t.told == sys.told + [Told(c, Failed)] && t.sessions[c].active.Some?)
  {
    hide Step, Session.HandleRaw, Session.LoopOverResponse;
    var e := Event(now, PcMessage(m));
    ToldStep(sys, e);
    SessionStep(sys, e, c);
  }

  // ----- One verdict for each command -----

  function Verdicts(told: seq<Told>, c: Client): nat
  {
    TimesTold(told, c, Ok) + TimesTold(told, c, Failed) + TimesTold(told, c, TimedOut)
  }

  function Busy(s: Session.Session): nat
  {
    if s.active.Some? then 1 else 0
  }

  /** Requests the session has a use for. */
  predicate Proper(s: Session.Session)
  {
    s.raw || Session.Handled(s.requestType)
  }

  predicate ProperOrders(orders: seq<Order>)
  {
    forall i :: 0 <= i < |orders| && orders[i].Read? ==> orders[i].raw || Session.Handled(orders[i].typ)
  }

  predicate ProperRun(events: seq<Event>)
  {
    forall i :: 0 <= i < |events| && events[i].action.Command? ==> ProperOrders(events[i].action.orders)
  }

  lemma HandlingIsProper(s: Session.Session)
    requires s.active.Some? && Proper(s)
    ensures var o := if s.raw then Session.HandleRaw(s) else Session.HandleResponse(s);
      Proper(o.session) && o.session.active.Some? && !o.result.Failure?
  {
    hide Session.ParseRecords;
  }

  /** A session stops being busy exactly when its client is told something. */
  lemma RespondSettles(s: Session.Session, e: Session.Event)
    requires Session.Valid(s) && Proper(s)
    ensures var o := Session.Respond(s, e);
      && Proper(o.session)
      && Busy(o.session) + (if VerdictOf(e, o.result).Some? then 1 else 0) == Busy(s)
  {
    hide Session.HandleResponse, Session.HandleRaw, Session.Matches;
    if e.Reply? && s.active.Some? && e.msg.Type() != 0xff && Session.Matches(s, e.msg) {
      HandlingIsProper(Session.Accept(s, e.msg.data));
    }
  }

  lemma {:induction false} ObeyIsProper(s: Session.Session, orders: seq<Order>)
    requires Proper(s) && ProperOrders(orders)
    ensures Proper(ObeyAll(s, orders))
    ensures s.active.None? ==> (ObeyAll(s, orders).active.Some? <==> AllTelegrams(s, orders) != [])
    decreases |orders|
  {
    hide Session.Handled;
    if orders != [] {
      ObeyIsProper(s, orders[..|orders| - 1]);
    }
  }

  lemma VerdictSnoc(told: seq<Told>, t: Told, c: Client)
    ensures Verdicts(told + [t], c) == Verdicts(told, c) + if t.client == c then 1 else 0
  {
    TimesToldSnoc(told, t, c, Ok);
    TimesToldSnoc(told, t, c, Failed);
    TimesToldSnoc(told, t, c, TimedOut);
    assert t == Told(t.client, t.verdict);
    assert t.verdict == Ok || t.verdict == Failed || t.verdict == TimedOut;
  }

  lemma StepSettles(sys: System, e: Event, c: Client)
    requires c < |sys.sessions| && Session.Valid(sys.sessions[c]) && Proper(sys.sessions[c])
    requires e.action.Command? ==> ProperOrders(e.action.orders)
    ensures var t := Step(sys, e);
      && c < |t.sessions| && Proper(t.sessions[c])
      && Verdicts(t.told, c) + Busy(t.sessions[c])
         == Verdicts(sys.told, c) + Busy(sys.sessions[c]) + if Queued(sys, e, c) > 0 then 1 else 0
  {
    hide Step, ObeyAll, AllTelegrams, Session.Respond, Session.Valid, Proper, Verdicts, ProperOrders, VerdictOf;
    SessionStep(sys, e, c);
    ToldStep(sys, e);
    if e.action.Command? {
      ObeyIsProper(sys.sessions[c], e.action.orders);
    }
    if Seen(sys, e).Some? && HasCurrent(sys) {
      var d := sys.sched.current.value;
      var v := VerdictOf(Seen(sys, e).value, React(sys, Seen(sys, e).value).result);
      if v.Some? {
        VerdictSnoc(sys.told, Told(d, v.value), c);
      }
      RespondSettles(sys.sessions[c], Seen(sys, e).value);
    }
  }

  /** Over every run, whatever is on the bus: a client is told something, OK, FAIL or
      ERRTIMEOUT, exactly once for each command that asked or wrote anything, but for
      the one it may still be waiting on. */
  lemma {:induction false} OneVerdictEach(sys: System, events: seq<Event>, c: Client)
    requires Inv(sys) && c < |sys.sessions| && Proper(sys.sessions[c]) && ProperRun(events)
    ensures var t := Run(sys, events);
      && c < |t.sessions| && Proper(t.sessions[c])
      && Verdicts(t.told, c) + Busy(t.sessions[c])
         == Verdicts(sys.told, c) + Busy(sys.sessions[c]) + Commands(sys, events, c)
    decreases |events|
  {
    hide Step, Session.Valid, Proper, Verdicts, ProperOrders, Queued, Scheduler.Live;
    if events != [] {
      OneVerdictEach(sys, events[..|events| - 1], c);
      RunInv(sys, events[..|events| - 1]);
      StepSettles(Run(sys, events[..|events| - 1]), events[|events| - 1], c);
    }
  }
}
