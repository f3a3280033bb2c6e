// Scheduler and sessions together, seen by one client: what its responses hold, and
// what its commands can cost, over whole runs with any number of other clients.

module Clients {
  import opened Bytes
  import opened Telegram
  import opened Collector
  import opened Bookkeeping
  import Scheduler
  import Session
  import Fetch
  import HistoryRead
  import RecordStream

  /** How everything starts; what an idle session remembers is left open, as the source
      leaves those members unset. */
  ghost predicate Started(sys: System)
  {
    sys.sched == Scheduler.INIT && forall c :: 0 <= c < |sys.sessions| ==> sys.sessions[c].active.None?
  }

  lemma StartedInv(sys: System)
    requires Started(sys)
    ensures Inv(sys) && Scheduler.ExactlyOnce(sys.sched)
  {
    Scheduler.InitExactlyOnce();
  }

  // ----- What a client does in a step -----

  /** What the sessions hand to the scheduler in an event. */
  function Requests(sys: System, e: Event): seq<Scheduler.Request>
  {
    match e.action
    case Command(c, orders) => if Accepts(sys, c) then From(c, AllTelegrams(sys.sessions[c], orders)) else []
    case PcMessage(m) => Answers(sys, Session.Reply(m))
    case ResponseTimer => []
    case SendTimer => []
    case Completion(i) =>
      if i < |sys.sched.ready| && sys.sched.ready[i].ResponseExpired?
      then Answers(sys, News(sys.sched.ready[i].fakeAnswer)) else []
  }

  lemma HeardBooks(s: Scheduler.State, m: Message, rs: seq<Scheduler.Request>, now: Time, c: Client)
    requires rs != [] ==> s.current.Some?
    ensures InBooks(Scheduler.HandlePcMessage(s, m, rs, now), c) == InBooks(s, c) + Count(rs, c)
  {
    hide Scheduler.Continue, Scheduler.Callback, Count;
    var s1 := s.(lastComm := s.lastComm[m.source := now], responseWait := None);
    CallbackBooks(s1, rs, now, c);
    ContinueBooks(Scheduler.Callback(s1, rs, now), now, c);
  }

  lemma CallbackBooks(s: Scheduler.State, rs: seq<Scheduler.Request>, now: Time, c: Client)
    requires rs != [] ==> s.current.Some?
    ensures InBooks(Scheduler.Callback(s, rs, now), c) == InBooks(s, c) + Count(rs, c)
  {
    hide Scheduler.SubmitAll;
    if s.current.Some? {
      SubmitAllBooks(s, rs, now, c);
    } else {
      EmptyCount(c);
    }
  }

  lemma ExpiryBooks(s: Scheduler.State, fake: bool, rs: seq<Scheduler.Request>, now: Time, c: Client)
    requires rs != [] ==> s.current.Some?
    ensures InBooks(Scheduler.RunHandler(s, Scheduler.ResponseExpired(fake), rs, now), c) == InBooks(s, c) + Count(rs, c)
  {
    hide Scheduler.Continue, Scheduler.Callback, Scheduler.HandlePcMessage, Count;
    if !fake {
      CallbackBooks(s, rs, now, c);
      ContinueBooks(Scheduler.Callback(s, rs, now), now, c);
    } else if s.current.Some? {
      HeardBooks(s, Scheduler.FAKE_ANSWER, rs, now, c);
      ContinueBooks(Scheduler.HandlePcMessage(s, Scheduler.FAKE_ANSWER, rs, now), now, c);
    } else {
      EmptyCount(c);
      ContinueBooks(s, now, c);
    }
  }

  lemma StepBooked(sys: System, e: Event, c: Client)
    ensures InBooks(Step(sys, e).sched, c) == InBooks(sys.sched, c) + Count(Requests(sys, e), c)
  {
    hide Scheduler.SubmitAll, Scheduler.HandlePcMessage, Scheduler.RunHandler, Count, Reacted, AllTelegrams, ObeyAll,
         Session.Respond;
    EmptyCount(c);
    match e.action
    case Command(d, orders) =>
      if Accepts(sys, d) {
        SubmitAllBooks(sys.sched, From(d, AllTelegrams(sys.sessions[d], orders)), e.now, c);
      }
    case PcMessage(m) => HeardBooks(sys.sched, m, Answers(sys, Session.Reply(m)), e.now, c);
    case ResponseTimer =>
    case SendTimer =>
    case Completion(i) =>
      if i < |sys.sched.ready| {
        var t := Scheduler.TakeReady(sys.sched, i);
        match sys.sched.ready[i]
        case SendReady(m) => RunSend(t, m, e.now);
        case ResponseExpired(fake) => ExpiryBooks(t, fake, Answers(sys, News(fake)), e.now, c);
      }
  }

  /** The session event a client sees in an event of the system, if any. */
  function Seen(sys: System, e: Event): Option<Session.Event>
  {
    match e.action
    case PcMessage(m) => Some(Session.Reply(m))
    case Completion(i) =>
      if i < |sys.sched.ready| && sys.sched.ready[i].ResponseExpired?
      then Some(News(sys.sched.ready[i].fakeAnswer)) else None
    case _ => None
  }

  /** A client's session obeys its commands, and responds to what it sees while it is
      current; nothing else ever changes it. */
  lemma SessionStep(sys: System, e: Event, c: Client)
    requires c < |sys.sessions|
    ensures |Step(sys, e).sessions| == |sys.sessions|
    ensures Step(sys, e).sessions[c] ==
      if e.action == Command(c, if e.action.Command? then e.action.orders else []) && Accepts(sys, c)
      then ObeyAll(sys.sessions[c], e.action.orders)
      else if Seen(sys, e).Some? && sys.sched.current == Some(c)
      then Session.Respond(sys.sessions[c], Seen(sys, e).value).session
      else sys.sessions[c]
  {
    hide Scheduler.SubmitAll, Scheduler.HandlePcMessage, Scheduler.RunHandler, Scheduler.Step, ObeyAll, AllTelegrams,
         Session.Respond, Answers;
  }

  /** And what it hands to the scheduler comes from just there. */
  lemma RequestsOf(sys: System, e: Event, c: Client)
    requires c < |sys.sessions|
    ensures Count(Requests(sys, e), c) ==
      if e.action == Command(c, if e.action.Command? then e.action.orders else []) && Accepts(sys, c)
      then |AllTelegrams(sys.sessions[c], e.action.orders)|
      else if Seen(sys, e).Some? && sys.sched.current == Some(c)
      then |Session.Respond(sys.sessions[c], Seen(sys, e).value).sends|
      else 0
  {
    hide Count, AllTelegrams, Session.Respond;
    EmptyCount(c);
    if e.action.Command? && Accepts(sys, e.action.client) {
      CountFrom(e.action.client, AllTelegrams(sys.sessions[e.action.client], e.action.orders), c);
    } else if Seen(sys, e).Some? && HasCurrent(sys) {
      CountFrom(sys.sched.current.value, React(sys, Seen(sys, e).value).sends, c);
    }
  }

  // ----- Responses are slices of memory -----

  ghost predicate TruthfulRun(events: seq<Event>, mem: Session.Memory)
  {
    forall i :: 0 <= i < |events| && events[i].action.PcMessage? ==> Session.Truthful(events[i].action.msg, mem)
  }

  lemma {:induction false} ObeyHoldsSlice(s: Session.Session, orders: seq<Order>, mem: Session.Memory)
    requires Session.HoldsSlice(s, mem)
    ensures Session.HoldsSlice(ObeyAll(s, orders), mem)
    decreases |orders|
  {
    if orders != [] {
      ObeyHoldsSlice(s, orders[..|orders| - 1], mem);
    }
  }

  lemma StepHoldsSlice(sys: System, e: Event, c: Client, mem: Session.Memory)
    requires c < |sys.sessions| && Session.HoldsSlice(sys.sessions[c], mem)
    requires e.action.PcMessage? ==> Session.Truthful(e.action.msg, mem)
    ensures c < |Step(sys, e).sessions| && Session.HoldsSlice(Step(sys, e).sessions[c], mem)
  {
    hide Step, ObeyAll, Session.Respond, Session.HoldsSlice;
    SessionStep(sys, e, c);
    if e.action.Command? {
      ObeyHoldsSlice(sys.sessions[c], e.action.orders, mem);
    }
    if Seen(sys, e).Some? {
      Session.RespondHoldsSlice(sys.sessions[c], Seen(sys, e).value, mem);
    }
  }

  /** As long as the devices tell the truth: over every run, with any commands of any
      clients, messages for whomever, timeouts and made-up answers, each client's
      response is the stretch of memory that starts at the offset it asked for. */
  lemma {:induction false} ResponsesAreSlices(sys: System, events: seq<Event>, c: Client, mem: Session.Memory)
    requires c < |sys.sessions| && Session.HoldsSlice(sys.sessions[c], mem) && TruthfulRun(events, mem)
    ensures c < |Run(sys, events).sessions| && Session.HoldsSlice(Run(sys, events).sessions[c], mem)
    decreases |events|
  {
    hide Step, Session.HoldsSlice, Session.Truthful;
    if events != [] {
      ResponsesAreSlices(sys, events[..|events| - 1], c, mem);
      StepHoldsSlice(Run(sys, events[..|events| - 1]), events[|events| - 1], c, mem);
    }
  }

  // ----- What commands cost -----

  function OrderCost(o: Order): nat
  {
    match o
    case Read(dest, typ, _, length, raw) =>
      5 * length + (if !raw && typ == 0x02 then 15 * Session.SourcesAfter(dest) else 0)
    case Write(_, _, _, _) => 5
  }

  function CommandCost(orders: seq<Order>): nat
  {
    if orders == [] then 0 else CommandCost(orders[..|orders| - 1]) + OrderCost(orders[|orders| - 1])
  }

  /** What the commands of client c that were accepted in a run may cost. */
  function Allowed(sys: System, events: seq<Event>, c: Client): nat
  {
    if events == [] then 0
    else
      var init, last := events[..|events| - 1], events[|events| - 1];
      Allowed(sys, init, c)
      + (if last.action.Command? && last.action.client == c && Accepts(Run(sys, init), c)
         then CommandCost(last.action.orders) else 0)
  }

  lemma OrderBudget(s: Session.Session, o: Order)
    requires Session.Valid(s)
    ensures Session.Valid(Obey(s, o))
    ensures |Telegrams(s, o)| + Session.Budget(Obey(s, o)) <= Session.Budget(s) + OrderCost(o)
  {}

  lemma {:induction false} CommandBudget(s: Session.Session, orders: seq<Order>)
    requires Session.Valid(s)
    ensures Session.Valid(ObeyAll(s, orders))
    ensures |AllTelegrams(s, orders)| + Session.Budget(ObeyAll(s, orders)) <= Session.Budget(s) + CommandCost(orders)
    decreases |orders|
  {
    hide Session.Valid, Session.Budget, Obey, Telegrams, OrderCost;
    if orders != [] {
      var init, last := orders[..|orders| - 1], orders[|orders| - 1];
      CommandBudget(s, init);
      OrderBudget(ObeyAll(s, init), last);
    }
  }

  lemma StepCost(sys: System, e: Event, c: Client)
    requires c < |sys.sessions| && Session.Valid(sys.sessions[c])
    ensures var t := Step(sys, e);
      && c < |t.sessions| && Session.Valid(t.sessions[c])
      && InBooks(t.sched, c) + Session.Budget(t.sessions[c]) <= InBooks(sys.sched, c) + Session.Budget(sys.sessions[c])
         + (if e.action.Command? && e.action.client == c && Accepts(sys, c) then CommandCost(e.action.orders) else 0)
  {
    hide Step, Requests, InBooks, ObeyAll, AllTelegrams, Session.Respond, Session.Valid, Session.Budget, CommandCost;
    SessionStep(sys, e, c);
    StepBooked(sys, e, c);
    RequestsOf(sys, e, c);
    if e.action.Command? {
      CommandBudget(sys.sessions[c], e.action.orders);
    }
    if Seen(sys, e).Some? {
      Session.RespondBudget(sys.sessions[c], Seen(sys, e).value);
    }
  }

  lemma {:induction false} RunCost(sys: System, events: seq<Event>, c: Client)
    requires c < |sys.sessions| && Session.Valid(sys.sessions[c])
    ensures var t := Run(sys, events);
      && c < |t.sessions| && Session.Valid(t.sessions[c])
      && InBooks(t.sched, c) + Session.Budget(t.sessions[c])
         <= InBooks(sys.sched, c) + Session.Budget(sys.sessions[c]) + Allowed(sys, events, c)
    decreases |events|
  {
    hide Step, InBooks, Session.Valid, Session.Budget, CommandCost;
    if events != [] {
      RunCost(sys, events[..|events| - 1], c);
      StepCost(Run(sys, events[..|events| - 1]), events[|events| - 1], c);
    }
  }

  /** Whatever is on the bus and whatever other clients do: a client never has more
      telegrams submitted than five for each octet its commands read, fifteen for
      each further device of a version query, and five for each write. Only a write
      that comes before any read can cost more: a session starts out with a request
      it never made, whatever its unset fields say, and a reply that fits resumes
      it. */
  lemma {:induction false} ClientCost(sys: System, events: seq<Event>, c: Client)
    requires Started(sys) && c < |sys.sessions|
    ensures Session.Valid(sys.sessions[c])
    ensures Count(Run(sys, events).sched.submitted, c) <= Session.Budget(sys.sessions[c]) + Allowed(sys, events, c)
  {
    hide Run, Allowed, Count, Scheduler.ExactlyOnce;
    StartedInv(sys);
    RunCost(sys, events, c);
    AllSentAtRest(sys, events);
    EmptyCount(c);
    SubmittedCount(Run(sys, events).sched, c);
  }

  lemma SubmittedCount(s: Scheduler.State, c: Client)
    requires Scheduler.ExactlyOnce(s)
    ensures Count(s.submitted, c) == InBooks(s, c)
  {
    hide Count, Scheduler.Messages, Scheduler.OnWire, Scheduler.Sending;
    CountConcat(s.dispatched, s.pending, c);
  }

  // ----- Reading the error history by command -----

  /** The command that reads the error history: each time it prints the report of the
      device's memory, numbered from one, whatever the session did before. */
  lemma HistoryCommand(s: Session.Session, dest: Byte, typ: Word, offset: nat, length: nat, mem: Session.Memory, sizes: seq<nat>)
    requires RecordStream.History(typ) && 0 < length <= 255 && dest >= 0x80 && offset + length <= 256
    requires Fetch.AllPositive(sizes) && Fetch.Sum(sizes) == length
    ensures var o := Fetch.Serve(Obey(s, Read(dest, typ, offset, length, false)), mem, sizes);
      && o.result.Success?
      && RecordStream.IsReport(o.lines, Fetch.Slice(mem, dest, typ, offset, length), RecordStream.Prefix(typ))
  {
    hide Fetch.Serve, Session.StartRequest, RecordStream.IsReport, Fetch.Slice;
    HistoryRead.HistoryCompletes(s, dest, typ, offset, length, mem, sizes);
    SliceLength(mem, dest, typ, offset, length);
    HistoryRead.LowIsAnswerable(Fetch.Slice(mem, dest, typ, offset, length), offset, 0, sizes);
  }

  lemma SliceLength(mem: Session.Memory, dest: Byte, typ: Word, offset: nat, length: nat)
    ensures |Fetch.Slice(mem, dest, typ, offset, length)| == length
  {}
}
