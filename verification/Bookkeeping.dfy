// collector/CommandScheduler.cpp: whose requests have gone through the queue.

module Bookkeeping {
  import opened Bytes
  import opened Telegram
  import opened Collector
  import Scheduler

  function Count(rs: seq<Scheduler.Request>, c: Client): nat
  {
    if rs == [] then 0
    else Count(rs[..|rs| - 1], c) + (if rs[|rs| - 1].client == c then 1 else 0)
  }

  lemma CountSnoc(rs: seq<Scheduler.Request>, r: Scheduler.Request, c: Client)
    ensures Count(rs + [r], c) == Count(rs, c) + if r.client == c then 1 else 0
  {
    assert (rs + [r])[..|rs + [r]| - 1] == rs;
  }

  lemma {:induction false} CountConcat(a: seq<Scheduler.Request>, b: seq<Scheduler.Request>, c: Client)
    ensures Count(a + b, c) == Count(a, c) + Count(b, c)
    decreases |b|
  {
    if b == [] {
      assert a + b == a;
    } else {
      var n := |b| - 1;
      assert (a + b)[..|a + b| - 1] == a + b[..n];
      CountConcat(a, b[..n], c);
    }
  }

  lemma CountOne(r: Scheduler.Request, c: Client)
    ensures Count([r], c) == if r.client == c then 1 else 0
  {
    assert [r][..0] == [];
  }

  lemma {:induction false} CountFrom(d: Client, ms: seq<Message>, c: Client)
    ensures Count(From(d, ms), c) == if c == d then |ms| else 0
    decreases |ms|
  {
    if ms != [] {
      var n := |ms| - 1;
      assert From(d, ms)[..n] == From(d, ms[..n]);
      CountFrom(d, ms[..n], c);
    }
  }

  /** Taking a request off the front and dispatching it moves it in the books. */
  lemma CountPop(dispatched: seq<Scheduler.Request>, pending: seq<Scheduler.Request>, c: Client)
    requires pending != []
    ensures Count(dispatched + [pending[0]], c) + Count(pending[1..], c)
         == Count(dispatched, c) + Count(pending, c)
  {
    hide Count;
    assert pending == [pending[0]] + pending[1..];
    CountConcat([pending[0]], pending[1..], c);
    CountConcat(dispatched, [pending[0]], c);
  }

  lemma CountPositive(rs: seq<Scheduler.Request>, i: nat)
    requires i < |rs|
    ensures Count(rs, rs[i].client) > 0
  {
    hide Count;
    assert rs == rs[..i] + [rs[i]] + rs[i + 1..];
    CountConcat(rs[..i] + [rs[i]], rs[i + 1..], rs[i].client);
    CountConcat(rs[..i], [rs[i]], rs[i].client);
    CountOne(rs[i], rs[i].client);
  }

  lemma EmptyCount(c: Client)
    ensures Count([], c) == 0
  {}

  /** A client's requests that have left the queue or are in it. */
  /** The requests of a client that are queued or have left the queue. */
  function InBooks(s: Scheduler.State, c: Client): nat
  {
    Count(s.dispatched, c) + Count(s.pending, c)
  }

  lemma ContinueBooks(s: Scheduler.State, now: Time, c: Client)
    ensures InBooks(Scheduler.Continue(s, now), c) == InBooks(s, c)
  {
    hide Scheduler.Dispatch, Count;
    if s.pending != [] {
      Scheduler.DispatchKeepsQueue(s.(current := Some(s.pending[0].client)), s.pending[0].msg, now);
      CountPop(s.dispatched, s.pending, c);
    }
  }

  lemma {:induction false} SubmitAllBooks(s: Scheduler.State, rs: seq<Scheduler.Request>, now: Time, c: Client)
    ensures InBooks(Scheduler.SubmitAll(s, rs, now), c) == InBooks(s, c) + Count(rs, c)
    decreases |rs|
  {
    hide Scheduler.Continue;
    if rs != [] {
      var n := |rs| - 1;
      var m := Scheduler.SubmitAll(s, rs[..n], now);
      var m1 := m.(pending := m.pending + [rs[n]], submitted := m.submitted + [rs[n]]);
      SubmitAllBooks(s, rs[..n], now, c);
      CountSnoc(m.pending, rs[n], c);
      ContinueBooks(m1, now, c);
    }
  }

  function OfClient(rs: seq<Scheduler.Request>, c: Client): seq<Scheduler.Request>
  {
    if rs == [] then []
    else OfClient(rs[..|rs| - 1], c) + (if rs[|rs| - 1].client == c then [rs[|rs| - 1]] else [])
  }

  lemma {:induction false} OfClientCount(rs: seq<Scheduler.Request>, c: Client)
    ensures |OfClient(rs, c)| == Count(rs, c)
    ensures multiset(Scheduler.Messages(OfClient(rs, c))) <= multiset(Scheduler.Messages(rs))
    decreases |rs|
  {
    hide Scheduler.Messages;
    if rs != [] {
      var init, last := rs[..|rs| - 1], rs[|rs| - 1];
      OfClientCount(init, c);
      assert rs == init + [last];
      assert OfClient(init, c) + [] == OfClient(init, c);
      Scheduler.MessagesSnoc(init, last);
      Scheduler.MessagesSnoc(OfClient(init, c), last);
    }
  }

  /** How often a client was told something. */
  function TimesTold(told: seq<Told>, c: Client, v: Verdict): nat
  {
    if told == [] then 0
    else TimesTold(told[..|told| - 1], c, v) + (if told[|told| - 1] == Told(c, v) then 1 else 0)
  }

  lemma TimesToldSnoc(told: seq<Told>, t: Told, c: Client, v: Verdict)
    ensures TimesTold(told + [t], c, v) == TimesTold(told, c, v) + if t == Told(c, v) then 1 else 0
  {
    assert (told + [t])[..|told + [t]| - 1] == told;
  }

  /** The number of telegrams an accepted command queues for client c. */
  function Queued(sys: System, e: Event, c: Client): nat
  {
    if e.action.Command? && e.action.client == c && Accepts(sys, c)
    then |AllTelegrams(sys.sessions[c], e.action.orders)| else 0
  }

  /** How many commands of client c queued anything. */
  function Commands(sys: System, events: seq<Event>, c: Client): nat
  {
    if events == [] then 0
    else
      var init := events[..|events| - 1];
      Commands(sys, init, c) + (if Queued(Run(sys, init), events[|events| - 1], c) > 0 then 1 else 0)
  }

  /** Nothing queued, nothing under way, nobody waiting. */
  predicate AtRest(sys: System)
  {
    && sys.sched.current.None? && sys.sched.pending == [] && sys.sched.responseWait.None?
    && sys.sched.sendWait.None? && sys.sched.ready == []
  }

  ghost predicate NobodyWaits(sys: System)
  {
    forall c :: 0 <= c < |sys.sessions| ==> sys.sessions[c].active.None?
  }
}
