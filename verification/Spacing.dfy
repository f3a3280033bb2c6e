// collector/CommandScheduler.cpp: the rest a device gets between two requests.

module Spacing {
  import opened Bytes
  import opened Telegram
  import opened Scheduler

  /** Any two sends to one address are at least 100 ms apart. */
  ghost predicate Spaced(wire: seq<Sent>)
  {
    forall i, j :: 0 <= i < j < |wire| && wire[i].msg.dest == wire[j].msg.dest ==>
      wire[i].at + MIN_DISTANCE <= wire[j].at
  }

  // ----- Exactly when the rest is kept -----

  ghost predicate SentBefore(s: State, dest: Byte, limit: Time)
  {
    forall i :: 0 <= i < |s.wire| && s.wire[i].msg.dest == dest ==> s.wire[i].at <= limit
  }

  /** A handler of the send timer that runs has its destination rested. */
  ghost predicate OnTime(s: State, e: Event)
  {
    RunsSender(s, e) ==> SentBefore(s, s.ready[e.action.index].msg.dest, e.now - MIN_DISTANCE)
  }

  ghost predicate HandlersOnTime(events: seq<Event>)
  {
    forall k :: 0 <= k < |events| ==> OnTime(Run(INIT, events[..k]), events[k])
  }

  function Clock(events: seq<Event>): Time
    requires events != []
  {
    events[|events| - 1].now
  }

  /** The clock never goes back. */
  predicate ClockRuns(events: seq<Event>)
  {
    events == []
    || (var init := events[..|events| - 1];
        ClockRuns(init) && (init != [] ==> Clock(init) <= Clock(events)))
  }

  /** m_lastCommTimes covers every send, and nothing in it is in the future. */
  ghost predicate Recorded(s: State, clock: Time)
  {
    && (forall i :: 0 <= i < |s.wire| ==>
          s.wire[i].msg.dest in s.lastComm && s.wire[i].at <= s.lastComm[s.wire[i].msg.dest])
    && (forall d :: d in s.lastComm ==> s.lastComm[d] <= clock)
  }

  /** From s to t nothing was sent too early. */
  ghost predicate Keeps(s: State, t: State, now: Time)
  {
    Recorded(t, now) && s.wire <= t.wire && (Spaced(s.wire) ==> Spaced(t.wire))
  }

  lemma PrefixSpaced(a: seq<Sent>, b: seq<Sent>)
    requires a <= b && Spaced(b)
    ensures Spaced(a)
  {}

  lemma DispatchKeeps(s: State, m: Message, now: Time)
    requires Recorded(s, now)
    ensures Keeps(s, Dispatch(s, m, now), now)
  {
    if !TooSoon(s, m, now) {
      var t := DoSend(s, m, now);
      assert t.wire[..|s.wire|] == s.wire;
    }
  }

  lemma ContinueKeeps(s: State, now: Time)
    requires Recorded(s, now)
    ensures Keeps(s, Continue(s, now), now)
  {
    hide Spaced;
    if s.pending != [] {
      hide Dispatch;
      DispatchKeeps(s.(current := Some(s.pending[0].client)), s.pending[0].msg, now);
    }
  }

  /** A receipt moves the last-communication time of its sender forward, which can
      only lengthen the rest. */
  lemma QuietRecorded(s: State, t: State, now: Time)
    requires Recorded(s, now) && Quiet(s, t, now)
    ensures Recorded(t, now)
  {
    hide Sending;
  }

  /** What the handler of the send timer does, which does not look at the clock
      again. */
  lemma SenderKeepsIfOnTime(s: State, e: Event)
    requires Recorded(s, e.now) && RunsSender(s, e)
    ensures var t := Step(s, e);
      && Recorded(t, e.now)
      && (Spaced(t.wire) <==> Spaced(s.wire) && OnTime(s, e))
  {
    var x := Sent(e.now, s.ready[e.action.index].msg);
    assert Step(s, e).wire == s.wire + [x];
    SpacedSnoc(s, x);
  }

  lemma SpacedSnoc(s: State, x: Sent)
    ensures Spaced(s.wire + [x]) <==> Spaced(s.wire) && SentBefore(s, x.msg.dest, x.at - MIN_DISTANCE)
  {
    var w := s.wire + [x];
    assert forall i :: 0 <= i < |s.wire| ==> w[i] == s.wire[i];
    if Spaced(w) {
      PrefixSpaced(s.wire, w);
      assert w[|s.wire|] == x;
    }
  }

  /** Direct dispatches and all other events never come too early: an event breaks
      the spacing if and only if it runs a handler that is not on time. */
  lemma StepSpacedExactly(s: State, e: Event)
    requires Recorded(s, e.now)
    ensures Recorded(Step(s, e), e.now)
    ensures Spaced(Step(s, e).wire) <==> Spaced(s.wire) && OnTime(s, e)
  {
    hide Spaced, Recorded, SentBefore, Step, Sending;
    if RunsSender(s, e) {
      SenderKeepsIfOnTime(s, e);
    } else {
      OtherStepKeeps(s, e);
      if Spaced(Step(s, e).wire) {
        PrefixSpaced(s.wire, Step(s, e).wire);
      }
    }
  }

  lemma OtherStepKeeps(s: State, e: Event)
    requires Recorded(s, e.now) && !RunsSender(s, e)
    ensures Keeps(s, Step(s, e), e.now)
  {
    hide Spaced, Continue, Step, Continues, Sending;
    if e.action.SendTimer? {
      SendTimerShape(s, e);
    } else {
      var ts := Continues(s, e);
      EventShape(s, e);
      QuietRecorded(s, if ts == [] then Step(s, e) else ts[0], e.now);
      if ts != [] {
        ContinueKeeps(ts[0], e.now);
        ContinueKeeps(ts[|ts| - 1], e.now);
      }
    }
  }

  lemma OnTimeSnoc(events: seq<Event>)
    requires events != []
    ensures var init, last := events[..|events| - 1], events[|events| - 1];
      HandlersOnTime(events) <==> HandlersOnTime(init) && OnTime(Run(INIT, init), last)
  {
    hide OnTime, Run;
    var init := events[..|events| - 1];
    assert forall k :: 0 <= k < |init| ==> init[..k] == events[..k] && init[k] == events[k];
  }

  lemma RecordedLater(s: State, clock: Time, now: Time)
    requires Recorded(s, clock) && clock <= now
    ensures Recorded(s, now)
  {}

  lemma InitSpaced()
    ensures Spaced(INIT.wire) && HandlersOnTime([])
  {}

  lemma InitRecorded(now: Time)
    ensures Recorded(INIT, now)
  {}

  /** With a clock that never goes back: requests to one address keep their
      distance if and only if every handler of the send timer that runs, expired or
      aborted, finds all earlier sends to its destination at least 100 ms old. */
  lemma {:induction false} SpacedExactly(events: seq<Event>)
    requires ClockRuns(events)
    ensures Spaced(Run(INIT, events).wire) <==> HandlersOnTime(events)
    ensures events != [] ==> Recorded(Run(INIT, events), Clock(events))
    decreases |events|
  {
    hide Step, Spaced, Recorded, HandlersOnTime, OnTime;
    if events == [] {
      InitSpaced();
    } else {
      var init, last := events[..|events| - 1], events[|events| - 1];
      SpacedExactly(init);
      if init == [] {
        InitRecorded(last.now);
      } else {
        RecordedLater(Run(INIT, init), Clock(init), last.now);
      }
      StepSpacedExactly(Run(INIT, init), last);
      OnTimeSnoc(events);
    }
  }

  // ----- Calm runs -----

  /** A message for this address waits for the send timer or for its handler. */
  predicate WaitsFor(s: State, dest: Byte)
  {
    exists i :: 0 <= i < |Waiting(s)| && Waiting(s)[i].dest == dest
  }

  /** Moving on disturbs nobody: no message for the next one's address is still
      waiting, and the send timer is free if it is needed. */
  predicate Clear(s: State, now: Time)
  {
    s.pending != [] ==>
      var m := s.pending[0].msg;
      !WaitsFor(s, m.dest) && (TooSoon(s, m, now) ==> s.sendWait.None?)
  }

  /** The clock never goes back, and the queue only moves on when that is clear. */
  predicate CalmRun(events: seq<Event>)
  {
    events == []
    || (var init, last := events[..|events| - 1], events[|events| - 1];
        && CalmRun(init)
        && (init != [] ==> Clock(init) <= last.now)
        && forall t :: t in Continues(Run(INIT, init), last) ==> Clear(t, last.now))
  }

  /** Waiting messages have had their destination's rest, and no two of them are
      for the same address. */
  ghost predicate Rested(s: State, clock: Time)
  {
    && (s.sendWait.Some? ==> SentBefore(s, s.sendWait.value.msg.dest, s.sendWait.value.due - MIN_DISTANCE))
    && (forall i :: 0 <= i < |Sending(s.ready)| ==> SentBefore(s, Sending(s.ready)[i].dest, clock - MIN_DISTANCE))
    && (forall i, j :: 0 <= i < j < |Waiting(s)| ==> Waiting(s)[i].dest != Waiting(s)[j].dest)
  }

  ghost predicate SpacingInv(s: State, clock: Time)
  {
    Recorded(s, clock) && Rested(s, clock)
  }

  lemma LaterClock(s: State, clock: Time, now: Time)
    requires SpacingInv(s, clock) && clock <= now
    ensures SpacingInv(s, now)
  {
    hide Sending;
  }

  lemma DoSendSpaced(s: State, m: Message, now: Time)
    requires SpacingInv(s, now) && !WaitsFor(s, m.dest)
    ensures SpacingInv(DoSend(s, m, now), now)
  {
    hide Sending;
    var t := DoSend(s, m, now);
    assert t.wire[..|s.wire|] == s.wire;
    assert forall i :: 0 <= i < |Sending(s.ready)| ==> Waiting(s)[i] == Sending(s.ready)[i];
    assert s.sendWait.Some? ==> Waiting(s)[|Sending(s.ready)|] == s.sendWait.value.msg;
  }

  lemma HoldSpaced(s: State, m: Message, now: Time)
    requires SpacingInv(s, now) && !WaitsFor(s, m.dest) && TooSoon(s, m, now) && s.sendWait.None?
    ensures SpacingInv(Dispatch(s, m, now), now)
  {
    hide Sending;
    var t := Dispatch(s, m, now);
    assert t.ready == s.ready;
    assert Waiting(t) == Waiting(s) + [m];
  }

  lemma ContinueSpaced(s: State, now: Time)
    requires SpacingInv(s, now) && Clear(s, now)
    ensures SpacingInv(Continue(s, now), now)
  {
    hide Sending, Dispatch, SpacingInv;
    var s1 := if s.pending == [] then s.(current := None) else s.(current := Some(s.pending[0].client));
    QueueIrrelevant(s, s1, now);
    if s.pending != [] {
      var m := s.pending[0].msg;
      assert Waiting(s1) == Waiting(s);
      if TooSoon(s1, m, now) {
        HoldSpaced(s1, m, now);
      } else {
        DispatchDirect(s1, m, now);
        DoSendSpaced(s1, m, now);
      }
      QueueIrrelevant(Dispatch(s1, m, now), Continue(s, now), now);
    }
  }

  lemma DispatchDirect(s: State, m: Message, now: Time)
    requires !TooSoon(s, m, now)
    ensures Dispatch(s, m, now) == DoSend(s, m, now)
  {}

  lemma QuietSpaced(s: State, t: State, now: Time)
    requires SpacingInv(s, now) && Quiet(s, t, now)
    ensures SpacingInv(t, now)
  {
    hide Sending;
    assert Waiting(t) == Waiting(s);
  }

  lemma SenderSpaced(s: State, e: Event)
    requires SpacingInv(s, e.now) && RunsSender(s, e)
    ensures SpacingInv(Step(s, e), e.now)
  {
    hide Sending, SpacingInv, TakeReady, Step;
    var i := e.action.index;
    SenderShape(s, e);
    TakenOut(s, i, e.now);
    DoSendSpaced(TakeReady(s, i), s.ready[i].msg, e.now);
  }

  lemma TakenOut(s: State, i: nat, now: Time)
    requires SpacingInv(s, now) && i < |s.ready| && s.ready[i].SendReady?
    ensures var t := TakeReady(s, i); SpacingInv(t, now) && !WaitsFor(t, s.ready[i].msg.dest)
  {
    hide Sending;
    TakeReadySending(s, i);
    var t := TakeReady(s, i);
    var n, w := |Sending(s.ready[..i])|, Waiting(s);
    assert w[n] == s.ready[i].msg;
    forall k | 0 <= k < |Waiting(t)|
      ensures Waiting(t)[k] == w[if k < n then k else k + 1]
    {}
    forall k | 0 <= k < |Sending(t.ready)|
      ensures Sending(t.ready)[k] == Sending(s.ready)[if k < n then k else k + 1]
    {}
  }

  lemma SendTimerSpaced(s: State, e: Event)
    requires SpacingInv(s, e.now) && e.action.SendTimer?
    ensures SpacingInv(Step(s, e), e.now)
  {
    hide Sending;
    var t := Step(s, e);
    SendTimerShape(s, e);
    if t != s {
      assert t.sendWait.None? && Sending(t.ready) == Sending(s.ready) + [s.sendWait.value.msg];
    }
  }

  lemma QueueIrrelevant(s: State, t: State, now: Time)
    requires SpacingInv(s, now)
    requires t.wire == s.wire && t.lastComm == s.lastComm && t.sendWait == s.sendWait && t.ready == s.ready
    ensures SpacingInv(t, now)
  {
    hide Sending;
    assert Waiting(t) == Waiting(s);
  }

  lemma StepSpaced(s: State, e: Event)
    requires SpacingInv(s, e.now) && forall t :: t in Continues(s, e) ==> Clear(t, e.now)
    ensures SpacingInv(Step(s, e), e.now)
  {
    hide *;
    if RunsSender(s, e) {
      SenderSpaced(s, e);
    } else if e.action.SendTimer? {
      SendTimerSpaced(s, e);
    } else {
      var ts := Continues(s, e);
      EventShape(s, e);
      QuietSpaced(s, if ts == [] then Step(s, e) else ts[0], e.now);
      if ts != [] {
        ContinueSpaced(ts[0], e.now);
        ContinueSpaced(ts[|ts| - 1], e.now);
      }
    }
  }

  lemma RestedIsOnTime(s: State, e: Event)
    requires SpacingInv(s, e.now)
    ensures OnTime(s, e)
  {
    hide Sending;
    if RunsSender(s, e) {
      var i := e.action.index;
      TakeReadySending(s, i);
      assert Sending(s.ready)[|Sending(s.ready[..i])|] == s.ready[i].msg;
    }
  }

  lemma {:induction false} CalmRunInv(events: seq<Event>)
    requires CalmRun(events)
    ensures ClockRuns(events) && HandlersOnTime(events)
    ensures events != [] ==> SpacingInv(Run(INIT, events), Clock(events))
    decreases |events|
  {
    hide SpacingInv, Step, Continues, Clear, HandlersOnTime, OnTime;
    if events == [] {
      InitSpaced();
    } else {
      var n := |events| - 1;
      var init, last := events[..n], events[n];
      CalmRunInv(init);
      if init == [] {
        InitRested(last.now);
      } else {
        LaterClock(Run(INIT, init), Clock(init), last.now);
      }
      RestedIsOnTime(Run(INIT, init), last);
      OnTimeSnoc(events);
      StepSpaced(Run(INIT, init), last);
    }
  }

  lemma InitRested(now: Time)
    ensures SpacingInv(INIT, now)
  {}

  /** In particular on calm runs, where no send timer is armed again while it waits
      and no request overtakes one that waits. */
  lemma CalmRunsAreSpaced(events: seq<Event>)
    requires CalmRun(events)
    ensures Spaced(Run(INIT, events).wire)
  {
    CalmRunInv(events);
    SpacedExactly(events);
  }

  // ----- Two runs with a handler that is not on time -----

  /** Two reads from one device, and a message from another device. */
  ghost predicate Scenario(a: Message, b: Message, other: Message)
  {
    a.dest == b.dest == 0x88 && other.source == 0x90
  }

  function Submissions(a: Message, b: Message, c: Message): seq<Request>
  {
    [Request(1, a), Request(2, b), Request(3, c)]
  }

  /** The first read is on the line. */
  function OneSent(a: Message): State
  {
    INIT.(current := Some(1), responseWait := Some(ResponseWait(false, 1_000_000)), lastComm := map[0x88 := 0],
          wire := [Sent(0, a)], submitted := [Request(1, a)], dispatched := [Request(1, a)])
  }

  function TwoQueued(a: Message, b: Message, c: Message): State
  {
    OneSent(a).(pending := Submissions(a, b, c)[1..], submitted := Submissions(a, b, c))
  }

  /** The foreign message has moved the second read up to the send timer. */
  function OneHeldBack(a: Message, b: Message, c: Message): State
  {
    TwoQueued(a, b, c).(
      current := Some(2), pending := Submissions(a, b, c)[2..], dispatched := Submissions(a, b, c)[..2],
      responseWait := None, sendWait := Some(SendWait(b, 100_000)), lastComm := map[0x88 := 0, 0x90 := 3])
  }

  function HeldBack(a: Message, b: Message, c: Message, other: Message): seq<Event>
  {
    [] + [Event(0, Command(Request(1, a)))] + [Event(1, Command(Request(2, b)))]
    + [Event(2, Command(Request(3, c)))] + [Event(3, PcMessage(other, []))]
  }

  lemma FirstSent(a: Message)
    requires a.dest == 0x88
    ensures Step(INIT, Event(0, Command(Request(1, a)))) == OneSent(a)
  {
    assert INIT.lastComm[0x88 := 0] == map[0x88 := 0];
  }

  lemma OthersQueued(a: Message, b: Message, c: Message)
    ensures Step(Step(OneSent(a), Event(1, Command(Request(2, b)))), Event(2, Command(Request(3, c))))
         == TwoQueued(a, b, c)
  {}

  lemma SecondHeldBack(a: Message, b: Message, c: Message, other: Message)
    requires Scenario(a, b, other)
    ensures Step(TwoQueued(a, b, c), Event(3, PcMessage(other, []))) == OneHeldBack(a, b, c)
  {
    var s := TwoQueued(a, b, c);
    assert s.lastComm[0x90 := 3] == map[0x88 := 0, 0x90 := 3];
    assert TooSoon(s.(lastComm := s.lastComm[0x90 := 3]), b, 3);
  }

  lemma AfterHeldBack(a: Message, b: Message, c: Message, other: Message)
    requires Scenario(a, b, other)
    ensures Run(INIT, HeldBack(a, b, c, other)) == OneHeldBack(a, b, c)
  {
    hide Step, OneSent, TwoQueued, OneHeldBack;
    var e1, e2, e3 := Event(0, Command(Request(1, a))), Event(1, Command(Request(2, b))), Event(2, Command(Request(3, c)));
    var e4 := Event(3, PcMessage(other, []));
    FirstSent(a);
    OthersQueued(a, b, c);
    SecondHeldBack(a, b, c, other);
    RunSnoc(INIT, [], e1);
    RunSnoc(INIT, [] + [e1], e2);
    RunSnoc(INIT, [] + [e1] + [e2], e3);
    RunSnoc(INIT, [] + [e1] + [e2] + [e3], e4);
  }

  lemma ClockSnoc(events: seq<Event>, e: Event)
    requires ClockRuns(events) && (events != [] ==> Clock(events) <= e.now)
    ensures ClockRuns(events + [e]) && Clock(events + [e]) == e.now
  {
    assert (events + [e])[..|events + [e]| - 1] == events;
  }

  lemma HeldBackClock(a: Message, b: Message, c: Message, other: Message)
    ensures var h := HeldBack(a, b, c, other); ClockRuns(h) && h != [] && Clock(h) == 3
  {
    var e1, e2, e3 := Event(0, Command(Request(1, a))), Event(1, Command(Request(2, b))), Event(2, Command(Request(3, c)));
    ClockSnoc([], e1);
    ClockSnoc([] + [e1], e2);
    ClockSnoc([] + [e1] + [e2], e3);
    ClockSnoc([] + [e1] + [e2] + [e3], Event(3, PcMessage(other, [])));
  }

  lemma LastNotOnTime(events: seq<Event>, e: Event)
    requires ClockRuns(events) && (events != [] ==> Clock(events) <= e.now)
    requires !OnTime(Run(INIT, events), e)
    ensures !Spaced(Run(INIT, events + [e]).wire)
  {
    hide OnTime, Run, Spaced, HandlersOnTime;
    var all := events + [e];
    ClockSnoc(events, e);
    assert all[..|all| - 1] == events;
    OnTimeSnoc(all);
    SpacedExactly(all);
  }

  lemma TooEarly(s: State, m: Message, i: nat, now: Time)
    requires s.ready == [SendReady(m)] && i < |s.wire| && s.wire[i].msg.dest == m.dest && s.wire[i].at > now - MIN_DISTANCE
    ensures !OnTime(s, Event(now, Completion(0, [])))
  {}

  lemma Rearm(a: Message, b: Message, c: Message, other: Message)
    requires Scenario(a, b, other) && c.dest == 0x88
    ensures var t := Step(OneHeldBack(a, b, c), Event(4, PcMessage(other, [])));
      t.ready == [SendReady(b)] && t.wire == [Sent(0, a)]
  {
    var s := OneHeldBack(a, b, c);
    assert TooSoon(s.(lastComm := s.lastComm[0x90 := 4]), c, 4);
  }

  /** Arming the send timer again sends the message it held at once: two requests
      reach the device 5 microseconds apart. */
  lemma RearmingBreaksSpacing(a: Message, b: Message, c: Message, other: Message)
    requires Scenario(a, b, other) && c.dest == 0x88
    ensures !Spaced(Run(INIT, HeldBack(a, b, c, other)
                              + [Event(4, PcMessage(other, []))] + [Event(5, Completion(0, []))]).wire)
  {
    hide HeldBack, OneHeldBack, Step, Run, OnTime, ClockRuns, Spaced;
    var h, e1, e2 := HeldBack(a, b, c, other), Event(4, PcMessage(other, [])), Event(5, Completion(0, []));
    AfterHeldBack(a, b, c, other);
    HeldBackClock(a, b, c, other);
    Rearm(a, b, c, other);
    RunSnoc(INIT, h, e1);
    ClockSnoc(h, e1);
    TooEarly(Run(INIT, h + [e1]), b, 0, 5);
    LastNotOnTime(h + [e1], e2);
  }

  lemma Overtake(a: Message, b: Message, c: Message, other: Message)
    requires Scenario(a, b, other) && c.dest == 0x88
    ensures var t := Step(OneHeldBack(a, b, c), Event(200_000, PcMessage(other, [])));
      && t.wire == [Sent(0, a), Sent(200_000, c)] && t.ready == []
      && t.sendWait == Some(SendWait(b, 100_000)) && t.dispatched == Submissions(a, b, c)
  {
    var s := OneHeldBack(a, b, c);
    assert !TooSoon(s.(lastComm := s.lastComm[0x90 := 200_000]), c, 200_000);
  }

  lemma SendTimerExpires(s: State, w: SendWait, now: Time)
    requires s.sendWait == Some(w) && w.due <= now && s.ready == []
    ensures var t := Step(s, Event(now, SendTimer)); t.ready == [SendReady(w.msg)] && t.wire == s.wire
  {}

  /** A send timer whose handler runs late does the same without being armed
      again: a later request finds the device rested, goes first, and the late one
      follows on its heels. */
  lemma LateTimerBreaksSpacing(a: Message, b: Message, c: Message, other: Message)
    requires Scenario(a, b, other) && c.dest == 0x88
    ensures !Spaced(Run(INIT, HeldBack(a, b, c, other)
                              + [Event(200_000, PcMessage(other, []))] + [Event(200_001, SendTimer)]
                              + [Event(200_002, Completion(0, []))]).wire)
  {
    hide HeldBack, OneHeldBack, Step, Run, OnTime, ClockRuns, Spaced;
    var h, e1 := HeldBack(a, b, c, other), Event(200_000, PcMessage(other, []));
    var e2, e3 := Event(200_001, SendTimer), Event(200_002, Completion(0, []));
    AfterHeldBack(a, b, c, other);
    HeldBackClock(a, b, c, other);
    Overtake(a, b, c, other);
    RunSnoc(INIT, h, e1);
    ClockSnoc(h, e1);
    RunSnoc(INIT, h + [e1], e2);
    ClockSnoc(h + [e1], e2);
    SendTimerExpires(Run(INIT, h + [e1]), SendWait(b, 100_000), 200_001);
    TooEarly(Run(INIT, h + [e1] + [e2]), b, 1, 200_002);
    LastNotOnTime(h + [e1] + [e2], e3);
  }
}
