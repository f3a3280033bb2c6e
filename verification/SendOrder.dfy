// collector/CommandScheduler.cpp: the order in which requests reach the wire.

module SendOrder {
  import opened Bytes
  import opened Telegram
  import opened Scheduler
  import opened Spacing

  /** What is on the wire, then what handlers will send, then what waits for the send
      timer: that is what was dispatched, in order. */
  ghost predicate InOrder(s: State)
  {
    Line(s) == Messages(s.dispatched)
  }

  predicate AllAre(ms: seq<Message>, m: Message)
  {
    forall i :: 0 <= i < |ms| ==> ms[i] == m
  }

  /** The next request may go out: it has to wait itself, or nothing else waits but
      copies of it. */
  predicate InTurn(s: State, now: Time)
  {
    s.pending != [] ==> TooSoon(s, s.pending[0].msg, now) || AllAre(Waiting(s), s.pending[0].msg)
  }

  /** The queue moves on only in turn, and a handler of the send timer runs only when
      no other message is ahead of its own. */
  predicate KeepsOrder(s: State, e: Event)
  {
    if RunsSender(s, e) then AllAre(Sending(s.ready[..e.action.index]), s.ready[e.action.index].msg)
    else forall t :: t in Continues(s, e) ==> InTurn(t, e.now)
  }

  // ----- Event by event -----

  /** A message can be moved to the front only past copies of itself. */
  lemma {:induction false} MovedToFront(m: Message, ms: seq<Message>)
    ensures [m] + ms == ms + [m] <==> AllAre(ms, m)
  {
    if [m] + ms == ms + [m] && ms != [] {
      assert ([m] + ms)[0] == (ms + [m])[0];
      var rest := ms[1..];
      assert ms == [m] + rest;
      assert ([m] + ms)[1..] == [m] + rest && (ms + [m])[1..] == rest + [m];
      MovedToFront(m, rest);
      assert forall i :: 1 <= i < |ms| ==> ms[i] == rest[i - 1];
    } else if AllAre(ms, m) {
      assert forall i :: 0 <= i <= |ms| ==> ([m] + ms)[i] == m && (ms + [m])[i] == m;
    }
  }

  lemma Cancel(a: seq<Message>, b: seq<Message>, x: seq<Message>, y: seq<Message>)
    ensures a + x + b == a + y + b <==> x == y
  {
    if a + x + b == a + y + b {
      assert |x| == |y|;
      assert (a + x + b)[|a|..|a| + |x|] == x && (a + y + b)[|a|..|a| + |x|] == y;
    }
  }

  lemma ContinueInOrder(s: State, now: Time)
    requires InOrder(s)
    ensures InOrder(Continue(s, now)) <==> InTurn(s, now)
  {
    hide Continue, Dispatch, OnWire, Waiting, Messages, AllAre;
    if s.pending == [] {
      IdleLine(s, now);
    } else {
      var m, w, ws := s.pending[0].msg, OnWire(s.wire), Waiting(s);
      ContinueLine(s, now);
      if TooSoon(s, m, now) {
        assert w + (ws + [m]) == w + ws + [m];
      } else {
        MovedToFront(m, ws);
        Cancel(w, [], [m] + ws, ws + [m]);
        assert w + [m] + ws == w + ([m] + ws) + [] && w + ws + [m] == w + (ws + [m]) + [];
      }
    }
  }

  lemma IdleLine(s: State, now: Time)
    requires s.pending == []
    ensures Line(Continue(s, now)) == Line(s) && Continue(s, now).dispatched == s.dispatched
  {
    hide Sending;
    assert Waiting(Continue(s, now)) == Waiting(s);
  }

  lemma QuietInOrder(s: State, t: State, now: Time)
    requires InOrder(s) && Quiet(s, t, now)
    ensures InOrder(t)
  {
    hide OnWire, Sending, Messages;
  }

  lemma SenderInOrder(s: State, e: Event)
    requires InOrder(s) && RunsSender(s, e)
    ensures InOrder(Step(s, e)) <==> KeepsOrder(s, e)
  {
    hide Step, OnWire, Sending, Waiting, Messages, AllAre;
    var i := e.action.index;
    var a, b, m := Sending(s.ready[..i]), Sending(s.ready[i + 1..]) + Held(s.sendWait), s.ready[i].msg;
    SenderShape(s, e);
    SenderQueue(s, e);
    MovedToFront(m, a);
    var w := OnWire(s.wire);
    Cancel(w, b, [m] + a, a + [m]);
    assert w + [m] + (a + b) == w + ([m] + a) + b;
    assert w + (a + [m] + b) == w + (a + [m]) + b;
  }

  lemma SenderQueue(s: State, e: Event)
    requires RunsSender(s, e)
    ensures Step(s, e).dispatched == s.dispatched
  {}

  /** In order after the event and, where a made-up answer takes two requests off the
      queue, between the two. */
  ghost predicate StaysInOrder(s: State, e: Event)
  {
    InOrder(Step(s, e)) && forall t :: t in Continues(s, e) ==> InOrder(t)
  }

  /** An event keeps the order if and only if nothing overtakes in it. */
  lemma StepInOrder(s: State, e: Event)
    requires InOrder(s)
    ensures StaysInOrder(s, e) <==> KeepsOrder(s, e)
  {
    hide Step, Continues, Continue, InOrder, InTurn, Quiet, AllAre;
    var ts := Continues(s, e);
    if RunsSender(s, e) {
      SenderInOrder(s, e);
      SenderMovesNothing(s, e);
    } else if e.action.SendTimer? {
      TimerInOrder(s, e);
    } else {
      EventShape(s, e);
      QuietInOrder(s, if ts == [] then Step(s, e) else ts[0], e.now);
      if ts != [] {
        assert ts[0] in ts && ts[|ts| - 1] in ts;
        assert forall t :: t in ts ==> t == ts[0] || t == ts[|ts| - 1];
        ContinueInOrder(ts[0], e.now);
        if InOrder(ts[|ts| - 1]) {
          ContinueInOrder(ts[|ts| - 1], e.now);
        }
      }
    }
  }

  lemma SenderMovesNothing(s: State, e: Event)
    requires RunsSender(s, e)
    ensures Continues(s, e) == []
  {}

  lemma TimerInOrder(s: State, e: Event)
    requires InOrder(s) && e.action.SendTimer?
    ensures InOrder(Step(s, e)) && Continues(s, e) == []
  {
    hide Step, OnWire, Waiting, Messages;
    SendTimerShape(s, e);
  }

  // ----- Over whole runs -----

  ghost predicate AlwaysInOrder(events: seq<Event>)
  {
    forall k :: 0 <= k < |events| ==> StaysInOrder(Run(INIT, events[..k]), events[k])
  }

  predicate NothingOvertakes(events: seq<Event>)
  {
    forall k :: 0 <= k < |events| ==> KeepsOrder(Run(INIT, events[..k]), events[k])
  }

  /** Requests are in order at every point of a run if and only if none of its events
      lets one overtake another. */
  lemma {:induction false} InOrderExactly(events: seq<Event>)
    ensures AlwaysInOrder(events) <==> NothingOvertakes(events)
    ensures AlwaysInOrder(events) ==> InOrder(Run(INIT, events))
    decreases |events|
  {
    hide Step, InOrder, KeepsOrder, StaysInOrder, AlwaysInOrder, NothingOvertakes;
    if events == [] {
      NothingHappened();
    } else {
      var init, last := events[..|events| - 1], events[|events| - 1];
      InOrderExactly(init);
      OrderSnoc(events);
      if AlwaysInOrder(init) {
        StepInOrder(Run(INIT, init), last);
        if StaysInOrder(Run(INIT, init), last) {
          StaysIsInOrder(Run(INIT, init), last);
        }
      }
    }
  }

  lemma OrderSnoc(events: seq<Event>)
    requires events != []
    ensures var init, last := events[..|events| - 1], events[|events| - 1];
      && (AlwaysInOrder(events) <==> AlwaysInOrder(init) && StaysInOrder(Run(INIT, init), last))
      && (NothingOvertakes(events) <==> NothingOvertakes(init) && KeepsOrder(Run(INIT, init), last))
  {
    hide Run, KeepsOrder, StaysInOrder;
    var init := events[..|events| - 1];
    assert forall k :: 0 <= k < |init| ==> init[..k] == events[..k] && init[k] == events[k];
  }

  lemma StaysIsInOrder(s: State, e: Event)
    requires StaysInOrder(s, e)
    ensures InOrder(Step(s, e))
  {}

  lemma NothingHappened()
    ensures AlwaysInOrder([]) && NothingOvertakes([]) && InOrder(INIT)
  {}

  /** In order means: what is on the wire are the first requests that were submitted,
      in the order in which they were, and at rest it is all of them. */
  lemma {:induction false} InOrderOnWire(events: seq<Event>)
    requires NothingOvertakes(events)
    ensures var s := Run(INIT, events);
      && OnWire(s.wire) <= Messages(s.submitted)
      && (s.pending == [] && s.sendWait.None? && s.ready == [] ==> OnWire(s.wire) == Messages(s.submitted))
  {
    hide Run, OnWire, Sending, NothingOvertakes, AlwaysInOrder;
    var s := Run(INIT, events);
    InOrderExactly(events);
    RunExactlyOnce(events);
    MessagesPrefix(s.dispatched, s.pending);
    assert s.dispatched + [] == s.dispatched;
    NothingSending();
  }

  lemma MessagesPrefix(a: seq<Request>, b: seq<Request>)
    ensures Messages(a) <= Messages(a + b)
  {}

  // ----- Two runs in which a request is overtaken -----

  /** Behind a request that goes out ahead of the one on the send timer. */
  lemma HeldOneFollows(h: seq<Event>, b: Message, now: Time)
    requires var s := Run(INIT, h); s.ready == [] && s.sendWait.Some? && s.sendWait.value.msg == b && s.sendWait.value.due <= now
    ensures var t := Run(INIT, h + [Event(now, SendTimer)] + [Event(now + 1, Completion(0, []))]);
      t.wire == Run(INIT, h).wire + [Sent(now + 1, b)] && t.dispatched == Run(INIT, h).dispatched
  {
    hide Step, Run;
    var e2, e3 := Event(now, SendTimer), Event(now + 1, Completion(0, []));
    RunSnoc(INIT, h, e2);
    RunSnoc(INIT, h + [e2], e3);
    ExpireAndSend(Run(INIT, h), b, now);
  }

  lemma ExpireAndSend(s: State, b: Message, now: Time)
    requires s.ready == [] && s.sendWait.Some? && s.sendWait.value.msg == b && s.sendWait.value.due <= now
    ensures var t := Step(Step(s, Event(now, SendTimer)), Event(now + 1, Completion(0, [])));
      t.wire == s.wire + [Sent(now + 1, b)] && t.dispatched == s.dispatched
  {
    assert Step(s, Event(now, SendTimer)).ready == [SendReady(b)];
  }

  /** A late timer, again: the third read goes out before the second. */
  lemma LateTimerReorders(a: Message, b: Message, c: Message, other: Message)
    requires Scenario(a, b, other) && c.dest == 0x88
    ensures var t := Run(INIT, HeldBack(a, b, c, other) + [Event(200_000, PcMessage(other, []))]
                               + [Event(200_001, SendTimer)] + [Event(200_002, Completion(0, []))]);
      OnWire(t.wire) == [a, c, b] && Messages(t.dispatched) == [a, b, c]
  {
    hide Step, Run, HeldBack, OneHeldBack;
    var h, e := HeldBack(a, b, c, other), Event(200_000, PcMessage(other, []));
    AfterHeldBack(a, b, c, other);
    Overtake(a, b, c, other);
    RunSnoc(INIT, h, e);
    HeldOneFollows(h + [e], b, 200_001);
  }

  /** It takes no late timer when the third request is for another device. */
  lemma OtherDeviceOvertakes(a: Message, b: Message, c: Message, other: Message)
    requires Scenario(a, b, other) && c.dest == 0xb8
    ensures var t := Run(INIT, HeldBack(a, b, c, other) + [Event(4, PcMessage(other, []))]
                               + [Event(100_000, SendTimer)] + [Event(100_001, Completion(0, []))]);
      OnWire(t.wire) == [a, c, b] && Messages(t.dispatched) == [a, b, c]
  {
    hide Step, Run, HeldBack, OneHeldBack;
    var h, e := HeldBack(a, b, c, other), Event(4, PcMessage(other, []));
    AfterHeldBack(a, b, c, other);
    GoesAhead(a, b, c, other);
    RunSnoc(INIT, h, e);
    HeldOneFollows(h + [e], b, 100_000);
  }

  lemma GoesAhead(a: Message, b: Message, c: Message, other: Message)
    requires Scenario(a, b, other) && c.dest == 0xb8
    ensures var t := Step(OneHeldBack(a, b, c), Event(4, PcMessage(other, [])));
      && t.wire == [Sent(0, a), Sent(4, c)] && t.ready == []
      && t.sendWait == Some(SendWait(b, 100_000)) && t.dispatched == Submissions(a, b, c)
  {
    var s := OneHeldBack(a, b, c);
    assert !TooSoon(s.(lastComm := s.lastComm[0x90 := 4]), c, 4);
  }
}
