// collector/CommandScheduler.cpp: m_lastCommTimes is kept by address octet, and a
// device has two of them: bit 7 set for reads, clear for writes.

module DeviceSpacing {
  import opened Bytes
  import opened Telegram
  import opened Scheduler
  import opened Spacing

  function Device(dest: Byte): Byte
  {
    dest % 0x80
  }

  /** The device's other address. */
  function Partner(dest: Byte): Byte
  {
    if dest < 0x80 then dest + 0x80 else dest - 0x80
  }

  /** Any two sends to one device are at least 100 ms apart. */
  ghost predicate DeviceSpaced(wire: seq<Sent>)
  {
    forall i, j :: 0 <= i < j < |wire| && Device(wire[i].msg.dest) == Device(wire[j].msg.dest) ==>
      wire[i].at + MIN_DISTANCE <= wire[j].at
  }

  ghost predicate DeviceRested(s: State, dest: Byte, now: Time)
  {
    SentBefore(s, dest, now - MIN_DISTANCE) && SentBefore(s, Partner(dest), now - MIN_DISTANCE)
  }

  /** The next request, if it is sent at once, is not sent right behind one to the
      device's other address. */
  ghost predicate PartnerRested(s: State, now: Time)
  {
    s.pending != [] ==>
      var m := s.pending[0].msg;
      TooSoon(s, m, now) || SentBefore(s, Partner(m.dest), now - MIN_DISTANCE)
  }

  /** A handler of the send timer finds its device rested, and whenever the queue
      moves on the other address is. */
  ghost predicate RestsDevices(s: State, e: Event)
  {
    if RunsSender(s, e) then DeviceRested(s, s.ready[e.action.index].msg.dest, e.now)
    else forall t :: t in Continues(s, e) ==> PartnerRested(t, e.now)
  }

  lemma DevicePairs(a: Byte, b: Byte)
    ensures Device(a) == Device(b) <==> a == b || a == Partner(b)
  {}

  lemma DeviceSpacedSnoc(s: State, x: Sent)
    ensures DeviceSpaced(s.wire + [x]) <==> DeviceSpaced(s.wire) && DeviceRested(s, x.msg.dest, x.at)
  {
    var w := s.wire + [x];
    assert forall i :: 0 <= i < |s.wire| ==> w[i] == s.wire[i];
    assert w[|s.wire|] == x;
    forall i | 0 <= i < |s.wire|
      ensures Device(s.wire[i].msg.dest) == Device(x.msg.dest) <==>
        s.wire[i].msg.dest == x.msg.dest || s.wire[i].msg.dest == Partner(x.msg.dest)
    {
      DevicePairs(s.wire[i].msg.dest, x.msg.dest);
    }
  }

  /** A direct send finds its own address rested. */
  lemma OwnAddressRested(s: State, m: Message, now: Time)
    requires Recorded(s, now) && !TooSoon(s, m, now)
    ensures SentBefore(s, m.dest, now - MIN_DISTANCE)
  {}

  lemma ContinueDevice(s: State, now: Time)
    requires Recorded(s, now)
    ensures DeviceSpaced(Continue(s, now).wire) <==> DeviceSpaced(s.wire) && PartnerRested(s, now)
  {
    hide DeviceSpaced, Recorded, SentBefore;
    if s.pending != [] {
      var m := s.pending[0].msg;
      if !TooSoon(s, m, now) {
        OwnAddressRested(s, m, now);
        DeviceSpacedSnoc(s, Sent(now, m));
      }
    }
  }

  lemma SenderDevice(s: State, e: Event)
    requires RunsSender(s, e)
    ensures DeviceSpaced(Step(s, e).wire) <==> DeviceSpaced(s.wire) && RestsDevices(s, e)
  {
    hide DeviceSpaced, SentBefore;
    DeviceSpacedSnoc(s, Sent(e.now, s.ready[e.action.index].msg));
  }

  /** An event breaks the spacing of a device if and only if it runs a handler that is
      not on time for the device, or sends at once while the device's other address
      was sent to less than 100 ms ago. */
  lemma StepDeviceExactly(s: State, e: Event)
    requires Recorded(s, e.now)
    ensures DeviceSpaced(Step(s, e).wire) <==> DeviceSpaced(s.wire) && RestsDevices(s, e)
  {
    hide DeviceSpaced, Recorded, Step, Continue, Continues, PartnerRested, Sending;
    var ts := Continues(s, e);
    if RunsSender(s, e) {
      SenderDevice(s, e);
    } else if e.action.SendTimer? {
      TimerMovesNothing(s, e);
      SendTimerShape(s, e);
    } else {
      EventShape(s, e);
      QuietRecorded(s, if ts == [] then Step(s, e) else ts[0], e.now);
      if ts != [] {
        assert ts[0] in ts && ts[|ts| - 1] in ts;
        assert forall t :: t in ts ==> t == ts[0] || t == ts[|ts| - 1];
        ContinueDevice(ts[0], e.now);
        ContinueRecorded(ts[0], e.now);
        ContinueDevice(ts[|ts| - 1], e.now);
      }
    }
  }

  lemma TimerMovesNothing(s: State, e: Event)
    requires e.action.SendTimer?
    ensures Continues(s, e) == []
  {}

  lemma ContinueRecorded(s: State, now: Time)
    requires Recorded(s, now)
    ensures Recorded(Continue(s, now), now)
  {
    hide Continue;
    ContinueKeeps(s, now);
  }

  ghost predicate DevicesRested(events: seq<Event>)
  {
    forall k :: 0 <= k < |events| ==> RestsDevices(Run(INIT, events[..k]), events[k])
  }

  lemma RestedSnoc(events: seq<Event>)
    requires events != []
    ensures var init, last := events[..|events| - 1], events[|events| - 1];
      DevicesRested(events) <==> DevicesRested(init) && RestsDevices(Run(INIT, init), last)
  {
    hide RestsDevices, Run;
    var init := events[..|events| - 1];
    assert forall k :: 0 <= k < |init| ==> init[..k] == events[..k] && init[k] == events[k];
  }

  /** With a clock that never goes back: requests to one device keep their distance if
      and only if all events leave the devices their rest. */
  lemma {:induction false} DeviceSpacedExactly(events: seq<Event>)
    requires ClockRuns(events)
    ensures DeviceSpaced(Run(INIT, events).wire) <==> DevicesRested(events)
    decreases |events|
  {
    hide Step, DeviceSpaced, DevicesRested, RestsDevices, Recorded;
    if events == [] {
      NothingSent();
    } else {
      var init, last := events[..|events| - 1], events[|events| - 1];
      DeviceSpacedExactly(init);
      SpacedExactly(init);
      if init == [] {
        InitRecorded(last.now);
      } else {
        RecordedLater(Run(INIT, init), Clock(init), last.now);
      }
      StepDeviceExactly(Run(INIT, init), last);
      RestedSnoc(events);
    }
  }

  lemma NothingSent()
    ensures DeviceSpaced(INIT.wire) && DevicesRested([])
  {}

  // ----- A write right behind a read -----

  /** A read from a device and a write to it. */
  ghost predicate ReadAndWrite(r: Message, w: Message, reply: Message)
  {
    r.dest == 0x88 && w.dest == 0x08 && reply.source == 0x88
  }

  function ReadSent(r: Message): State
  {
    INIT.(current := Some(1), responseWait := Some(ResponseWait(false, 1_000_000)), lastComm := map[0x88 := 0],
          wire := [Sent(0, r)], submitted := [Request(1, r)], dispatched := [Request(1, r)])
  }

  function ReadThenWrite(r: Message, w: Message, reply: Message): seq<Event>
  {
    [] + [Event(0, Command(Request(1, r)))] + [Event(1, Command(Request(2, w)))] + [Event(5, PcMessage(reply, []))]
  }

  lemma SendsRead(r: Message)
    requires r.dest == 0x88
    ensures Step(INIT, Event(0, Command(Request(1, r)))) == ReadSent(r)
  {
    assert INIT.lastComm[0x88 := 0] == map[0x88 := 0];
  }

  lemma SendsWrite(r: Message, w: Message, reply: Message)
    requires ReadAndWrite(r, w, reply)
    ensures var s := Step(ReadSent(r), Event(1, Command(Request(2, w))));
      && s.ready == []
      && Step(s, Event(5, PcMessage(reply, []))).wire == [Sent(0, r), Sent(5, w)]
  {
    var s := Step(ReadSent(r), Event(1, Command(Request(2, w))));
    assert !TooSoon(s.(lastComm := s.lastComm[0x88 := 5]), w, 5);
  }

  /** Every handler is on time, as no handler runs, and each address is left its rest;
      but a read and a write reach one device 5 microseconds apart. */
  lemma WriteFollowsRead(r: Message, w: Message, reply: Message)
    requires ReadAndWrite(r, w, reply)
    ensures var events := ReadThenWrite(r, w, reply);
      HandlersOnTime(events) && Spaced(Run(INIT, events).wire) && !DeviceSpaced(Run(INIT, events).wire)
  {
    hide Step, Run, HandlersOnTime, OnTime;
    var e1, e2, e3 := Event(0, Command(Request(1, r))), Event(1, Command(Request(2, w))), Event(5, PcMessage(reply, []));
    SendsRead(r);
    SendsWrite(r, w, reply);
    RunNothing(INIT);
    RunSnoc(INIT, [], e1);
    RunSnoc(INIT, [] + [e1], e2);
    RunSnoc(INIT, [] + [e1] + [e2], e3);
    ClockSnoc([], e1);
    ClockSnoc([] + [e1], e2);
    ClockSnoc([] + [e1] + [e2], e3);
    var t := Run(INIT, ReadThenWrite(r, w, reply)).wire;
    assert t[0].msg.dest == 0x88 && t[1].msg.dest == 0x08;
    assert Spaced(t) && !DeviceSpaced(t);
    SpacedExactly(ReadThenWrite(r, w, reply));
  }
}
