// collector/CommandScheduler.cpp: the object itself. Each method is proved to do
// what the machine of module Scheduler does.

module CommandSender {
  import opened Bytes
  import opened Telegram
  import opened Scheduler

  class EmsCommandSender {
    var currentClient: Option<Client>
    var pending: seq<Request>
    /** The waits armed on m_responseTimeout and m_sendTimer. */
    var responseWait: Option<ResponseWait>
    var sendWait: Option<SendWait>
    /** Completion handlers in the event loop's queue. */
    var ready: seq<Handler>
    var lastCommTimes: map<Byte, Time>
    var wire: seq<Sent>
    ghost var submitted: seq<Request>
    ghost var dispatched: seq<Request>

    ghost function View(): State
      reads this
    {
      State(currentClient, pending, responseWait, sendWait, ready, lastCommTimes, wire, submitted, dispatched)
    }

    constructor ()
      ensures View() == INIT
    {
      currentClient, pending, responseWait, sendWait, ready := None, [], None, None, [];
      lastCommTimes, wire, submitted, dispatched := map[], [], [], [];
    }

    method SubmitMessage(client: Client, msg: Message, now: Time)
      modifies this
      ensures View() == Submit(old(View()), Request(client, msg), now)
    {
      hide Dispatch;
      var wasIdle := currentClient.None?;
      pending := pending + [Request(client, msg)];
      submitted := submitted + [Request(client, msg)];
      if wasIdle {
        ContinueWithNextRequest(now);
      }
    }

    method ScheduleResponseTimeout(fakeAnswer: bool, now: Time)
      modifies this`responseWait
      ensures responseWait == Some(WaitForResponse(fakeAnswer, now))
    {
      if fakeAnswer {
        responseWait := Some(ResponseWait(true, now + 200_000));
      } else {
        responseWait := Some(ResponseWait(false, now + 1_000_000));
      }
    }

    /** expires_at aborts what is armed; async_wait arms the new wait. */
    method ArmSendTimer(msg: Message, due: Time)
      modifies this`sendWait, this`ready
      ensures ready == old(ready) + AbortedSend(old(View()))
      ensures sendWait == Some(SendWait(msg, due))
    {
      if sendWait.Some? {
        ready := ready + [SendReady(sendWait.value.msg)];
      }
      sendWait := Some(SendWait(msg, due));
    }

    method DoSendMessage(msg: Message, now: Time)
      modifies this`wire, this`responseWait, this`lastCommTimes
      ensures View() == DoSend(old(View()), msg, now)
    {
      var fakeAnswer := msg.dest < 0x80;
      wire := wire + [Sent(now, msg)];
      ScheduleResponseTimeout(fakeAnswer, now);
      lastCommTimes := lastCommTimes[msg.dest := now];
    }

    method SendMessage(msg: Message, now: Time)
      modifies this`wire, this`responseWait, this`lastCommTimes, this`sendWait, this`ready
      ensures View() == Dispatch(old(View()), msg, now)
    {
      hide DoSend;
      var scheduled := false;
      if msg.dest in lastCommTimes {
        var diff := now - lastCommTimes[msg.dest];
        // total_milliseconds, against a distance in milliseconds
        if diff / 1000 <= 100 {
          ArmSendTimer(msg, lastCommTimes[msg.dest] + 100 * 1000);
          scheduled := true;
        }
      }
      if !scheduled {
        DoSendMessage(msg, now);
      }
    }

    method ContinueWithNextRequest(now: Time)
      modifies this
      ensures View() == Continue(old(View()), now)
    {
      hide Dispatch;
      if pending == [] {
        currentClient := None;
        return;
      }
      var item := pending[0];
      currentClient := Some(item.client);
      SendMessage(item.msg, now);
      dispatched := dispatched + [item];
      pending := pending[1..];
    }

    /** The current client's callback runs, and submits what it wants to. */
    method NotifyClient(answers: seq<Request>, now: Time)
      modifies this
      ensures View() == Callback(old(View()), answers, now)
    {
      hide Submit;
      if currentClient.Some? {
        for i := 0 to |answers|
          invariant View() == SubmitAll(old(View()), answers[..i], now)
        {
          assert answers[..i + 1][..i] == answers[..i];
          SubmitMessage(answers[i].client, answers[i].msg, now);
        }
        assert answers[..|answers|] == answers;
      }
    }

    method OnPcMessage(msg: Message, answers: seq<Request>, now: Time)
      modifies this
      ensures View() == HandlePcMessage(old(View()), msg, answers, now)
    {
      hide Callback, Continue;
      lastCommTimes := lastCommTimes[msg.source := now];
      responseWait := None;
      NotifyClient(answers, now);
      ContinueWithNextRequest(now);
    }

    method RunCompletion(h: Handler, answers: seq<Request>, now: Time)
      modifies this
      ensures View() == RunHandler(old(View()), h, answers, now)
    {
      hide Callback, Continue, HandlePcMessage, DoSend;
      match h {
        case SendReady(msg) =>
          DoSendMessage(msg, now);
        case ResponseExpired(fakeAnswer) =>
          if fakeAnswer {
            if currentClient.Some? {
              OnPcMessage(FAKE_ANSWER, answers, now);
            }
          } else {
            NotifyClient(answers, now);
          }
          ContinueWithNextRequest(now);
      }
    }

    method Perform(e: Event)
      modifies this
      ensures View() == Step(old(View()), e)
    {
      hide Submit, HandlePcMessage, RunHandler;
      match e.action {
        case Command(r) =>
          SubmitMessage(r.client, r.msg, e.now);
        case PcMessage(msg, answers) =>
          OnPcMessage(msg, answers, e.now);
        case ResponseTimer =>
          if responseWait.Some? && responseWait.value.due <= e.now {
            ready := ready + [ResponseExpired(responseWait.value.fakeAnswer)];
            responseWait := None;
          }
        case SendTimer =>
          if sendWait.Some? && sendWait.value.due <= e.now {
            ready := ready + [SendReady(sendWait.value.msg)];
            sendWait := None;
          }
        case Completion(i, answers) =>
          if i < |ready| {
            var h := ready[i];
            ready := ready[..i] + ready[i + 1..];
            RunCompletion(h, answers, e.now);
          }
      }
    }

    method Execute(events: seq<Event>)
      modifies this
      ensures View() == Run(old(View()), events)
    {
      hide Step;
      for i := 0 to |events|
        invariant View() == Run(old(View()), events[..i])
      {
        assert events[..i + 1][..i] == events[..i];
        Perform(events[i]);
      }
      assert events[..|events|] == events;
    }
  }
}
