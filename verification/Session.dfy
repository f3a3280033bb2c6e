// collector/ApiCommandParser.cpp: a client's request, from startRequest over the
// telegrams it takes to the lines it prints.

module Session {
  import opened Bytes
  import opened Telegram

  const MAX_REQUEST_RETRIES: nat := 5
  const ADDRESS_UBA2: Byte := 0x88
  const ADDRESS_UI800: Byte := 0x90
  const ADDRESS_RH800: Byte := 0xb8

  /** The members of ApiCommandParser a request lives in. */
  datatype Session = Session(
    active: Option<Message>, retriesLeft: nat,
    response: seq<Byte>, requestOffset: nat, requestLength: nat,
    requestDest: Byte, requestType: Word,
    parsePosition: nat, counter: nat, raw: bool)

  /** The tribool a reply leads to. */
  datatype Result = Success | Failure | Ongoing

  /** A line of output, before it is formatted. A version line prints octets 1 and
      2 of the response (the source does not check that they are there). A contact
      line shorter than 40 octets is filled up with whatever the stack held. */
  datatype Line =
    | RawLine(octets: seq<Byte>)
    | RecordLine(prefix: string, number: nat, record: seq<Byte>)
    | VersionLine(source: Byte, response: seq<Byte>)
    | ContactLine(octets: seq<Byte>)

  datatype Outcome = Outcome(session: Session, sends: seq<Message>, lines: seq<Line>, result: Result)

  // ----- Sending -----

  function SendCommand(s: Session, dest: Byte, typ: Word, offset: Byte, data: seq<Byte>, expectResponse: bool): Session
  {
    s.(retriesLeft := MAX_REQUEST_RETRIES, active := Some(Build(dest, typ, offset, data, expectResponse)))
  }

  predicate Complete(s: Session)
  {
    |s.response| >= s.requestLength
  }

  /** Ask for what is still missing; offset and length are cut to an octet. */
  function AskForRest(s: Session): Session
    requires !Complete(s)
  {
    SendCommand(s, s.requestDest, s.requestType,
                ((s.requestOffset + |s.response|) % 256) as Byte,
                [((s.requestLength - |s.response|) % 256) as Byte], true)
  }

  function ContinueRequest(s: Session): Session
  {
    if Complete(s) then s else AskForRest(s)
  }

  /** What continueRequest hands to the scheduler. */
  function Asked(s: Session): seq<Message>
  {
    if Complete(s) then [] else [AskForRest(s).active.value]
  }

  function Fresh(s: Session, dest: Byte, typ: Word, offset: nat, length: nat, newRequest: bool, raw: bool): Session
  {
    s.(requestOffset := offset, requestLength := length, requestDest := dest, requestType := typ,
       response := [], parsePosition := 0, raw := raw, counter := if newRequest then 0 else s.counter)
  }

  function StartRequest(s: Session, dest: Byte, typ: Word, offset: nat, length: nat, newRequest: bool, raw: bool): Session
  {
    ContinueRequest(Fresh(s, dest, typ, offset, length, newRequest, raw))
  }

  function StartAsks(s: Session, dest: Byte, typ: Word, offset: nat, length: nat): seq<Message>
  {
    Asked(Fresh(s, dest, typ, offset, length, true, false))
  }

  // ----- Records -----

  /** The two record layouts: size, and where the first character of the error
      code is; a zero there marks the end. */
  datatype Layout = Layout(size: nat, code: nat)

  const ERROR_RECORD_2 := Layout(20, 5)
  const ERROR_RECORD_SHORT := Layout(7, 2)

  function RecordAt(response: seq<Byte>, pos: nat, l: Layout): seq<Byte>
    requires pos + l.size <= |response|
  {
    response[pos..pos + l.size]
  }

  predicate EmptyRecord(record: seq<Byte>, l: Layout)
    requires l.code < l.size == |record|
  {
    record[l.code] == 0
  }

  /** The while loop of loopOverResponse: it moves the parse position and the
      counter past each complete record, and stops behind an empty one. */
  datatype Parsed = Parsed(pos: nat, counter: nat, lines: seq<Line>, stopped: bool)

  function ParseRecords(response: seq<Byte>, p: Parsed, prefix: string, l: Layout): Parsed
    requires l.code < l.size
    decreases |response| - p.pos
  {
    if p.stopped || p.pos + l.size > |response| then p
    else
      var record := RecordAt(response, p.pos, l);
      var q := p.(pos := p.pos + l.size, counter := p.counter + 1);
      if EmptyRecord(record, l) then q.(stopped := true)
      else ParseRecords(response, q.(lines := p.lines + [RecordLine(prefix, q.counter, record)]), prefix, l)
  }

  function LoopOverResponse(s: Session, prefix: string, l: Layout): Outcome
    requires l.code < l.size
  {
    var p := ParseRecords(s.response, Parsed(s.parsePosition, s.counter, [], false), prefix, l);
    var s1 := s.(parsePosition := p.pos, counter := p.counter);
    if p.stopped || Complete(s1) then Outcome(s1, [], p.lines, Success)
    else Outcome(ContinueRequest(s1), Asked(s1), p.lines, Ongoing)
  }

  // ----- Replies -----

  /** The next device asked for its version, if any. */
  function NextSource(dest: Byte): Option<Byte>
  {
    if dest == ADDRESS_UBA2 then Some(ADDRESS_UI800)
    else if dest == ADDRESS_UI800 then Some(ADDRESS_RH800)
    else None
  }

  function VersionLines(s: Session): seq<Line>
  {
    if s.requestDest in {ADDRESS_UBA2, ADDRESS_UI800, ADDRESS_RH800}
    then [VersionLine(s.requestDest, s.response)] else []
  }

  function ContactLines(response: seq<Byte>): seq<Line>
    decreases |response|
  {
    if response == [] then []
    else if |response| <= 40 then [ContactLine(response)]
    else [ContactLine(response[..40])] + ContactLines(response[40..])
  }

  predicate Readout(typ: Word)
  {
    typ in {0x0015, 0x0140, 0x01a5, 0x01af, 0x01b9, 0x01f5, 0x00ea}
  }

  /** The types whose responses are handled one way or another. */
  predicate Handled(typ: Word)
  {
    typ in {0x02, 0x0137, 0xbf, 0xc0, 0xc2} || Readout(typ)
  }

  function HandleResponse(s: Session): Outcome
  {
    if s.requestType == 0x02 then
      if NextSource(s.requestDest).None? then Outcome(s, [], VersionLines(s), Success)
      else
        var next := NextSource(s.requestDest).value;
        Outcome(StartRequest(s, next, 0x02, 0, 3, true, false), StartAsks(s, next, 0x02, 0, 3), VersionLines(s), Ongoing)
    else if s.requestType == 0x0137 then
      if Complete(s) then Outcome(s, [], ContactLines(s.response), Success)
      else Outcome(ContinueRequest(s), Asked(s), [], Ongoing)
    else if s.requestType == 0xbf then LoopOverResponse(s.(parsePosition := 3), " ", ERROR_RECORD_SHORT)
    else if s.requestType == 0xc0 then LoopOverResponse(s, "R", ERROR_RECORD_2)
    else if s.requestType == 0xc2 then LoopOverResponse(s, "U", ERROR_RECORD_2)
    else if Readout(s.requestType) then Outcome(s, [], [], Success)
    else Outcome(s, [], [], Failure)
  }

  function HandleRaw(s: Session): Outcome
  {
    if Complete(s) then Outcome(s, [], [RawLine(s.response)], Success)
    else Outcome(ContinueRequest(s), Asked(s), [], Ongoing)
  }

  /** The reply continues the response where it ends. */
  predicate Matches(s: Session, m: Message)
  {
    && m.source == s.requestDest && m.Type() == s.requestType
    && m.offset as nat == |s.response| + s.requestOffset
  }

  /** An empty reply says there is no more data. */
  function Accept(s: Session, data: seq<Byte>): Session
  {
    if data == [] then s.(requestLength := |s.response|) else s.(response := s.response + data)
  }

  function OnIncomingMessage(s: Session, m: Message): Outcome
  {
    if s.active.None? then Outcome(s, [], [], Ongoing)
    else if m.Type() == 0xff then
      Outcome(s.(active := None), [], [], if m.offset != 0x04 then Success else Failure)
    else if !Matches(s, m) then Outcome(s, [], [], Ongoing)
    else
      var s1 := Accept(s, m.data);
      var o := if s1.raw then HandleRaw(s1) else HandleResponse(s1);
      if o.result.Success? then o.(session := o.session.(active := None)) else o
  }

  /** A telegram too short for its header is no answer to any device's request. */
  lemma ShortTelegram(s: Session, octets: seq<Byte>)
    requires |octets| < 4 && s.requestDest != 0
    ensures OnIncomingMessage(s, Decode(octets)) == Outcome(s, [], [], Ongoing)
  {}

  /** A timeout repeats the telegram, or gives up and reports. */
  function OnTimeout(s: Session): Outcome
  {
    if s.active.None? then Outcome(s, [], [], Ongoing)
    else if s.retriesLeft <= 1 then Outcome(s.(retriesLeft := 0, active := None), [], [], Failure)
    else Outcome(s.(retriesLeft := s.retriesLeft - 1), [s.active.value], [], Ongoing)
  }

  ghost predicate Valid(s: Session)
  {
    s.active.Some? ==> 1 <= s.retriesLeft <= MAX_REQUEST_RETRIES
  }

  // ----- Runs of one request -----

  datatype Event = Reply(msg: Message) | Timeout

  function Respond(s: Session, e: Event): Outcome
  {
    match e
    case Reply(m) => OnIncomingMessage(s, m)
    case Timeout => OnTimeout(s)
  }

  /** The session, everything sent and everything printed after some events. */
  function Run(s: Session, events: seq<Event>): Outcome
  {
    if events == [] then Outcome(s, [], [], Ongoing)
    else
      var before := Run(s, events[..|events| - 1]);
      var o := Respond(before.session, events[|events| - 1]);
      Outcome(o.session, before.sends + o.sends, before.lines + o.lines, o.result)
  }

  lemma RespondValid(s: Session, e: Event)
    requires Valid(s)
    ensures Valid(Respond(s, e).session)
  {
    hide ParseRecords;
  }

  // ----- The response is a slice of the device's memory -----

  /** What each device holds for each telegram type, by position. */
  type Memory = (Byte, Word, nat) -> Byte

  ghost predicate Truthful(m: Message, mem: Memory)
  {
    forall i :: 0 <= i < |m.data| ==> m.data[i] == mem(m.source, m.Type(), m.offset as nat + i)
  }

  ghost predicate HoldsSlice(s: Session, mem: Memory)
  {
    forall i :: 0 <= i < |s.response| ==> s.response[i] == mem(s.requestDest, s.requestType, s.requestOffset + i)
  }

  lemma AcceptHoldsSlice(s: Session, m: Message, mem: Memory)
    requires HoldsSlice(s, mem) && Truthful(m, mem) && Matches(s, m)
    ensures HoldsSlice(Accept(s, m.data), mem)
  {
    var t := Accept(s, m.data);
    forall i | 0 <= i < |t.response|
      ensures t.response[i] == mem(t.requestDest, t.requestType, t.requestOffset + i)
    {
      if i >= |s.response| {
        assert m.data[i - |s.response|] == mem(m.source, m.Type(), m.offset as nat + (i - |s.response|));
      }
    }
  }

  /** Handling a response keeps it, or starts over with an empty one. */
  lemma HandlingKeepsResponse(s: Session)
    ensures forall o :: o == HandleResponse(s) || o == HandleRaw(s) ==>
      (|| o.session.response == []
       || (&& o.session.response == s.response && o.session.requestOffset == s.requestOffset
           && o.session.requestDest == s.requestDest && o.session.requestType == s.requestType))
  {
    hide ParseRecords;
  }

  lemma RespondHoldsSlice(s: Session, e: Event, mem: Memory)
    requires HoldsSlice(s, mem) && (e.Reply? ==> Truthful(e.msg, mem))
    ensures HoldsSlice(Respond(s, e).session, mem)
  {
    hide HandleResponse, HandleRaw, Accept, Matches, Truthful;
    if e.Reply? && s.active.Some? && e.msg.Type() != 0xff && Matches(s, e.msg) {
      AcceptHoldsSlice(s, e.msg, mem);
      HandlingKeepsResponse(Accept(s, e.msg.data));
    }
  }

  /** Truthful replies may come late, twice, out of order, for other requests or
      with more data than was asked for: the response is always the stretch of
      the device's memory that starts at the requested offset. */
  lemma {:induction false} ResponseIsSlice(s: Session, events: seq<Event>, mem: Memory)
    requires HoldsSlice(s, mem)
    requires forall i :: 0 <= i < |events| && events[i].Reply? ==> Truthful(events[i].msg, mem)
    ensures HoldsSlice(Run(s, events).session, mem)
    decreases |events|
  {
    hide HoldsSlice, Truthful, Respond;
    if events != [] {
      var n := |events| - 1;
      ResponseIsSlice(s, events[..n], mem);
      RespondHoldsSlice(Run(s, events[..n]).session, events[n], mem);
    }
  }

  lemma StartHoldsSlice(s: Session, dest: Byte, typ: Word, offset: nat, length: nat, newRequest: bool, raw: bool, mem: Memory)
    ensures HoldsSlice(StartRequest(s, dest, typ, offset, length, newRequest, raw), mem)
  {}

  // ----- How many telegrams a request can cost -----

  function SourcesAfter(dest: Byte): nat
  {
    if dest == ADDRESS_UBA2 then 2 else if dest == ADDRESS_UI800 then 1 else 0
  }

  function Missing(s: Session): nat
  {
    if Complete(s) then 0 else s.requestLength - |s.response|
  }

  /** What following up on the version query may cost. */
  function VersionBudget(s: Session): nat
  {
    if !s.raw && s.requestType == 0x02 then 15 * SourcesAfter(s.requestDest) else 0
  }

  /** The telegrams a session may still send: its retries, five for every octet
      still missing after the next one, and fifteen for every device whose version
      is still to be asked for. A request that was given up counts on: a late reply
      resumes it when a later write is active. */
  function Budget(s: Session): nat
    requires Valid(s)
  {
    (if s.active.Some? then s.retriesLeft - 1 else 0)
    + 5 * (if Missing(s) > 0 then Missing(s) - 1 else 0) + VersionBudget(s)
  }

  lemma AskBudget(s: Session)
    requires !Complete(s)
    ensures Valid(ContinueRequest(s)) && |Asked(s)| == 1
    ensures Budget(ContinueRequest(s)) == 5 * Missing(s) - 1 + VersionBudget(s)
  {}

  /** Handling a response pays for what it sends out of the octets received. */
  lemma HandlingBudget(s: Session, o: Outcome)
    requires Valid(s) && s.active.Some? && o == if s.raw then HandleRaw(s) else HandleResponse(s)
    requires !o.result.Success?
    ensures Valid(o.session)
    ensures |o.sends| + Budget(o.session) <= s.retriesLeft - 1 + 5 * Missing(s) + VersionBudget(s)
  {
    hide ParseRecords;
    if s.raw || s.requestType == 0x0137 {
      AskBudget(s);
    } else if s.requestType == 0x02 {
      AskBudget(Fresh(s, NextSource(s.requestDest).value, 0x02, 0, 3, true, false));
    } else if s.requestType == 0xbf || s.requestType == 0xc0 || s.requestType == 0xc2 {
      LoopBudget(s, o);
    }
  }

  lemma LoopBudget(s: Session, o: Outcome)
    requires Valid(s) && s.active.Some? && !s.raw && o == HandleResponse(s) && !o.result.Success?
    requires s.requestType == 0xbf || s.requestType == 0xc0 || s.requestType == 0xc2
    ensures Valid(o.session) && |o.sends| + Budget(o.session) <= s.retriesLeft - 1 + 5 * Missing(s)
  {
    hide ParseRecords;
    AskBudget(s.(parsePosition := o.session.parsePosition, counter := o.session.counter));
  }

  lemma AcceptMissing(s: Session, data: seq<Byte>)
    ensures 5 * Missing(Accept(s, data)) <= 5 * (if Missing(s) > 0 then Missing(s) - 1 else 0)
  {}

  /** No event lets a session send more than it had to spend. */
  lemma {:induction false} RespondBudget(s: Session, e: Event)
    requires Valid(s)
    ensures Valid(Respond(s, e).session)
    ensures |Respond(s, e).sends| + Budget(Respond(s, e).session) <= Budget(s)
  {
    hide HandleResponse, HandleRaw, Matches;
    if e.Reply? && s.active.Some? && e.msg.Type() != 0xff && Matches(s, e.msg) {
      var s1 := Accept(s, e.msg.data);
      var o := if s1.raw then HandleRaw(s1) else HandleResponse(s1);
      AcceptMissing(s, e.msg.data);
      if o.result.Success? {
        SuccessSendsNothing(s1);
      } else {
        HandlingBudget(s1, o);
      }
    }
  }

  lemma SuccessSendsNothing(s: Session)
    ensures forall o :: o == HandleRaw(s) || o == HandleResponse(s) ==> o.result.Success? ==>
      o.sends == [] && Missing(o.session) == Missing(s) && VersionBudget(o.session) == VersionBudget(s)
  {
    hide ParseRecords;
  }

  lemma {:induction false} RunBudget(s: Session, events: seq<Event>)
    requires Valid(s)
    ensures Valid(Run(s, events).session)
    ensures |Run(s, events).sends| + Budget(Run(s, events).session) <= Budget(s)
    decreases |events|
  {
    hide Valid, Budget, Respond;
    if events != [] {
      var n := |events| - 1;
      RunBudget(s, events[..n]);
      RespondBudget(Run(s, events[..n]).session, events[n]);
    }
  }

  /** A request for `length` octets costs at most 5 * length telegrams, whatever
      comes back and whatever times out; a version query, which moves on to the
      next devices, at most 15 for each of them. */
  lemma RequestCost(s: Session, dest: Byte, typ: Word, offset: nat, length: nat, newRequest: bool, raw: bool, events: seq<Event>)
    requires s.active.None?
    ensures var t := StartRequest(s, dest, typ, offset, length, newRequest, raw);
      |StartAsks(s, dest, typ, offset, length)| + |Run(t, events).sends|
        <= 5 * length + (if !raw && typ == 0x02 then 15 * SourcesAfter(dest) else 0)
  {
    hide AskForRest;
    var f := Fresh(s, dest, typ, offset, length, newRequest, raw);
    var t := StartRequest(s, dest, typ, offset, length, newRequest, raw);
    if length > 0 {
      AskBudget(f);
    }
    RunBudget(t, events);
  }
}
