// collector/ApiCommandParser.cpp: the object itself. Each method is proved to do
// what module Session says, telegram for telegram and line for line.

module ApiParser {
  import opened Bytes
  import opened Telegram
  import opened Session
  import ContactInfo

  class ApiCommandParser {
    var activeRequest: Option<Message>
    var retriesLeft: nat
    var requestResponse: seq<Byte>
    var requestOffset: nat
    var requestLength: nat
    var requestDestination: Byte
    var requestType: Word
    var parsePosition: nat
    var responseCounter: nat
    var outputRawData: bool
    /** Messages handed to the scheduler, and lines handed to the output. */
    var sent: seq<Message>
    var printed: seq<Line>

    function View(): Session
      reads this
    {
      Session(activeRequest, retriesLeft, requestResponse, requestOffset, requestLength,
              requestDestination, requestType, parsePosition, responseCounter, outputRawData)
    }

    constructor ()
      ensures activeRequest == None && sent == [] && printed == []
    {
      activeRequest, sent, printed := None, [], [];
    }

    method Output(line: Line)
      modifies this`printed
      ensures printed == old(printed) + [line]
    {
      printed := printed + [line];
    }

    method SendActiveRequest()
      requires activeRequest.Some?
      modifies this`sent
      ensures sent == old(sent) + [activeRequest.value]
    {
      sent := sent + [activeRequest.value];
    }

    method SendTelegram(dest: Byte, typ: Word, offset: Byte, data: seq<Byte>, expectResponse: bool)
      modifies this`retriesLeft, this`activeRequest, this`sent
      ensures View() == SendCommand(old(View()), dest, typ, offset, data, expectResponse)
      ensures sent == old(sent) + [Build(dest, typ, offset, data, expectResponse)]
    {
      retriesLeft := MAX_REQUEST_RETRIES;
      activeRequest := Some(Build(dest, typ, offset, data, expectResponse));
      SendActiveRequest();
    }

    method AskNext() returns (more: bool)
      modifies this`retriesLeft, this`activeRequest, this`sent
      ensures View() == ContinueRequest(old(View()))
      ensures sent == old(sent) + Asked(old(View()))
      ensures more == !Complete(old(View()))
    {
      var alreadyReceived := |requestResponse|;
      if alreadyReceived >= requestLength {
        return false;
      }
      var offset := ((requestOffset + alreadyReceived) % 256) as Byte;
      var remaining := ((requestLength - alreadyReceived) % 256) as Byte;
      SendTelegram(requestDestination, requestType, offset, [remaining], true);
      return true;
    }

    method Begin(dest: Byte, typ: Word, offset: nat, length: nat, newRequest: bool, raw: bool)
      modifies this
      ensures View() == StartRequest(old(View()), dest, typ, offset, length, newRequest, raw)
      ensures sent == old(sent) + StartAsks(old(View()), dest, typ, offset, length)
      ensures printed == old(printed)
    {
      hide AskForRest, Asked, Complete;
      ghost var s := View();
      FreshAsks(s, dest, typ, offset, length, newRequest, raw);
      requestOffset := offset;
      requestLength := length;
      requestDestination := dest;
      requestType := typ;
      requestResponse := [];
      parsePosition := 0;
      outputRawData := raw;
      if newRequest {
        responseCounter := 0;
      }
      assert View() == Fresh(s, dest, typ, offset, length, newRequest, raw);
      var more := AskNext();
    }

    /** What is asked first does not depend on how it will be printed. */
    lemma FreshAsks(s: Session, dest: Byte, typ: Word, offset: nat, length: nat, newRequest: bool, raw: bool)
      ensures Asked(Fresh(s, dest, typ, offset, length, newRequest, raw)) == StartAsks(s, dest, typ, offset, length)
    {}

    method LoopOver(prefix: string, l: Layout) returns (result: Result)
      requires l.code < l.size
      modifies this
      ensures var o := LoopOverResponse(old(View()), prefix, l);
        View() == o.session && sent == old(sent) + o.sends && printed == old(printed) + o.lines && result == o.result
    {
      hide AskForRest, EmptyRecord;
      ghost var s := View();
      ghost var all := ParseRecords(s.response, Parsed(s.parsePosition, s.counter, [], false), prefix, l);
      ghost var lines: seq<Line> := [];
      while parsePosition + l.size <= |requestResponse|
        invariant View() == s.(parsePosition := parsePosition, counter := responseCounter)
        invariant sent == old(sent) && printed == old(printed) + lines
        invariant all == ParseRecords(s.response, Parsed(parsePosition, responseCounter, lines, false), prefix, l)
        decreases |requestResponse| - parsePosition
      {
        var record := RecordAt(requestResponse, parsePosition, l);
        parsePosition := parsePosition + l.size;
        responseCounter := responseCounter + 1;
        if EmptyRecord(record, l) {
          return Success;
        }
        lines := lines + [RecordLine(prefix, responseCounter, record)];
        Output(RecordLine(prefix, responseCounter, record));
      }
      var more := AskNext();
      return if more then Ongoing else Success;
    }

    method Handle() returns (result: Result)
      modifies this
      ensures var o := HandleResponse(old(View()));
        View() == o.session && sent == old(sent) + o.sends && printed == old(printed) + o.lines && result == o.result
    {
      hide AskForRest, ParseRecords, ContactLines;
      if requestType == 0x02 {
        if requestDestination == ADDRESS_UBA2 || requestDestination == ADDRESS_UI800 || requestDestination == ADDRESS_RH800 {
          Output(VersionLine(requestDestination, requestResponse));
        }
        if requestDestination != ADDRESS_UBA2 && requestDestination != ADDRESS_UI800 {
          return Success;
        }
        Begin(if requestDestination == ADDRESS_UBA2 then ADDRESS_UI800 else ADDRESS_RH800, 0x02, 0, 3, true, false);
        return Ongoing;
      } else if requestType == 0x0137 {
        var more := AskNext();
        if more {
          return Ongoing;
        }
        PrintContactLines();
        return Success;
      } else if requestType == 0xbf {
        parsePosition := 3;
        result := LoopOver(" ", ERROR_RECORD_SHORT);
      } else if requestType == 0xc0 || requestType == 0xc2 {
        result := LoopOver(if requestType == 0xc0 then "R" else "U", ERROR_RECORD_2);
      } else if Readout(requestType) {
        return Success;
      } else {
        return Failure;
      }
    }

    lemma ContactSplit(octets: seq<Byte>, len: nat)
      requires octets != [] && len == if |octets| < 40 then |octets| else 40
      ensures ContactLines(octets) == [ContactLine(octets[..len])] + ContactLines(octets[len..])
    {
      if |octets| <= 40 {
        assert octets[..len] == octets && octets[len..] == [];
      }
    }

    method PrintContactLines()
      modifies this`printed
      ensures printed == old(printed) + ContactLines(requestResponse)
    {
      hide ContactLines;
      var i := 0;
      ghost var lines: seq<Line> := [];
      ghost var rest := requestResponse;
      while i < |requestResponse|
        invariant 0 <= i
        invariant rest == if i < |requestResponse| then requestResponse[i..] else []
        invariant printed == old(printed) + lines
        invariant lines + ContactLines(rest) == ContactLines(requestResponse)
        decreases |requestResponse| - i
      {
        var len := if |requestResponse| - i < 40 then |requestResponse| - i else 40;
        var line := ContactLine(requestResponse[i..i + len]);
        ContactSplit(rest, len);
        assert rest[..len] == requestResponse[i..i + len];
        assert lines + ([line] + ContactLines(rest[len..])) == lines + [line] + ContactLines(rest[len..]);
        rest := rest[len..];
        lines := lines + [line];
        Output(line);
        i := i + 40;
      }
      NoContactLines();
      assert lines + [] == lines;
    }

    lemma NoContactLines()
      ensures ContactLines([]) == []
    {}

    method OnIncoming(msg: Message) returns (result: Result)
      modifies this
      ensures var o := OnIncomingMessage(old(View()), msg);
        View() == o.session && sent == old(sent) + o.sends && printed == old(printed) + o.lines && result == o.result
    {
      hide HandleResponse, AskForRest;
      if activeRequest.None? {
        return Ongoing;
      }
      if msg.Type() == 0xff {
        activeRequest := None;
        return if msg.offset != 0x04 then Success else Failure;
      }
      if msg.source != requestDestination || msg.Type() != requestType
         || msg.offset as nat != |requestResponse| + requestOffset {
        return Ongoing;
      }
      if msg.data == [] {
        requestLength := |requestResponse|;
      } else {
        requestResponse := requestResponse + msg.data;
      }
      if outputRawData {
        var more := AskNext();
        if !more {
          Output(RawLine(requestResponse));
          result := Success;
        } else {
          result := Ongoing;
        }
      } else {
        result := Handle();
      }
      if result == Success {
        activeRequest := None;
      }
    }

    /** True when the request is given up and the client gets its error line. */
    method TimedOut() returns (reported: bool)
      requires Valid(View())
      modifies this`retriesLeft, this`activeRequest, this`sent
      ensures var o := OnTimeout(old(View()));
        View() == o.session && sent == old(sent) + o.sends && (reported <==> o.result == Failure)
      ensures Valid(View())
    {
      if activeRequest.None? {
        return false;
      }
      retriesLeft := retriesLeft - 1;
      if retriesLeft == 0 {
        activeRequest := None;
        return true;
      }
      SendActiveRequest();
      return false;
    }

    /** setcontactinfo with the text already cropped to 20 units: two telegrams of
        ten units each. */
    method SetContactLine(line: nat, text: seq<Word>)
      requires 1 <= line <= 3 && ContactInfo.Text(text)
      modifies this`retriesLeft, this`activeRequest, this`sent
      ensures sent == old(sent) + [ContactInfo.WriteOf(line, text, 0), ContactInfo.WriteOf(line, text, 1)]
      ensures activeRequest == Some(ContactInfo.WriteOf(line, text, 1)) && retriesLeft == MAX_REQUEST_RETRIES
    {
      hide ContactInfo.Packed, Build;
      for chunk := 0 to 2
        invariant chunk > 0 ==>
          activeRequest == Some(ContactInfo.WriteOf(line, text, chunk - 1)) && retriesLeft == MAX_REQUEST_RETRIES
        invariant sent == old(sent) + if chunk == 0 then []
          else if chunk == 1 then [ContactInfo.WriteOf(line, text, 0)]
          else [ContactInfo.WriteOf(line, text, 0), ContactInfo.WriteOf(line, text, 1)]
      {
        var buffer := PackHalf(text, chunk);
        SendTelegram(ADDRESS_UI800, 0x0137, (chunk * 20 + (line - 1) * 40) as Byte, buffer, false);
      }
    }

    method PackHalf(text: seq<Word>, chunk: nat) returns (octets: seq<Byte>)
      requires ContactInfo.Text(text) && chunk < 2
      ensures octets == ContactInfo.Packed(ContactInfo.Half(text, chunk))
    {
      hide ContactInfo.Packed;
      var half := ContactInfo.Half(text, chunk);
      ContactInfo.NothingPacked();
      octets := [];
      for i := 0 to 10
        invariant octets == ContactInfo.Packed(half[..i])
      {
        ContactInfo.PackedSnoc(half, i);
        var unit := text[i + chunk * 10];
        octets := octets + [(unit / 256) as Byte, (unit % 256) as Byte];
      }
      assert half[..10] == half;
    }
  }
}
