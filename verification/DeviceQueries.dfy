// collector/ApiCommandParser.cpp: the version query (type 0x02), which goes from device
// to device, and the active errors (type 0xbf), which are parsed from the start with
// every telegram.

module DeviceQueries {
  import opened Bytes
  import opened Telegram
  import opened Session
  import opened Fetch

  // ----- Versions -----

  /** Waiting for the version of a device. */
  ghost predicate AskingVersion(s: Session, mem: Memory, dest: Byte)
  {
    && Asking(s, mem) && s.requestDest == dest && s.requestType == 0x02 && !s.raw
    && s.requestOffset == 0 && s.requestLength == 3 && s.response == []
  }

  function Version(mem: Memory, dest: Byte): Line
  {
    VersionLine(dest, [mem(dest, 0x02, 0), mem(dest, 0x02, 1), mem(dest, 0x02, 2)])
  }

  /** The answer of one device prints its version and moves on to the next. */
  lemma OneVersion(s: Session, mem: Memory, dest: Byte, next: Option<Byte>)
    requires AskingVersion(s, mem, dest)
    requires next == if dest == 0x88 then Some(0x90) else if dest == 0x90 then Some(0xb8) else None
    requires dest in {0x88, 0x90, 0xb8}
    ensures Answers(s.active.value)
    ensures var o := OnIncomingMessage(s, Answer(s.active.value, mem, 3));
      && o.lines == [Version(mem, dest)]
      && (if next.None? then o.result.Success? && o.session.active.None?
          else AskingVersion(o.session, mem, next.value))
  {
    hide Answer, Slice;
    AnswerAccepted(s, mem, 3);
    var m := Answer(s.active.value, mem, 3);
    AnswerIs(s, mem, 3);
    var s1 := Accept(s, m.data);
    AcceptHoldsSlice(s, m, mem);
    assert s1.response == [s1.response[0], s1.response[1], s1.response[2]];
  }

  lemma StartsAsking(s: Session, mem: Memory)
    ensures AskingVersion(StartRequest(s, 0x88, 0x02, 0, 3, true, false), mem, 0x88)
  {}

  lemma ServeOne(s: Session, mem: Memory, k: nat, rest: seq<nat>)
    requires s.active.Some? && Answers(s.active.value)
    ensures var o := OnIncomingMessage(s, Answer(s.active.value, mem, k)); var more := Serve(o.session, mem, rest);
      && Serve(s, mem, [k] + rest).lines == o.lines + more.lines
      && Serve(s, mem, [k] + rest).result == if o.session.active.None? then o.result else more.result
  {
    hide OnIncomingMessage, Answer;
    assert ([k] + rest)[1..] == rest;
  }

  lemma ServeNone(s: Session, mem: Memory)
    ensures Serve(s, mem, []).lines == []
  {}

  /** The version query asks the burner control, the operating unit and the room
      controller, and prints their versions in that order. */
  lemma VersionSweep(s: Session, mem: Memory)
    ensures var o := Serve(StartRequest(s, 0x88, 0x02, 0, 3, true, false), mem, [3, 3, 3]);
      o.result.Success? && o.lines == [Version(mem, 0x88), Version(mem, 0x90), Version(mem, 0xb8)]
  {
    hide Serve, OnIncomingMessage, Answer, AskingVersion, StartRequest, Answers;
    var a := StartRequest(s, 0x88, 0x02, 0, 3, true, false);
    StartsAsking(s, mem);
    OneVersion(a, mem, 0x88, Some(0x90));
    AskingIsActive(a, mem, 0x88);
    var b := OnIncomingMessage(a, Answer(a.active.value, mem, 3)).session;
    OneVersion(b, mem, 0x90, Some(0xb8));
    AskingIsActive(b, mem, 0x90);
    var c := OnIncomingMessage(b, Answer(b.active.value, mem, 3)).session;
    OneVersion(c, mem, 0xb8, None);
    AskingIsActive(c, mem, 0xb8);
    ServeOne(a, mem, 3, [3, 3]);
    assert [3] + [3, 3] == [3, 3, 3];
    ServeOne(b, mem, 3, [3]);
    assert [3] + [3] == [3, 3];
    ServeOne(c, mem, 3, []);
    assert [3] + [] == [3];
    ServeNone(OnIncomingMessage(c, Answer(c.active.value, mem, 3)).session, mem);
  }

  lemma AskingIsActive(s: Session, mem: Memory, dest: Byte)
    requires AskingVersion(s, mem, dest)
    ensures s.active.Some? && Answers(s.active.value)
  {}

  // ----- Active errors -----

  ghost predicate AskingErrors(s: Session, mem: Memory, received: nat, counter: nat)
  {
    && Asking(s, mem) && s.requestDest >= 0x80 && s.requestType == 0xbf && !s.raw
    && s.requestOffset == 0 && s.requestLength == 20 && |s.response| == received && s.counter == counter
  }

  /** The record at octet 3, and the one behind it; the third octet of a record is zero
      if it is empty. */
  function First(octets: seq<Byte>): seq<Byte>
    requires |octets| == 20
  {
    octets[3..10]
  }

  function Second(octets: seq<Byte>): seq<Byte>
    requires |octets| == 20
  {
    octets[10..17]
  }

  lemma ParseErrors(octets: seq<Byte>, counter: nat)
    requires |octets| == 20
    ensures var p := ParseRecords(octets, Parsed(3, counter, [], false), " ", ERROR_RECORD_SHORT);
      p.lines == if octets[5] == 0 then []
                 else if octets[12] == 0 then [RecordLine(" ", counter + 1, First(octets))]
                 else [RecordLine(" ", counter + 1, First(octets)), RecordLine(" ", counter + 2, Second(octets))]
  {
    var l := ERROR_RECORD_SHORT;
    assert RecordAt(octets, 3, l) == First(octets) && RecordAt(octets, 10, l) == Second(octets);
    assert First(octets)[2] == octets[5] && Second(octets)[2] == octets[12];
    if octets[5] != 0 {
      var p1 := Parsed(10, counter + 1, [RecordLine(" ", counter + 1, First(octets))], false);
      assert [] + p1.lines == p1.lines;
      assert ParseRecords(octets, Parsed(3, counter, [], false), " ", l) == ParseRecords(octets, p1, " ", l);
      if octets[12] != 0 {
        var p2 := Parsed(17, counter + 2, p1.lines + [RecordLine(" ", counter + 2, Second(octets))], false);
        assert ParseRecords(octets, p1, " ", l) == ParseRecords(octets, p2, " ", l) == p2;
      }
    }
  }

  /** The answer that completes the request prints what is there. */
  lemma LastErrors(s: Session, mem: Memory, received: nat, counter: nat)
    requires received < 20 && AskingErrors(s, mem, received, counter)
    ensures Answers(s.active.value)
    ensures var o := OnIncomingMessage(s, Answer(s.active.value, mem, 20 - received));
      var octets := Slice(mem, s.requestDest, 0xbf, 0, 20);
      && o.result.Success? && o.session.active.None?
      && o.lines == ParseRecords(octets, Parsed(3, counter, [], false), " ", ERROR_RECORD_SHORT).lines
  {
    hide Answer, ParseRecords;
    AnswerAccepted(s, mem, 20 - received);
    AnswerIs(s, mem, 20 - received);
    var m := Answer(s.active.value, mem, 20 - received);
    var s1 := Accept(s, m.data);
    AcceptHoldsSlice(s, m, mem);
    assert s1.response == Slice(mem, s.requestDest, 0xbf, 0, 20);
  }

  /** In one telegram: up to two errors, numbered from one, until an empty one. */
  lemma ActiveErrors(s: Session, mem: Memory, dest: Byte)
    requires dest >= 0x80
    ensures var o := Serve(StartRequest(s, dest, 0xbf, 0, 20, true, false), mem, [20]);
      var octets := Slice(mem, dest, 0xbf, 0, 20);
      && o.result.Success?
      && o.lines == if octets[5] == 0 then []
                    else if octets[12] == 0 then [RecordLine(" ", 1, First(octets))]
                    else [RecordLine(" ", 1, First(octets)), RecordLine(" ", 2, Second(octets))]
  {
    hide Serve, OnIncomingMessage, Answer, ParseRecords;
    var t := StartRequest(s, dest, 0xbf, 0, 20, true, false);
    assert AskingErrors(t, mem, 0, 0);
    LastErrors(t, mem, 0, 0);
    ParseErrors(Slice(mem, dest, 0xbf, 0, 20), 0);
    ServeOne(t, mem, 20, []);
    assert [20] + [] == [20];
    ServeNone(OnIncomingMessage(t, Answer(t.active.value, mem, 20)).session, mem);
  }

  lemma HalfOfErrors(s: Session, mem: Memory)
    requires AskingErrors(s, mem, 0, 0) && mem(s.requestDest, 0xbf, 5) != 0
    ensures Answers(s.active.value)
    ensures var o := OnIncomingMessage(s, Answer(s.active.value, mem, 10));
      && o.lines == [RecordLine(" ", 1, First(Slice(mem, s.requestDest, 0xbf, 0, 20)))]
      && AskingErrors(o.session, mem, 10, 1) && o.session.requestDest == s.requestDest
  {
    hide Answer;
    AnswerAccepted(s, mem, 10);
    AnswerIs(s, mem, 10);
    var m := Answer(s.active.value, mem, 10);
    var s1 := Accept(s, m.data);
    AcceptHoldsSlice(s, m, mem);
    var l, octets := ERROR_RECORD_SHORT, Slice(mem, s.requestDest, 0xbf, 0, 20);
    assert s1.response == octets[..10];
    assert RecordAt(s1.response, 3, l) == First(octets);
    var p1 := Parsed(10, 1, [RecordLine(" ", 1, First(octets))], false);
    assert ParseRecords(s1.response, Parsed(3, 0, [], false), " ", l) == ParseRecords(s1.response, p1, " ", l) == p1;
  }

  /** In two telegrams the first error is printed twice, and the numbers run on: unlike
      the history, what is printed depends on how the answer is cut. */
  lemma ActiveErrorsTwice(s: Session, mem: Memory, dest: Byte)
    requires dest >= 0x80 && mem(dest, 0xbf, 5) != 0 && mem(dest, 0xbf, 12) != 0
    ensures var o := Serve(StartRequest(s, dest, 0xbf, 0, 20, true, false), mem, [10, 10]);
      var octets := Slice(mem, dest, 0xbf, 0, 20);
      o.result.Success?
      && o.lines == [RecordLine(" ", 1, First(octets)), RecordLine(" ", 2, First(octets)), RecordLine(" ", 3, Second(octets))]
  {
    hide Serve, OnIncomingMessage, Answer, ParseRecords;
    var t := StartRequest(s, dest, 0xbf, 0, 20, true, false);
    assert AskingErrors(t, mem, 0, 0);
    HalfOfErrors(t, mem);
    var u := OnIncomingMessage(t, Answer(t.active.value, mem, 10)).session;
    LastErrors(u, mem, 10, 1);
    ParseErrors(Slice(mem, dest, 0xbf, 0, 20), 1);
    ServeOne(t, mem, 10, [10]);
    assert [10] + [10] == [10, 10];
    ServeOne(u, mem, 10, []);
    assert [10] + [] == [10];
    ServeNone(OnIncomingMessage(u, Answer(u.active.value, mem, 10)).session, mem);
  }
}
