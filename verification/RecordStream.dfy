// collector/ApiCommandParser.cpp: the error history (types 0xc0 and 0xc2) is
// parsed while its telegrams come in.

module RecordStream {
  import opened Bytes
  import opened Telegram
  import opened Session

  const SIZE: nat := 20

  predicate History(typ: Word)
  {
    typ == 0xc0 || typ == 0xc2
  }

  function Prefix(typ: Word): string
  {
    if typ == 0xc0 then "R" else "U"
  }

  /** Line i reports the i-th 20 octets, which are a record. */
  predicate Reports(line: Line, i: nat, octets: seq<Byte>, prefix: string)
  {
    && SIZE * (i + 1) <= |octets|
    && line == RecordLine(prefix, i + 1, octets[SIZE * i..SIZE * (i + 1)])
    && octets[SIZE * i + ERROR_RECORD_2.code] != 0
  }

  predicate AllReported(lines: seq<Line>, octets: seq<Byte>, prefix: string)
  {
    forall i :: 0 <= i < |lines| ==> Reports(lines[i], i, octets, prefix)
  }

  predicate EmptyAt(k: nat, octets: seq<Byte>)
  {
    SIZE * (k + 1) <= |octets| && octets[SIZE * k + ERROR_RECORD_2.code] == 0
  }

  /** Behind k records comes an empty one, or less than a whole one. */
  predicate EndsAfter(k: nat, octets: seq<Byte>)
  {
    SIZE * (k + 1) > |octets| || EmptyAt(k, octets)
  }

  /** What should be printed for these octets, however they came in: each record
      once, in order, numbered from one, up to the first empty one. */
  predicate IsReport(lines: seq<Line>, octets: seq<Byte>, prefix: string)
  {
    AllReported(lines, octets, prefix) && EndsAfter(|lines|, octets)
  }

  lemma ReportedGoesOn(lines: seq<Line>, k: nat, octets: seq<Byte>, prefix: string)
    requires AllReported(lines, octets, prefix) && k < |lines|
    ensures !EndsAfter(k, octets)
  {
    assert Reports(lines[k], k, octets, prefix);
  }

  /** That leaves no choice. */
  lemma ReportUnique(a: seq<Line>, b: seq<Line>, octets: seq<Byte>, prefix: string)
    requires IsReport(a, octets, prefix) && IsReport(b, octets, prefix)
    ensures a == b
  {
    if |a| < |b| {
      ReportedGoesOn(b, |a|, octets, prefix);
    }
    if |b| < |a| {
      ReportedGoesOn(a, |b|, octets, prefix);
    }
    forall i | 0 <= i < |a|
      ensures a[i] == b[i]
    {
      assert Reports(a[i], i, octets, prefix) && Reports(b[i], i, octets, prefix);
    }
  }

  lemma MoreOctets(lines: seq<Line>, octets: seq<Byte>, more: seq<Byte>, prefix: string)
    requires AllReported(lines, octets, prefix)
    ensures AllReported(lines, octets + more, prefix)
  {
    forall i | 0 <= i < |lines|
      ensures Reports(lines[i], i, octets + more, prefix)
    {
      assert Reports(lines[i], i, octets, prefix);
      assert (octets + more)[SIZE * i..SIZE * (i + 1)] == octets[SIZE * i..SIZE * (i + 1)];
    }
  }

  /** The loop has kept up: every line so far reports its record, and position
      and counter stand behind the last of them. */
  predicate KeptUp(before: seq<Line>, p: Parsed, octets: seq<Byte>, prefix: string)
  {
    && AllReported(before + p.lines, octets, prefix)
    && (!p.stopped ==> p.pos == SIZE * |before + p.lines| && p.counter == |before + p.lines|)
    && (p.stopped ==> EmptyAt(|before + p.lines|, octets))
  }

  lemma NextReported(all: seq<Line>, line: Line, octets: seq<Byte>, prefix: string)
    requires AllReported(all, octets, prefix) && SIZE * (|all| + 1) <= |octets|
    requires line == RecordLine(prefix, |all| + 1, RecordAt(octets, SIZE * |all|, ERROR_RECORD_2))
    requires !EmptyRecord(RecordAt(octets, SIZE * |all|, ERROR_RECORD_2), ERROR_RECORD_2)
    ensures AllReported(all + [line], octets, prefix)
  {
    assert Reports(line, |all|, octets, prefix);
  }

  lemma {:induction false} ParseKeepsUp(octets: seq<Byte>, before: seq<Line>, p: Parsed, prefix: string)
    requires KeptUp(before, p, octets, prefix)
    ensures var r := ParseRecords(octets, p, prefix, ERROR_RECORD_2);
      KeptUp(before, r, octets, prefix) && (!r.stopped ==> r.pos + SIZE > |octets|)
    decreases |octets| - p.pos
  {
    hide AllReported;
    if !p.stopped && p.pos + SIZE <= |octets| {
      var record := RecordAt(octets, p.pos, ERROR_RECORD_2);
      if !EmptyRecord(record, ERROR_RECORD_2) {
        var line := RecordLine(prefix, p.counter + 1, record);
        var q := p.(pos := p.pos + SIZE, counter := p.counter + 1, lines := p.lines + [line]);
        var all := before + p.lines;
        assert before + q.lines == all + [line];
        NextReported(all, line, octets, prefix);
        ParseKeepsUp(octets, before, q, prefix);
      }
    }
  }

  /** What a session for the error history keeps from event to event. */
  ghost predicate Streaming(s: Session, lines: seq<Line>)
  {
    && History(s.requestType) && !s.raw
    && IsReport(lines, s.response, Prefix(s.requestType))
    && (s.active.Some? ==>
          s.parsePosition == SIZE * |lines| && s.counter == |lines| && |s.response| < SIZE * (|lines| + 1))
  }

  lemma LoopStreams(s: Session, lines: seq<Line>)
    requires History(s.requestType) && !s.raw && s.active.Some?
    requires AllReported(lines, s.response, Prefix(s.requestType))
    requires s.parsePosition == SIZE * |lines| && s.counter == |lines|
    ensures var o := HandleResponse(s);
      && Streaming(if o.result.Success? then o.session.(active := None) else o.session, lines + o.lines)
      && (if o.result.Success? then Complete(s) || EmptyAt(|lines + o.lines|, s.response)
          else o.result.Ongoing? && !Complete(s) && o.session.active == AskForRest(s).active)
      && o.session.response == s.response && o.session.requestDest == s.requestDest
      && o.session.requestType == s.requestType && o.session.requestOffset == s.requestOffset
      && o.session.requestLength == s.requestLength
  {
    hide ParseRecords, AllReported;
    var prefix := Prefix(s.requestType);
    var p := Parsed(s.parsePosition, s.counter, [], false);
    assert lines + [] == lines;
    ParseKeepsUp(s.response, lines, p, prefix);
    var r := ParseRecords(s.response, p, prefix, ERROR_RECORD_2);
    assert HandleResponse(s) == LoopOverResponse(s, prefix, ERROR_RECORD_2);
  }

  lemma ReplyStreams(s: Session, lines: seq<Line>, m: Message)
    requires Streaming(s, lines) && s.active.Some? && m.Type() != 0xff && Matches(s, m)
    ensures var o := OnIncomingMessage(s, m); Streaming(o.session, lines + o.lines)
  {
    hide HandleResponse, AllReported;
    var s1 := Accept(s, m.data);
    MoreOctets(lines, s.response, m.data, Prefix(s.requestType));
    LoopStreams(s1, lines);
  }

  lemma RespondStreams(s: Session, lines: seq<Line>, e: Event)
    requires Streaming(s, lines)
    ensures var o := Respond(s, e); Streaming(o.session, lines + o.lines)
  {
    hide HandleResponse, Matches, IsReport;
    if e.Reply? && s.active.Some? && e.msg.Type() != 0xff && Matches(s, e.msg) {
      ReplyStreams(s, lines, e.msg);
    } else {
      assert lines + [] == lines;
    }
  }

  lemma {:induction false} RunStreams(s: Session, lines: seq<Line>, events: seq<Event>)
    requires Streaming(s, lines)
    ensures var o := Run(s, events); Streaming(o.session, lines + o.lines)
    decreases |events|
  {
    hide Streaming, Respond;
    if events == [] {
      assert lines + [] == lines;
    } else {
      var n := |events| - 1;
      RunStreams(s, lines, events[..n]);
      var o := Run(s, events[..n]);
      RespondStreams(o.session, lines + o.lines, events[n]);
      assert lines + o.lines + Respond(o.session, events[n]).lines
          == lines + (o.lines + Respond(o.session, events[n]).lines);
    }
  }

  /** Whatever telegrams come in, in whatever sizes, and however often one is
      repeated: what has been printed is the report of the octets received. */
  lemma PrintedIsReport(s: Session, dest: Byte, typ: Word, offset: nat, length: nat, events: seq<Event>)
    requires History(typ)
    ensures var o := Run(StartRequest(s, dest, typ, offset, length, true, false), events);
      IsReport(o.lines, o.session.response, Prefix(typ))
  {
    var t := StartRequest(s, dest, typ, offset, length, true, false);
    var o := Run(t, events);
    RunStreams(t, [], events);
    assert [] + o.lines == o.lines;
    RunKeepsType(t, events);
  }

  lemma {:induction false} RunKeepsType(s: Session, events: seq<Event>)
    requires History(s.requestType)
    ensures Run(s, events).session.requestType == s.requestType
    decreases |events|
  {
    if events != [] {
      RunKeepsType(s, events[..|events| - 1]);
      RespondKeepsType(Run(s, events[..|events| - 1]).session, events[|events| - 1]);
    }
  }

  lemma RespondKeepsType(s: Session, e: Event)
    requires History(s.requestType)
    ensures Respond(s, e).session.requestType == s.requestType
  {
    hide ParseRecords;
  }

  /** So the lines depend on the octets alone: two requests that received the same
      octets in different pieces have printed the same lines. */
  lemma {:induction false} ChunksDoNotMatter(s: Session, t: Session, dest: Byte, typ: Word, offset: nat, length: nat,
                          eventsS: seq<Event>, eventsT: seq<Event>)
    requires History(typ)
    ensures var a := Run(StartRequest(s, dest, typ, offset, length, true, false), eventsS);
      var b := Run(StartRequest(t, dest, typ, offset, length, true, false), eventsT);
      a.session.response == b.session.response ==> a.lines == b.lines
  {
    hide Run, StartRequest, IsReport;
    PrintedIsReport(s, dest, typ, offset, length, eventsS);
    PrintedIsReport(t, dest, typ, offset, length, eventsT);
    var a := Run(StartRequest(s, dest, typ, offset, length, true, false), eventsS);
    var b := Run(StartRequest(t, dest, typ, offset, length, true, false), eventsT);
    if a.session.response == b.session.response {
      ReportUnique(a.lines, b.lines, a.session.response, Prefix(typ));
    }
  }
}
