// collector/ApiCommandParser.cpp: reading the error history (types 0xc0 and 0xc2)
// from a device that answers every telegram.

module HistoryRead {
  import opened Bytes
  import opened Telegram
  import opened Session
  import opened RecordStream
  import opened Fetch

  ghost predicate HasEmpty(octets: seq<Byte>)
  {
    exists k: nat :: EmptyAt(k, octets)
  }

  /** The memory the request is for. */
  function Wanted(s: Session, mem: Memory): (r: seq<Byte>)
    ensures |r| == s.requestLength
  {
    Slice(mem, s.requestDest, s.requestType, s.requestOffset, s.requestLength)
  }

  ghost predicate Reading(s: Session, mem: Memory, lines: seq<Line>)
  {
    Asking(s, mem) && Streaming(s, lines) && s.requestLength <= 255
  }

  lemma NoEmptyYet(s: Session, mem: Memory, lines: seq<Line>)
    requires Reading(s, mem, lines)
    ensures !HasEmpty(s.response)
    ensures s.response == Wanted(s, mem)[..|s.response|]
  {
    forall k: nat
      ensures !EmptyAt(k, s.response)
    {
      if k < |lines| {
        assert Reports(lines[k], k, s.response, Prefix(s.requestType));
      }
    }
  }

  /** A report that ends at an empty record is not changed by what comes behind. */
  lemma ReportExtends(lines: seq<Line>, a: seq<Byte>, b: seq<Byte>, prefix: string)
    requires IsReport(lines, a, prefix) && EmptyAt(|lines|, a) && a <= b
    ensures IsReport(lines, b, prefix)
  {
    assert b == a + b[|a|..];
    MoreOctets(lines, a, b[|a|..], prefix);
  }

  /** One answer: it ends the request with the report of the memory, or the session
      has seen no empty record yet and asks for what comes behind. */
  lemma OneAnswer(s: Session, mem: Memory, lines: seq<Line>, k: nat)
    requires Reading(s, mem, lines) && !Unanswerable(s) && 0 < k <= Missing(s)
    ensures Answers(s.active.value)
    ensures var o := OnIncomingMessage(s, Answer(s.active.value, mem, k)); var n := |s.response| + k; var all := Wanted(s, mem);
      if o.result.Success?
      then o.session.active.None? && IsReport(lines + o.lines, all, Prefix(s.requestType))
           && (n == s.requestLength || HasEmpty(all[..n]))
      else Reading(o.session, mem, lines + o.lines) && |o.session.response| == n && Wanted(o.session, mem) == all
           && o.session.requestOffset == s.requestOffset && o.session.requestLength == s.requestLength
           && o.session.requestType == s.requestType && o.session.requestDest == s.requestDest
  {
    hide Answer, HandleResponse, OnIncomingMessage, Streaming, IsReport, HasEmpty, EmptyAt, HoldsSlice, Matches, Slice, Truthful;
    AnswerIs(s, mem, k);
    var m := Answer(s.active.value, mem, k);
    var s1 := Accept(s, m.data);
    var o := OnIncomingMessage(s, m);
    var all := Wanted(s, mem);
    AnswerAccepted(s, mem, k);
    AcceptHoldsSlice(s, m, mem);
    SliceIs(s1, mem, all);
    ReplyStreams(s, lines, m);
    ReplyLoops(s, lines, m);
    if o.result.Success? {
      StreamedReport(o.session, lines + o.lines);
      Ended(lines + o.lines, s1.response, all, Prefix(s.requestType));
    } else {
      SameSlice(s1, o.session, mem);
    }
  }

  lemma SameSlice(s: Session, t: Session, mem: Memory)
    requires HoldsSlice(s, mem) && t.response == s.response && t.requestDest == s.requestDest
    requires t.requestType == s.requestType && t.requestOffset == s.requestOffset
    ensures HoldsSlice(t, mem)
  {}

  lemma Ended(lines: seq<Line>, octets: seq<Byte>, all: seq<Byte>, prefix: string)
    requires octets <= all && IsReport(lines, octets, prefix)
    requires |octets| == |all| || EmptyAt(|lines|, octets)
    ensures IsReport(lines, all, prefix) && (|octets| == |all| || HasEmpty(all[..|octets|]))
  {
    hide IsReport;
    assert all[..|octets|] == octets;
    if EmptyAt(|lines|, octets) {
      ReportExtends(lines, octets, all, prefix);
    } else {
      assert octets == all;
    }
  }

  lemma SliceIs(s: Session, mem: Memory, all: seq<Byte>)
    requires HoldsSlice(s, mem) && |s.response| <= s.requestLength && all == Wanted(s, mem)
    ensures s.response <= all
  {}

  lemma StreamedReport(s: Session, lines: seq<Line>)
    requires Streaming(s, lines)
    ensures IsReport(lines, s.response, Prefix(s.requestType))
  {}

  lemma ReplyLoops(s: Session, lines: seq<Line>, m: Message)
    requires Streaming(s, lines) && s.active.Some? && m.Type() != 0xff && Matches(s, m)
    ensures var o := OnIncomingMessage(s, m); var s1 := Accept(s, m.data);
      && (if o.result.Success? then o.session.active.None? && (Complete(s1) || EmptyAt(|lines + o.lines|, s1.response))
          else !Complete(s1) && o.session.active == AskForRest(s1).active)
      && o.session.response == s1.response && o.session.requestDest == s.requestDest
      && o.session.requestType == s.requestType && o.session.requestOffset == s.requestOffset
      && o.session.requestLength == s1.requestLength
  {
    hide HandleResponse, AllReported;
    MoreOctets(lines, s.response, m.data, Prefix(s.requestType));
    LoopStreams(Accept(s, m.data), lines);
  }

  /** With `received` octets in, and answers of these sizes to come: every further
      telegram asks at an offset below 256, unless the records received by then end
      with an empty one and it is not sent at all. */
  ghost predicate Answerable(all: seq<Byte>, offset: nat, received: nat, sizes: seq<nat>)
    requires received + Sum(sizes) == |all|
    decreases |sizes|
  {
    sizes == []
    || ((offset + received < 256 || HasEmpty(all[..received])) && Answerable(all, offset, received + sizes[0], sizes[1..]))
  }

  /** Once there is an empty record the rest does not matter. */
  lemma {:induction false} EndedIsAnswerable(all: seq<Byte>, offset: nat, received: nat, sizes: seq<nat>)
    requires received + Sum(sizes) == |all| && HasEmpty(all[..received])
    ensures Answerable(all, offset, received, sizes)
    decreases |sizes|
  {
    if sizes != [] {
      var k: nat :| EmptyAt(k, all[..received]);
      assert EmptyAt(k, all[..received + sizes[0]]);
      EndedIsAnswerable(all, offset, received + sizes[0], sizes[1..]);
    }
  }

  lemma {:induction false} ServedReads(s: Session, mem: Memory, lines: seq<Line>, sizes: seq<nat>)
    requires Reading(s, mem, lines)
    requires AllPositive(sizes) && Sum(sizes) == Missing(s)
    ensures var o := Serve(s, mem, sizes); var all := Wanted(s, mem);
      && (o.result.Success? <==> s.requestDest >= 0x80 && Answerable(all, s.requestOffset, |s.response|, sizes))
      && (o.result.Success? ==> IsReport(lines + o.lines, all, Prefix(s.requestType)))
    decreases |sizes|
  {
    hide Answer, OnIncomingMessage, Streaming, IsReport, HasEmpty;
    var all := Wanted(s, mem);
    NoEmptyYet(s, mem, lines);
    if Unanswerable(s) {
      Stuck(s, mem, sizes);
    } else {
      var k := sizes[0];
      SumBound(sizes);
      OneAnswer(s, mem, lines, k);
      var o := OnIncomingMessage(s, Answer(s.active.value, mem, k));
      var rest := Serve(o.session, mem, sizes[1..]);
      assert lines + (o.lines + rest.lines) == lines + o.lines + rest.lines;
      if o.result.Success? {
        assert lines + (o.lines + []) == lines + o.lines;
        if |s.response| + k == s.requestLength {
          OnlyOne(sizes);
        } else {
          EndedIsAnswerable(all, s.requestOffset, |s.response| + k, sizes[1..]);
        }
      } else {
        ServedReads(o.session, mem, lines + o.lines, sizes[1..]);
      }
    }
  }

  /** A read of the error history, the device answering in pieces of any size, but
      never with more than a telegram asks for: it ends with the report of the
      memory asked for, up to the first empty record, if and only if the device is
      addressed with bit 7 set and all telegrams until then ask at offsets below
      256. */
  lemma HistoryCompletes(s: Session, dest: Byte, typ: Word, offset: nat, length: nat, mem: Memory, sizes: seq<nat>)
    requires History(typ) && 0 < length <= 255
    requires AllPositive(sizes) && Sum(sizes) == length
    ensures var o := Serve(StartRequest(s, dest, typ, offset, length, true, false), mem, sizes);
      var all := Slice(mem, dest, typ, offset, length);
      && (o.result.Success? <==> dest >= 0x80 && Answerable(all, offset, 0, sizes))
      && (o.result.Success? ==> IsReport(o.lines, all, Prefix(typ)))
  {
    hide Serve, HasEmpty, Answerable;
    var t := StartRequest(s, dest, typ, offset, length, true, false);
    ServedReads(t, mem, [], sizes);
    var o := Serve(t, mem, sizes);
    assert [] + o.lines == o.lines;
  }

  /** The requests the collector makes are within the first 256 octets, and so always
      complete. */
  lemma {:induction false} LowIsAnswerable(all: seq<Byte>, offset: nat, received: nat, sizes: seq<nat>)
    requires received + Sum(sizes) == |all| && AllPositive(sizes) && offset + |all| <= 256
    ensures Answerable(all, offset, received, sizes)
    decreases |sizes|
  {
    if sizes != [] {
      SumBound(sizes);
      LowIsAnswerable(all, offset, received + sizes[0], sizes[1..]);
    }
  }
}
