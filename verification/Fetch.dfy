// collector/ApiCommandParser.cpp: a read request against a device that answers
// every telegram with at least one of the octets asked for.

module Fetch {
  import opened Bytes
  import opened Telegram
  import opened Session

  /** The requests that collect octets until they have all of them: raw reads and
      the contact information. */
  predicate Collects(s: Session)
  {
    (s.raw || s.requestType == 0x0137) && s.requestType != 0xff
  }

  function FinalLines(s: Session, octets: seq<Byte>): seq<Line>
  {
    if s.raw then [RawLine(octets)] else ContactLines(octets)
  }

  /** The stretch of memory a request reads. */
  function Slice(mem: Memory, dest: Byte, typ: Word, offset: nat, length: nat): seq<Byte>
  {
    seq(length, i requires 0 <= i < length => mem(dest, typ, offset + i))
  }

  /** A device answers telegrams with bit 7 set and a length. */
  predicate Answers(m: Message)
  {
    m.AsksAnswer() && m.data != []
  }

  /** The device's answer: from the address that was asked, for the type and offset
      that were asked for, k octets of its memory, but no more than were asked for. */
  function Answer(m: Message, mem: Memory, k: nat): Message
    requires Answers(m)
  {
    var asked := m.data[0] as nat;
    Message(m.dest, ADDRESS_PC, m.typ, m.extType, m.offset,
            Slice(mem, m.dest, m.Type(), m.offset as nat, if k <= asked then k else asked))
  }

  /** The session as each answer, of the given size, comes in. */
  function Serve(s: Session, mem: Memory, sizes: seq<nat>): Outcome
    decreases |sizes|
  {
    if sizes == [] || s.active.None? || !Answers(s.active.value) then Outcome(s, [], [], Ongoing)
    else
      var o := OnIncomingMessage(s, Answer(s.active.value, mem, sizes[0]));
      var rest := Serve(o.session, mem, sizes[1..]);
      Outcome(rest.session, o.sends + rest.sends, o.lines + rest.lines,
              if o.session.active.None? then o.result else rest.result)
  }

  function Sum(sizes: seq<nat>): nat
  {
    if sizes == [] then 0 else sizes[0] + Sum(sizes[1..])
  }

  ghost predicate AllPositive(sizes: seq<nat>)
  {
    forall i :: 0 <= i < |sizes| ==> sizes[i] > 0
  }

  /** The session has asked for what comes next. */
  ghost predicate Asking(s: Session, mem: Memory)
  {
    && s.requestType != 0xff && !Complete(s) && HoldsSlice(s, mem)
    && s.active == AskForRest(s).active
  }

  ghost predicate Waiting(s: Session, mem: Memory)
  {
    Collects(s) && Asking(s, mem)
  }

  /** What a session asks for is answered; by itself only if it is addressed with bit
      7 set, as answers come from there. */
  lemma AnswerIs(s: Session, mem: Memory, k: nat)
    requires Asking(s, mem)
    ensures Answers(s.active.value)
    ensures var m := Answer(s.active.value, mem, k);
      && m.Type() == s.requestType && Truthful(m, mem)
      && m.source == (if s.requestDest >= 0x80 then s.requestDest else s.requestDest + 0x80)
      && m.offset as nat == (s.requestOffset + |s.response|) % 256
      && (s.requestLength <= 255 && k <= Missing(s) ==> |m.data| == k)
  {
    AskedIs(s);
  }

  lemma AskedIs(s: Session)
    requires !Complete(s)
    ensures AskForRest(s).active.value.offset as nat == (s.requestOffset + |s.response|) % 256
    ensures s.requestLength <= 255 ==> AskForRest(s).active.value.data == [Missing(s) as Byte]
  {}

  /** No answer will fit any more: beyond offset 255 its offset octet is cut off, and
      it never comes from an address with bit 7 clear. */
  predicate Unanswerable(s: Session)
  {
    s.requestOffset + |s.response| >= 256 || s.requestDest < 0x80
  }

  lemma StuckStep(s: Session, mem: Memory, k: nat)
    requires Asking(s, mem) && Unanswerable(s)
    ensures Answers(s.active.value)
    ensures OnIncomingMessage(s, Answer(s.active.value, mem, k)) == Outcome(s, [], [], Ongoing)
  {
    hide Answer;
    AnswerIs(s, mem, k);
  }

  lemma {:induction false} Stuck(s: Session, mem: Memory, sizes: seq<nat>)
    requires Asking(s, mem) && Unanswerable(s)
    ensures Serve(s, mem, sizes) == Outcome(s, [], [], Ongoing)
    decreases |sizes|
  {
    hide Answer, OnIncomingMessage;
    if sizes != [] {
      StuckStep(s, mem, sizes[0]);
      Stuck(s, mem, sizes[1..]);
    }
  }

  lemma AnswerAccepted(s: Session, mem: Memory, k: nat)
    requires Asking(s, mem) && s.requestLength <= 255 && !Unanswerable(s) && 0 < k <= Missing(s)
    ensures Answers(s.active.value)
    ensures var m := Answer(s.active.value, mem, k);
      m.Type() != 0xff && Matches(s, m) && |m.data| == k && Accept(s, m.data) == s.(response := s.response + m.data)
  {
    hide Answer;
    AnswerIs(s, mem, k);
  }

  lemma LastAnswer(s: Session, mem: Memory, k: nat)
    requires Waiting(s, mem) && s.requestLength <= 255 && !Unanswerable(s) && 0 < k == Missing(s)
    ensures Answers(s.active.value)
    ensures var o := OnIncomingMessage(s, Answer(s.active.value, mem, k));
      && o.result.Success? && o.session.active.None?
      && o.lines == FinalLines(s, Slice(mem, s.requestDest, s.requestType, s.requestOffset, s.requestLength))
  {
    hide Answer, ContactLines;
    var m := Answer(s.active.value, mem, k);
    AnswerAccepted(s, mem, k);
    AnswerIs(s, mem, k);
    var t := Accept(s, m.data);
    AcceptHoldsSlice(s, m, mem);
    assert t.response == Slice(mem, s.requestDest, s.requestType, s.requestOffset, s.requestLength);
  }

  lemma MiddleAnswer(s: Session, mem: Memory, k: nat)
    requires Waiting(s, mem) && s.requestLength <= 255 && !Unanswerable(s) && 0 < k < Missing(s)
    ensures Answers(s.active.value)
    ensures var o := OnIncomingMessage(s, Answer(s.active.value, mem, k));
      && o.result.Ongoing? && o.lines == [] && Waiting(o.session, mem)
      && |o.session.response| == |s.response| + k && o.session.raw == s.raw
      && o.session.requestDest == s.requestDest && o.session.requestType == s.requestType
      && o.session.requestOffset == s.requestOffset && o.session.requestLength == s.requestLength
  {
    hide Answer;
    var m := Answer(s.active.value, mem, k);
    AnswerAccepted(s, mem, k);
    AnswerIs(s, mem, k);
    AcceptHoldsSlice(s, m, mem);
  }

  /** Answers that add up to what is missing complete the request, and what it
      prints is the stretch of memory asked for, if and only if the device is
      addressed with bit 7 set and the last answer starts at an offset an octet can
      hold. */
  lemma {:induction false} Completes(s: Session, mem: Memory, sizes: seq<nat>)
    requires Waiting(s, mem) && s.requestLength <= 255
    requires AllPositive(sizes) && Sum(sizes) == Missing(s)
    ensures sizes != []
    ensures var o := Serve(s, mem, sizes);
      o.result.Success? <==> s.requestDest >= 0x80 && s.requestOffset + s.requestLength - sizes[|sizes| - 1] < 256
    ensures var o := Serve(s, mem, sizes);
      o.result.Success? ==>
        o.lines == FinalLines(s, Slice(mem, s.requestDest, s.requestType, s.requestOffset, s.requestLength))
    decreases |sizes|
  {
    hide Answer, OnIncomingMessage, ContactLines;
    var k := sizes[0];
    if Unanswerable(s) {
      Stuck(s, mem, sizes);
      LastAtMost(sizes);
    } else if k == Missing(s) {
      LastAnswer(s, mem, k);
      OnlyOne(sizes);
      var o := OnIncomingMessage(s, Answer(s.active.value, mem, k));
      assert o.lines + [] == o.lines;
    } else {
      SumBound(sizes);
      MiddleAnswer(s, mem, k);
      var o := OnIncomingMessage(s, Answer(s.active.value, mem, k));
      Completes(o.session, mem, sizes[1..]);
      assert [] + Serve(o.session, mem, sizes[1..]).lines == Serve(o.session, mem, sizes[1..]).lines;
    }
  }

  lemma SumBound(sizes: seq<nat>)
    requires sizes != []
    ensures sizes[0] <= Sum(sizes)
  {}

  lemma {:induction false} LastAtMost(sizes: seq<nat>)
    requires sizes != []
    ensures sizes[|sizes| - 1] <= Sum(sizes)
    decreases |sizes|
  {
    if |sizes| > 1 {
      LastAtMost(sizes[1..]);
    }
  }

  lemma OnlyOne(sizes: seq<nat>)
    requires sizes != [] && AllPositive(sizes) && Sum(sizes) == sizes[0]
    ensures |sizes| == 1
  {
    SumOfTwo(sizes);
  }

  lemma SumOfTwo(sizes: seq<nat>)
    ensures |sizes| > 1 ==> Sum(sizes) >= sizes[0] + sizes[1]
  {
    if |sizes| > 1 {
      SumBound(sizes[1..]);
    }
  }

  /** A fresh request waits for its first answer. */
  lemma StartWaits(s: Session, dest: Byte, typ: Word, offset: nat, length: nat, raw: bool, mem: Memory)
    requires length > 0 && (raw || typ == 0x0137) && typ != 0xff
    ensures Waiting(StartRequest(s, dest, typ, offset, length, true, raw), mem)
  {}
}
