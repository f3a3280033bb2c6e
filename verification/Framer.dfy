// framer/main.c: the bus interface. An interrupt handler collects break-delimited
// bus frames, checks them and queues them for the serial line in a ring buffer,
// which the main loop drains with interrupts on.

module Framer {
  import opened Bytes
  import opened SerialFrame
  import BusChecksum

  const RECV_BUF_SIZE: Byte := 64
  const TRANSMIT_BUF_SIZE: Byte := 250

  /** One octet from the bus UART. A framing error marks the break between
      frames. */
  datatype Arrival = Arrival(data: Byte, frameError: bool)

  /** Where main stands between two instructions an interrupt may separate. */
  datatype MainStep = Poll | Load | Write(ch: Byte) | Advance

  /** The interface with its ring seen as a queue: what is collected of the
      current bus frame, what waits for the serial line, what went out on it, and
      the payloads accepted so far. */
  datatype Node = Node(
    rx: seq<Byte>, valid: bool, queue: seq<Byte>, step: MainStep,
    wire: seq<Byte>, accepted: seq<seq<Byte>>)

  const BOOT := Node([], false, [], Poll, [], [])

  // ----- What one step does to the queue -----

  /** Whether a collected bus frame (payload and checksum) is worth forwarding. */
  predicate Good(rx: seq<Byte>)
  {
    |rx| > 1 && BusChecksum.Accepts(rx)
  }

  /** Queue a payload if it fits, else drop it. */
  function Forward(n: Node, p: seq<Byte>): Node
  {
    if |p| + 5 <= TRANSMIT_BUF_SIZE as int - |n.queue|
    then n.(queue := n.queue + Encode(p), accepted := n.accepted + [p])
    else n
  }

  function Receive(n: Node, a: Arrival): Node
  {
    if a.frameError then
      var n1 := if n.valid && Good(n.rx) then Forward(n, n.rx[..|n.rx| - 1]) else n;
      n1.(rx := [], valid := true)
    else if n.valid && |n.rx| < RECV_BUF_SIZE as int then n.(rx := n.rx + [a.data])
    else n
  }

  function ReceiveAll(n: Node, arrivals: seq<Arrival>): Node
  {
    if arrivals == [] then n
    else Receive(ReceiveAll(n, arrivals[..|arrivals| - 1]), arrivals[|arrivals| - 1])
  }

  function MainLoop(n: Node): Node
  {
    match n.step
    case Poll => if n.queue != [] then n.(step := Load) else n
    case Load => if n.queue != [] then n.(step := Write(n.queue[0])) else n
    case Write(ch) => n.(wire := n.wire + [ch], step := Advance)
    case Advance => if n.queue != [] then n.(queue := n.queue[1..], step := Poll) else n
  }

  /** The interrupt handler runs for a batch of arrivals, or main makes a step. */
  datatype Event = Interrupt(arrivals: seq<Arrival>) | Main

  function Step(n: Node, e: Event): Node
  {
    match e
    case Interrupt(arrivals) => ReceiveAll(n, arrivals)
    case Main => MainLoop(n)
  }

  function Run(n: Node, events: seq<Event>): Node
  {
    if events == [] then n
    else Step(Run(n, events[..|events| - 1]), events[|events| - 1])
  }

  // ----- What every run keeps -----

  /** Queued octets not yet on the wire: main sends the head before it advances
      past it. */
  function Unsent(n: Node): seq<Byte>
  {
    if n.step.Advance? && n.queue != [] then n.queue[1..] else n.queue
  }

  ghost predicate Inv(n: Node)
  {
    && |n.rx| <= RECV_BUF_SIZE as int
    && |n.queue| < TRANSMIT_BUF_SIZE as int
    && (!n.step.Poll? ==> n.queue != [])
    && (n.step.Write? ==> n.step.ch == n.queue[0])
    && AllSendable(n.accepted)
    && n.wire + Unsent(n) == EncodeAll(n.accepted)
  }

  lemma ForwardKeepsInv(n: Node, p: seq<Byte>)
    requires Inv(n) && Sendable(p)
    ensures Inv(Forward(n, p))
    ensures Forward(n, p).wire == n.wire && n.accepted <= Forward(n, p).accepted
  {
    hide Encode;
    var n' := Forward(n, p);
    if n' != n {
      EncodeAllSnoc(n.accepted, p);
      EncodeLength(p);
      assert Unsent(n') == Unsent(n) + Encode(p);
      assert n.wire + Unsent(n') == (n.wire + Unsent(n)) + Encode(p);
    }
  }

  lemma EncodeLength(p: seq<Byte>)
    ensures |Encode(p)| == |p| + 4
  {}

  lemma ReceiveKeepsInv(n: Node, a: Arrival)
    requires Inv(n)
    ensures Inv(Receive(n, a))
    ensures Receive(n, a).wire == n.wire && n.accepted <= Receive(n, a).accepted
  {
    hide Encode, BusChecksum.Accepts;
    if a.frameError && n.valid && Good(n.rx) {
      ForwardKeepsInv(n, n.rx[..|n.rx| - 1]);
    }
  }

  lemma {:induction false} ReceiveAllKeepsInv(n: Node, arrivals: seq<Arrival>)
    requires Inv(n)
    ensures Inv(ReceiveAll(n, arrivals))
    ensures ReceiveAll(n, arrivals).wire == n.wire
    ensures n.accepted <= ReceiveAll(n, arrivals).accepted
    decreases |arrivals|
  {
    hide Receive, Inv;
    if arrivals != [] {
      ReceiveAllKeepsInv(n, arrivals[..|arrivals| - 1]);
      ReceiveKeepsInv(ReceiveAll(n, arrivals[..|arrivals| - 1]), arrivals[|arrivals| - 1]);
    }
  }

  lemma MainLoopKeepsInv(n: Node)
    requires Inv(n)
    ensures Inv(MainLoop(n))
    ensures n.wire <= MainLoop(n).wire && MainLoop(n).accepted == n.accepted
  {
    hide EncodeAll, AllSendable;
    if n.step.Write? {
      assert n.wire + [n.step.ch] + n.queue[1..] == n.wire + n.queue;
    }
  }

  /** Every interleaving of interrupts and main-loop steps: the octets on the
      wire and those still queued are together exactly the frames of the accepted
      payloads, and the ring never fills up. */
  lemma {:induction false} RunKeepsInv(n: Node, events: seq<Event>)
    requires Inv(n)
    ensures Inv(Run(n, events))
    ensures n.wire <= Run(n, events).wire && n.accepted <= Run(n, events).accepted
    decreases |events|
  {
    hide Inv, MainLoop, ReceiveAll;
    if events != [] {
      var mid := Run(n, events[..|events| - 1]);
      RunKeepsInv(n, events[..|events| - 1]);
      match events[|events| - 1]
      case Interrupt(arrivals) => ReceiveAllKeepsInv(mid, arrivals);
      case Main => MainLoopKeepsInv(mid);
    }
  }

  lemma {:induction false} RunSplit(n: Node, a: seq<Event>, b: seq<Event>)
    ensures Run(n, a + b) == Run(Run(n, a), b)
    decreases |b|
  {
    hide Step;
    if b == [] {
      assert a + b == a;
    } else {
      var m := |b| - 1;
      assert (a + b)[..|a + b| - 1] == a + b[..m];
      RunSplit(n, a, b[..m]);
    }
  }

  /** The main loop alone empties the ring: four steps for each queued octet. */
  function MainSteps(k: nat): (es: seq<Event>)
    ensures |es| == k
  {
    if k == 0 then [] else MainSteps(k - 1) + [Main]
  }

  function StepsLeft(n: Node): nat
  {
    if n.queue == [] then 0
    else 4 * |n.queue| - (match n.step case Poll => 0 case Load => 1 case Write(_) => 2 case Advance => 3)
  }

  lemma MainLoopProgress(n: Node)
    requires Inv(n)
    ensures StepsLeft(MainLoop(n)) == if StepsLeft(n) == 0 then 0 else StepsLeft(n) - 1
  {
    hide EncodeAll, AllSendable;
  }

  lemma {:induction false} MainLoopDrains(n: Node, k: nat)
    requires Inv(n)
    ensures StepsLeft(Run(n, MainSteps(k))) == if k < StepsLeft(n) then StepsLeft(n) - k else 0
    ensures Run(n, MainSteps(k)).accepted == n.accepted
    ensures k >= StepsLeft(n) ==> Run(n, MainSteps(k)).queue == []
    ensures Inv(Run(n, MainSteps(k)))
  {
    hide Inv, MainLoop, StepsLeft;
    if k > 0 {
      MainLoopDrains(n, k - 1);
      var mid := Run(n, MainSteps(k - 1));
      assert MainSteps(k)[..k - 1] == MainSteps(k - 1);
      MainLoopProgress(mid);
      MainLoopKeepsInv(mid);
    }
    DrainedIsEmpty(Run(n, MainSteps(k)));
  }

  lemma DrainedIsEmpty(n: Node)
    ensures StepsLeft(n) == 0 <==> n.queue == []
  {}

  // ----- What the handler collects -----

  /** How many arrivals there are up to and including the last break. */
  function LastBreak(arrivals: seq<Arrival>): (k: nat)
    ensures k <= |arrivals|
    ensures k > 0 ==> arrivals[k - 1].frameError
    ensures forall i :: k <= i < |arrivals| ==> !arrivals[i].frameError
  {
    if arrivals == [] then 0
    else if arrivals[|arrivals| - 1].frameError then |arrivals|
    else LastBreak(arrivals[..|arrivals| - 1])
  }

  function DataOf(arrivals: seq<Arrival>): (s: seq<Byte>)
    ensures |s| == |arrivals|
    ensures forall i :: 0 <= i < |s| ==> s[i] == arrivals[i].data
  {
    seq(|arrivals|, i requires 0 <= i < |arrivals| => arrivals[i].data)
  }

  function Cut(s: seq<Byte>): seq<Byte>
  {
    if |s| <= RECV_BUF_SIZE as int then s else s[..RECV_BUF_SIZE]
  }

  /** At any time the handler holds the octets since the last break, cut to the
      buffer size; before the first break it ignores everything. */
  lemma {:induction false} CollectsSinceBreak(arrivals: seq<Arrival>)
    ensures var n := ReceiveAll(BOOT, arrivals); var k := LastBreak(arrivals);
      && n.valid == (k > 0)
      && n.rx == if k > 0 then Cut(DataOf(arrivals[k..])) else []
    decreases |arrivals|
  {
    hide Encode, BusChecksum.Accepts;
    if arrivals != [] {
      var m := |arrivals| - 1;
      var init, a := arrivals[..m], arrivals[m];
      CollectsSinceBreak(init);
      var k := LastBreak(init);
      if a.frameError {
        assert DataOf(arrivals[|arrivals|..]) == [];
      } else {
        assert arrivals[k..] == init[k..] + [a];
        assert DataOf(arrivals[k..]) == DataOf(init[k..]) + [a.data];
      }
    }
  }

  /** A payload and its checksum. */
  predicate Intact(frame: seq<Byte>)
  {
    |frame| >= 2 && frame[|frame| - 1] == BusChecksum.Crc(frame[..|frame| - 1])
  }

  lemma GoodIsIntact(frame: seq<Byte>)
    ensures Good(frame) <==> Intact(frame)
  {
    hide BusChecksum.Crc;
  }

  /** The payloads of the intact bus frames, read off the arrivals alone: what
      stands between two breaks, cut to the buffer, without its checksum. */
  function Offered(arrivals: seq<Arrival>): seq<seq<Byte>>
  {
    if arrivals == [] then []
    else
      var init := arrivals[..|arrivals| - 1];
      var k := LastBreak(init);
      var frame := Cut(DataOf(init[k..]));
      if arrivals[|arrivals| - 1].frameError && k > 0 && Intact(frame)
      then Offered(init) + [frame[..|frame| - 1]]
      else Offered(init)
  }

  /** a is b with some elements left out. */
  predicate Subsequence<T(==)>(a: seq<T>, b: seq<T>)
  {
    a == []
    || (b != [] && (Subsequence(a, b[..|b| - 1])
                    || (a[|a| - 1] == b[|b| - 1] && Subsequence(a[..|a| - 1], b[..|b| - 1]))))
  }

  lemma SubsequenceDrop<T>(a: seq<T>, b: seq<T>, x: T)
    requires Subsequence(a, b)
    ensures Subsequence(a, b + [x])
  {
    assert (b + [x])[..|b + [x]| - 1] == b;
  }

  lemma SubsequenceKeep<T>(a: seq<T>, b: seq<T>, x: T)
    requires Subsequence(a, b)
    ensures Subsequence(a + [x], b + [x])
  {
    assert (b + [x])[..|b + [x]| - 1] == b;
    assert (a + [x])[..|a + [x]| - 1] == a;
  }

  function EncodedSize(ps: seq<seq<Byte>>): nat
  {
    if ps == [] then 0 else EncodedSize(ps[..|ps| - 1]) + |ps[|ps| - 1]| + 4
  }

  /** Every arrival the handler has seen during a run, oldest first. */
  function ArrivalsOf(events: seq<Event>): seq<Arrival>
  {
    if events == [] then []
    else ArrivalsOf(events[..|events| - 1])
         + match events[|events| - 1] case Interrupt(arrivals) => arrivals case Main => []
  }

  /** How node n relates to the arrivals so far: it forwards nothing but offered
      payloads, in order, and drops none of them as long as they fit together. */
  ghost predicate Tracks(n: Node, arrivals: seq<Arrival>)
  {
    && n.rx == ReceiveAll(BOOT, arrivals).rx
    && n.valid == ReceiveAll(BOOT, arrivals).valid
    && Subsequence(n.accepted, Offered(arrivals))
    && (EncodedSize(Offered(arrivals)) < TRANSMIT_BUF_SIZE as int ==>
          n.accepted == Offered(arrivals) && |n.queue| <= EncodedSize(Offered(arrivals)))
  }

  lemma OfferedSnoc(arrivals: seq<Arrival>, a: Arrival)
    ensures var n := ReceiveAll(BOOT, arrivals);
      Offered(arrivals + [a]) ==
      if a.frameError && n.valid && Good(n.rx) then Offered(arrivals) + [n.rx[..|n.rx| - 1]]
      else Offered(arrivals)
    ensures ReceiveAll(BOOT, arrivals + [a]) == Receive(ReceiveAll(BOOT, arrivals), a)
  {
    hide Good, Intact, LastBreak, Cut, Receive;
    var all := arrivals + [a];
    assert all[..|all| - 1] == arrivals;
    CollectsSinceBreak(arrivals);
    GoodIsIntact(ReceiveAll(BOOT, arrivals).rx);
  }

  lemma TracksArrival(n: Node, arrivals: seq<Arrival>, a: Arrival)
    requires Tracks(n, arrivals)
    ensures Tracks(Receive(n, a), arrivals + [a])
  {
    hide Encode, BusChecksum.Accepts, Offered, ReceiveAll, EncodedSize, Subsequence;
    var offered := Offered(arrivals);
    OfferedSnoc(arrivals, a);
    if a.frameError && n.valid && Good(n.rx) {
      var p := n.rx[..|n.rx| - 1];
      OfferedFits(offered, p);
      EncodeLength(p);
      SubsequenceDrop(n.accepted, offered, p);
      SubsequenceKeep(n.accepted, offered, p);
    }
  }

  lemma OfferedFits(ps: seq<seq<Byte>>, p: seq<Byte>)
    ensures EncodedSize(ps + [p]) == EncodedSize(ps) + |p| + 4
  {
    assert (ps + [p])[..|ps + [p]| - 1] == ps;
  }

  lemma {:induction false} TracksBatch(n: Node, arrivals: seq<Arrival>, batch: seq<Arrival>)
    requires Tracks(n, arrivals)
    ensures Tracks(ReceiveAll(n, batch), arrivals + batch)
    decreases |batch|
  {
    hide Tracks, Receive;
    if batch == [] {
      assert arrivals + batch == arrivals;
    } else {
      var m := |batch| - 1;
      TracksBatch(n, arrivals, batch[..m]);
      TracksArrival(ReceiveAll(n, batch[..m]), arrivals + batch[..m], batch[m]);
      assert arrivals + batch[..m] + [batch[m]] == arrivals + batch;
    }
  }

  /** Over every run: accepted payloads are intact bus frames in bus order, and
      bursts that fit into the ring lose none. */
  lemma {:induction false} RunTracksBus(events: seq<Event>)
    ensures Tracks(Run(BOOT, events), ArrivalsOf(events))
    decreases |events|
  {
    hide Tracks, Receive, ReceiveAll;
    if events == [] {
      BootTracks();
    } else {
      var m := |events| - 1;
      RunTracksBus(events[..m]);
      var mid, before := Run(BOOT, events[..m]), ArrivalsOf(events[..m]);
      match events[m]
      case Interrupt(arrivals) => TracksBatch(mid, before, arrivals);
      case Main =>
        TracksMain(mid, before);
        assert before + [] == before;
    }
  }

  lemma BootTracks()
    ensures Tracks(BOOT, [])
  {}

  lemma TracksMain(n: Node, arrivals: seq<Arrival>)
    requires Tracks(n, arrivals)
    ensures Tracks(MainLoop(n), arrivals)
  {
    hide Offered, ReceiveAll;
  }

  // ----- The program -----

  class BusInterface {
    const recvBuffer: array<Byte>
    const txBuffer: array<Byte>
    var recvPos: Byte
    var recvValid: bool
    var txWritePos: Byte
    var txReadPos: Byte
    /** main's program counter, with the octet it has loaded. */
    var step: MainStep
    /** What the UART has sent, and the payloads the handler has accepted. */
    ghost var wire: seq<Byte>
    ghost var accepted: seq<seq<Byte>>

    ghost predicate RingValid()
      reads this`txWritePos, this`txReadPos
    {
      && txBuffer.Length == TRANSMIT_BUF_SIZE as int
      && txWritePos < TRANSMIT_BUF_SIZE && txReadPos < TRANSMIT_BUF_SIZE
    }

    ghost predicate Valid()
      reads this, txBuffer
    {
      && RingValid() && txBuffer != recvBuffer
      && recvBuffer.Length == RECV_BUF_SIZE as int && recvPos <= RECV_BUF_SIZE
      && (!step.Poll? ==> txReadPos != txWritePos)
      && (step.Write? ==> step.ch == txBuffer[txReadPos])
    }

    /** The unread octets of the ring, oldest first. */
    ghost function Queue(): seq<Byte>
      reads this`txWritePos, this`txReadPos, txBuffer
      requires RingValid()
    {
      if txReadPos <= txWritePos then txBuffer[txReadPos..txWritePos]
      else txBuffer[txReadPos..] + txBuffer[..txWritePos]
    }

    ghost function State(): Node
      reads this, txBuffer, recvBuffer
      requires Valid()
    {
      Node(recvBuffer[..recvPos], recvValid, Queue(), step, wire, accepted)
    }

    constructor ()
      ensures Valid() && State() == BOOT
      ensures fresh(recvBuffer) && fresh(txBuffer)
    {
      recvBuffer := new Byte[RECV_BUF_SIZE as int](_ => 0);
      txBuffer := new Byte[TRANSMIT_BUF_SIZE as int](_ => 0);
      recvPos, recvValid, txWritePos, txReadPos, step := 0, false, 0, 0, Poll;
      wire, accepted := [], [];
    }

    method CopyToTxBuffer(data: Byte)
      requires Valid() && |Queue()| < TRANSMIT_BUF_SIZE as int - 1
      modifies txBuffer, this`txWritePos
      ensures Valid() && Queue() == old(Queue()) + [data]
    {
      txBuffer[txWritePos] := data;
      txWritePos := txWritePos + 1;
      if txWritePos >= TRANSMIT_BUF_SIZE {
        txWritePos := 0;
      }
    }

    method StartTxFrame()
      requires Valid() && |Queue()| < TRANSMIT_BUF_SIZE as int - 2
      modifies txBuffer, this`txWritePos
      ensures Valid() && Queue() == old(Queue()) + [0xaa, 0x55]
    {
      CopyToTxBuffer(0xaa);
      CopyToTxBuffer(0x55);
    }

    method AddTxData(len: Byte)
      requires Valid() && len <= RECV_BUF_SIZE
      requires |Queue()| + len as int + 2 < TRANSMIT_BUF_SIZE as int
      modifies txBuffer, this`txWritePos
      ensures Valid()
      ensures Queue() == old(Queue()) + [len] + recvBuffer[..len] + [XorOf(recvBuffer[..len])]
    {
      var csum: Byte := 0;
      CopyToTxBuffer(len);
      var i: Byte := 0;
      while i < len
        invariant i <= len && Valid()
        invariant Queue() == old(Queue()) + [len] + recvBuffer[..i]
        invariant csum == XorOf(recvBuffer[..i])
      {
        hide Xor;
        CopyToTxBuffer(recvBuffer[i]);
        csum := Xor(csum, recvBuffer[i]);
        assert recvBuffer[..i + 1][..i] == recvBuffer[..i];
        assert recvBuffer[..i + 1] == recvBuffer[..i] + [recvBuffer[i]];
        i := i + 1;
      }
      CopyToTxBuffer(csum);
    }

    /** The space test sees the exact fill level in both of its branches. */
    method EnoughTxSpace(payload: Byte) returns (enough: bool)
      requires Valid() && payload as int + 5 < 256
      ensures enough <==> payload as int + 5 <= TRANSMIT_BUF_SIZE as int - |Queue()|
    {
      var needed := payload + 5;
      var space: Byte;
      if txWritePos >= txReadPos {
        space := TRANSMIT_BUF_SIZE - (txWritePos - txReadPos);
      } else {
        space := txReadPos - txWritePos;
      }
      enough := space >= needed;
    }

    /** Queue the first recvPos octets of the receive buffer as a serial frame. */
    method ForwardPayload()
      requires Valid() && 0 < recvPos < RECV_BUF_SIZE
      modifies txBuffer, this`txWritePos, this`accepted
      ensures Valid() && State() == Forward(old(State()), recvBuffer[..recvPos])
    {
      hide Queue, Encode, XorOf;
      var enough := EnoughTxSpace(recvPos);
      if enough {
        ghost var p, q := recvBuffer[..recvPos], Queue();
        StartTxFrame();
        AddTxData(recvPos);
        accepted := accepted + [p];
        EncodeIs(p);
        assert Queue() == q + Encode(p);
      }
    }

    /** The end of a bus frame: strip the checksum, test it, and forward. */
    method EndOfFrame()
      requires Valid() && recvPos > 1 && recvValid
      modifies this`recvPos, txBuffer, this`txWritePos, this`accepted
      ensures Valid() && recvPos == old(recvPos) - 1
      ensures var n := old(State()); var p := n.rx[..|n.rx| - 1];
        State().(rx := p) == if Good(n.rx) then Forward(n.(rx := p), p) else n.(rx := p)
    {
      hide BusChecksum.Crc, Forward;
      recvPos := recvPos - 1;
      assert old(recvBuffer[..recvPos])[..recvPos] == recvBuffer[..recvPos];
      var crc := BusChecksum.CalcChecksum(recvBuffer, recvPos as int);
      if crc == recvBuffer[recvPos] {
        ForwardPayload();
      }
    }

    /** The receive interrupt: it takes every octet the UART has ready. */
    method UartReceive(arrivals: seq<Arrival>)
      requires Valid()
      modifies this`recvPos, this`recvValid, this`txWritePos, this`accepted, recvBuffer, txBuffer
      ensures Valid() && State() == ReceiveAll(old(State()), arrivals)
    {
      for i := 0 to |arrivals|
        invariant Valid()
        invariant State() == ReceiveAll(old(State()), arrivals[..i])
      {
        assert arrivals[..i + 1][..i] == arrivals[..i];
        ReceiveOne(arrivals[i]);
      }
      assert arrivals[..|arrivals|] == arrivals;
    }

    method ReceiveOne(a: Arrival)
      requires Valid()
      modifies this`recvPos, this`recvValid, this`txWritePos, this`accepted, recvBuffer, txBuffer
      ensures Valid() && State() == Receive(old(State()), a)
    {
      hide BusChecksum.Accepts, Encode;
      if recvValid {
        if a.frameError {
          if recvPos > 1 {
            EndOfFrame();
          }
        } else if recvPos < RECV_BUF_SIZE {
          recvBuffer[recvPos] := a.data;
          recvPos := recvPos + 1;
          assert recvBuffer[..recvPos] == old(recvBuffer[..recvPos]) + [a.data];
        }
      }
      if a.frameError {
        recvPos := 0;
        recvValid := true;
      }
    }

    /** Release the slot at txReadPos. */
    method AdvanceReadPos()
      requires Valid() && step.Advance?
      modifies this`step, this`txReadPos
      ensures Valid() && step == Poll && Queue() == old(Queue())[1..]
    {
      txReadPos := txReadPos + 1;
      if txReadPos >= TRANSMIT_BUF_SIZE {
        txReadPos := 0;
      }
      step := Poll;
    }

    lemma QueueHead()
      requires RingValid() && txReadPos != txWritePos
      ensures Queue() != [] && Queue()[0] == txBuffer[txReadPos]
    {}

    lemma QueueEmpty()
      requires RingValid()
      ensures Queue() == [] <==> txReadPos == txWritePos
    {}

    /** One instruction of main's loop. The octet at txReadPos is loaded, sent and
        released in three steps, and interrupts may come between any two. */
    method MainStepOnce()
      requires Valid()
      modifies this`step, this`txReadPos, this`wire
      ensures Valid() && State() == MainLoop(old(State()))
    {
      hide Queue;
      QueueEmpty();
      match step {
        case Poll =>
          if txWritePos != txReadPos {
            step := Load;
          }
        case Load =>
          QueueHead();
          step := MainStep.Write(txBuffer[txReadPos]);
        case Write(ch) =>
          wire := wire + [ch];
          step := Advance;
        case Advance =>
          AdvanceReadPos();
      }
    }

    /** The program under any schedule of interrupts and main-loop steps. */
    method Execute(events: seq<Event>)
      requires Valid()
      modifies this, recvBuffer, txBuffer
      ensures Valid() && State() == Run(old(State()), events)
    {
      for i := 0 to |events|
        invariant Valid()
        invariant State() == Run(old(State()), events[..i])
      {
        assert events[..i + 1][..i] == events[..i];
        match events[i]
        case Interrupt(arrivals) => UartReceive(arrivals);
        case Main => MainStepOnce();
      }
      assert events[..|events|] == events;
    }
  }
}
