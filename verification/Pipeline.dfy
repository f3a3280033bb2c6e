// The path from the heating bus to the collector: framer/main.c, a lossless
// serial line, and readComplete of collector/IoHandler.cpp.

module Pipeline {
  import opened Bytes
  import opened SerialFrame
  import Framer
  import Deframer

  /** However interrupts and main-loop steps interleave, and however the part of
      the line read so far is cut into reads: the delivered payloads are the
      accepted ones, in order, up to some point. */
  lemma DeliveredIsPrefix(events: seq<Framer.Event>, s: Deframer.State, chunks: seq<seq<Byte>>)
    requires Deframer.Idle(s)
    requires Concat(chunks) <= Framer.Run(Framer.BOOT, events).wire
    ensures Deframer.FramesOfChunks(s, chunks) <= Framer.Run(Framer.BOOT, events).accepted
  {
    hide *;
    var n := Framer.Run(Framer.BOOT, events);
    var read := Concat(chunks);
    var rest := RestOfLine(events, read);
    Deframer.ChunkingIrrelevant(s, chunks);
    Deframer.ReadSplit(s, read, rest);
    Deframer.ReadFrames(s, n.accepted);
  }

  /** What the line still has to carry after the part already read. */
  lemma RestOfLine(events: seq<Framer.Event>, read: seq<Byte>) returns (rest: seq<Byte>)
    requires read <= Framer.Run(Framer.BOOT, events).wire
    ensures AllSendable(Framer.Run(Framer.BOOT, events).accepted)
    ensures read + rest == EncodeAll(Framer.Run(Framer.BOOT, events).accepted)
  {
    hide Framer.Run, Framer.Unsent, EncodeAll, AllSendable;
    var n := Framer.Run(Framer.BOOT, events);
    BootInv();
    Framer.RunKeepsInv(Framer.BOOT, events);
    rest := n.wire[|read|..] + Framer.Unsent(n);
    assert read + rest == n.wire + Framer.Unsent(n);
  }

  /** Once the ring is drained and the line read to its end, every accepted
      payload has been delivered exactly once, unaltered and in order. */
  lemma DrainedDeliversAll(events: seq<Framer.Event>, s: Deframer.State, chunks: seq<seq<Byte>>)
    requires Deframer.Idle(s)
    requires Framer.Run(Framer.BOOT, events).queue == []
    requires Concat(chunks) == Framer.Run(Framer.BOOT, events).wire
    ensures Deframer.FramesOfChunks(s, chunks) == Framer.Run(Framer.BOOT, events).accepted
  {
    hide Framer.Run, EncodeAll, AllSendable;
    var n := Framer.Run(Framer.BOOT, events);
    BootInv();
    Framer.RunKeepsInv(Framer.BOOT, events);
    assert n.wire + [] == n.wire;
    Deframer.ChunkingIrrelevant(s, chunks);
    Deframer.ReadFrames(s, n.accepted);
  }

  lemma BootInv()
    ensures Framer.Inv(Framer.BOOT)
  {}

  /** Letting the main loop run on after any schedule brings that about: nothing
      accepted is ever stuck. */
  lemma {:induction false} EventuallyDelivered(events: seq<Framer.Event>, k: nat, s: Deframer.State, chunks: seq<seq<Byte>>)
    requires Deframer.Idle(s)
    requires k >= Framer.StepsLeft(Framer.Run(Framer.BOOT, events))
    requires Concat(chunks) == Framer.Run(Framer.BOOT, events + Framer.MainSteps(k)).wire
    ensures Deframer.FramesOfChunks(s, chunks) == Framer.Run(Framer.BOOT, events).accepted
  {
    hide Framer.Run, Framer.StepsLeft, Framer.Inv;
    var n := Framer.Run(Framer.BOOT, events);
    BootInv();
    Framer.RunKeepsInv(Framer.BOOT, events);
    Framer.MainLoopDrains(n, k);
    Framer.RunSplit(Framer.BOOT, events, Framer.MainSteps(k));
    DrainedDeliversAll(events + Framer.MainSteps(k), s, chunks);
  }

  /** From the bus to the message layer: what is delivered are intact bus frames in
      bus order. */
  lemma {:induction false} DeliveredCameFromBus(events: seq<Framer.Event>, s: Deframer.State, chunks: seq<seq<Byte>>)
    requires Deframer.Idle(s)
    requires Concat(chunks) <= Framer.Run(Framer.BOOT, events).wire
    ensures Framer.Subsequence(Deframer.FramesOfChunks(s, chunks), Framer.Offered(Framer.ArrivalsOf(events)))
  {
    hide Framer.Run, Framer.Offered, Framer.ArrivalsOf;
    DeliveredIsPrefix(events, s, chunks);
    Framer.RunTracksBus(events);
    PrefixOfSubsequence(Deframer.FramesOfChunks(s, chunks), Framer.Run(Framer.BOOT, events).accepted,
                        Framer.Offered(Framer.ArrivalsOf(events)));
  }

  lemma {:induction false} PrefixOfSubsequence<T>(a: seq<T>, b: seq<T>, c: seq<T>)
    requires a <= b && Framer.Subsequence(b, c)
    ensures Framer.Subsequence(a, c)
    decreases |c|
  {
    if a != [] {
      var m := |c| - 1;
      if Framer.Subsequence(b, c[..m]) {
        PrefixOfSubsequence(a, b, c[..m]);
      } else if |a| < |b| {
        assert a <= b[..|b| - 1];
        PrefixOfSubsequence(a, b[..|b| - 1], c[..m]);
      } else {
        assert a == b;
      }
    }
  }

  /** A burst of intact bus frames that fits into the ring is delivered in full,
      even if the main loop got no time at all while it came in. */
  lemma BurstDelivered(events: seq<Framer.Event>, s: Deframer.State, chunks: seq<seq<Byte>>)
    requires Deframer.Idle(s)
    requires Framer.EncodedSize(Framer.Offered(Framer.ArrivalsOf(events))) < Framer.TRANSMIT_BUF_SIZE as int
    requires Framer.Run(Framer.BOOT, events).queue == []
    requires Concat(chunks) == Framer.Run(Framer.BOOT, events).wire
    ensures Deframer.FramesOfChunks(s, chunks) == Framer.Offered(Framer.ArrivalsOf(events))
  {
    hide Framer.Run, Framer.Offered, Framer.ArrivalsOf, Framer.EncodedSize;
    DrainedDeliversAll(events, s, chunks);
    Framer.RunTracksBus(events);
  }
}
