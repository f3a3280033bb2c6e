// From the heating bus to the message layer: which octets on the bus are delivered as
// payloads (framer/main.c, collector/IoHandler.cpp).

module BusDelivery {
  import opened Bytes
  import BusChecksum
  import Deframer
  import opened Framer
  import Pipeline
  import opened SerialFrame

  /** Arrivals i and j are breaks, with none between them. */
  ghost predicate Between(arrivals: seq<Arrival>, i: nat, j: nat)
  {
    && i < j < |arrivals| && arrivals[i].frameError && arrivals[j].frameError
    && forall k :: i < k < j ==> !arrivals[k].frameError
  }

  /** The octets between two breaks, as far as the interface has room for them. */
  function Stretch(arrivals: seq<Arrival>, i: nat, j: nat): seq<Byte>
    requires i < j < |arrivals|
  {
    var s := DataOf(arrivals[i + 1..j]);
    if |s| <= 64 then s else s[..64]
  }

  /** Somewhere on the bus p stands between two breaks, directly followed by its
      checksum. */
  ghost predicate Stands(arrivals: seq<Arrival>, p: seq<Byte>)
  {
    |p| >= 1 && exists i: nat, j: nat :: Between(arrivals, i, j) && Stretch(arrivals, i, j) == p + [BusChecksum.Crc(p)]
  }

  // ----- Nothing but intact frames -----

  lemma StandsStill(arrivals: seq<Arrival>, more: seq<Arrival>, p: seq<Byte>)
    requires Stands(arrivals, p)
    ensures Stands(arrivals + more, p)
  {
    var i: nat, j: nat :| Between(arrivals, i, j) && Stretch(arrivals, i, j) == p + [BusChecksum.Crc(p)];
    assert (arrivals + more)[i + 1..j] == arrivals[i + 1..j];
    assert Between(arrivals + more, i, j);
  }

  lemma SinceBreakIs(init: seq<Arrival>, a: Arrival)
    requires a.frameError && LastBreak(init) > 0
    ensures var i := LastBreak(init) - 1;
      Between(init + [a], i, |init|) && Stretch(init + [a], i, |init|) == Cut(DataOf(init[i + 1..]))
  {
    assert (init + [a])[LastBreak(init)..|init|] == init[LastBreak(init)..];
  }

  lemma IntactSplits(frame: seq<Byte>)
    requires Intact(frame)
    ensures frame == frame[..|frame| - 1] + [BusChecksum.Crc(frame[..|frame| - 1])]
  {}

  lemma {:induction false} OfferedStand(arrivals: seq<Arrival>, p: seq<Byte>)
    requires p in Offered(arrivals)
    ensures Stands(arrivals, p)
    decreases |arrivals|
  {
    hide Stands, Between, Stretch, LastBreak, Cut, BusChecksum.Crc;
    var init, a := arrivals[..|arrivals| - 1], arrivals[|arrivals| - 1];
    assert arrivals == init + [a];
    if p in Offered(init) {
      OfferedStand(init, p);
      StandsStill(init, [a], p);
    } else {
      var k := LastBreak(init);
      var frame := Cut(DataOf(init[k..]));
      SinceBreakIs(init, a);
      IntactSplits(frame);
      StandsAt(arrivals, k - 1, |init|, p);
    }
  }

  lemma StandsAt(arrivals: seq<Arrival>, i: nat, j: nat, p: seq<Byte>)
    requires Between(arrivals, i, j) && Stretch(arrivals, i, j) == p + [BusChecksum.Crc(p)] && |p| >= 1
    ensures Stands(arrivals, p)
  {}

  lemma {:induction false} SubsequenceMember<T>(a: seq<T>, b: seq<T>, x: T)
    requires Subsequence(a, b) && x in a
    ensures x in b
    decreases |b|
  {
    var m := |b| - 1;
    if Subsequence(a, b[..m]) {
      SubsequenceMember(a, b[..m], x);
    } else if x != b[m] {
      SubsequenceMember(a[..|a| - 1], b[..m], x);
    }
  }

  /** Over every run, and every way of reading the line: each payload that is delivered
      stood on the bus between two breaks, directly followed by its checksum. */
  lemma DeliveredStood(events: seq<Event>, s: Deframer.State, chunks: seq<seq<Byte>>, p: seq<Byte>)
    requires Deframer.Idle(s) && Concat(chunks) <= Run(BOOT, events).wire
    requires p in Deframer.FramesOfChunks(s, chunks)
    ensures Stands(ArrivalsOf(events), p)
  {
    hide Run, Offered, ArrivalsOf, Stands, Subsequence;
    Pipeline.DeliveredCameFromBus(events, s, chunks);
    SubsequenceMember(Deframer.FramesOfChunks(s, chunks), Offered(ArrivalsOf(events)), p);
    OfferedStand(ArrivalsOf(events), p);
  }

  // ----- What the handler does at a break -----

  lemma {:induction false} ReceiveAllConcat(n: Node, a: seq<Arrival>, b: seq<Arrival>)
    ensures ReceiveAll(n, a + b) == ReceiveAll(ReceiveAll(n, a), b)
    decreases |b|
  {
    hide Receive;
    if b == [] {
      assert a + b == a;
    } else {
      var m := |b| - 1;
      assert (a + b)[..|a + b| - 1] == a + b[..m];
      ReceiveAllConcat(n, a, b[..m]);
    }
  }

  /** The node in the middle of an interrupt that comes after some run. */
  function Amid(events: seq<Event>, batch: seq<Arrival>): Node
  {
    ReceiveAll(Run(BOOT, events), batch)
  }

  lemma AmidTracks(events: seq<Event>, batch: seq<Arrival>)
    ensures var n, arrivals := Amid(events, batch), ArrivalsOf(events) + batch;
      var k := LastBreak(arrivals);
      n.valid == (k > 0) && n.rx == if k > 0 then Cut(DataOf(arrivals[k..])) else []
  {
    hide Run, ReceiveAll, ArrivalsOf, Offered, LastBreak, Cut, Subsequence;
    RunTracksBus(events);
    TracksBatch(Run(BOOT, events), ArrivalsOf(events), batch);
    CollectsSinceBreak(ArrivalsOf(events) + batch);
  }

  /** At the break that ends a stretch: the payload is accepted if and only if the
      stretch is that payload and its checksum and there is room for it. */
  lemma AtBreak(events: seq<Event>, batch: seq<Arrival>, a: Arrival, i: nat)
    requires var arrivals := ArrivalsOf(events) + batch; Between(arrivals + [a], i, |arrivals|)
    ensures var arrivals := ArrivalsOf(events) + batch; var f := Stretch(arrivals + [a], i, |arrivals|);
      var n := Amid(events, batch);
      Receive(n, a).accepted ==
      if |f| >= 2 && f[|f| - 1] == BusChecksum.Crc(f[..|f| - 1]) && |f| + 4 <= 250 - |n.queue|
      then n.accepted + [f[..|f| - 1]] else n.accepted
  {
    hide *;
    var arrivals := ArrivalsOf(events) + batch;
    var n := Amid(events, batch);
    LastBreakIs(arrivals, a, i);
    AmidTracks(events, batch);
    SinceBreakIs(arrivals, a);
    AcceptsIntact(n, a);
  }

  lemma AcceptsIntact(n: Node, a: Arrival)
    requires a.frameError && n.valid
    ensures var f := n.rx;
      Receive(n, a).accepted ==
      if |f| >= 2 && f[|f| - 1] == BusChecksum.Crc(f[..|f| - 1]) && |f| + 4 <= 250 - |n.queue|
      then n.accepted + [f[..|f| - 1]] else n.accepted
  {
    hide BusChecksum.Crc, Encode;
  }

  lemma {:induction false} LastBreakIs(arrivals: seq<Arrival>, a: Arrival, i: nat)
    requires Between(arrivals + [a], i, |arrivals|)
    ensures a.frameError && LastBreak(arrivals) == i + 1
  {
    var all := arrivals + [a];
    assert all[|arrivals|] == a;
    assert forall m :: 0 <= m < |arrivals| ==> all[m] == arrivals[m];
  }

  lemma {:induction false} RunBatch(events: seq<Event>, batch: seq<Arrival>, a: Arrival, more: seq<Arrival>)
    ensures Run(BOOT, events + [Interrupt(batch + [a] + more)]) == ReceiveAll(Receive(Amid(events, batch), a), more)
  {
    hide Receive;
    var all := events + [Interrupt(batch + [a] + more)];
    assert all[..|all| - 1] == events;
    var n := Run(BOOT, events);
    ReceiveAllConcat(n, batch + [a], more);
    assert (batch + [a])[..|batch + [a]| - 1] == batch;
  }

  /** The converse: a payload of up to 63 octets between two breaks, directly followed
      by its checksum, is accepted in every run if there is room for it then. */
  lemma IntactIsAccepted(events: seq<Event>, batch: seq<Arrival>, a: Arrival, more: seq<Arrival>, i: nat, p: seq<Byte>)
    requires var arrivals := ArrivalsOf(events) + batch;
      && Between(arrivals + [a], i, |arrivals|)
      && Stretch(arrivals + [a], i, |arrivals|) == p + [BusChecksum.Crc(p)]
    requires p != [] && |p| + 5 <= 250 - |Amid(events, batch).queue|
    ensures Amid(events, batch).accepted + [p] <= Run(BOOT, events + [Interrupt(batch + [a] + more)]).accepted
  {
    hide Run, ReceiveAll, Receive, ArrivalsOf, BusChecksum.Crc, Between, Stretch, Inv;
    var n := Amid(events, batch);
    AtBreak(events, batch, a, i);
    RunBatch(events, batch, a, more);
    Pipeline.BootInv();
    RunKeepsInv(BOOT, events);
    ReceiveAllKeepsInv(Run(BOOT, events), batch);
    ReceiveKeepsInv(n, a);
    ReceiveAllKeepsInv(Receive(n, a), more);
  }

  // ----- Damage -----

  /** What one bad octet or an odd number of flipped bits make of an intact frame. */
  ghost predicate Damaged(f: seq<Byte>)
  {
    || (exists frame: seq<Byte>, e: seq<Byte> :: DamagedBits(f, frame, e))
    || (exists frame: seq<Byte>, k: nat, b: Byte :: DamagedOctet(f, frame, k, b))
  }

  ghost predicate DamagedBits(f: seq<Byte>, frame: seq<Byte>, e: seq<Byte>)
  {
    && 0 < |frame| == |e| && BusChecksum.Accepts(frame) && BusChecksum.FlippedBits(e) % 2 == 1
    && f == BusChecksum.Flip(frame, e)
  }

  ghost predicate DamagedOctet(f: seq<Byte>, frame: seq<Byte>, k: nat, b: Byte)
  {
    k < |frame| && BusChecksum.Accepts(frame) && b != frame[k] && f == frame[k := b]
  }

  lemma DamagedIsRefused(f: seq<Byte>)
    requires Damaged(f)
    ensures |f| > 0 && !BusChecksum.Accepts(f)
  {
    hide BusChecksum.Accepts, BusChecksum.Flip, BusChecksum.FlippedBits;
    if frame: seq<Byte>, e: seq<Byte> :| DamagedBits(f, frame, e) {
      BusChecksum.OddErrorsNoticed(frame, e);
    } else {
      var frame: seq<Byte>, k: nat, b: Byte :| DamagedOctet(f, frame, k, b);
      BusChecksum.OneOctetNoticed(frame, k, b);
    }
  }

  lemma DamagedIsNothing(f: seq<Byte>, p: seq<Byte>)
    requires Damaged(f)
    ensures f != p + [BusChecksum.Crc(p)]
  {
    hide Damaged, BusChecksum.Crc;
    DamagedIsRefused(f);
    OwnChecksum(p);
  }

  lemma OwnChecksum(p: seq<Byte>)
    ensures BusChecksum.Accepts(p + [BusChecksum.Crc(p)])
  {
    assert (p + [BusChecksum.Crc(p)])[..|p|] == p;
  }

  /** A damaged frame adds nothing to what is accepted. */
  lemma DamagedIsDropped(events: seq<Event>, batch: seq<Arrival>, a: Arrival, i: nat)
    requires var arrivals := ArrivalsOf(events) + batch;
      Between(arrivals + [a], i, |arrivals|) && Damaged(Stretch(arrivals + [a], i, |arrivals|))
    ensures Run(BOOT, events + [Interrupt(batch + [a])]).accepted == Amid(events, batch).accepted
  {
    hide Run, ReceiveAll, Receive, ArrivalsOf, BusChecksum.Crc, Stretch, Damaged;
    var f := Stretch(ArrivalsOf(events) + batch + [a], i, |ArrivalsOf(events) + batch|);
    AtBreak(events, batch, a, i);
    DamagedIsRefused(f);
    RunBatch(events, batch, a, []);
    assert batch + [a] + [] == batch + [a];
    NoMore(Receive(Amid(events, batch), a));
  }

  lemma NoMore(n: Node)
    ensures ReceiveAll(n, []) == n
  {}

  /** And where all frames are damaged nothing is ever delivered. */
  lemma DamageIsNeverDelivered(events: seq<Event>, s: Deframer.State, chunks: seq<seq<Byte>>)
    requires Deframer.Idle(s) && Concat(chunks) <= Run(BOOT, events).wire
    requires var arrivals := ArrivalsOf(events);
      forall i: nat, j: nat :: Between(arrivals, i, j) ==> Damaged(Stretch(arrivals, i, j))
    ensures Deframer.FramesOfChunks(s, chunks) == []
  {
    hide Run, ArrivalsOf, Stands, Damaged;
    var ps := Deframer.FramesOfChunks(s, chunks);
    if ps != [] {
      DeliveredStood(events, s, chunks, ps[0]);
      var i, j := StandsWhere(ArrivalsOf(events), ps[0]);
      DamagedIsNothing(Stretch(ArrivalsOf(events), i, j), ps[0]);
    }
  }

  lemma StandsWhere(arrivals: seq<Arrival>, p: seq<Byte>) returns (i: nat, j: nat)
    requires Stands(arrivals, p)
    ensures Between(arrivals, i, j) && Stretch(arrivals, i, j) == p + [BusChecksum.Crc(p)]
  {
    i, j :| Between(arrivals, i, j) && Stretch(arrivals, i, j) == p + [BusChecksum.Crc(p)];
  }
}
