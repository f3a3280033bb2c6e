// collector/IoHandler.cpp: the byte state machine of readComplete.

module Deframer {
  import opened Bytes
  import opened SerialFrame

  datatype Mode = Syncing | Length | Data | Checksum

  /** m_state, m_pos, m_length, m_checkSum and m_data. */
  datatype State = State(mode: Mode, pos: nat, length: nat, checksum: Byte, data: seq<Byte>)

  /** What one byte does: the next state, and the payload it completes, if any. */
  function OnByte(s: State, b: Byte): (State, seq<seq<Byte>>)
  {
    match s.mode
    case Syncing =>
      if s.pos == 0 && b == 0xaa then (s.(pos := 1), [])
      else if s.pos == 1 && b == 0x55 then (s.(mode := Length, pos := 0), [])
      else (s.(pos := 0), [])
    case Length =>
      (s.(mode := Data, pos := 0, length := b as nat, checksum := 0), [])
    case Data =>
      (s.(data := s.data + [b], checksum := Xor(s.checksum, b), pos := s.pos + 1,
          mode := if s.pos + 1 == s.length then Checksum else Data), [])
    case Checksum =>
      (s.(data := [], mode := Syncing, pos := 0), if s.checksum == b then [s.data] else [])
  }

  /** The state after a byte string. */
  function After(s: State, bytes: seq<Byte>): State
  {
    if bytes == [] then s
    else OnByte(After(s, bytes[..|bytes| - 1]), bytes[|bytes| - 1]).0
  }

  /** The payloads delivered while a byte string is read. */
  function Frames(s: State, bytes: seq<Byte>): seq<seq<Byte>>
  {
    if bytes == [] then []
    else Frames(s, bytes[..|bytes| - 1]) + OnByte(After(s, bytes[..|bytes| - 1]), bytes[|bytes| - 1]).1
  }

  /** Between frames. m_length and m_checkSum keep leftovers of the last frame
      (and are uninitialised at the start), so they are not mentioned. */
  predicate Idle(s: State)
  {
    s.mode == Syncing && s.pos == 0 && s.data == []
  }

  /** Reading in two goes is reading once. */
  lemma {:induction false} ReadSplit(s: State, a: seq<Byte>, b: seq<Byte>)
    ensures After(s, a + b) == After(After(s, a), b)
    ensures Frames(s, a + b) == Frames(s, a) + Frames(After(s, a), b)
    decreases |b|
  {
    if b == [] {
      assert a + b == a;
    } else {
      var n := |b| - 1;
      assert (a + b)[..|a + b| - 1] == a + b[..n];
      ReadSplit(s, a, b[..n]);
    }
  }

  /** The payloads delivered over a series of reads, one readComplete each. */
  function FramesOfChunks(s: State, chunks: seq<seq<Byte>>): seq<seq<Byte>>
  {
    if chunks == [] then []
    else FramesOfChunks(s, chunks[..|chunks| - 1])
         + Frames(After(s, Concat(chunks[..|chunks| - 1])), chunks[|chunks| - 1])
  }

  /** How the byte stream is cut into reads does not matter. */
  lemma {:induction false} ChunkingIrrelevant(s: State, chunks: seq<seq<Byte>>)
    ensures FramesOfChunks(s, chunks) == Frames(s, Concat(chunks))
    decreases |chunks|
  {
    if chunks != [] {
      var n := |chunks| - 1;
      ChunkingIrrelevant(s, chunks[..n]);
      ReadSplit(s, Concat(chunks[..n]), chunks[n]);
    }
  }

  // ----- What every reachable state keeps -----

  /** The byte string `read` explains state s: everything collected so far is
      its tail, behind the prefix of a frame. */
  ghost predicate Explains(read: seq<Byte>, s: State)
  {
    match s.mode
    case Syncing =>
      s.data == [] && s.pos <= 1 && (s.pos == 1 ==> EndsWith(read, [0xaa]))
    case Length =>
      s.data == [] && EndsWith(read, [0xaa, 0x55])
    case Data =>
      && s.pos == |s.data| && s.checksum == XorOf(s.data) && s.length < 256
      && (s.length > 0 ==> s.pos < s.length)
      && EndsWith(read, Header(s.length as Byte) + s.data)
    case Checksum =>
      && s.pos == |s.data| == s.length && s.checksum == XorOf(s.data) && 0 < s.length < 256
      && EndsWith(read, Header(s.length as Byte) + s.data)
  }

  ghost predicate EndsWith(s: seq<Byte>, t: seq<Byte>)
  {
    |t| <= |s| && s[|s| - |t|..] == t
  }

  lemma EndsWithSnoc(s: seq<Byte>, t: seq<Byte>, b: Byte)
    requires EndsWith(s, t)
    ensures EndsWith(s + [b], t + [b])
  {
    assert (s + [b])[|s| - |t|..] == s[|s| - |t|..] + [b];
  }

  lemma ExplainsSync(read: seq<Byte>, s: State, b: Byte)
    requires Explains(read, s) && s.mode == Syncing
    ensures Explains(read + [b], OnByte(s, b).0)
  {
    if s.pos == 1 {
      EndsWithSnoc(read, [0xaa], b);
      assert [0xaa] + [b] == [0xaa, b];
    }
  }

  lemma ExplainsLength(read: seq<Byte>, s: State, b: Byte)
    requires Explains(read, s) && s.mode == Length
    ensures Explains(read + [b], OnByte(s, b).0)
  {
    EndsWithSnoc(read, [0xaa, 0x55], b);
    assert [0xaa, 0x55] + [b] == Header(b) + [];
  }

  lemma ExplainsData(read: seq<Byte>, s: State, b: Byte)
    requires Explains(read, s) && s.mode == Data
    ensures Explains(read + [b], OnByte(s, b).0)
  {
    var head := Header(s.length as Byte);
    EndsWithSnoc(read, head + s.data, b);
    assert head + s.data + [b] == head + (s.data + [b]);
    assert (s.data + [b])[..|s.data|] == s.data;
  }

  lemma ExplainsStep(read: seq<Byte>, s: State, b: Byte)
    requires Explains(read, s)
    ensures Explains(read + [b], OnByte(s, b).0)
  {
    match s.mode
    case Syncing => ExplainsSync(read, s, b);
    case Length => ExplainsLength(read, s, b);
    case Data => ExplainsData(read, s, b);
    case Checksum =>
  }

  lemma DeliveryStep(read: seq<Byte>, s: State, b: Byte, p: seq<Byte>)
    requires Explains(read, s) && OnByte(s, b).1 == [p]
    ensures Sendable(p) && EndsWith(read + [b], Encode(p))
  {
    EndsWithSnoc(read, Header(s.length as Byte) + s.data, b);
  }

  /** m_pos == |m_data| and m_checkSum is the XOR of m_data at every point of
      every run, and what is collected is the tail of what was read. */
  lemma {:induction false} AlwaysExplained(s: State, bytes: seq<Byte>)
    requires Idle(s)
    ensures Explains(bytes, After(s, bytes))
    decreases |bytes|
  {
    if bytes != [] {
      var n := |bytes| - 1;
      AlwaysExplained(s, bytes[..n]);
      ExplainsStep(bytes[..n], After(s, bytes[..n]), bytes[n]);
      assert bytes[..n] + [bytes[n]] == bytes;
    }
  }

  /** Some stretch of s is t. */
  ghost predicate OccursIn(s: seq<Byte>, t: seq<Byte>)
  {
    exists n: nat {:trigger s[..n]} :: n <= |s| && EndsWith(s[..n], t)
  }

  lemma OccursAtEnd(s: seq<Byte>, t: seq<Byte>)
    requires EndsWith(s, t)
    ensures OccursIn(s, t)
  {
    assert s[..|s|] == s;
  }

  lemma OccursInPrefix(s: seq<Byte>, n: nat, t: seq<Byte>)
    requires n <= |s| && OccursIn(s[..n], t)
    ensures OccursIn(s, t)
  {
    var m: nat :| m <= n && EndsWith(s[..n][..m], t);
    assert s[..n][..m] == s[..m];
  }

  lemma JustDelivered(s: State, init: seq<Byte>, b: Byte, p: seq<Byte>)
    requires Idle(s) && OnByte(After(s, init), b).1 == [p]
    ensures Sendable(p) && OccursIn(init + [b], Encode(p))
  {
    AlwaysExplained(s, init);
    DeliveryStep(init, After(s, init), b, p);
    OccursAtEnd(init + [b], Encode(p));
  }

  lemma OneAtMost(s: State, b: Byte)
    ensures |OnByte(s, b).1| <= 1
  {}

  /** Soundness on arbitrary input: whatever is delivered was on the line as a
      complete frame, with matching length and checksum. */
  lemma {:induction false} DeliveredWasFramed(s: State, bytes: seq<Byte>, k: nat)
    requires Idle(s) && k < |Frames(s, bytes)|
    ensures Sendable(Frames(s, bytes)[k]) && OccursIn(bytes, Encode(Frames(s, bytes)[k]))
    decreases |bytes|
  {
    hide OnByte, Encode, Sendable, OccursIn;
    var n := |bytes| - 1;
    var init := bytes[..n];
    var before := Frames(s, init);
    var last := OnByte(After(s, init), bytes[n]).1;
    assert Frames(s, bytes) == before + last;
    if k < |before| {
      DeliveredWasFramed(s, init, k);
      OccursInPrefix(bytes, n, Encode(before[k]));
    } else {
      OneAtMost(After(s, init), bytes[n]);
      assert last == [last[0]];
      JustDelivered(s, init, bytes[n], last[0]);
      assert init + [bytes[n]] == bytes;
    }
  }

  // ----- Frames are delivered, damaged or not -----

  lemma ReadOne(s: State, b: Byte)
    ensures After(s, [b]) == OnByte(s, b).0
    ensures Frames(s, [b]) == OnByte(s, b).1
  {
    assert [b][..0] == [];
    assert After(s, []) == s && Frames(s, []) == [];
  }

  lemma ReadHeader(s: State, len: Byte)
    requires Idle(s)
    ensures After(s, Header(len)) == State(Data, 0, len as nat, 0, [])
    ensures Frames(s, Header(len)) == []
  {
    ReadOne(s, 0xaa);
    ReadOne(s.(pos := 1), 0x55);
    ReadOne(s.(mode := Length), len);
    ReadSplit(s, [0xaa], [0x55]);
    ReadSplit(s, [0xaa] + [0x55], [len]);
    assert Header(len) == [0xaa] + [0x55] + [len];
  }

  lemma {:induction false} ReadData(s: State, q: seq<Byte>)
    requires s.mode == Data && s.pos == 0 && s.data == [] && s.checksum == 0
    requires |q| <= s.length && 0 < s.length
    ensures After(s, q) == State(if |q| == s.length then Checksum else Data, |q|, s.length, XorOf(q), q)
    ensures Frames(s, q) == []
    decreases |q|
  {
    if q != [] {
      ReadData(s, q[..|q| - 1]);
    }
  }

  /** One frame with arbitrary payload and checksum bytes: the machine comes
      back to idle whatever they are, and delivers the payload exactly when the
      checksum byte is its XOR. */
  lemma ReadFrame(s: State, q: seq<Byte>, c: Byte)
    requires Idle(s) && Sendable(q)
    ensures Idle(After(s, Header(|q| as Byte) + q + [c]))
    ensures Frames(s, Header(|q| as Byte) + q + [c]) == if c == XorOf(q) then [q] else []
  {
    var h := Header(|q| as Byte);
    ReadHeader(s, |q| as Byte);
    var s1 := After(s, h);
    ReadData(s1, q);
    ReadSplit(s, h, q);
    ReadSplit(s, h + q, [c]);
    var s2 := After(s, h + q);
    ReadOne(s2, c);
  }

  lemma ReadGoodFrame(s: State, p: seq<Byte>)
    requires Idle(s) && Sendable(p)
    ensures Idle(After(s, Encode(p))) && Frames(s, Encode(p)) == [p]
  {
    hide Encode, XorOf;
    EncodeIs(p);
    ReadFrame(s, p, XorOf(p));
  }

  /** A run of good frames is delivered whole and in order. */
  lemma {:induction false} ReadFrames(s: State, ps: seq<seq<Byte>>)
    requires Idle(s)
    requires AllSendable(ps)
    ensures Idle(After(s, EncodeAll(ps)))
    ensures Frames(s, EncodeAll(ps)) == ps
    decreases |ps|
  {
    hide Encode, OnByte;
    if ps != [] {
      var n := |ps| - 1;
      ReadFrames(s, ps[..n]);
      ReadGoodFrame(After(s, EncodeAll(ps[..n])), ps[n]);
      ReadSplit(s, EncodeAll(ps[..n]), Encode(ps[n]));
      assert ps[..n] + [ps[n]] == ps;
    }
  }

  /** A frame with one damaged payload or checksum byte is dropped, and every
      frame after it still arrives. */
  lemma DamagedFrameRecovery(s: State, p: seq<Byte>, k: nat, b: Byte, rest: seq<seq<Byte>>)
    requires Idle(s) && Sendable(p)
    requires 3 <= k < |Encode(p)| && b != Encode(p)[k]
    requires AllSendable(rest)
    ensures Frames(s, Encode(p)[k := b] + EncodeAll(rest)) == rest
  {
    var bad := Encode(p)[k := b];
    var h := Header(|p| as Byte);
    if k < 3 + |p| {
      var q := p[k - 3 := b];
      assert bad == h + q + [XorOf(p)];
      XorOfDetects(p, k - 3, b);
      ReadFrame(s, q, XorOf(p));
    } else {
      assert bad == h + p + [b];
      ReadFrame(s, p, b);
    }
    ReadSplit(s, bad, EncodeAll(rest));
    ReadFrames(After(s, bad), rest);
  }

  /** Bytes other than 0xaa between frames change nothing. */
  lemma {:induction false} NoiseIsSkipped(s: State, noise: seq<Byte>)
    requires Idle(s) && 0xaa !in noise
    ensures After(s, noise) == s && Frames(s, noise) == []
    decreases |noise|
  {
    if noise != [] {
      NoiseIsSkipped(s, noise[..|noise| - 1]);
    }
  }

  /** Noise, then frames: exactly the frames come out. */
  lemma NoiseThenFrames(s: State, noise: seq<Byte>, ps: seq<seq<Byte>>)
    requires Idle(s) && 0xaa !in noise
    requires AllSendable(ps)
    ensures Frames(s, noise + EncodeAll(ps)) == ps
  {
    NoiseIsSkipped(s, noise);
    ReadSplit(s, noise, EncodeAll(ps));
    ReadFrames(s, ps);
  }

  // ----- Exactly which noise is harmless -----

  /** The octets of a frame in progress. */
  function Held(s: State): nat
  {
    match s.mode
    case Syncing => s.pos
    case Length => 2
    case Data => 3 + |s.data|
    case Checksum => 3 + |s.data|
  }

  lemma HeldStep(read: seq<Byte>, s: State, b: Byte)
    requires Explains(read, s)
    ensures |EncodeAll(OnByte(s, b).1)| + Held(OnByte(s, b).0) <= Held(s) + 1
  {
    hide Xor, XorOf;
    if OnByte(s, b).1 != [] {
      assert OnByte(s, b).1 == [] + [s.data];
      EncodeAllSnoc([], s.data);
    }
  }

  /** The frames delivered never encode to more octets than were read. */
  lemma {:induction false} NothingFromNothing(s: State, bytes: seq<Byte>)
    requires Idle(s)
    ensures |EncodeAll(Frames(s, bytes))| + Held(After(s, bytes)) <= |bytes|
    decreases |bytes|
  {
    hide OnByte, Encode, Explains, Held;
    if bytes == [] {
      NoneHeld(s);
    } else {
      var n := |bytes| - 1;
      var init := bytes[..n];
      NothingFromNothing(s, init);
      AlwaysExplained(s, init);
      HeldStep(init, After(s, init), bytes[n]);
      EncodeAllConcat(Frames(s, init), OnByte(After(s, init), bytes[n]).1);
    }
  }

  lemma NoneHeld(s: State)
    requires Idle(s)
    ensures Held(s) == 0
  {}

  lemma StrayMarkerShortens(t: State, ps: seq<seq<Byte>>)
    requires t.mode == Syncing && t.pos == 1 && t.data == [] && ps != []
    ensures Frames(t, EncodeAll(ps)) != ps
  {
    hide Frames, After, OnByte;
    var e := EncodeAll(ps);
    StartsWithMarker(ps);
    assert e == [0xaa] + e[1..];
    ReadSplit(t, [0xaa], e[1..]);
    ReadOne(t, 0xaa);
    MarkerAgain(t);
    NothingFromNothing(OnByte(t, 0xaa).0, e[1..]);
    assert [] + Frames(OnByte(t, 0xaa).0, e[1..]) == Frames(OnByte(t, 0xaa).0, e[1..]);
  }

  lemma MarkerAgain(t: State)
    requires t.mode == Syncing && t.pos == 1 && t.data == []
    ensures Idle(OnByte(t, 0xaa).0) && OnByte(t, 0xaa).1 == []
  {}

  /** Noise that leaves the machine in search of a frame: the frames behind it are
      delivered if and only if it has not just taken an octet for half a marker. */
  lemma {:induction false} HarmlessNoise(s: State, noise: seq<Byte>, ps: seq<seq<Byte>>)
    requires Idle(s) && After(s, noise).mode == Syncing
    requires ps != [] && AllSendable(ps)
    ensures Frames(s, noise + EncodeAll(ps)) == Frames(s, noise) + ps <==> After(s, noise).pos == 0
  {
    hide Frames, After, OnByte, Encode;
    var t := After(s, noise);
    ReadSplit(s, noise, EncodeAll(ps));
    AlwaysExplained(s, noise);
    if t.pos == 0 {
      ReadFrames(t, ps);
    } else {
      StrayMarkerShortens(t, ps);
      SameTail(Frames(s, noise), Frames(t, EncodeAll(ps)), ps);
    }
  }

  lemma SameTail<T>(a: seq<T>, b: seq<T>, c: seq<T>)
    ensures a + b == a + c <==> b == c
  {
    assert (a + b)[|a|..] == b && (a + c)[|a|..] == c;
  }

  /** No full marker. */
  predicate NoMarker(noise: seq<Byte>)
  {
    forall i :: 0 <= i < |noise| - 1 ==> !(noise[i] == 0xaa && noise[i + 1] == 0x55)
  }

  /** The length of the run of 0xaa at the end. */
  function TrailingMarkers(noise: seq<Byte>): nat
  {
    if noise == [] || noise[|noise| - 1] != 0xaa then 0 else 1 + TrailingMarkers(noise[..|noise| - 1])
  }

  lemma {:induction false} NoiseKeepsSearching(s: State, noise: seq<Byte>)
    requires Idle(s) && NoMarker(noise)
    ensures var t := After(s, noise); t.mode == Syncing && t.pos == TrailingMarkers(noise) % 2
    ensures Frames(s, noise) == []
    decreases |noise|
  {
    hide OnByte, TrailingMarkers, NoMarker;
    NoMarkerInit(noise);
    if noise != [] {
      var init, b := noise[..|noise| - 1], noise[|noise| - 1];
      NoiseKeepsSearching(s, init);
      SearchStep(After(s, init), b);
    }
  }

  lemma NoMarkerInit(noise: seq<Byte>)
    requires NoMarker(noise)
    ensures noise == [] ==> TrailingMarkers(noise) == 0
    ensures noise != [] ==>
      var init, b := noise[..|noise| - 1], noise[|noise| - 1];
      && NoMarker(init)
      && TrailingMarkers(noise) == (if b == 0xaa then TrailingMarkers(init) + 1 else 0)
      && (b == 0x55 ==> TrailingMarkers(init) == 0)
  {
    if |noise| > 1 {
      assert !(noise[|noise| - 2] == 0xaa && noise[|noise| - 1] == 0x55);
    }
  }

  lemma SearchStep(t: State, b: Byte)
    requires t.mode == Syncing && t.pos <= 1 && (b == 0x55 ==> t.pos == 0)
    ensures var u := OnByte(t, b).0;
      u.mode == Syncing && u.pos == if b == 0xaa then 1 - t.pos else 0
    ensures OnByte(t, b).1 == []
  {}

  /** What a sender can check: noise without a full marker does no harm to the
      frames behind it if and only if it ends with an even number of 0xaa. */
  lemma HarmlessIfEven(s: State, noise: seq<Byte>, ps: seq<seq<Byte>>)
    requires Idle(s) && NoMarker(noise)
    requires ps != [] && AllSendable(ps)
    ensures Frames(s, noise + EncodeAll(ps)) == ps <==> TrailingMarkers(noise) % 2 == 0
  {
    hide Frames, After, Encode, TrailingMarkers, NoMarker;
    NoiseKeepsSearching(s, noise);
    HarmlessNoise(s, noise, ps);
    assert [] + ps == ps;
  }

  // ----- How far noise that ends inside a frame can reach -----

  /** The octets still to come of the frame in progress; a length of zero is never
      counted down. */
  function Outstanding(s: State): nat
    requires s.mode != Length && (s.mode == Data ==> s.pos < s.length)
  {
    match s.mode
    case Syncing => 0
    case Data => s.length - s.pos + 1
    case Checksum => 1
  }

  lemma OneLess(s: State, b: Byte)
    requires s.mode == Checksum || (s.mode == Data && s.pos < s.length)
    ensures var t := OnByte(s, b).0;
      && t.mode != Length && (t.mode == Data ==> t.pos < t.length)
      && Outstanding(t) == Outstanding(s) - 1 && (t.mode == Syncing ==> Idle(t))
    ensures |OnByte(s, b).1| <= (if s.mode == Checksum then 1 else 0)
  {}

  /** A frame that has begun is over when the octets it has announced are read,
      whatever they are, and not before; at most one payload is delivered. */
  lemma {:induction false} FrameRunsOut(s: State, bytes: seq<Byte>)
    requires s.mode == Checksum || (s.mode == Data && s.pos < s.length)
    requires |bytes| <= Outstanding(s)
    ensures var t := After(s, bytes);
      && t.mode != Length && (t.mode == Data ==> t.pos < t.length)
      && Outstanding(t) == Outstanding(s) - |bytes|
      && (|bytes| == Outstanding(s) ==> Idle(t))
    ensures |Frames(s, bytes)| <= (if |bytes| == Outstanding(s) then 1 else 0)
    decreases |bytes|
  {
    hide OnByte;
    if bytes != [] {
      var n := |bytes| - 1;
      FrameRunsOut(s, bytes[..n]);
      OneLess(After(s, bytes[..n]), bytes[n]);
    }
  }

  /** Noise that ends inside a frame with a length other than zero spoils at most the
      256 octets behind it: the machine is idle again behind those the frame still
      announces, so if no 0xaa is left over of what they cut into, all frames from
      there on are delivered. */
  lemma DamageIsBounded(s: State, noise: seq<Byte>, gap: seq<Byte>, ps: seq<seq<Byte>>)
    requires Idle(s) && AllSendable(ps)
    requires var t := After(s, noise); t.mode == Checksum || (t.mode == Data && t.length > 0)
    ensures var t := After(s, noise); t.mode == Data ==> t.pos < t.length
    ensures 1 <= Outstanding(After(s, noise)) <= 256
    ensures var t := After(s, noise); var n := Outstanding(t);
      n <= |gap| && 0xaa !in gap[n..] ==>
        && Frames(s, noise + gap + EncodeAll(ps)) == Frames(s, noise) + Frames(t, gap[..n]) + ps
        && |Frames(t, gap[..n])| <= 1
  {
    hide OnByte, Encode, After, Frames, XorOf;
    var t := After(s, noise);
    AlwaysExplained(s, noise);
    var n := Outstanding(t);
    if n <= |gap| && 0xaa !in gap[n..] {
      var rest := gap[n..] + EncodeAll(ps);
      assert noise + gap + EncodeAll(ps) == noise + (gap[..n] + rest);
      ReadSplit(s, noise, gap[..n] + rest);
      ReadSplit(t, gap[..n], rest);
      FrameRunsOut(t, gap[..n]);
      NoiseThenFrames(After(t, gap[..n]), gap[n..], ps);
    }
  }

  /** The machine does not resynchronise on a doubled 0xaa: a stray 0xaa right
      before a frame eats the frame's own marker. When no other 0xaa follows in it,
      nothing is delivered in its place, and the machine is idle behind it. */
  lemma StrayMarkerLosesFrame(s: State, p: seq<Byte>)
    requires Idle(s) && Sendable(p)
    requires 0xaa !in Encode(p)[1..]
    ensures Frames(s, [0xaa] + Encode(p)) == [] && Idle(After(s, [0xaa] + Encode(p)))
  {
    var e := Encode(p);
    assert [0xaa] + e == [0xaa, 0xaa] + e[1..];
    ReadOne(s, 0xaa);
    ReadOne(s.(pos := 1), 0xaa);
    ReadSplit(s, [0xaa], [0xaa]);
    assert [0xaa] + [0xaa] == [0xaa, 0xaa];
    ReadSplit(s, [0xaa, 0xaa], e[1..]);
    NoiseIsSkipped(s, e[1..]);
  }

  // ----- The handler object -----

  class IoHandler {
    var mode: Mode
    var pos: nat
    var length: nat
    var checksum: Byte
    var data: seq<Byte>
    /** The payloads handed to the message constructor, oldest first. */
    var delivered: seq<seq<Byte>>

    function Machine(): State
      reads this
    {
      State(mode, pos, length, checksum, data)
    }

    constructor ()
      ensures Idle(Machine()) && delivered == []
    {
      mode, pos, data, delivered := Syncing, 0, [], [];
    }

    method ReadComplete(recvBuffer: array<Byte>, bytesTransferred: nat)
      requires bytesTransferred <= recvBuffer.Length
      modifies this
      ensures Machine() == After(old(Machine()), recvBuffer[..bytesTransferred])
      ensures delivered == old(delivered) + Frames(old(Machine()), recvBuffer[..bytesTransferred])
    {
      var i := 0;
      while i < bytesTransferred
        invariant 0 <= i <= bytesTransferred
        invariant Machine() == After(old(Machine()), recvBuffer[..i])
        invariant delivered == old(delivered) + Frames(old(Machine()), recvBuffer[..i])
      {
        var dataByte := recvBuffer[i];
        assert recvBuffer[..i + 1][..i] == recvBuffer[..i];
        i := i + 1;
        match mode {
          case Syncing =>
            if pos == 0 && dataByte == 0xaa {
              pos := 1;
            } else if pos == 1 && dataByte == 0x55 {
              mode := Length;
              pos := 0;
            } else {
              pos := 0;
            }
          case Length =>
            mode := Data;
            pos := 0;
            length := dataByte as nat;
            checksum := 0;
          case Data =>
            data := data + [dataByte];
            checksum := Xor(checksum, dataByte);
            pos := pos + 1;
            if pos == length {
              mode := Checksum;
            }
          case Checksum =>
            if checksum == dataByte {
              delivered := delivered + [data];
            }
            data := [];
            mode := Syncing;
            pos := 0;
        }
      }
    }
  }
}
