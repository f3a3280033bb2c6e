// A message on its whole way: getSendData, the framing of
// collector/SendingSerialHandler.cpp, readComplete, and the decoding constructor.

module TransmitStack {
  import opened Bytes
  import opened SerialFrame
  import opened Telegram
  import Deframer

  class SendingSerialHandler {
    var active: bool
    /** What was written to the serial port. */
    var line: seq<Byte>

    constructor ()
      ensures active && line == []
    {
      active, line := true, [];
    }

    method SendMessageImpl(msg: EmsMessage)
      requires Encodable(msg.View())
      modifies this`line
      ensures line == if active then old(line) + Encode(Octets(msg.View())) else old(line)
    {
      var sendData := msg.GetSendData(false);
      var checksum: Byte := 0;
      if !active {
        return;
      }
      for i := 0 to |sendData|
        invariant checksum == XorOf(sendData[..i])
      {
        hide Xor;
        assert sendData[..i + 1][..i] == sendData[..i];
        checksum := Xor(checksum, sendData[i]);
      }
      assert sendData[..|sendData|] == sendData;
      sendData := [0xaa, 0x55, (|sendData| % 256) as Byte] + sendData;
      sendData := sendData + [checksum];
      line := line + sendData;
    }
  }

  /** One telegram came out of the line, and it says what was to be sent. */
  predicate Arrives(dest: Byte, typ: Word, offset: Byte, data: seq<Byte>, expectResponse: bool, delivered: seq<seq<Byte>>)
  {
    |delivered| == 1 && Decodable(delivered[0]) && Means(Decode(delivered[0]), dest, typ, offset, data, expectResponse)
  }

  /** Classic telegrams of up to 251 data octets, plus writes of 1 to 249, and plus
      reads of exactly one. */
  predicate Transmittable(typ: Word, data: seq<Byte>, expectResponse: bool)
  {
    if typ < 0xf0 then |data| <= 251
    else if expectResponse then |data| == 1
    else 1 <= |data| <= 249
  }

  lemma OctetsLength(m: Message)
    requires Encodable(m)
    ensures |Octets(m)| == if !m.Plus() then 4 + |m.data| else if m.AsksAnswer() then 7 else 6 + |m.data|
  {}

  lemma TransmittableIs(dest: Byte, typ: Word, offset: Byte, data: seq<Byte>, expectResponse: bool)
    requires typ >= 0xf0 && expectResponse ==> data != []
    ensures Encodable(Build(dest, typ, offset, data, expectResponse))
    ensures Transmittable(typ, data, expectResponse) <==>
      && (typ >= 0xf0 ==> if expectResponse then |data| == 1 else |data| >= 1)
      && Sendable(Octets(Build(dest, typ, offset, data, expectResponse)))
  {
    OctetsLength(Build(dest, typ, offset, data, expectResponse));
  }

  /** A frame of at most 255 octets cannot carry a message that needs more. */
  lemma TooLongNeverArrives(m: Message, octets: seq<Byte>)
    requires m.typ as Word == m.Type() || (m.typ == 0xff && m.Type() >= 0xf0)
    requires Encodable(m) && |Octets(m)| >= 256
    requires Sendable(octets) && Decodable(octets)
    ensures !SameContent(Decode(octets), m)
  {
    OctetsLength(m);
    var d := Decode(octets);
    if |octets| < 4 {
      assert |d.data| < 4;
    } else if d.data == m.data && d.Type() == m.Type() && m.Plus() {
      assert d.typ == octets[2];
    }
  }

  /** Every message the collector can build, over every cutting of the line into
      reads: it arrives as what was to be sent exactly when it is transmittable. */
  lemma RoundTrip(dest: Byte, typ: Word, offset: Byte, data: seq<Byte>, expectResponse: bool,
                  s: Deframer.State, chunks: seq<seq<Byte>>)
    requires typ >= 0xf0 && expectResponse ==> data != []
    requires Deframer.Idle(s)
    requires Encodable(Build(dest, typ, offset, data, expectResponse))
    requires Concat(chunks) == Encode(Octets(Build(dest, typ, offset, data, expectResponse)))
    ensures Arrives(dest, typ, offset, data, expectResponse, Deframer.FramesOfChunks(s, chunks))
      <==> Transmittable(typ, data, expectResponse)
  {
    hide Octets, Encode, Decode, Encodable, Decodable, SameContent, Means, Transmittable, Message.Type;
    var m := Build(dest, typ, offset, data, expectResponse);
    var o := Octets(m);
    Deframer.ChunkingIrrelevant(s, chunks);
    TransmittableIs(dest, typ, offset, data, expectResponse);
    if Sendable(o) {
      Deframer.ReadGoodFrame(s, o);
      CodecRoundTrip(dest, typ, offset, data, expectResponse);
    } else {
      var delivered := Deframer.Frames(s, Encode(o));
      BuiltLength(dest, typ, offset, data, expectResponse);
      if Arrives(dest, typ, offset, data, expectResponse, delivered) {
        Deframer.DeliveredWasFramed(s, Encode(o), 0);
        TooLongNeverArrives(m, delivered[0]);
        MeansContent(Decode(delivered[0]), dest, typ, offset, data, expectResponse);
      }
    }
  }

  lemma BuiltLength(dest: Byte, typ: Word, offset: Byte, data: seq<Byte>, expectResponse: bool)
    requires Encodable(Build(dest, typ, offset, data, expectResponse))
    ensures var m := Build(dest, typ, offset, data, expectResponse);
      |Octets(m)| >= 4 && (m.typ as Word == m.Type() || (m.typ == 0xff && m.Type() >= 0xf0))
  {}
}
