// collector/EmsMessage.cpp and EmsMessage.h: building, encoding and decoding
// telegrams, classic and "plus".

module Telegram {
  import opened Bytes

  newtype Word = x: int | 0 <= x < 0x1_0000

  const ADDRESS_PC: Byte := 0x8b

  /** The fields of an EmsMessage that travel. */
  datatype Message = Message(source: Byte, dest: Byte, typ: Byte, extType: Word, offset: Byte, data: seq<Byte>)
  {
    /** getType: the extended type, if there is one. */
    function Type(): Word
    {
      if extType != 0 then extType else typ as Word
    }

    /** Bit 7 of the destination asks for an answer. */
    predicate AsksAnswer()
    {
      dest >= 0x80
    }

    predicate Plus()
    {
      typ >= 0xf0
    }
  }

  function SetBit7(b: Byte): Byte
  {
    if b >= 0x80 then b else b + 0x80
  }

  /** The message the collector builds for a request or a write. */
  function Build(dest: Byte, typ: Word, offset: Byte, data: seq<Byte>, expectResponse: bool): Message
  {
    Message(ADDRESS_PC,
            if expectResponse then SetBit7(dest) else dest % 0x80,
            if typ < 0xf0 then typ as Byte else 0xff,
            if typ >= 0xf0 then typ else 0,
            offset, data)
  }

  /** getSendData takes the requested length from the first data octet of a plus
      read. */
  predicate Encodable(m: Message)
  {
    m.Plus() && m.AsksAnswer() ==> m.data != []
  }

  /** The octets of a telegram, sender address included. */
  function Octets(m: Message): seq<Byte>
    requires Encodable(m)
  {
    var head := [ADDRESS_PC, m.dest, m.typ, m.offset];
    var ext := [(m.extType / 256) as Byte, (m.extType % 256) as Byte];
    if !m.Plus() then head + m.data
    else if m.AsksAnswer() then head + [m.data[0]] + ext
    else head + ext + m.data
  }

  /** The decoder reads the extended type of a plus telegram with bit 7 set at
      octets 5 and 6, but only checks for six octets. */
  predicate Decodable(octets: seq<Byte>)
  {
    !(|octets| == 6 && octets[1] >= 0x80 && octets[2] >= 0xf0)
  }

  function Decode(octets: seq<Byte>): Message
    requires Decodable(octets)
  {
    if |octets| < 4 then Message(0, 0, 0, 0, 0, octets)
    else
      var asks := octets[1] >= 0x80;
      var plus := octets[2] >= 0xf0 && |octets| >= (if asks then 6 else 7);
      var rest := octets[4..];
      var start := if asks then 1 else 0;
      if plus then
        Message(octets[0], octets[1], octets[2], rest[start] as Word * 256 + rest[start + 1] as Word,
                octets[3], rest[..start] + rest[start + 2..])
      else Message(octets[0], octets[1], octets[2], 0, octets[3], rest)
  }

  /** The two messages agree in everything a receiver looks at. */
  predicate SameContent(a: Message, b: Message)
  {
    a.source == b.source && a.dest == b.dest && a.Type() == b.Type() && a.offset == b.offset && a.data == b.data
  }

  /** A received telegram says what was to be sent: source and type of any width,
      offset and data, the device, and in bit 7 whether an answer is expected. */
  predicate Means(m: Message, dest: Byte, typ: Word, offset: Byte, data: seq<Byte>, expectResponse: bool)
  {
    && m.source == 0x8b && m.Type() == typ && m.offset == offset && m.data == data
    && m.dest % 0x80 == dest % 0x80 && (m.dest >= 0x80 <==> expectResponse)
  }

  lemma MeansContent(m: Message, dest: Byte, typ: Word, offset: Byte, data: seq<Byte>, expectResponse: bool)
    ensures Means(m, dest, typ, offset, data, expectResponse) <==> SameContent(m, Build(dest, typ, offset, data, expectResponse))
  {}

  lemma ExtSplit(w: Word)
    ensures (w / 256) * 256 + w % 256 == w
  {}

  /** The octets of a telegram: classic, plus read, plus write. */
  lemma WireForm(dest: Byte, typ: Word, offset: Byte, data: seq<Byte>, expectResponse: bool)
    requires typ >= 0xf0 && expectResponse ==> data != []
    ensures Encodable(Build(dest, typ, offset, data, expectResponse))
    ensures var o := Octets(Build(dest, typ, offset, data, expectResponse));
      var to := dest % 0x80 + if expectResponse then 0x80 else 0;
      var high, low := (typ / 256) as Byte, (typ % 256) as Byte;
      o == if typ < 0xf0 then [0x8b, to, low, offset] + data
           else if expectResponse then [0x8b, to, 0xff, offset, data[0], high, low]
           else [0x8b, to, 0xff, offset, high, low] + data
  {}

  /** Decoding an encoded message gives back what was to be sent exactly when it is
      classic, a plus read with its length octet and nothing else, or a plus write
      with at least one data octet. */
  lemma CodecRoundTrip(dest: Byte, typ: Word, offset: Byte, data: seq<Byte>, expectResponse: bool)
    requires typ >= 0xf0 && expectResponse ==> data != []
    ensures Encodable(Build(dest, typ, offset, data, expectResponse))
    ensures var o := Octets(Build(dest, typ, offset, data, expectResponse));
      && Decodable(o)
      && (Means(Decode(o), dest, typ, offset, data, expectResponse) <==>
            (typ >= 0xf0 ==> if expectResponse then |data| == 1 else |data| >= 1))
  {
    var m := Build(dest, typ, offset, data, expectResponse);
    var o := Octets(m);
    ExtSplit(m.extType);
    MeansContent(Decode(o), dest, typ, offset, data, expectResponse);
    if !m.Plus() {
      assert o[4..] == data;
    } else if m.AsksAnswer() {
      assert o[4..][..1] + o[4..][3..] == [data[0]];
    } else if data == [] {
      assert |Decode(o).data| == 2;
    } else {
      assert o[4..][..0] + o[4..][2..] == data;
    }
  }

  class EmsMessage {
    var source: Byte
    var dest: Byte
    var typ: Byte
    var extType: Word
    var offset: Byte
    var data: seq<Byte>

    function View(): Message
      reads this
    {
      Message(source, dest, typ, extType, offset, data)
    }

    constructor Received(octets: seq<Byte>)
      requires Decodable(octets)
      ensures View() == Decode(octets)
    {
      data := octets;
      source, dest, typ, extType, offset := 0, 0, 0, 0, 0;
      new;
      if |data| < 4 {
        return;
      }
      var isRead := data[1] < 0x80;
      var isPlus := data[2] >= 0xf0 && |data| >= (if isRead then 7 else 6);
      source := data[0];
      dest := data[1];
      typ := data[2];
      offset := data[3];
      data := data[4..];
      if isPlus {
        var start := if isRead then 0 else 1;
        extType := data[start] as Word * 256 + data[start + 1] as Word;
        data := data[..start] + data[start + 2..];
      }
    }

    constructor Request(dest: Byte, typ: Word, offset: Byte, data: seq<Byte>, expectResponse: bool)
      ensures View() == Build(dest, typ, offset, data, expectResponse)
    {
      this.data := data;
      source := ADDRESS_PC;
      this.dest := if expectResponse then SetBit7(dest) else dest % 0x80;
      this.typ := if typ < 0xf0 then typ as Byte else 0xff;
      extType := if typ >= 0xf0 then typ else 0;
      this.offset := offset;
    }

    method GetSendData(omitSenderAddress: bool) returns (octets: seq<Byte>)
      requires Encodable(View())
      ensures octets == if omitSenderAddress then Octets(View())[1..] else Octets(View())
    {
      octets := [];
      if !omitSenderAddress {
        octets := octets + [ADDRESS_PC];
      }
      octets := octets + [dest];
      var isRead := dest >= 0x80;
      octets := octets + [typ];
      octets := octets + [offset];
      if typ >= 0xf0 {
        if isRead {
          octets := octets + [data[0]];
        }
        octets := octets + [(extType / 256) as Byte];
        octets := octets + [(extType % 256) as Byte];
        if !isRead {
          octets := octets + data;
        }
      } else {
        octets := octets + data;
      }
    }
  }
}
