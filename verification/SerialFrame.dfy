// The frame format of the serial line between the bus interface and the
// collector: marker, length, payload, running XOR. framer/main.c and
// collector/SendingSerialHandler.cpp write it, collector/IoHandler.cpp reads it.

module SerialFrame {
  import opened Bytes

  /** What fits in a frame: the length is one octet, and a length of zero is
      never reached again by the counting of the Data state. */
  predicate Sendable(p: seq<Byte>)
  {
    0 < |p| < 256
  }

  predicate AllSendable(ps: seq<seq<Byte>>)
  {
    forall i :: 0 <= i < |ps| ==> Sendable(ps[i])
  }

  function Header(len: Byte): seq<Byte>
  {
    [0xaa, 0x55, len]
  }

  /** The serial frame both ends of the link use; the length octet is the
      payload's size cut to eight bits. */
  function Encode(p: seq<Byte>): seq<Byte>
  {
    Header((|p| % 256) as Byte) + p + [XorOf(p)]
  }

  lemma LengthOctet(p: seq<Byte>)
    requires |p| < 256
    ensures (|p| % 256) as Byte == |p| as Byte
  {}

  lemma HeaderIs(len: Byte)
    ensures Header(len) == [0xaa, 0x55] + [len]
  {}

  /** The frame of a payload whose size fits the length octet. */
  lemma EncodeIs(p: seq<Byte>)
    requires |p| < 256
    ensures Encode(p) == Header(|p| as Byte) + p + [XorOf(p)]
    ensures Encode(p) == [0xaa, 0x55] + [|p| as Byte] + p + [XorOf(p)]
  {
    hide XorOf, Header;
    LengthOctet(p);
    HeaderIs(|p| as Byte);
  }

  function EncodeAll(ps: seq<seq<Byte>>): seq<Byte>
  {
    if ps == [] then [] else EncodeAll(ps[..|ps| - 1]) + Encode(ps[|ps| - 1])
  }

  lemma EncodeAllSnoc(ps: seq<seq<Byte>>, p: seq<Byte>)
    ensures EncodeAll(ps + [p]) == EncodeAll(ps) + Encode(p)
  {
    assert (ps + [p])[..|ps + [p]| - 1] == ps;
  }

  lemma {:induction false} EncodeAllConcat(a: seq<seq<Byte>>, b: seq<seq<Byte>>)
    ensures EncodeAll(a + b) == EncodeAll(a) + EncodeAll(b)
    decreases |b|
  {
    hide Encode;
    if b == [] {
      assert a + b == a;
    } else {
      var n := |b| - 1;
      assert (a + b)[..|a + b| - 1] == a + b[..n];
      EncodeAllConcat(a, b[..n]);
    }
  }

  /** The first octet of any frames is that of the marker. */
  lemma {:induction false} StartsWithMarker(ps: seq<seq<Byte>>)
    requires ps != []
    ensures EncodeAll(ps) != [] && EncodeAll(ps)[0] == 0xaa
    decreases |ps|
  {
    if |ps| > 1 {
      StartsWithMarker(ps[..|ps| - 1]);
    }
  }
}
