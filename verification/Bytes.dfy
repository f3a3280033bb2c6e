// Octets, and the running XOR that both ends of the serial link compute.

module Bytes {
  newtype Byte = x: int | 0 <= x < 256

  datatype Option<+T> = None | Some(value: T)

  function Pow2(n: nat): (r: nat)
    ensures r > 0
  {
    if n == 0 then 1 else 2 * Pow2(n - 1)
  }

  /** Exclusive or of the low `width` bits, from the lowest bit up. */
  function XorBits(a: nat, b: nat, width: nat): (r: nat)
    ensures r < Pow2(width)
  {
    if width == 0 then 0 else 2 * XorBits(a / 2, b / 2, width - 1) + (if a % 2 == b % 2 then 0 else 1)
  }

  /** The ^ of two octets. */
  function Xor(a: Byte, b: Byte): Byte
  {
    assert Pow2(8) == 256;
    XorBits(a as nat, b as nat, 8) as Byte
  }

  /** Bit k of a number. */
  function Bit(a: nat, k: nat): (r: nat)
    ensures r < 2
  {
    if k == 0 then a % 2 else Bit(a / 2, k - 1)
  }

  /** XorBits is exclusive or, bit by bit. */
  lemma {:induction false} XorBitwise(a: nat, b: nat, width: nat, k: nat)
    requires k < width
    ensures Bit(XorBits(a, b, width), k) == if Bit(a, k) == Bit(b, k) then 0 else 1
  {
    if k > 0 {
      XorBitwise(a / 2, b / 2, width - 1, k - 1);
    }
  }

  /** The lowest bit and the rest of an exclusive or. */
  lemma XorBitsSplit(a: nat, b: nat, width: nat)
    requires width > 0
    ensures XorBits(a, b, width) / 2 == XorBits(a / 2, b / 2, width - 1)
    ensures XorBits(a, b, width) % 2 == if a % 2 == b % 2 then 0 else 1
  {}

  lemma {:induction false} XorBitsAssoc(a: nat, b: nat, c: nat, width: nat)
    ensures XorBits(XorBits(a, b, width), c, width) == XorBits(a, XorBits(b, c, width), width)
  {
    if width > 0 {
      var x, y := XorBits(a, b, width), XorBits(b, c, width);
      XorBitsSplit(a, b, width);
      XorBitsSplit(b, c, width);
      XorBitsSplit(x, c, width);
      XorBitsSplit(a, y, width);
      XorBitsAssoc(a / 2, b / 2, c / 2, width - 1);
    }
  }

  lemma {:induction false} XorBitsComm(a: nat, b: nat, width: nat)
    ensures XorBits(a, b, width) == XorBits(b, a, width)
  {
    if width > 0 {
      XorBitsComm(a / 2, b / 2, width - 1);
    }
  }

  lemma {:induction false} XorBitsZero(a: nat, width: nat)
    requires a < Pow2(width)
    ensures XorBits(a, 0, width) == a
  {
    if width > 0 {
      XorBitsZero(a / 2, width - 1);
    }
  }

  lemma {:induction false} XorBitsSelf(a: nat, width: nat)
    ensures XorBits(a, a, width) == 0
  {
    if width > 0 {
      XorBitsSelf(a / 2, width - 1);
    }
  }

  lemma XorAssoc(a: Byte, b: Byte, c: Byte)
    ensures Xor(Xor(a, b), c) == Xor(a, Xor(b, c))
  {
    XorBitsAssoc(a as nat, b as nat, c as nat, 8);
  }

  lemma XorZero(a: Byte)
    ensures Xor(a, 0) == a
  {
    assert Pow2(8) == 256;
    XorBitsZero(a as nat, 8);
  }

  lemma XorComm(a: Byte, b: Byte)
    ensures Xor(a, b) == Xor(b, a)
  {
    XorBitsComm(a as nat, b as nat, 8);
  }

  lemma XorSelf(a: Byte)
    ensures Xor(a, a) == 0
  {
    XorBitsSelf(a as nat, 8);
  }

  /** Xor with a fixed octet can be undone. */
  lemma XorCancel(a: Byte, b: Byte, c: Byte)
    requires Xor(a, c) == Xor(b, c)
    ensures a == b
  {
    XorAssoc(a, c, c);
    XorAssoc(b, c, c);
    XorSelf(c);
    XorZero(a);
    XorZero(b);
  }

  /** The running XOR of a byte string. */
  function XorOf(s: seq<Byte>): Byte
  {
    if s == [] then 0 else Xor(XorOf(s[..|s| - 1]), s[|s| - 1])
  }

  /** A single replaced byte always changes the running XOR. */
  lemma {:induction false} XorOfDetects(s: seq<Byte>, k: nat, b: Byte)
    requires k < |s| && b != s[k]
    ensures XorOf(s[k := b]) != XorOf(s)
  {
    var n := |s| - 1;
    var t := s[k := b];
    if k == n {
      assert t[..n] == s[..n];
      if XorOf(t) == XorOf(s) {
        XorComm(XorOf(s[..n]), b);
        XorComm(XorOf(s[..n]), s[n]);
        XorCancel(b, s[n], XorOf(s[..n]));
      }
    } else {
      assert t[..n] == s[..n][k := b];
      XorOfDetects(s[..n], k, b);
      if XorOf(t) == XorOf(s) {
        XorCancel(XorOf(t[..n]), XorOf(s[..n]), s[n]);
      }
    }
  }

  /** Concatenation of a list of byte strings. */
  function Concat<T>(parts: seq<seq<T>>): seq<T>
  {
    if parts == [] then [] else Concat(parts[..|parts| - 1]) + parts[|parts| - 1]
  }
}
