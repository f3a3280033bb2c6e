// framer/main.c: calc_checksum, and which bus errors it can and cannot see.

module BusChecksum {
  import opened Bytes
  import Octets
  import Parity
  import ShiftRegister

  /** The bits of an octet. */
  function Bits(b: Byte): bv8
  {
    Octets.OfValue(b as nat)
  }

  /** The shift register's round on octet numbers. */
  function Advance(crc: Byte): Byte
  {
    Octets.Value(ShiftRegister.Advance(Bits(crc))) as Byte
  }

  function Crc(buffer: seq<Byte>): Byte
  {
    if buffer == [] then 0 else Xor(Advance(Crc(buffer[..|buffer| - 1])), buffer[|buffer| - 1])
  }

  /** The receiver's test: the last octet of the frame is the checksum of the
      ones before it. */
  predicate Accepts(frame: seq<Byte>)
    requires |frame| > 0
  {
    Crc(frame[..|frame| - 1]) == frame[|frame| - 1]
  }

  method CalcChecksum(buffer: array<Byte>, size: nat) returns (result: Byte)
    requires size <= buffer.Length
    ensures result == Crc(buffer[..size])
  {
    var crc: bv8 := 0;
    Octets.ValueOfZero();
    for i := 0 to size
      invariant Octets.Value(crc) == Crc(buffer[..i]) as nat
    {
      assert buffer[..i + 1][..i] == buffer[..i];
      MixBits(crc, buffer[i]);
      RegisterRound(crc);
      hide *;
      var d: bv8 := 0;
      if crc & 0x80 != 0 {
        crc := crc ^ 0x0c;
        d := 1;
      }
      crc := crc << 1;
      crc := crc & 0xfe;
      crc := crc | d;
      crc := crc ^ Bits(buffer[i]);
    }
    result := Octets.Value(crc) as Byte;
  }

  // ----- Octets as numbers and as bits -----

  lemma BitsOfValue(v: bv8)
    ensures Bits(Octets.Value(v) as Byte) == v
  {
    hide Octets.Value;
    Octets.ValueOfValue(Octets.Value(v));
    Octets.ValueInjective(Octets.OfValue(Octets.Value(v)), v);
  }

  lemma ValueOfBits(b: Byte)
    ensures Octets.Value(Bits(b)) == b as nat
  {
    Octets.ValueOfValue(b as nat);
  }

  lemma {:induction false} XorBitsIs(a: bv8, b: bv8, width: nat)
    requires Octets.Value(a) < Pow2(width) && Octets.Value(b) < Pow2(width)
    ensures XorBits(Octets.Value(a), Octets.Value(b), width) == Octets.Value(a ^ b)
  {
    hide Octets.Value;
    if width == 0 {
      Octets.ValueOfZero();
      Octets.ValueInjective(a, 0);
      Octets.ValueInjective(b, 0);
    } else {
      Octets.ValueHalves(a);
      Octets.ValueHalves(b);
      Octets.ValueHalves(a ^ b);
      Octets.XorHalves(a, b);
      XorBitsIs(a >> 1, b >> 1, width - 1);
    }
  }

  /** Xor is the ^ of bit vectors. */
  lemma XorIs(a: Byte, b: Byte)
    ensures Bits(Xor(a, b)) == Bits(a) ^ Bits(b)
  {
    hide Octets.Value, XorBits, Bits;
    ValueOfBits(a);
    ValueOfBits(b);
    assert Pow2(8) == 256;
    XorBitsIs(Bits(a), Bits(b), 8);
    BitsOfValue(Bits(a) ^ Bits(b));
  }

  lemma BitsInjective(a: Byte, b: Byte)
    requires Bits(a) == Bits(b)
    ensures a == b
  {
    hide Bits;
    ValueOfBits(a);
    ValueOfBits(b);
  }

  lemma BitsOfAdvance(a: Byte)
    ensures Bits(Advance(a)) == ShiftRegister.Advance(Bits(a))
  {
    hide ShiftRegister.Advance, Octets.Value, Bits;
    BitsOfValue(ShiftRegister.Advance(Bits(a)));
  }

  lemma RegisterRound(c: bv8)
    ensures ((((if c & 0x80 != 0 then c ^ 0x0c else c) << 1) & 0xfe)
             | (if c & 0x80 != 0 then 1 else 0)) == ShiftRegister.Advance(c)
  {}

  lemma MixBits(c: bv8, b: Byte)
    ensures Octets.Value(ShiftRegister.Advance(c) ^ Bits(b)) == Xor(Advance(Octets.Value(c) as Byte), b) as nat
  {
    hide ShiftRegister.Advance, Octets.Value, Advance, Bits, Xor;
    var r := Advance(Octets.Value(c) as Byte);
    BitsOfValue(c);
    BitsOfAdvance(Octets.Value(c) as Byte);
    XorIs(r, b);
    ValueOfBits(Xor(r, b));
  }

  // ----- The register -----

  lemma AdvanceLinear(a: Byte, b: Byte)
    ensures Advance(Xor(a, b)) == Xor(Advance(a), Advance(b))
  {
    hide ShiftRegister.Advance, Advance, Bits, Xor;
    XorIs(a, b);
    XorIs(Advance(a), Advance(b));
    BitsOfAdvance(a);
    BitsOfAdvance(b);
    BitsOfAdvance(Xor(a, b));
    ShiftRegister.AdvanceLinear(Bits(a), Bits(b));
    BitsInjective(Advance(Xor(a, b)), Xor(Advance(a), Advance(b)));
  }

  lemma AdvanceInjective(a: Byte, b: Byte)
    requires Advance(a) == Advance(b)
    ensures a == b
  {
    hide ShiftRegister.Advance, Advance, Bits;
    BitsOfAdvance(a);
    BitsOfAdvance(b);
    ShiftRegister.AdvanceInjective(Bits(a), Bits(b));
    BitsInjective(a, b);
  }

  lemma AdvanceFixed(a: Byte)
    ensures Advance(a) == a <==> a == 0 || a == 0xf7
  {
    hide ShiftRegister.Advance, Advance, Bits;
    BitsOfAdvance(a);
    ShiftRegister.AdvanceFixed(Bits(a));
    FixedNumbers();
    if Advance(a) == a {
      if Bits(a) == 0 {
        BitsInjective(a, 0);
      } else {
        BitsInjective(a, 0xf7);
      }
    } else if a == 0 || a == 0xf7 {
      BitsInjective(Advance(a), a);
    }
  }

  lemma FixedNumbers()
    ensures Bits(0) == 0 && Bits(0xf7) == 0xf7
  {
    BitsOfValue(0xf7);
  }

  // ----- Linearity over whole frames -----

  /** The string a with the bits set in e flipped. */
  function Flip(a: seq<Byte>, e: seq<Byte>): (r: seq<Byte>)
    requires |a| == |e|
    ensures |r| == |a|
  {
    if a == [] then [] else Flip(a[..|a| - 1], e[..|e| - 1]) + [Xor(a[|a| - 1], e[|e| - 1])]
  }

  lemma FlipInit(a: seq<Byte>, e: seq<Byte>)
    requires 0 < |a| == |e|
    ensures Flip(a, e)[..|a| - 1] == Flip(a[..|a| - 1], e[..|a| - 1])
    ensures Flip(a, e)[|a| - 1] == Xor(a[|a| - 1], e[|a| - 1])
  {}

  /** Exchanging the inner two of four summands. */
  lemma XorExchange(a: Byte, b: Byte, x: Byte, y: Byte)
    ensures Xor(Xor(a, b), Xor(x, y)) == Xor(Xor(a, x), Xor(b, y))
  {
    hide Xor;
    XorAssoc(a, b, Xor(x, y));
    XorAssoc(b, x, y);
    XorComm(b, x);
    XorAssoc(x, b, y);
    XorAssoc(a, x, Xor(b, y));
  }

  lemma {:induction false} CrcLinear(a: seq<Byte>, e: seq<Byte>)
    requires |a| == |e|
    ensures Crc(Flip(a, e)) == Xor(Crc(a), Crc(e))
    decreases |a|
  {
    hide Advance, Xor;
    if a == [] {
      XorSelf(0);
    } else {
      var n := |a| - 1;
      CrcLinear(a[..n], e[..n]);
      FlipInit(a, e);
      AdvanceLinear(Crc(a[..n]), Crc(e[..n]));
      XorExchange(Advance(Crc(a[..n])), Advance(Crc(e[..n])), a[n], e[n]);
    }
  }

  lemma XorLeftCancel(x: Byte, y: Byte, c: Byte)
    ensures Xor(x, y) == Xor(x, c) <==> y == c
  {
    hide Xor;
    XorComm(x, y);
    XorComm(x, c);
    if Xor(x, y) == Xor(x, c) {
      XorCancel(y, c, x);
    }
  }

  /** Errors go unnoticed exactly when the error pattern is itself a frame the
      test accepts; what was sent makes no difference. */
  lemma {:induction false} MissedErrorsAreFrames(frame: seq<Byte>, e: seq<Byte>)
    requires 0 < |frame| == |e| && Accepts(frame)
    ensures Accepts(Flip(frame, e)) <==> Accepts(e)
  {
    hide Xor;
    var n := |frame| - 1;
    FlipInit(frame, e);
    CrcLinear(frame[..n], e[..n]);
    XorLeftCancel(frame[n], Crc(e[..n]), e[n]);
  }

  // ----- Parity -----

  /** The number of flipped bits in an error pattern. */
  function FlippedBits(e: seq<Byte>): nat
  {
    if e == [] then 0 else FlippedBits(e[..|e| - 1]) + Parity.Ones(Bits(e[|e| - 1]))
  }

  lemma OnesStep(crc: Byte, b: Byte)
    ensures Parity.Ones(Bits(Xor(Advance(crc), b))) % 2
         == (Parity.Ones(Bits(crc)) + Parity.Ones(Bits(b))) % 2
  {
    hide ShiftRegister.Advance, Parity.Ones, Advance, Bits, Xor;
    XorIs(Advance(crc), b);
    BitsOfAdvance(crc);
    Parity.OnesMix(Bits(crc), Bits(b));
  }

  lemma EmptyParity()
    ensures Parity.Ones(Bits(Crc([]))) == 0
  {
    hide Parity.Ones;
    assert Bits(0) == 0;
    Parity.OnesOfZero();
  }

  lemma CrcInit(e: seq<Byte>)
    requires e != []
    ensures Crc(e) == Xor(Advance(Crc(e[..|e| - 1])), e[|e| - 1])
  {
    hide Advance, Xor;
  }

  lemma {:induction false} CrcParity(e: seq<Byte>)
    ensures Parity.Ones(Bits(Crc(e))) % 2 == FlippedBits(e) % 2
    decreases |e|
  {
    hide Advance, Xor, Parity.Ones, Bits, Crc;
    if e == [] {
      EmptyParity();
    } else {
      var n := |e| - 1;
      CrcParity(e[..n]);
      CrcInit(e);
      OnesStep(Crc(e[..n]), e[n]);
      Parity.ParityAdd(Parity.Ones(Bits(Crc(e[..n]))), FlippedBits(e[..n]), Parity.Ones(Bits(e[n])));
    }
  }

  lemma LastFlips(e: seq<Byte>)
    requires e != []
    ensures FlippedBits(e) == FlippedBits(e[..|e| - 1]) + Parity.Ones(Bits(e[|e| - 1]))
  {}

  /** Any odd number of flipped bits, anywhere in a frame of any length, is
      noticed. */
  lemma {:induction false} OddErrorsNoticed(frame: seq<Byte>, e: seq<Byte>)
    requires 0 < |frame| == |e| && Accepts(frame)
    requires FlippedBits(e) % 2 == 1
    ensures !Accepts(Flip(frame, e))
  {
    hide Parity.Ones, Bits, Crc, FlippedBits, Xor;
    var n := |e| - 1;
    LastFlips(e);
    MissedErrorsAreFrames(frame, e);
    CrcParity(e[..n]);
  }

  // ----- Errors confined to a few octets -----

  /** Different register contents stay different under a common tail. */
  lemma {:induction false} CommonTail(a: seq<Byte>, b: seq<Byte>, t: seq<Byte>)
    ensures Crc(a + t) == Crc(b + t) <==> Crc(a) == Crc(b)
    decreases |t|
  {
    hide Advance, Xor;
    if t == [] {
      assert a + t == a && b + t == b;
    } else {
      var n := |t| - 1;
      var x, y := a + t[..n], b + t[..n];
      assert a + t == x + [t[n]] && b + t == y + [t[n]];
      CommonTail(a, b, t[..n]);
      CrcSnoc(x, t[n]);
      CrcSnoc(y, t[n]);
      if Crc(a + t) == Crc(b + t) {
        XorCancel(Advance(Crc(x)), Advance(Crc(y)), t[n]);
        AdvanceInjective(Crc(x), Crc(y));
      }
    }
  }

  lemma CrcSnoc(s: seq<Byte>, b: Byte)
    ensures Crc(s + [b]) == Xor(Advance(Crc(s)), b)
  {
    assert (s + [b])[..|s + [b]| - 1] == s;
  }

  /** Damage to one octet, payload or checksum, is always noticed. */
  lemma OneOctetNoticed(frame: seq<Byte>, k: nat, b: Byte)
    requires k < |frame| && Accepts(frame) && b != frame[k]
    ensures !Accepts(frame[k := b])
  {
    hide Advance, Xor, Crc;
    var n := |frame| - 1;
    if k == n {
      assert frame[k := b][..n] == frame[..n];
    } else {
      var pre, post := frame[..k], frame[k + 1..n];
      assert frame[..n] == pre + [frame[k]] + post;
      assert frame[k := b][..n] == pre + [b] + post;
      CrcSnoc(pre, frame[k]);
      CrcSnoc(pre, b);
      XorLeftCancel(Advance(Crc(pre)), frame[k], b);
      CommonTail(pre + [frame[k]], pre + [b], post);
    }
  }

  /** The register after two octets, with the first one's part set apart. */
  lemma TwoSteps(c: Byte, a: Byte, b: Byte)
    ensures Xor(Advance(Xor(c, a)), b) == Xor(Advance(c), Xor(Advance(a), b))
  {
    hide Advance, Xor;
    AdvanceLinear(c, a);
    XorAssoc(Advance(c), Advance(a), b);
  }

  lemma XorMove(a: Byte, b: Byte, x: Byte, y: Byte)
    ensures Xor(a, b) == Xor(x, y) <==> Xor(b, y) == Xor(a, x)
  {
    hide Xor;
    XorExchange(a, b, x, y);
    XorComm(Xor(a, x), Xor(b, y));
    XorSelf(Xor(x, y));
    XorSelf(Xor(a, x));
    if Xor(a, b) == Xor(x, y) {
      XorCancel(Xor(b, y), Xor(a, x), Xor(a, x));
    }
    if Xor(b, y) == Xor(a, x) {
      XorCancel(Xor(a, b), Xor(x, y), Xor(x, y));
    }
  }

  /** Damage to two neighbouring payload octets is missed in exactly one case:
      the second error is the first one moved on by the register. */
  lemma TwoOctetsMissed(frame: seq<Byte>, k: nat, x: Byte, y: Byte)
    requires k + 2 < |frame| && Accepts(frame)
    ensures Accepts(frame[k := x][k + 1 := y])
            <==> Xor(frame[k + 1], y) == Advance(Xor(frame[k], x))
  {
    hide Advance, Xor, Crc;
    var n := |frame| - 1;
    var pre, post := frame[..k], frame[k + 2..n];
    var a, b := frame[k], frame[k + 1];
    var c := Advance(Crc(pre));
    assert frame[..n] == pre + [a] + [b] + post;
    assert frame[k := x][k + 1 := y][..n] == pre + [x] + [y] + post;
    CrcSnoc(pre, a);
    CrcSnoc(pre + [a], b);
    CrcSnoc(pre, x);
    CrcSnoc(pre + [x], y);
    TwoSteps(c, a, b);
    TwoSteps(c, x, y);
    XorLeftCancel(Advance(c), Xor(Advance(a), b), Xor(Advance(x), y));
    XorMove(Advance(a), b, Advance(x), y);
    AdvanceLinear(a, x);
    CommonTail(pre + [a] + [b], pre + [x] + [y], post);
  }

  /** Two neighbouring payload octets that changed places are missed exactly
      when they were equal or their difference is 0xf7. */
  lemma SwapMissed(frame: seq<Byte>, k: nat)
    requires k + 2 < |frame| && Accepts(frame)
    ensures Accepts(frame[k := frame[k + 1]][k + 1 := frame[k]])
            <==> frame[k] == frame[k + 1] || Xor(frame[k], frame[k + 1]) == 0xf7
  {
    hide Advance, Xor, Accepts;
    var a, b := frame[k], frame[k + 1];
    TwoOctetsMissed(frame, k, b, a);
    XorComm(a, b);
    AdvanceFixed(Xor(a, b));
    XorSelf(b);
    if Xor(a, b) == 0 {
      XorCancel(a, b, b);
    }
  }

  /** The last payload octet and the checksum octet can always change places
      unnoticed. */
  lemma SwapWithChecksumMissed(frame: seq<Byte>)
    requires |frame| >= 2 && Accepts(frame)
    ensures var n := |frame| - 1; Accepts(frame[n - 1 := frame[n]][n := frame[n - 1]])
  {
    hide Advance, Xor, Crc;
    var n := |frame| - 1;
    var pre, p, c := frame[..n - 1], frame[n - 1], frame[n];
    assert frame[..n] == pre + [p];
    assert frame[n - 1 := c][n := p][..n] == pre + [c];
    CrcSnoc(pre, p);
    CrcSnoc(pre, c);
    var r := Advance(Crc(pre));
    XorAssoc(r, r, p);
    XorSelf(r);
    XorComm(0, p);
    XorZero(p);
  }
}
