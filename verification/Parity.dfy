// Counting the set bits of an octet modulo two.

module Parity {
  import ShiftRegister

  /** The number of set bits. */
  function Ones(b: bv8): nat
  {
    (if b & 1 != 0 then 1 else 0) + (if b & 2 != 0 then 1 else 0)
    + (if b & 4 != 0 then 1 else 0) + (if b & 8 != 0 then 1 else 0)
    + (if b & 16 != 0 then 1 else 0) + (if b & 32 != 0 then 1 else 0)
    + (if b & 64 != 0 then 1 else 0) + (if b & 128 != 0 then 1 else 0)
  }

  lemma OnesOfZero()
    ensures Ones(0) == 0
  {}

  predicate Odd(b: bv8)
  {
    var h := b ^ (b >> 4);
    var q := h ^ (h >> 2);
    (q ^ (q >> 1)) & 1 == 1
  }

  lemma OddOnes(b: bv8)
    ensures Ones(b) % 2 == 1 <==> Odd(b)
  {}

  lemma OddMix(crc: bv8, b: bv8)
    ensures Odd(ShiftRegister.Advance(crc) ^ b) <==> Odd(crc) != Odd(b)
  {}

  lemma ParityAdd(x: nat, y: nat, z: nat)
    requires x % 2 == y % 2
    ensures (x + z) % 2 == (y + z) % 2
  {}

  /** A round keeps the parity of the register. */
  lemma {:induction false} OnesMix(crc: bv8, b: bv8)
    ensures Ones(ShiftRegister.Advance(crc) ^ b) % 2 == (Ones(crc) + Ones(b)) % 2
  {
    hide ShiftRegister.Advance, Ones, Odd;
    OddMix(crc, b);
    OddOnes(crc);
    OddOnes(b);
    OddOnes(ShiftRegister.Advance(crc) ^ b);
  }
}
