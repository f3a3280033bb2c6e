// Octets as bit vectors. Numbers enter and leave through Value and OfValue, so
// nothing here needs the solver's own conversions.

module Octets {
  type Octet = bv8

  /** The number an octet stands for. */
  function Value(v: Octet): (n: nat)
    ensures n < 256
  {
    (if v & 1 != 0 then 1 else 0) + (if v & 2 != 0 then 2 else 0)
    + (if v & 4 != 0 then 4 else 0) + (if v & 8 != 0 then 8 else 0)
    + (if v & 16 != 0 then 16 else 0) + (if v & 32 != 0 then 32 else 0)
    + (if v & 64 != 0 then 64 else 0) + (if v & 128 != 0 then 128 else 0)
  }

  /** The octet that stands for a number. */
  function OfValue(n: nat): (v: Octet)
    requires n < 256
  {
    if n == 0 then 0
    else (OfValue(n / 2) << 1) | (if n % 2 == 1 then 1 else 0)
  }

  lemma ValueOfZero()
    ensures Value(0) == 0
  {}

  lemma ValueShift(v: Octet, low: Octet)
    requires Value(v) < 128 && low < 2
    ensures Value((v << 1) | low) == 2 * Value(v) + (if low == 1 then 1 else 0)
  {}

  lemma {:induction false} ValueOfValue(n: nat)
    requires n < 256
    ensures Value(OfValue(n)) == n
  {
    hide Value;
    if n == 0 {
      ValueOfZero();
    } else {
      ValueOfValue(n / 2);
      ValueShift(OfValue(n / 2), if n % 2 == 1 then 1 else 0);
    }
  }

  lemma ValueInjective(a: Octet, b: Octet)
    requires Value(a) == Value(b)
    ensures a == b
  {}

  lemma ValueHalves(v: Octet)
    ensures Value(v >> 1) == Value(v) / 2
    ensures Value(v) % 2 == if v & 1 != 0 then 1 else 0
  {}

  lemma XorHalves(a: Octet, b: Octet)
    ensures (a ^ b) >> 1 == (a >> 1) ^ (b >> 1)
    ensures (a ^ b) & 1 != 0 <==> (a & 1 != 0) != (b & 1 != 0)
  {}
}
