// framer/main.c: the shift register of calc_checksum, on bit vectors.

module ShiftRegister {
  /** The register's round, before the next octet is mixed in. */
  function Advance(crc: bv8): bv8
  {
    var d: bv8 := if crc & 0x80 != 0 then 1 else 0;
    var c := if crc & 0x80 != 0 then crc ^ 0x0c else crc;
    ((c << 1) & 0xfe) | d
  }

  lemma AdvanceLinear(a: bv8, b: bv8)
    ensures Advance(a ^ b) == Advance(a) ^ Advance(b)
  {
    if a & 0x80 != 0 {
      if b & 0x80 != 0 {} else {}
    } else {
      if b & 0x80 != 0 {} else {}
    }
  }

  lemma AdvanceInjective(a: bv8, b: bv8)
    requires Advance(a) == Advance(b)
    ensures a == b
  {}

  lemma AdvanceFixed(a: bv8)
    ensures Advance(a) == a <==> a == 0 || a == 0xf7
  {}
}
