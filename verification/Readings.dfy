// collector/EmsMessage.cpp and EmsMessage.h: numbers in telegrams, and which of them
// a telegram that starts at some offset can answer for.

module Readings {
  import opened Bytes
  import opened Telegram

  function Pow256(n: nat): (r: nat)
    ensures r > 0
  {
    if n == 0 then 1 else 256 * Pow256(n - 1)
  }

  /** An octet string as digits in base 256, highest first. */
  function Places(data: seq<Byte>): nat
  {
    if data == [] then 0 else data[0] as nat * Pow256(|data| - 1) + Places(data[1..])
  }

  lemma DigitBound(d: nat, p: nat)
    requires d <= 255
    ensures d * p <= 255 * p
    ensures d < 255 ==> d * p <= 254 * p
  {}

  lemma {:induction false} PlacesBound(data: seq<Byte>)
    ensures Places(data) < Pow256(|data|)
  {
    if data != [] {
      PlacesBound(data[1..]);
      DigitBound(data[0] as nat, Pow256(|data| - 1));
    }
  }

  lemma {:induction false} PlacesSnoc(data: seq<Byte>, b: Byte)
    ensures Places(data + [b]) == 256 * Places(data) + b as nat
  {
    if data == [] {
      assert ([] + [b])[1..] == [];
    } else {
      assert (data + [b])[1..] == data[1..] + [b];
      PlacesSnoc(data[1..], b);
      assert Pow256(|data|) == 256 * Pow256(|data| - 1);
    }
  }

  /** The number in the range of n octets that agrees with the digits modulo
      256^n. */
  function TwosComplement(data: seq<Byte>): int
  {
    if 2 * Places(data) < Pow256(|data|) then Places(data) else Places(data) - Pow256(|data|)
  }

  predicate AllOnes(data: seq<Byte>)
  {
    forall i :: 0 <= i < |data| ==> data[i] == 0xff
  }

  lemma AllOnesTail(data: seq<Byte>)
    requires data != []
    ensures AllOnes(data) <==> data[0] == 0xff && AllOnes(data[1..])
  {
    assert forall i :: 1 <= i < |data| ==> data[i] == data[1..][i - 1];
  }

  lemma {:induction false} AllOnesIsMax(data: seq<Byte>)
    ensures Places(data) == Pow256(|data|) - 1 <==> AllOnes(data)
  {
    hide AllOnes;
    if data == [] {
      NoDigitIsOnes();
    } else {
      var rest, p := data[1..], Pow256(|data| - 1);
      AllOnesIsMax(rest);
      PlacesBound(rest);
      AllOnesTail(data);
      DigitBound(data[0] as nat, p);
      assert Places(data) == data[0] as nat * p + Places(rest) && Pow256(|data|) == 256 * p;
    }
  }

  lemma NoDigitIsOnes()
    ensures AllOnes([]) && Places([]) == 0 && Pow256(0) == 1
  {}

  // ----- Decoding -----

  datatype Format = Format(divider: nat, signed: bool, invalid: seq<seq<Byte>>)

  datatype Number = Integer(n: nat) | Fraction(x: real)

  datatype Reading = Reading(value: Number, valid: bool)

  const TEMPERATURE_MARKS: seq<seq<Byte>> := [[0x7d, 0x00], [0x83, 0x00]]
  const TEMPERATURE: Format := Format(10, true, TEMPERATURE_MARKS)

  /** The comparison of invalid values is over the length of the data only. */
  predicate Comparable(data: seq<Byte>, f: Format)
  {
    forall k :: 0 <= k < |f.invalid| ==> |data| <= |f.invalid[k]|
  }

  predicate Marked(data: seq<Byte>, f: Format)
    requires Comparable(data, f)
  {
    exists k :: 0 <= k < |f.invalid| && data == f.invalid[k][..|data|]
  }

  /** The lowest negative number, all ones for an unsigned one, and the marks of the
      format all stand for "not available". */
  predicate Available(data: seq<Byte>, f: Format)
    requires Comparable(data, f)
  {
    && (if f.signed then 2 * Places(data) != Pow256(|data|) else !AllOnes(data))
    && !Marked(data, f)
  }

  function Raw(data: seq<Byte>, f: Format): int
  {
    if f.signed then TwosComplement(data) else Places(data)
  }

  function Scaled(raw: int, divider: nat): Number
  {
    if divider == 0 then Integer(raw % 0x1_0000_0000) else Fraction(raw as real / divider as real)
  }

  function Decoded(data: seq<Byte>, f: Format): Reading
    requires Comparable(data, f)
  {
    Reading(Scaled(Raw(data, f), f.divider), Available(data, f))
  }

  /** The numeric EmsValue constructor. The value never leaves the range of n octets,
      so masking its highest bit is a subtraction. */
  method DecodeNumeric(data: seq<Byte>, f: Format) returns (r: Reading)
    requires 1 <= |data| <= 3 && Comparable(data, f)
    ensures r == Decoded(data, f)
  {
    hide AllOnes, Places;
    var value: int := 0;
    var n := |data|;
    assert data[..0] == [];
    NoDigitIsOnes();
    for i := 0 to n
      invariant value == Places(data[..i])
    {
      PlacesSnoc(data[..i], data[i]);
      assert data[..i + 1] == data[..i] + [data[i]];
      value := 256 * value + data[i] as int;
    }
    assert data[..n] == data;
    PlacesBound(data);
    AllOnesIsMax(data);
    var highestBit, isValid := HighestBit(n), true;
    if f.signed {
      if value >= highestBit {
        value := value - highestBit;
        if value == 0 {
          isValid := false;
        }
        value := value - highestBit;
      }
    } else {
      isValid := value != 2 * highestBit - 1;
    }
    var marked := IsMarked(data, f);
    r := Reading(Scaled(value, f.divider), isValid && !marked);
  }

  function HighestBit(n: nat): (r: nat)
    requires 1 <= n
    ensures 2 * r == Pow256(n)
  {
    128 * Pow256(n - 1)
  }

  method IsMarked(data: seq<Byte>, f: Format) returns (marked: bool)
    requires Comparable(data, f)
    ensures marked == Marked(data, f)
  {
    marked := false;
    for k := 0 to |f.invalid|
      invariant !marked
      invariant forall j :: 0 <= j < k ==> data != f.invalid[j][..|data|]
    {
      if data == f.invalid[k][..|data|] {
        return true;
      }
    }
  }

  // ----- The other direction -----

  function BigEndian(v: nat, n: nat): (r: seq<Byte>)
    ensures |r| == n
  {
    if n == 0 then [] else BigEndian(v / 256, n - 1) + [(v % 256) as Byte]
  }

  lemma {:induction false} PlacesOfBigEndian(v: nat, n: nat)
    requires v < Pow256(n)
    ensures Places(BigEndian(v, n)) == v
  {
    if n > 0 {
      PlacesOfBigEndian(v / 256, n - 1);
      PlacesSnoc(BigEndian(v / 256, n - 1), (v % 256) as Byte);
    }
  }

  lemma {:induction false} BigEndianOfPlaces(data: seq<Byte>)
    ensures BigEndian(Places(data), |data|) == data
    decreases |data|
  {
    hide Places;
    if data == [] {
      NoDigitIsOnes();
    } else {
      var init, last := data[..|data| - 1], data[|data| - 1];
      assert data == init + [last];
      PlacesSnoc(init, last);
      BigEndianOfPlaces(init);
      assert Places(data) / 256 == Places(init) && Places(data) % 256 == last as nat;
    }
  }

  predicate Fits(v: int, n: nat)
  {
    -(Pow256(n) as int) <= 2 * v < Pow256(n)
  }

  /** A signed number as a device sends it. */
  function Wire(v: int, n: nat): seq<Byte>
    requires Fits(v, n)
  {
    BigEndian(if v < 0 then v + Pow256(n) else v, n)
  }

  /** Decoding is the inverse of big-endian two's complement, and the only one. */
  lemma SignedReadsBack(v: int, n: nat, data: seq<Byte>)
    requires n > 0 && Fits(v, n) && |data| == n
    ensures TwosComplement(Wire(v, n)) == v
    ensures TwosComplement(data) == v ==> data == Wire(v, n)
    ensures Fits(TwosComplement(data), n)
  {
    hide BigEndian, Places;
    var u := if v < 0 then v + Pow256(n) else v;
    PlacesOfBigEndian(u, n);
    PlacesBound(data);
    BigEndianOfPlaces(data);
  }

  /** So is decoding of counters, which are unsigned and not divided: all of them read
      back but the highest. */
  lemma IntegerReadsBack(v: nat, n: nat)
    requires 1 <= n <= 3 && v < Pow256(n)
    ensures Decoded(BigEndian(v, n), Format(0, false, [])) == Reading(Integer(v), v != Pow256(n) - 1)
  {
    hide Places, BigEndian, AllOnes;
    PlacesOfBigEndian(v, n);
    AllOnesIsMax(BigEndian(v, n));
    assert Pow256(0) == 1 && Pow256(1) == 256 && Pow256(2) == 0x1_0000 && Pow256(3) == 0x100_0000;
  }

  /** A temperature is in tenths, and missing at three readings only: -3276.8, -3200.0
      and 3200.0. */
  lemma TemperatureMissing(data: seq<Byte>)
    requires |data| == 2
    ensures Decoded(data, TEMPERATURE).value == Fraction(TwosComplement(data) as real / 10.0)
    ensures Decoded(data, TEMPERATURE).valid <==> TwosComplement(data) !in {-0x8000, -0x7d00, 0x7d00}
  {
    assert Pow256(1) == 256 && Pow256(2) == 0x1_0000;
    TwoPlaces(data);
    assert TEMPERATURE_MARKS[0][..2] == [0x7d, 0x00] && TEMPERATURE_MARKS[1][..2] == [0x83, 0x00];
    assert data == [data[0], data[1]];
  }

  lemma TwoPlaces(data: seq<Byte>)
    requires |data| == 2
    ensures Places(data) == data[0] as int * 256 + data[1] as int
  {
    assert Places(data[1..][1..]) == 0;
    assert Pow256(0) == 1 && Pow256(1) == 256;
  }

  // ----- Which telegrams can answer -----

  predicate CanAccess(m: Message, offset: nat, size: nat)
  {
    offset >= m.offset as nat && offset + size <= m.offset as nat + |m.data|
  }

  /** parseNumeric calls the value handler, or does not. */
  method ParseNumeric(m: Message, offset: nat, size: nat, f: Format) returns (r: Option<Reading>)
    requires 1 <= size <= 3 && (forall k :: 0 <= k < |f.invalid| ==> size <= |f.invalid[k]|)
    ensures r == NumericIn(m, offset, size, f)
  {
    r := None;
    if CanAccess(m, offset, size) {
      var i := offset - m.offset as nat;
      var reading := DecodeNumeric(m.data[i..i + size], f);
      r := Some(reading);
    }
  }

  function NumericIn(m: Message, offset: nat, size: nat, f: Format): Option<Reading>
    requires forall k :: 0 <= k < |f.invalid| ==> size <= |f.invalid[k]|
  {
    if CanAccess(m, offset, size) then
      var i := offset - m.offset as nat;
      Some(Decoded(m.data[i..i + size], f))
    else None
  }

  /** parseEnum. */
  function EnumIn(m: Message, offset: nat): Option<Byte>
  {
    if CanAccess(m, offset, 1) then Some(m.data[offset - m.offset as nat]) else None
  }

  /** parseBool. */
  function BoolIn(m: Message, offset: nat, bit: nat): Option<bool>
  {
    if CanAccess(m, offset, 1) then Some(Bit(m.data[offset - m.offset as nat] as nat, bit) == 1) else None
  }

  /** A telegram that carries what the device holds. */
  predicate Truthful(m: Message, memory: seq<Byte>)
  {
    m.offset as nat + |m.data| <= |memory| && m.data == memory[m.offset..m.offset as nat + |m.data|]
  }

  lemma SliceOfSlice(s: seq<Byte>, a: nat, b: nat, i: nat, j: nat)
    requires a <= b <= |s| && i <= j <= b - a
    ensures s[a..b][i..j] == s[a + i..a + j]
  {
    var x, y := s[a..b][i..j], s[a + i..a + j];
    assert |x| == |y|;
    forall k | 0 <= k < |x|
      ensures x[k] == y[k]
    {
      assert s[a..b][i + k] == s[a + i + k];
    }
  }

  /** Wherever a telegram starts and ends: a field is reported if and only if the
      telegram covers all of it, and then what is reported is the device's. */
  lemma WindowReportsMemory(m: Message, memory: seq<Byte>, offset: nat, size: nat, f: Format, bit: nat)
    requires Truthful(m, memory) && 1 <= size
    requires forall k :: 0 <= k < |f.invalid| ==> size <= |f.invalid[k]|
    ensures NumericIn(m, offset, size, f) ==
      if m.offset as nat <= offset && offset + size <= m.offset as nat + |m.data|
      then Some(Decoded(memory[offset..offset + size], f)) else None
    ensures EnumIn(m, offset) ==
      if m.offset as nat <= offset < m.offset as nat + |m.data| then Some(memory[offset]) else None
    ensures BoolIn(m, offset, bit) ==
      if m.offset as nat <= offset < m.offset as nat + |m.data| then Some(Bit(memory[offset] as nat, bit) == 1) else None
  {
    hide Decoded;
    if CanAccess(m, offset, size) {
      var i := offset - m.offset as nat;
      SliceOfSlice(memory, m.offset as nat, m.offset as nat + |m.data|, i, i + size);
    }
  }
}
