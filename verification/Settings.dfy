// collector/ApiCommandParser.cpp: settings that travel as one octet, from the number
// a client types to the reading that comes back from the device.

module Settings {
  import opened Bytes
  import opened Telegram
  import opened Readings

  /** Toward zero, as the source's conversions round. */
  function Truncate(x: real): int
  {
    if x >= 0.0 then x.Floor else -((-x).Floor)
  }

  /** A checked conversion to a 32-bit integer; out of range raises bad_numeric_cast. */
  function NumericCast(x: real): Option<int>
  {
    if -2147483649.0 < x < 2147483648.0 then Some(Truncate(x)) else None
  }

  /** handleSingleByteValue: the octet it sends, unless it answers with
      InvalidArgs. */
  function SingleByteValue(value: real, multiplier: int, min: int, max: int): Option<Byte>
  {
    match NumericCast(multiplier as real * value)
    case None => None
    case Some(n) =>
      if n < min * multiplier || n > max * multiplier then None else Some((n % 256) as Byte)
  }

  lemma TruncateNear(x: real)
    ensures -1.0 < Truncate(x) as real - x < 1.0
  {}

  lemma TruncateInt(n: int)
    ensures Truncate(n as real) == n
  {}

  /** Truncation lets in a little more than [min, max], on the side away from zero.
      Exactly these inputs are accepted. */
  lemma {:induction false} WhatIsAccepted(value: real, multiplier: int, min: int, max: int)
    requires -0x8000_0000 <= min * multiplier && max * multiplier < 0x8000_0000
    ensures var x := multiplier as real * value; var lo, hi := (min * multiplier) as real, (max * multiplier) as real;
      SingleByteValue(value, multiplier, min, max).Some? <==>
        && (if lo <= 0.0 then lo - 1.0 < x else lo <= x)
        && (if hi >= 0.0 then x < hi + 1.0 else x <= hi)
  {
    var x := multiplier as real * value;
    TruncateCompare(x, min * multiplier);
    TruncateCompare(x, max * multiplier);
  }

  lemma TruncateCompare(x: real, n: int)
    ensures n <= Truncate(x) <==> if n <= 0 then n as real - 1.0 < x else n as real <= x
    ensures Truncate(x) <= n <==> if n >= 0 then x < n as real + 1.0 else x <= n as real
  {}

  // ----- What comes back -----

  /** The octet for n, decoded. */
  lemma OneOctet(n: int, f: Format)
    requires f.divider > 0 && f.invalid == []
    ensures var r := Decoded([(n % 256) as Byte], f);
      && (f.signed && -128 <= n < 128 ==> r == Reading(Scaled(n, f.divider), n != -128))
      && (!f.signed && 0 <= n < 256 ==> r == Reading(Scaled(n, f.divider), n != 255))
  {
    OneDigit((n % 256) as Byte);
  }

  lemma OneDigit(b: Byte)
    ensures Places([b]) == b as nat && Pow256(1) == 256 && (AllOnes([b]) <==> b == 0xff)
  {
    assert Places([b][1..]) == 0 && Pow256(0) == 1;
    assert [b][0] == b;
  }

  function Distance(a: real, b: real): real
  {
    if a < b then b - a else a - b
  }

  /** A valid reading in the range, closer to what was typed than one step. */
  predicate Honest(r: Reading, value: real, multiplier: int, min: int, max: int)
    requires multiplier > 0
  {
    && r.valid && r.value.Fraction?
    && min as real <= r.value.x <= max as real
    && Distance(r.value.x, value) < 1.0 / multiplier as real
  }

  lemma DivideBack(n: int, multiplier: int, value: real, min: int, max: int)
    requires multiplier > 0 && min * multiplier <= n <= max * multiplier
    requires -1.0 < n as real - multiplier as real * value < 1.0
    ensures var q := n as real / multiplier as real;
      min as real <= q <= max as real && Distance(q, value) < 1.0 / multiplier as real
  {
    var m, q := multiplier as real, n as real / multiplier as real;
    assert q * m == n as real;
    assert (q - value) * m == n as real - m * value;
    Order(min as real, q, m);
    Order(q, max as real, m);
    var step := 1.0 / m;
    assert step * m == 1.0;
    StrictOrder(q - value, step, m);
    StrictOrder(value - q, step, m);
  }

  lemma Order(a: real, b: real, m: real)
    requires m > 0.0 && a * m <= b * m
    ensures a <= b
  {}

  lemma StrictOrder(a: real, b: real, m: real)
    requires m > 0.0 && a * m < b * m
    ensures a < b
  {}

  ghost predicate AlwaysHonest(multiplier: int, min: int, max: int, f: Format)
    requires multiplier > 0 && f.invalid == []
  {
    forall value: real :: HonestFor(value, multiplier, min, max, f)
  }

  predicate HonestFor(value: real, multiplier: int, min: int, max: int, f: Format)
    requires multiplier > 0 && f.invalid == []
  {
    var sent := SingleByteValue(value, multiplier, min, max);
    sent.Some? ==> Honest(Decoded([sent.value], f), value, multiplier, min, max)
  }

  /** The number behind an octet that is sent. */
  lemma SentNumber(value: real, multiplier: int, min: int, max: int) returns (n: int)
    requires SingleByteValue(value, multiplier, min, max).Some?
    ensures SingleByteValue(value, multiplier, min, max).value == (n % 256) as Byte
    ensures min * multiplier <= n <= max * multiplier
    ensures -1.0 < n as real - multiplier as real * value < 1.0
  {
    hide Truncate;
    var x := multiplier as real * value;
    n := Truncate(x);
    TruncateNear(x);
  }

  lemma AcceptedIsHonest(value: real, multiplier: int, min: int, max: int, f: Format)
    requires multiplier > 0 && f.divider == multiplier && f.invalid == []
    requires if f.signed then -128 < min * multiplier && max * multiplier < 128 else 0 <= min * multiplier && max * multiplier < 255
    ensures HonestFor(value, multiplier, min, max, f)
  {
    hide *;
    if SingleByteValue(value, multiplier, min, max).Some? {
      var n := SentNumber(value, multiplier, min, max);
      AcceptedReading(n, value, multiplier, min, max, f);
    }
    AcceptedOnly(value, multiplier, min, max, f);
  }

  lemma AcceptedOnly(value: real, multiplier: int, min: int, max: int, f: Format)
    requires multiplier > 0 && f.invalid == []
    requires var sent := SingleByteValue(value, multiplier, min, max);
      sent.Some? ==> Honest(Decoded([sent.value], f), value, multiplier, min, max)
    ensures HonestFor(value, multiplier, min, max, f)
  {
    hide SingleByteValue, Honest, Decoded;
  }

  lemma AcceptedReading(n: int, value: real, multiplier: int, min: int, max: int, f: Format)
    requires multiplier > 0 && f.divider == multiplier && f.invalid == []
    requires if f.signed then -128 < min * multiplier && max * multiplier < 128 else 0 <= min * multiplier && max * multiplier < 255
    requires min * multiplier <= n <= max * multiplier
    requires -1.0 < n as real - multiplier as real * value < 1.0
    ensures Honest(Decoded([(n % 256) as Byte], f), value, multiplier, min, max)
  {
    hide Decoded, Honest, Scaled, Distance;
    OneOctet(n, f);
    DivideBack(n, multiplier, value, min, max);
    ReadingIsHonest(n, value, multiplier, min, max);
  }

  lemma ReadingIsHonest(n: int, value: real, multiplier: int, min: int, max: int)
    requires multiplier > 0
    requires var q := n as real / multiplier as real;
      min as real <= q <= max as real && Distance(q, value) < 1.0 / multiplier as real
    ensures Honest(Reading(Scaled(n, multiplier), true), value, multiplier, min, max)
  {}

  /** Two different multiples of 1/multiplier are at least that far apart. */
  lemma StepsApart(n: int, value: int, multiplier: int)
    requires multiplier > 0 && n != value * multiplier
    ensures Distance(n as real / multiplier as real, value as real) >= 1.0 / multiplier as real
  {
    var m, k := multiplier as real, value * multiplier;
    var q, step := n as real / m, 1.0 / m;
    assert q * m == n as real && step * m == 1.0 && value as real * m == k as real;
    if n > k {
      FarOrder(step, q, value as real, m);
    } else {
      FarOrder(step, value as real, q, m);
    }
  }

  lemma FarOrder(step: real, a: real, b: real, m: real)
    requires m > 0.0 && step > 0.0 && step * m <= a * m - b * m
    ensures Distance(a, b) >= step && Distance(b, a) >= step
  {
    assert a * m - b * m == (a - b) * m;
    Order(step, a - b, m);
  }

  /** An end of the range that does not fit the octet is accepted and comes back as
      something else. */
  lemma EndIsDishonest(value: int, multiplier: int, min: int, max: int, f: Format)
    requires multiplier > 0 && f.divider == multiplier && f.signed && f.invalid == []
    requires min <= value <= max && (value * multiplier <= -128 || value * multiplier >= 128)
    requires -0x8000_0000 <= min * multiplier && max * multiplier < 0x8000_0000
    ensures !HonestFor(value as real, multiplier, min, max, f)
  {
    hide *;
    EndIsSent(value, multiplier, min, max);
    WrappedIsDishonest(value * multiplier, value, multiplier, min, max, f);
    DishonestOnly(value as real, multiplier, min, max, f);
  }

  lemma DishonestOnly(value: real, multiplier: int, min: int, max: int, f: Format)
    requires multiplier > 0 && f.invalid == []
    requires var sent := SingleByteValue(value, multiplier, min, max);
      sent.Some? && !Honest(Decoded([sent.value], f), value, multiplier, min, max)
    ensures !HonestFor(value, multiplier, min, max, f)
  {
    hide SingleByteValue, Honest, Decoded;
  }

  lemma SameOctet(n: int) returns (k: int)
    ensures -128 <= k < 128 && k % 256 == n % 256
  {
    k := (n + 128) % 256 - 128;
  }

  lemma WrappedIsDishonest(n: int, value: int, multiplier: int, min: int, max: int, f: Format)
    requires multiplier > 0 && f.divider == multiplier && f.signed && f.invalid == []
    requires n == value * multiplier && (n <= -128 || n >= 128)
    ensures !Honest(Decoded([(n % 256) as Byte], f), value as real, multiplier, min, max)
  {
    hide Decoded, Honest, Scaled, Distance;
    var k := SameOctet(n);
    OneOctet(k, f);
    if k == n {
      InvalidIsDishonest(Decoded([(n % 256) as Byte], f), value as real, multiplier, min, max);
    } else {
      StepsApart(k, value, multiplier);
      FarIsDishonest(k, k != -128, value as real, multiplier, min, max);
    }
  }

  lemma EndIsSent(value: int, multiplier: int, min: int, max: int)
    requires multiplier > 0 && min <= value <= max
    requires -0x8000_0000 <= min * multiplier && max * multiplier < 0x8000_0000
    ensures SingleByteValue(value as real, multiplier, min, max) == Some((value * multiplier % 256) as Byte)
  {
    hide Truncate;
    var n := value * multiplier;
    RealProduct(value, multiplier);
    TruncateInt(n);
    Multiply(min, value, multiplier);
    Multiply(value, max, multiplier);
  }

  lemma RealProduct(a: int, b: int)
    ensures b as real * a as real == (a * b) as real
  {}

  lemma Multiply(a: int, b: int, m: int)
    requires a <= b && m > 0
    ensures a * m <= b * m
  {}

  lemma InvalidIsDishonest(r: Reading, value: real, multiplier: int, min: int, max: int)
    requires multiplier > 0 && !r.valid
    ensures !Honest(r, value, multiplier, min, max)
  {}

  lemma FarIsDishonest(k: int, valid: bool, value: real, multiplier: int, min: int, max: int)
    requires multiplier > 0 && Distance(k as real / multiplier as real, value) >= 1.0 / multiplier as real
    ensures !Honest(Reading(Scaled(k, multiplier), valid), value, multiplier, min, max)
  {}

  /** Every accepted input of a setting comes back as a valid reading in its range,
      less than one step away, if and only if its range fits one signed octet
      without the lowest. */
  lemma HonestIffRangeFits(multiplier: int, min: int, max: int, f: Format)
    requires multiplier > 0 && min <= max && f.divider == multiplier && f.signed && f.invalid == []
    requires -0x8000_0000 <= min * multiplier && max * multiplier < 0x8000_0000
    ensures AlwaysHonest(multiplier, min, max, f) <==> -127 <= min * multiplier && max * multiplier <= 127
  {
    hide HonestFor;
    if -127 <= min * multiplier && max * multiplier <= 127 {
      forall value: real
        ensures HonestFor(value, multiplier, min, max, f)
      {
        AcceptedIsHonest(value, multiplier, min, max, f);
      }
    } else if min * multiplier < -127 {
      EndIsDishonest(min, multiplier, min, max, f);
      assert !HonestFor(min as real, multiplier, min, max, f);
    } else {
      EndIsDishonest(max, multiplier, min, max, f);
      assert !HonestFor(max as real, multiplier, min, max, f);
    }
  }

  // ----- The settings of the command language -----

  /** A command, the record its setting lives in and where in it, the range, and the
      format in which the collector reads it back. */
  datatype Setting = Setting(
    command: string, dest: Byte, typ: Word, offset: nat, multiplier: int, min: int, max: int, shown: Format)

  const UNITS: Format := Format(1, true, [])
  const HALVES: Format := Format(2, true, [])

  const SETTINGS: seq<Setting> := [
    Setting("mintemperature", 0x90, 0x0140, 10, 1, -30, 0, UNITS),
    Setting("summerwinterthreshold", 0x90, 0x01af, 6, 1, 10, 30, UNITS),
    Setting("roomtemperatureoffset", 0x90, 0x01af, 2, 1, -5, 5, UNITS),
    Setting("designtemperature", 0x90, 0x01af, 5, 1, 30, 90, UNITS),
    Setting("manualtemp", 0x90, 0x01b9, 22, 2, 5, 30, HALVES),
    Setting("daytemperature", 0x90, 0x01b9, 2, 2, 5, 30, HALVES),
    Setting("nighttemperature", 0x90, 0x01b9, 4, 2, 5, 30, HALVES),
    Setting("boosttemp", 0x90, 0x01b9, 25, 2, 5, 30, HALVES),
    Setting("boosthours", 0x90, 0x01b9, 24, 1, 1, 8, UNITS),
    Setting("comforttemp", 0x88, 0x00ea, 6, 1, 30, 80, UNITS),
    Setting("reducedtemp", 0x88, 0x00ea, 18, 1, 30, 80, UNITS),
    Setting("extratemp", 0x88, 0x00ea, 16, 1, 30, 80, UNITS),
    Setting("extra15mins", 0x90, 0x01f5, 10, 1, 0, 16, UNITS),
    Setting("zirksperhour", 0x88, 0x00ea, 11, 1, 0, 6, UNITS)]

  /** A one-octet number the parsers find in a device's records. */
  datatype Field = Field(value: string, source: Byte, typ: Word, offset: nat, format: Format)

  const FIELDS: seq<Field> := [
    Field("MinTemp", 0x90, 0x0140, 10, Format(1, true, [])),
    Field("SchwelleSommerWinter", 0x90, 0x01af, 6, Format(1, true, [])),
    Field("RaumOffset", 0x90, 0x01af, 2, Format(1, true, [])),
    Field("AuslegungsTemp", 0x90, 0x01af, 5, Format(1, true, [])),
    Field("ManualTemp", 0x90, 0x01b9, 22, Format(2, true, [])),
    Field("TagTemp", 0x90, 0x01b9, 2, Format(2, true, [])),
    Field("NachtTemp", 0x90, 0x01b9, 4, Format(2, true, [])),
    Field("BoostTemp", 0x90, 0x01b9, 25, Format(2, true, [])),
    Field("BoostHours", 0x90, 0x01b9, 24, Format(1, true, [])),
    Field("KomfortTemp", 0x88, 0x00ea, 6, Format(1, true, [])),
    Field("ReduzierteTemp", 0x88, 0x00ea, 18, Format(1, true, [])),
    Field("ExtraTemp", 0x88, 0x00ea, 16, Format(1, true, [])),
    Field("Extra15Mins", 0x90, 0x01f5, 10, Format(1, true, [])),
    Field("ZirkProStunde", 0x88, 0x00ea, 11, Format(1, true, [])),
    Field("TemporaryTemp", 0x90, 0x01b9, 8, Format(2, false, TEMPERATURE_MARKS))]

  predicate Shows(f: Field, s: Setting)
  {
    f.source == s.dest && f.typ == s.typ && f.offset == s.offset
  }

  /** What a setting writes is what one field shows, the k-th of the table, in the same
      format; and no other field shows it. */
  lemma SettingIsField(k: nat)
    requires k < |SETTINGS|
    ensures Shows(FIELDS[k], SETTINGS[k]) && FIELDS[k].format == SETTINGS[k].shown
    ensures forall j :: 0 <= j < |FIELDS| && j != k ==> !Shows(FIELDS[j], SETTINGS[k])
  {}

  lemma TemporaryIsField()
    ensures Shows(FIELDS[14], TEMPORARY) && FIELDS[14].format == TEMPORARY.shown
    ensures forall j :: 0 <= j < 14 ==> !Shows(FIELDS[j], TEMPORARY)
  {}

  predicate Suits(s: Setting)
  {
    && s.multiplier > 0 && s.shown.divider == s.multiplier && s.shown.invalid == [] && s.shown.signed
    && -128 < s.min * s.multiplier && s.max * s.multiplier < 128
  }

  lemma SettingsSuit(k: nat)
    requires k < |SETTINGS|
    ensures Suits(SETTINGS[k])
  {}

  function Sent(s: Setting, value: real): Option<Byte>
  {
    SingleByteValue(value, s.multiplier, s.min, s.max)
  }

  /** From the client's number to the device and back: any telegram that later shows
      the octet reports an honest reading of what was typed. */
  lemma SettingReadsBack(k: nat, value: real, memory: seq<Byte>, m: Message)
    requires k < |SETTINGS| && SETTINGS[k].offset < |memory|
    requires Sent(SETTINGS[k], value).Some? && CanAccess(m, SETTINGS[k].offset, 1)
    requires Truthful(m, memory[SETTINGS[k].offset := Sent(SETTINGS[k], value).value])
    ensures Suits(SETTINGS[k])
    ensures var s := SETTINGS[k]; var shown := NumericIn(m, s.offset, 1, s.shown);
      shown.Some? && Honest(shown.value, value, s.multiplier, s.min, s.max)
  {
    SettingsSuit(k);
    SuitedReadsBack(SETTINGS[k], value, memory, m);
  }

  lemma SuitedReadsBack(s: Setting, value: real, memory: seq<Byte>, m: Message)
    requires Suits(s) && s.offset < |memory| && Sent(s, value).Some? && CanAccess(m, s.offset, 1)
    requires Truthful(m, memory[s.offset := Sent(s, value).value])
    ensures var shown := NumericIn(m, s.offset, 1, s.shown);
      shown.Some? && Honest(shown.value, value, s.multiplier, s.min, s.max)
  {
    hide Decoded, Honest, SingleByteValue;
    OctetShown(m, memory, s.offset, Sent(s, value).value, s.shown);
    AcceptedIsHonest(value, s.multiplier, s.min, s.max, s.shown);
  }

  lemma OctetShown(m: Message, memory: seq<Byte>, offset: nat, sent: Byte, f: Format)
    requires offset < |memory| && Truthful(m, memory[offset := sent]) && CanAccess(m, offset, 1)
    requires forall k :: 0 <= k < |f.invalid| ==> 1 <= |f.invalid[k]|
    ensures NumericIn(m, offset, 1, f) == Some(Decoded([sent], f))
  {
    hide Decoded;
    var after := memory[offset := sent];
    WindowReportsMemory(m, after, offset, 1, f, 0);
    assert after[offset..offset + 1] == [sent];
  }

  /** The temporary temperature is read back unsigned, and anything that is not
      accepted switches it off. */
  const TEMPORARY: Setting := Setting("temporarytemp", 0x90, 0x01b9, 8, 2, 5, 30, Format(2, false, TEMPERATURE_MARKS))

  function TemporaryTemp(value: real): Byte
  {
    match SingleByteValue(value, TEMPORARY.multiplier, TEMPORARY.min, TEMPORARY.max)
    case Some(b) => b
    case None => 0xff
  }

  /** Read back, it is missing if and only if it was switched off. */
  lemma TemporaryTempReadsBack(value: real, memory: seq<Byte>, m: Message)
    requires TEMPORARY.offset < |memory| && Truthful(m, memory[TEMPORARY.offset := TemporaryTemp(value)])
    requires CanAccess(m, TEMPORARY.offset, 1)
    ensures var s := TEMPORARY; var shown := NumericIn(m, s.offset, 1, s.shown);
      && shown.Some?
      && (SingleByteValue(value, s.multiplier, s.min, s.max).Some? ==> Honest(shown.value, value, s.multiplier, s.min, s.max))
      && (shown.value.valid <==> SingleByteValue(value, s.multiplier, s.min, s.max).Some?)
  {
    hide Decoded, SingleByteValue, Honest;
    var s := TEMPORARY;
    var sent := TemporaryTemp(value);
    OctetShown(m, memory, s.offset, sent, s.shown);
    if SingleByteValue(value, s.multiplier, s.min, s.max).Some? {
      var n := SentNumber(value, s.multiplier, s.min, s.max);
      UnmarkedOctet(n);
      AcceptedReading(n, value, s.multiplier, s.min, s.max, Format(2, false, []));
      HonestIsValid(Decoded([sent], s.shown), value, s.multiplier, s.min, s.max);
    } else {
      OffIsMissing();
    }
  }

  lemma HonestIsValid(r: Reading, value: real, multiplier: int, min: int, max: int)
    requires multiplier > 0 && Honest(r, value, multiplier, min, max)
    ensures r.valid
  {}

  lemma UnmarkedOctet(n: int)
    requires 10 <= n <= 60
    ensures Decoded([(n % 256) as Byte], TEMPORARY.shown) == Decoded([(n % 256) as Byte], Format(2, false, []))
  {
    assert TEMPERATURE_MARKS[0][..1][0] == 0x7d && TEMPERATURE_MARKS[1][..1][0] == 0x83;
  }

  lemma OffIsMissing()
    ensures !Decoded([0xff], TEMPORARY.shown).valid
  {
    OneDigit(0xff);
  }
}
