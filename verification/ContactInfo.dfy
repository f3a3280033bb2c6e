// collector/ApiCommandParser.cpp: the installer's contact lines (type 0x0137),
// three lines of 20 UTF-16 units, big-endian as in UTF-16BE (section 3.1 of
// RFC 2781).

module ContactInfo {
  import opened Bytes
  import opened Telegram
  import opened Session
  import Fetch

  const CONTACT: Word := 0x0137
  const UNITS: nat := 20

  /** A line's text once it has been cropped or padded. */
  predicate Text(units: seq<Word>)
  {
    |units| == UNITS
  }

  /** Ten units as the 20 octets of one telegram. */
  function Packed(units: seq<Word>): (octets: seq<Byte>)
    ensures |octets| == 2 * |units|
  {
    if units == [] then []
    else Packed(units[..|units| - 1]) + [(units[|units| - 1] / 256) as Byte, (units[|units| - 1] % 256) as Byte]
  }

  function Half(units: seq<Word>, chunk: nat): seq<Word>
    requires Text(units) && chunk < 2
  {
    units[10 * chunk..10 * chunk + 10]
  }

  /** The telegram for half of a line. */
  function WriteOf(line: nat, units: seq<Word>, chunk: nat): Message
    requires 1 <= line <= 3 && Text(units) && chunk < 2
  {
    Build(ADDRESS_UI800, CONTACT, (chunk * 20 + (line - 1) * 40) as Byte, Packed(Half(units, chunk)), false)
  }

  /** What the printer makes of a 40-octet line. */
  function Unpacked(octets: seq<Byte>): seq<Word>
    requires |octets| == 40
  {
    seq(UNITS, i requires 0 <= i < UNITS => octets[2 * i] as Word * 256 + octets[2 * i + 1] as Word)
  }

  // ----- The device -----

  /** The device stores what a telegram carries at the telegram's offset, if it is a
      write to the device, for this record, that fits. */
  function Store(mem: seq<Byte>, octets: seq<Byte>): (r: seq<Byte>)
    requires Decodable(octets)
    ensures |r| == |mem|
  {
    var m := Decode(octets);
    if m.dest == 0x10 && m.Type() == 0x0137 && m.offset as nat + |m.data| <= |mem|
    then mem[..m.offset] + m.data + mem[m.offset as nat + |m.data|..]
    else mem
  }

  /** The octets of the telegram for half of a line. */
  function OctetsOf(line: nat, units: seq<Word>, chunk: nat): (r: seq<Byte>)
    requires 1 <= line <= 3 && Text(units) && chunk < 2
    ensures Decodable(r)
  {
    var data := Packed(Half(units, chunk));
    CodecRoundTrip(ADDRESS_UI800, CONTACT, (chunk * 20 + (line - 1) * 40) as Byte, data, false);
    Octets(WriteOf(line, units, chunk))
  }

  lemma HalfStored(mem: seq<Byte>, line: nat, units: seq<Word>, chunk: nat)
    requires |mem| >= 120 && 1 <= line <= 3 && Text(units) && chunk < 2
    ensures var at := chunk * 20 + (line - 1) * 40;
      Store(mem, OctetsOf(line, units, chunk)) == mem[..at] + Packed(Half(units, chunk)) + mem[at + 20..]
  {
    hide Packed, Octets, Decode, Decodable;
    CodecRoundTrip(ADDRESS_UI800, CONTACT, (chunk * 20 + (line - 1) * 40) as Byte, Packed(Half(units, chunk)), false);
  }

  datatype Write = Write(line: nat, units: seq<Word>)

  predicate WellFormed(w: Write)
  {
    1 <= w.line <= 3 && Text(w.units)
  }

  function StoreWrite(mem: seq<Byte>, w: Write): (r: seq<Byte>)
    requires |mem| >= 120 && WellFormed(w)
    ensures |r| == |mem|
  {
    Store(Store(mem, OctetsOf(w.line, w.units, 0)), OctetsOf(w.line, w.units, 1))
  }

  function StoreAll(mem: seq<Byte>, ws: seq<Write>): (r: seq<Byte>)
    requires |mem| >= 120 && forall i :: 0 <= i < |ws| ==> WellFormed(ws[i])
    ensures |r| == |mem|
  {
    if ws == [] then mem else StoreWrite(StoreAll(mem, ws[..|ws| - 1]), ws[|ws| - 1])
  }

  /** The text of a line in memory. */
  function LineText(mem: seq<Byte>, line: nat): seq<Word>
    requires |mem| >= 120 && 1 <= line <= 3
  {
    Unpacked(mem[40 * (line - 1)..40 * line])
  }

  /** What a line should read after some writes. */
  function Expected(mem: seq<Byte>, ws: seq<Write>, line: nat): seq<Word>
    requires |mem| >= 120 && 1 <= line <= 3
  {
    if ws == [] then LineText(mem, line)
    else if ws[|ws| - 1].line == line then ws[|ws| - 1].units
    else Expected(mem, ws[..|ws| - 1], line)
  }

  // ----- Packing and unpacking -----

  lemma {:induction false} PackedAt(units: seq<Word>, i: nat)
    requires i < |units|
    ensures Packed(units)[2 * i] == (units[i] / 256) as Byte
    ensures Packed(units)[2 * i + 1] == (units[i] % 256) as Byte
    decreases |units|
  {
    if i < |units| - 1 {
      PackedAt(units[..|units| - 1], i);
    }
  }

  lemma NothingPacked()
    ensures Packed([]) == []
  {}

  lemma PackedSnoc(units: seq<Word>, i: nat)
    requires i < |units|
    ensures Packed(units[..i + 1]) == Packed(units[..i]) + [(units[i] / 256) as Byte, (units[i] % 256) as Byte]
  {
    assert units[..i + 1][..i] == units[..i];
  }

  lemma Rejoin(w: Word)
    ensures (w / 256) as Byte as Word * 256 + (w % 256) as Byte as Word == w
  {}

  lemma UnpackedPacked(units: seq<Word>)
    requires Text(units)
    ensures Unpacked(Packed(Half(units, 0)) + Packed(Half(units, 1))) == units
  {
    hide Packed;
    var octets := Packed(Half(units, 0)) + Packed(Half(units, 1));
    forall i | 0 <= i < UNITS
      ensures Unpacked(octets)[i] == units[i]
    {
      PackedAt(Half(units, if i < 10 then 0 else 1), if i < 10 then i else i - 10);
      Rejoin(units[i]);
    }
  }

  lemma StoredLine(mem: seq<Byte>, w: Write)
    requires |mem| >= 120 && WellFormed(w)
    ensures StoreWrite(mem, w) ==
      mem[..40 * (w.line - 1)] + (Packed(Half(w.units, 0)) + Packed(Half(w.units, 1))) + mem[40 * w.line..]
  {
    hide Packed, Store, OctetsOf;
    HalfStored(mem, w.line, w.units, 0);
    HalfStored(Store(mem, OctetsOf(w.line, w.units, 0)), w.line, w.units, 1);
  }

  lemma WriteReadsBack(mem: seq<Byte>, w: Write, line: nat)
    requires |mem| >= 120 && WellFormed(w) && 1 <= line <= 3
    ensures LineText(StoreWrite(mem, w), line) == if line == w.line then w.units else LineText(mem, line)
  {
    hide Packed, Unpacked, StoreWrite;
    var text := Packed(Half(w.units, 0)) + Packed(Half(w.units, 1));
    var r := StoreWrite(mem, w);
    StoredLine(mem, w);
    if line == w.line {
      assert r[40 * (line - 1)..40 * line] == text;
      UnpackedPacked(w.units);
    } else {
      assert r[40 * (line - 1)..40 * line] == mem[40 * (line - 1)..40 * line];
    }
  }

  /** After any series of writes each line reads as it was last written, and a
      line never written reads as before. */
  lemma {:induction false} LastWriteWins(mem: seq<Byte>, ws: seq<Write>, line: nat)
    requires |mem| >= 120 && 1 <= line <= 3
    requires forall i :: 0 <= i < |ws| ==> WellFormed(ws[i])
    ensures LineText(StoreAll(mem, ws), line) == Expected(mem, ws, line)
    decreases |ws|
  {
    hide StoreWrite, LineText;
    if ws != [] {
      LastWriteWins(mem, ws[..|ws| - 1], line);
      WriteReadsBack(StoreAll(mem, ws[..|ws| - 1]), ws[|ws| - 1], line);
    }
  }

  // ----- Writing, then reading back through a session -----

  /** The device's memory for the contact lines, as a session sees it. */
  function AsMemory(mem: seq<Byte>): Memory
  {
    (dest: Byte, typ: Word, i: nat) => if i < |mem| then mem[i] else 0
  }

  lemma ThreeLines(octets: seq<Byte>)
    requires |octets| == 120
    ensures ContactLines(octets) == [ContactLine(octets[..40]), ContactLine(octets[40..80]), ContactLine(octets[80..120])]
  {
    assert octets[40..][..40] == octets[40..80] && octets[40..][40..] == octets[80..] == octets[80..120];
    assert ContactLines(octets[80..]) == [ContactLine(octets[80..120])];
    assert ContactLines(octets[40..]) == [ContactLine(octets[40..80])] + ContactLines(octets[80..]);
    assert ContactLines(octets) == [ContactLine(octets[..40])] + ContactLines(octets[40..]);
  }

  /** getcontactinfo after any series of setcontactinfo, the device answering in
      pieces of any size: three lines are printed, and line n decodes to what was
      last written to it. */
  lemma ContactRoundTrip(s: Session, mem: seq<Byte>, ws: seq<Write>, sizes: seq<nat>)
    requires |mem| >= 120
    requires forall i :: 0 <= i < |ws| ==> WellFormed(ws[i])
    requires Fetch.AllPositive(sizes) && Fetch.Sum(sizes) == 120
    ensures var t := StartRequest(s, ADDRESS_UI800, CONTACT, 0, 120, true, false);
      var o := Fetch.Serve(t, AsMemory(StoreAll(mem, ws)), sizes);
      && o.result.Success? && |o.lines| == 3
      && forall n :: 1 <= n <= 3 ==>
           o.lines[n - 1].ContactLine? && |o.lines[n - 1].octets| == 40
           && Unpacked(o.lines[n - 1].octets) == Expected(mem, ws, n)
  {
    hide StoreAll, ContactLines, Unpacked, Expected, Fetch.Serve, Fetch.Sum, Fetch.AllPositive, Fetch.Slice;
    var device := AsMemory(StoreAll(mem, ws));
    var t := StartRequest(s, ADDRESS_UI800, CONTACT, 0, 120, true, false);
    Fetch.StartWaits(s, ADDRESS_UI800, CONTACT, 0, 120, false, device);
    Fetch.Completes(t, device, sizes);
    LastSize(sizes);
    var octets := StoreAll(mem, ws)[..120];
    FirstOctets(StoreAll(mem, ws), 120);
    ThreeLines(octets);
    assert octets[..40] == StoreAll(mem, ws)[0..40] && octets[40..80] == StoreAll(mem, ws)[40..80]
        && octets[80..120] == StoreAll(mem, ws)[80..120];
    forall n | 1 <= n <= 3
      ensures LineText(StoreAll(mem, ws), n) == Expected(mem, ws, n)
    {
      LastWriteWins(mem, ws, n);
    }
  }

  lemma LastSize(sizes: seq<nat>)
    requires sizes != [] && Fetch.AllPositive(sizes)
    ensures sizes[|sizes| - 1] > 0
  {}

  lemma FirstOctets(mem: seq<Byte>, n: nat)
    requires n <= |mem|
    ensures Fetch.Slice(AsMemory(mem), ADDRESS_UI800, CONTACT, 0, n) == mem[..n]
  {}
}
