// collector/ApiCommandParser.cpp: dates and schedule entries, from the text of a
// command to the fields of a record and back.

module Calendar {
  import opened Bytes

  // ----- Numbers in text -----

  const UINT_MAX: nat := 0xffff_ffff

  predicate IsDigit(c: char)
  {
    '0' <= c <= '9'
  }

  predicate AllDigits(s: string)
  {
    forall i :: 0 <= i < |s| ==> IsDigit(s[i])
  }

  function ValueOf(s: string): nat
    requires AllDigits(s)
  {
    if s == "" then 0 else 10 * ValueOf(s[..|s| - 1]) + (s[|s| - 1] as int - '0' as int)
  }

  /** boost::lexical_cast<unsigned int>: a sign may come first, and a minus wraps. */
  function LexicalUnsigned(s: string): (r: Option<nat>)
    ensures r.Some? ==> r.value <= UINT_MAX
  {
    if s == "" then None
    else
      var digits := if s[0] == '-' || s[0] == '+' then s[1..] else s;
      if digits == "" || !AllDigits(digits) || ValueOf(digits) > UINT_MAX then None
      else if s[0] == '-' then Some((UINT_MAX + 1 - ValueOf(digits)) % (UINT_MAX + 1))
      else Some(ValueOf(digits))
  }

  function Digit(d: nat): (c: char)
    requires d < 10
    ensures IsDigit(c) && c as int - '0' as int == d
  {
    (d + '0' as int) as char
  }

  function Decimal(n: nat): (s: string)
    ensures AllDigits(s) && s != ""
  {
    if n < 10 then [Digit(n)] else Decimal(n / 10) + [Digit(n % 10)]
  }

  function Zeros(n: nat): (s: string)
    ensures |s| == n && AllDigits(s)
  {
    if n == 0 then "" else "0" + Zeros(n - 1)
  }

  /** The %0<width>d of a format. */
  function Padded(n: nat, width: nat): (s: string)
    ensures AllDigits(s) && s != ""
  {
    var d := Decimal(n);
    if |d| < width then Zeros(width - |d|) + d else d
  }

  lemma {:induction false} ValueOfDecimal(n: nat)
    ensures ValueOf(Decimal(n)) == n
  {
    if n >= 10 {
      ValueOfDecimal(n / 10);
      ValueSnoc(Decimal(n / 10), Digit(n % 10));
    } else {
      ValueSnoc("", Digit(n));
      assert "" + [Digit(n)] == Decimal(n);
    }
  }

  lemma ValueSnoc(s: string, c: char)
    requires AllDigits(s) && IsDigit(c)
    ensures AllDigits(s + [c]) && ValueOf(s + [c]) == 10 * ValueOf(s) + (c as int - '0' as int)
  {
    assert (s + [c])[..|s + [c]| - 1] == s;
  }

  lemma {:induction false} LeadingZeros(n: nat, s: string)
    requires AllDigits(s)
    ensures AllDigits(Zeros(n) + s) && ValueOf(Zeros(n) + s) == ValueOf(s)
    decreases n, |s|
  {
    if s != "" {
      var init, last := s[..|s| - 1], s[|s| - 1];
      LeadingZeros(n, init);
      assert Zeros(n) + s == (Zeros(n) + init) + [last];
      ValueSnoc(Zeros(n) + init, last);
    } else if n > 0 {
      LeadingZeros(n - 1, "");
      ZerosSnoc(n - 1);
      assert Zeros(n) + "" == (Zeros(n - 1) + "") + "0";
      ValueSnoc(Zeros(n - 1) + "", '0');
    }
  }

  lemma {:induction false} ZerosSnoc(n: nat)
    ensures Zeros(n + 1) == Zeros(n) + "0"
  {
    if n > 0 {
      ZerosSnoc(n - 1);
    }
  }

  /** What a format prints, a cast reads. */
  lemma PaddedReadsBack(n: nat, width: nat)
    requires n <= UINT_MAX
    ensures ValueOf(Padded(n, width)) == n && LexicalUnsigned(Padded(n, width)) == Some(n)
  {
    var s, d := Padded(n, width), Decimal(n);
    ValueOfDecimal(n);
    if |d| < width {
      LeadingZeros(width - |d|, d);
    }
    assert IsDigit(s[0]);
  }

  /** std::string::find. */
  function Find(s: string, c: char, from: nat): (r: Option<nat>)
    requires from <= |s|
    ensures r.None? ==> c !in s[from..]
    ensures r.Some? ==> from <= r.value < |s| && s[r.value] == c && c !in s[from..r.value]
    decreases |s| - from
  {
    if from == |s| then None
    else if s[from] == c then Some(from)
    else
      assert s[from..] == [s[from]] + s[from + 1..];
      var r := Find(s, c, from + 1);
      assert r.Some? ==> s[from..r.value] == [s[from]] + s[from + 1..r.value];
      r
  }

  /** The find of a text in which the character comes first after a part without
      it. */
  lemma FindsFirst(before: string, part: string, c: char, after: string)
    requires c !in part
    ensures Find(before + part + [c] + after, c, |before|) == Some(|before| + |part|)
  {
    var s, k := before + part + [c] + after, |before| + |part|;
    assert s[k] == c && s[|before|..][|part|] == c;
    assert forall i :: |before| <= i < k ==> s[i] == part[i - |before|];
    assert forall i :: k < i <= |s| ==> s[|before|..i][|part|] == c;
  }

  // ----- Dates -----

  /** A HolidayEntry; the year counts from 2000. */
  datatype Date = Date(year: nat, month: nat, day: nat)
  {
    predicate Valid()
    {
      year <= 100 && 1 <= month <= 12 && 1 <= day <= 31
    }
  }

  /** parseHolidayEntry. */
  function ParseDate(s: string): (r: Option<Date>)
    ensures r.Some? ==> r.value.Valid()
  {
    match Find(s, '-', 0)
    case None => None
    case Some(pos) =>
      match Find(s, '-', pos + 1)
      case None => None
      case Some(pos2) =>
        var year, month, day :=
          LexicalUnsigned(s[..pos]), LexicalUnsigned(s[pos + 1..pos2]), LexicalUnsigned(s[pos2 + 1..]);
        if year.None? || month.None? || day.None? then None
        else if year.value < 2000 || year.value > 2100 || month.value < 1 || month.value > 12 || day.value < 1 || day.value > 31 then None
        else Some(Date(year.value - 2000, month.value, day.value))
  }

  predicate ReadsAs(year: string, month: string, day: string, d: Date)
  {
    && '-' !in year && '-' !in month && d.Valid()
    && LexicalUnsigned(year) == Some(2000 + d.year)
    && LexicalUnsigned(month) == Some(d.month)
    && LexicalUnsigned(day) == Some(d.day)
  }

  function Dashed(year: string, month: string, day: string): string
  {
    year + "-" + month + "-" + day
  }

  lemma DashedParts(year: string, month: string, day: string)
    requires '-' !in year && '-' !in month
    ensures var s := Dashed(year, month, day); var pos, pos2 := |year|, |year| + 1 + |month|;
      && Find(s, '-', 0) == Some(pos) && Find(s, '-', pos + 1) == Some(pos2)
      && s[..pos] == year && s[pos + 1..pos2] == month && s[pos2 + 1..] == day
  {
    var s := Dashed(year, month, day);
    assert s == "" + year + ['-'] + (month + "-" + day);
    FindsFirst("", year, '-', month + "-" + day);
    assert s == (year + "-") + month + ['-'] + day;
    FindsFirst(year + "-", month, '-', day);
  }

  lemma ReadsDashed(y: string, m: string, n: string, d: Date)
    requires '-' !in y && '-' !in m
    ensures ParseDate(Dashed(y, m, n)) == Some(d) <==> ReadsAs(y, m, n, d)
  {
    hide LexicalUnsigned, Find, Dashed;
    DashedParts(y, m, n);
  }

  lemma SplitAtDashes(s: string) returns (y: string, m: string, n: string)
    requires ParseDate(s).Some?
    ensures s == Dashed(y, m, n) && '-' !in y && '-' !in m
  {
    hide LexicalUnsigned;
    var pos := Find(s, '-', 0).value;
    var pos2 := Find(s, '-', pos + 1).value;
    y, m, n := s[..pos], s[pos + 1..pos2], s[pos2 + 1..];
    assert s[0..pos] == y;
  }

  /** Exactly these strings are dates: three numbers with dashes between them, a
      year from 2000 to 2100, a month and a day in range. */
  lemma DatesAccepted(s: string, d: Date)
    ensures ParseDate(s) == Some(d) <==> exists y, m, n :: s == Dashed(y, m, n) && ReadsAs(y, m, n, d)
  {
    hide ParseDate, Dashed;
    if ParseDate(s) == Some(d) {
      var y, m, n := SplitAtDashes(s);
      ReadsDashed(y, m, n, d);
    }
    forall y, m, n | s == Dashed(y, m, n) && ReadsAs(y, m, n, d)
      ensures ParseDate(s) == Some(d)
    {
      ReadsDashed(y, m, n, d);
    }
  }

  /** buildRecordResponse of a date, after the label. */
  function PrintDate(d: Date): string
  {
    Dashed(Padded(2000 + d.year, 4), Padded(d.month, 2), Padded(d.day, 2))
  }

  /** A printed date reads back as itself, if it is one; and only dates are ever
      accepted. */
  lemma DateReadsBack(d: Date)
    requires 2000 + d.year <= UINT_MAX && d.month <= UINT_MAX && d.day <= UINT_MAX
    ensures ParseDate(PrintDate(d)) == if d.Valid() then Some(d) else None
  {
    hide LexicalUnsigned, Find, Padded;
    var y, m, n := Padded(2000 + d.year, 4), Padded(d.month, 2), Padded(d.day, 2);
    PaddedReadsBack(2000 + d.year, 4);
    PaddedReadsBack(d.month, 2);
    PaddedReadsBack(d.day, 2);
    NoDash(y);
    NoDash(m);
    DashedParts(y, m, n);
  }

  lemma TwoPlaces(n: nat)
    requires n < 100
    ensures |Padded(n, 2)| == 2
  {
    assert n >= 10 ==> |Decimal(n / 10)| == 1;
  }

  lemma FourPlaces(n: nat)
    requires 1000 <= n < 10000
    ensures |Padded(n, 4)| == 4
  {
    assert |Decimal(n / 1000)| == 1 && |Decimal(n / 100)| == 2 && |Decimal(n / 10)| == 3;
  }

  /** All dates are printed ten characters long, with the dashes in the same places. */
  lemma DateShape(d: Date)
    requires d.Valid()
    ensures var s := PrintDate(d); |s| == 10 && s[4] == '-' && s[7] == '-'
  {
    hide Padded;
    FourPlaces(2000 + d.year);
    TwoPlaces(d.month);
    TwoPlaces(d.day);
  }

  lemma NoDash(s: string)
    requires AllDigits(s)
    ensures '-' !in s && ':' !in s && (forall i :: 0 <= i < |s| ==> !IsSpace(s[i]))
  {}

  lemma MinusReads(digits: string, n: nat)
    requires 0 < n <= UINT_MAX
    ensures LexicalUnsigned("-" + digits) == Some(n) <==>
      digits != "" && AllDigits(digits) && ValueOf(digits) == UINT_MAX + 1 - n
  {
    hide ValueOf;
    assert ("-" + digits)[1..] == digits;
  }

  /** A dash too many need not hurt: minus 4294967266 is the thirtieth. Behind it
      exactly the digits for the day's complement to 2^32 are accepted. */
  lemma {:induction false} DoubledDash(year: string, month: string, digits: string, d: Date)
    requires '-' !in year && '-' !in month && d.Valid()
    ensures ParseDate(Dashed(year, month, "-" + digits)) == Some(d) <==>
      && LexicalUnsigned(year) == Some(2000 + d.year) && LexicalUnsigned(month) == Some(d.month)
      && digits != "" && AllDigits(digits) && ValueOf(digits) == UINT_MAX + 1 - d.day
  {
    hide LexicalUnsigned, ParseDate, Dashed, ValueOf;
    ReadsDashed(year, month, "-" + digits, d);
    MinusReads(digits, d.day);
  }

  /** So every date has a second spelling. */
  lemma {:induction false} SecondSpelling(d: Date)
    requires d.Valid()
    ensures ParseDate(Dashed(Padded(2000 + d.year, 4), Padded(d.month, 2), "-" + Padded(UINT_MAX + 1 - d.day, 1))) == Some(d)
  {
    hide LexicalUnsigned, Find, Padded;
    var y, m := Padded(2000 + d.year, 4), Padded(d.month, 2);
    PaddedReadsBack(2000 + d.year, 4);
    PaddedReadsBack(d.month, 2);
    PaddedReadsBack(UINT_MAX + 1 - d.day, 1);
    NoDash(y);
    NoDash(m);
    DoubledDash(y, m, Padded(UINT_MAX + 1 - d.day, 1), d);
  }

  // ----- Streams -----

  predicate IsSpace(c: char)
  {
    c in {' ', '\t', '\n', '\U{000B}', '\U{000C}', '\r'}
  }

  function SkipSpace(s: string): (r: string)
    ensures |r| <= |s| && (r != "" ==> !IsSpace(r[0]))
  {
    if s == "" || !IsSpace(s[0]) then s else SkipSpace(s[1..])
  }

  function WordEnd(s: string): (n: nat)
    ensures n <= |s| && (forall i :: 0 <= i < n ==> !IsSpace(s[i])) && (n < |s| ==> IsSpace(s[n]))
  {
    if s == "" || IsSpace(s[0]) then 0 else 1 + WordEnd(s[1..])
  }

  /** One `>>` of a string: the word, and what is left. No word is a failure. */
  function NextWord(s: string): (r: (string, string))
  {
    var t := SkipSpace(s);
    (t[..WordEnd(t)], t[WordEnd(t)..])
  }

  predicate IsWord(w: string)
  {
    w != "" && forall i :: 0 <= i < |w| ==> !IsSpace(w[i])
  }

  lemma {:induction false} WordEndIs(w: string, rest: string)
    requires (forall i :: 0 <= i < |w| ==> !IsSpace(w[i])) && (rest == "" || IsSpace(rest[0]))
    ensures WordEnd(w + rest) == |w|
  {
    if w == "" {
      assert w + rest == rest;
    } else {
      assert (w + rest)[1..] == w[1..] + rest;
      WordEndIs(w[1..], rest);
    }
  }

  lemma WordThenRest(w: string, rest: string)
    requires IsWord(w) && (rest == "" || IsSpace(rest[0]))
    ensures NextWord(w + rest) == (w, rest)
  {
    WordEndIs(w, rest);
    assert (w + rest)[0] == w[0];
  }

  lemma SpaceThenWord(w: string, rest: string)
    requires IsWord(w) && (rest == "" || IsSpace(rest[0]))
    ensures NextWord(" " + w + rest) == (w, rest)
  {
    assert (" " + w + rest)[1..] == w + rest;
    WordThenRest(w, rest);
  }

  // ----- Schedule entries -----

  const DAY_NAMES: seq<string> := ["monday", "tuesday", "wednesday", "thursday", "friday", "saturday", "sunday"]

  /** A ScheduleEntry: two fields of four bits, and the time in units of ten
      minutes, or 0x90 and up for none. */
  datatype Entry = Entry(on: nat, day: nat, time: nat)

  const UNSET: Entry := Entry(7, 0xe, 0x90)

  /** A set entry as the parser makes them. */
  predicate Proper(e: Entry)
  {
    e.on <= 1 && e.day <= 12 && e.day % 2 == 0 && e.time < 0x90
  }

  /** The times it understands. */
  function ParseTime(time: string): Option<nat>
  {
    match Find(time, ':', 0)
    case None => None
    case Some(pos) =>
      var hours, minutes := LexicalUnsigned(time[..pos]), LexicalUnsigned(time[pos + 1..]);
      if hours.None? || minutes.None? then None
      else if hours.value > 23 || minutes.value >= 60 || minutes.value % 10 != 0 then None
      else Some((hours.value * 60 + minutes.value) / 10)
  }

  lemma SplitAtColon(s: string) returns (h: string, m: string)
    requires Find(s, ':', 0).Some?
    ensures s == h + ":" + m && ':' !in h
  {
    var pos := Find(s, ':', 0).value;
    h, m := s[..pos], s[pos + 1..];
    assert s[0..pos] == h;
  }

  lemma ReadsColon(h: string, m: string)
    requires ':' !in h
    ensures ParseTime(h + ":" + m) ==
      var hours, minutes := LexicalUnsigned(h), LexicalUnsigned(m);
      if hours.Some? && minutes.Some? && hours.value <= 23 && minutes.value <= 59 && minutes.value % 10 == 0
      then Some(6 * hours.value + minutes.value / 10) else None
  {
    hide LexicalUnsigned;
    var s := h + ":" + m;
    assert s == "" + h + [':'] + m;
    FindsFirst("", h, ':', m);
    assert s[..|h|] == h && s[|h| + 1..] == m;
  }

  /** Exactly these strings are times: an hour up to 23, a colon, and a multiple of ten
      minutes up to 50. */
  lemma {:induction false} TimesAccepted(s: string, t: nat)
    ensures ParseTime(s) == Some(t) <==> exists h, m :: s == h + ":" + m && IsTime(h, m, t)
  {
    hide ParseTime, LexicalUnsigned;
    if ParseTime(s) == Some(t) {
      TimeHasColon(s);
      var h, m := SplitAtColon(s);
      ReadsColon(h, m);
      assert IsTime(h, m, t);
    }
    forall h, m | s == h + ":" + m && IsTime(h, m, t)
      ensures ParseTime(s) == Some(t)
    {
      ReadsColon(h, m);
    }
  }

  lemma TimeHasColon(s: string)
    requires ParseTime(s).Some?
    ensures Find(s, ':', 0).Some?
  {}

  predicate IsTime(h: string, m: string, t: nat)
  {
    && ':' !in h && LexicalUnsigned(h).Some? && LexicalUnsigned(m).Some?
    && var hours, minutes := LexicalUnsigned(h).value, LexicalUnsigned(m).value;
      hours <= 23 && minutes <= 50 && minutes % 10 == 0 && 10 * t == 60 * hours + minutes
  }

  predicate IsDay(name: string, i: nat)
  {
    i < |DAY_NAMES| && name == DAY_NAMES[i]
  }

  /** What a schedule command means, as a relation. */
  predicate Means(request: string, e: Entry)
  {
    var (day, afterDay) := NextWord(request);
    var (time, afterTime) := NextWord(afterDay);
    var (mode, _) := NextWord(afterTime);
    if day == "unset" then e == UNSET
    else
      && Proper(e) && day != "" && time != ""
      && IsDay(day, e.day / 2) && ParseTime(time) == Some(e.time)
      && mode == (if e.on == 1 then "on" else "off")
  }

  lemma DaysDiffer(i: nat, j: nat)
    requires i < j < |DAY_NAMES|
    ensures DAY_NAMES[i] != DAY_NAMES[j]
  {
    assert |DAY_NAMES[0]| == 6 && |DAY_NAMES[1]| == 7 && |DAY_NAMES[2]| == 9 && |DAY_NAMES[3]| == 8;
    assert |DAY_NAMES[4]| == 6 && |DAY_NAMES[5]| == 8 && |DAY_NAMES[6]| == 6;
    assert DAY_NAMES[0][0] == 'm' && DAY_NAMES[4][0] == 'f' && DAY_NAMES[6][0] == 's';
    assert DAY_NAMES[3][0] == 't' && DAY_NAMES[5][0] == 's';
  }

  lemma TimeInDay(time: string)
    ensures ParseTime(time).Some? ==> ParseTime(time).value < 0x90
  {}

  /** parseScheduleEntry finds the one entry that a command means, or there is
      none. */
  method ParseScheduleEntry(request: string) returns (r: Option<Entry>)
    ensures r.Some? ==> Means(request, r.value) && (r.value == UNSET || Proper(r.value))
    ensures r.None? ==> forall e :: !Means(request, e)
  {
    hide Find, LexicalUnsigned, SkipSpace, WordEnd, NextWord, ParseTime;
    var (day, afterDay) := NextWord(request);
    if day == "" {
      return None;
    }
    if day == "unset" {
      return Some(UNSET);
    }
    var (time, afterTime) := NextWord(afterDay);
    var (mode, _) := NextWord(afterTime);
    if time == "" || mode == "" {
      return None;
    }
    var on: nat;
    if mode == "on" {
      on := 1;
    } else if mode == "off" {
      on := 0;
    } else {
      return None;
    }
    var dayIndex: Option<nat> := None;
    for i := 0 to |DAY_NAMES|
      invariant dayIndex.None?
      invariant forall j :: 0 <= j < i ==> day != DAY_NAMES[j]
    {
      if day == DAY_NAMES[i] {
        dayIndex := Some(i);
        break;
      }
    }
    if dayIndex.None? {
      return None;
    }
    var at := ParseTime(time);
    if at.None? {
      return None;
    }
    TimeInDay(time);
    r := Some(Entry(on, 2 * dayIndex.value, at.value));
  }

  /** A command means one thing only. */
  lemma {:induction false} MeaningIsUnique(request: string, e: Entry, f: Entry)
    requires Means(request, e) && Means(request, f)
    ensures e == f
  {
    hide ParseTime, NextWord;
    var i, j := e.day / 2, f.day / 2;
    if e != UNSET && f != UNSET {
      if i < j {
        DaysDiffer(i, j);
      } else if j < i {
        DaysDiffer(j, i);
      }
    }
  }

  /** buildRecordResponse of a schedule entry. */
  function PrintEntry(e: Entry): string
    requires e.time < 0x90 ==> e.day / 2 < |DAY_NAMES|
  {
    if e.time >= 0x90 then ""
    else
      var minutes := e.time * 10;
      DAY_NAMES[e.day / 2] + (" " + PrintTime(minutes) + (" " + (if e.on != 0 then "on" else "off")))
  }

  function PrintTime(minutes: nat): string
  {
    Padded(minutes / 60, 2) + ":" + Padded(minutes % 60, 2)
  }

  lemma TimeReadsBack(t: nat)
    requires t < 0x90
    ensures ParseTime(PrintTime(10 * t)) == Some(t)
    ensures IsWord(PrintTime(10 * t))
  {
    hide LexicalUnsigned, Find, Padded;
    var h, m := 10 * t / 60, 10 * t % 60;
    var s, a, b := PrintTime(10 * t), Padded(h, 2), Padded(m, 2);
    PaddedReadsBack(h, 2);
    PaddedReadsBack(m, 2);
    NoDash(a);
    NoDash(b);
    assert s == "" + a + [':'] + b;
    FindsFirst("", a, ':', b);
    assert s[..|a|] == a && s[|a| + 1..] == b;
    assert 60 * h + m == 10 * t && m % 10 == 0;
  }

  lemma DayIsWord(i: nat)
    requires i < |DAY_NAMES|
    ensures IsWord(DAY_NAMES[i]) && DAY_NAMES[i] != "unset"
  {
    if i == 0 { assert DAY_NAMES[i] == "monday"; }
    else if i == 1 { assert DAY_NAMES[i] == "tuesday"; }
    else if i == 2 { assert DAY_NAMES[i] == "wednesday"; }
    else if i == 3 { assert DAY_NAMES[i] == "thursday"; }
    else if i == 4 { assert DAY_NAMES[i] == "friday"; }
    else if i == 5 { assert DAY_NAMES[i] == "saturday"; }
    else { assert DAY_NAMES[i] == "sunday"; }
  }

  /** What is printed of a set entry means that entry, up to the bits the text does
      not show; so exactly the entries the parser makes survive. */
  lemma EntryReadsBack(e: Entry, f: Entry)
    requires e.time < 0x90 && e.day / 2 < |DAY_NAMES|
    ensures Means(PrintEntry(e), f) <==> f == Entry(if e.on != 0 then 1 else 0, e.day - e.day % 2, e.time)
  {
    hide ParseTime, NextWord, PrintTime;
    var shown := Entry(if e.on != 0 then 1 else 0, e.day - e.day % 2, e.time);
    PrintedWords(e);
    TimeReadsBack(e.time);
    DayIsWord(e.day / 2);
    assert shown.day / 2 == e.day / 2;
    assert Means(PrintEntry(e), shown);
    if Means(PrintEntry(e), f) {
      MeaningIsUnique(PrintEntry(e), f, shown);
    }
  }

  lemma PrintedWords(e: Entry)
    requires e.time < 0x90 && e.day / 2 < |DAY_NAMES|
    ensures var (day, afterDay) := NextWord(PrintEntry(e));
      var (time, afterTime) := NextWord(afterDay);
      && day == DAY_NAMES[e.day / 2] && time == PrintTime(10 * e.time)
      && NextWord(afterTime) == (if e.on != 0 then "on" else "off", "")
  {
    hide NextWord, PrintTime;
    var mode := if e.on != 0 then "on" else "off";
    var time := PrintTime(10 * e.time);
    DayIsWord(e.day / 2);
    TimeReadsBack(e.time);
    ModeIsWord(mode);
    WordThenRest(DAY_NAMES[e.day / 2], " " + time + (" " + mode));
    SpaceThenWord(time, " " + mode);
    assert " " + mode == " " + mode + "";
    SpaceThenWord(mode, "");
  }

  lemma ModeIsWord(mode: string)
    requires mode == "on" || mode == "off"
    ensures IsWord(mode)
  {}

  /** Every set entry that is accepted is printed as a command for itself. */
  lemma {:induction false} AcceptedEntryReadsBack(request: string, e: Entry, f: Entry)
    requires Means(request, e) && e != UNSET
    ensures e.day / 2 < |DAY_NAMES|
    ensures Means(PrintEntry(e), f) <==> f == e
  {
    hide ParseTime, NextWord, PrintEntry;
    EntryReadsBack(e, f);
  }
}
