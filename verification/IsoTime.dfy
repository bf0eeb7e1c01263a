/** Epochs, ISO 8601 text and per-day bounds, as in components/vibe_usage/src/vibe_date.c. */
module IsoTime {
  import opened Bytes
  import opened Calendar

  datatype Timezone = AsiaShanghai | Utc | OtherZone

  // ---------------------------------------------------------------- epoch to local date

  function FloorDiv(value: int, divisor: int): int
    requires divisor > 0
  {
    var quotient, remainder := TruncDiv(value, divisor), TruncMod(value, divisor);
    if remainder < 0 then quotient - 1 else quotient
  }

  lemma FloorDivIsFloor(value: int, divisor: int)
    requires divisor > 0
    ensures FloorDiv(value, divisor) == value / divisor
  {
    if value < 0 {
      var n := -value;
      var q, r := n / divisor, n % divisor;
      assert n == q * divisor + r;
      assert (-q) * divisor == -(q * divisor);
      if r == 0 {
        DivUnique(value, divisor, -q, 0);
      } else {
        assert (-q - 1) * divisor == -(q * divisor) - divisor;
        DivUnique(value, divisor, -q - 1, divisor - r);
      }
    }
  }

  function UtcOffset(zone: Timezone): int
  {
    if zone == AsiaShanghai then 28800 else 0
  }

  function DateFromEpoch(epoch: int64, zone: Timezone): Result<int, VibeError>
  {
    if zone != AsiaShanghai && zone != Utc then Err(InvalidArgument)
    else if epoch > TWO_63 - 1 - UtcOffset(zone) then Err(Overflow)
    else
      var c := CivilFromDays(FloorDiv(epoch + UtcOffset(zone), 86400));
      if c.year < 1 || c.year > 9999 then Err(OutOfRange) else Ok(KeyOf(c))
  }

  /** The serial day on which a second falls in a zone. */
  function LocalDay(epoch: int, zone: Timezone): int
  {
    (epoch + UtcOffset(zone)) / 86400
  }

  /** The calendar date of a second in a zone, counted day by day. */
  function LocalDate(epoch: int, zone: Timezone): Civil
  {
    Walk(EPOCH, LocalDay(epoch, zone))
  }

  predicate HasFourDigitYear(c: Civil)
  {
    1 <= c.year <= 9999
  }

  /** The year is beyond 9999 or before 1, and looks otherwise in the low 32 bits that `int` keeps. */
  predicate Wraps(c: Civil)
  {
    !HasFourDigitYear(c) && HasFourDigitYear(Narrowed(c))
  }

  /** What is reported is the date, its year narrowed to `int`. */
  lemma DateFromEpochNarrows(epoch: int64, zone: Timezone)
    requires zone != OtherZone && epoch + UtcOffset(zone) < TWO_63
    ensures
      var c := Narrowed(LocalDate(epoch, zone));
      DateFromEpoch(epoch, zone) == if HasFourDigitYear(c) then Ok(KeyOf(c)) else Err(OutOfRange)
  {
    hide CivilFromDays, Walk, Narrowed, FloorDiv;
    FloorDivIsFloor(epoch + UtcOffset(zone), 86400);
    CivilFromDaysCounts(LocalDay(epoch, zone));
  }

  /**
   * For every second short of the overflow guard: its date is found by counting calendar days from
   * 1970-01-01, if and only if its year does not wrap into range.
   */
  lemma DateFromEpochCounts(epoch: int64, zone: Timezone)
    ensures zone == OtherZone ==> DateFromEpoch(epoch, zone) == Err(InvalidArgument)
    ensures zone != OtherZone && epoch + UtcOffset(zone) >= TWO_63 ==> DateFromEpoch(epoch, zone) == Err(Overflow)
    ensures zone != OtherZone && epoch + UtcOffset(zone) < TWO_63 ==>
      var c := LocalDate(epoch, zone);
      (DateFromEpoch(epoch, zone) == (if HasFourDigitYear(c) then Ok(KeyOf(c)) else Err(OutOfRange))
       <==> !Wraps(c))
  {
    hide CivilFromDays, FloorDiv, LocalDate, ToInt32, KeyOf;
    if zone != OtherZone && epoch + UtcOffset(zone) < TWO_63 {
      hide DateFromEpoch;
      DateFromEpochNarrows(epoch, zone);
      CastsExact(LocalDate(epoch, zone).year);
    }
  }

  /** A year that wraps into range is reported with the month and day of the true date. */
  lemma WrappedDate(epoch: int64, zone: Timezone)
    requires zone != OtherZone && epoch + UtcOffset(zone) < TWO_63
    ensures Wraps(LocalDate(epoch, zone)) ==>
      DateFromEpoch(epoch, zone) == Ok(KeyOf(Narrowed(LocalDate(epoch, zone))))
  {
    hide DateFromEpoch, LocalDate, Narrowed;
    DateFromEpochNarrows(epoch, zone);
  }

  lemma FarDay(far: Civil)
    requires far == Civil(4294967600, 3, 1)
    ensures IsCivil(far) && DaysFromCivil(far) == 10737419 * 146097 - 719468
  {
  }

  lemma FarYearNarrowed(year: int)
    requires year == 4294967600
    ensures ToInt32(year) == 304
  {
  }

  /** Such a second: 0304-03-01 is reported in year 4294967600. */
  lemma FarEpochWraps()
    ensures
      var epoch := (10737419 * 146097 - 719468) * 86400;
      LocalDate(epoch, Utc) == Civil(4294967600, 3, 1) && Wraps(LocalDate(epoch, Utc))
      && DateFromEpoch(epoch, Utc) == Ok(3040301)
  {
    hide DateFromEpoch, Walk, DaysFromCivil, CivilFromDays;
    var far := Civil(4294967600, 3, 1);
    var day := 10737419 * 146097 - 719468;
    FarDay(far);
    CivilFromDaysCounts(day);
    SameDay(Walk(EPOCH, day), far);
    FarYearNarrowed(far.year);
    WrappedDate(day * 86400, Utc);
  }

  // ---------------------------------------------------------------- decimal digits

  predicate IsDigit(c: char)
  {
    '0' <= c <= '9'
  }

  predicate AllDigits(s: string)
  {
    forall i :: 0 <= i < |s| ==> IsDigit(s[i])
  }

  function DigitChar(d: int): (c: char)
    requires 0 <= d < 10
    ensures IsDigit(c)
  {
    ('0' as int + d) as char
  }

  /** The number a run of decimal digits denotes. */
  function Number(s: string): (n: int)
    ensures AllDigits(s) ==> n >= 0
  {
    if s == "" then 0 else Number(s[..|s| - 1]) * 10 + (s[|s| - 1] as int - '0' as int)
  }

  function Digits2(n: int): (s: string)
    requires 0 <= n < 100
    ensures |s| == 2 && AllDigits(s)
  {
    [DigitChar(n / 10), DigitChar(n % 10)]
  }

  function Digits4(n: int): (s: string)
    requires 0 <= n < 10000
    ensures |s| == 4 && AllDigits(s)
  {
    [DigitChar(n / 1000), DigitChar(n / 100 % 10), DigitChar(n / 10 % 10), DigitChar(n % 10)]
  }

  /** The value of the character at `i`, were it a digit. */
  function DigitAt(s: string, i: nat): int
    requires i < |s|
  {
    s[i] as int - '0' as int
  }

  lemma NumberOfTwo(s: string)
    requires |s| == 2
    ensures Number(s) == DigitAt(s, 0) * 10 + DigitAt(s, 1)
  {
    assert s[..1][..0] == "";
    assert Number(s[..1]) == DigitAt(s, 0);
  }

  lemma NumberOfFour(s: string)
    requires |s| == 4
    ensures Number(s) == DigitAt(s, 0) * 1000 + DigitAt(s, 1) * 100 + DigitAt(s, 2) * 10 + DigitAt(s, 3)
  {
    NumberOfTwo(s[..2]);
    assert s[..3][..2] == s[..2];
    assert Number(s[..3]) == Number(s[..2]) * 10 + DigitAt(s, 2);
  }

  /** Two digits and numbers below 100 correspond one to one. */
  lemma TwoDigits(s: string, n: int)
    requires |s| == 2
    ensures AllDigits(s) && Number(s) == n <==> 0 <= n < 100 && s == Digits2(n)
  {
    hide Number;
    NumberOfTwo(s);
    if AllDigits(s) && Number(s) == n {
      assert IsDigit(s[0]) && IsDigit(s[1]);
      DivUnique(n, 10, DigitAt(s, 0), DigitAt(s, 1));
    }
  }

  lemma FourDigitsDivide(a: int, b: int, c: int, d: int)
    requires 0 <= a < 10 && 0 <= b < 10 && 0 <= c < 10 && 0 <= d < 10
    ensures
      var n := a * 1000 + b * 100 + c * 10 + d;
      n / 1000 == a && n / 100 % 10 == b && n / 10 % 10 == c && n % 10 == d
  {
    var n := a * 1000 + b * 100 + c * 10 + d;
    DivUnique(n, 10, a * 100 + b * 10 + c, d);
    DivUnique(a * 100 + b * 10 + c, 10, a * 10 + b, c);
    DivUnique(n, 100, a * 10 + b, c * 10 + d);
    DivUnique(a * 10 + b, 10, a, b);
    DivUnique(n, 1000, a, b * 100 + c * 10 + d);
  }

  lemma DigitsCompose(n: int)
    requires 0 <= n < 10000
    ensures n == n / 1000 * 1000 + n / 100 % 10 * 100 + n / 10 % 10 * 10 + n % 10
  {
    DivUnique(n, 100, n / 10 / 10, n / 10 % 10 * 10 + n % 10);
    DivUnique(n, 1000, n / 100 / 10, n / 100 % 10 * 100 + n % 100);
  }

  /** Four digits and numbers below 10000 correspond one to one. */
  lemma FourDigits(s: string, n: int)
    requires |s| == 4
    ensures AllDigits(s) && Number(s) == n <==> 0 <= n < 10000 && s == Digits4(n)
  {
    hide Number;
    NumberOfFour(s);
    if AllDigits(s) && Number(s) == n {
      assert IsDigit(s[0]) && IsDigit(s[1]) && IsDigit(s[2]) && IsDigit(s[3]);
      hide IsDigit, AllDigits;
      FourDigitsDivide(DigitAt(s, 0), DigitAt(s, 1), DigitAt(s, 2), DigitAt(s, 3));
    } else if 0 <= n < 10000 && s == Digits4(n) {
      hide AllDigits;
      DigitsCompose(n);
    }
  }

  /** The number in `count` characters of `text` from `offset`, if they are all digits. */
  function Field(text: string, offset: nat, count: nat): Option<int>
    requires offset + count <= |text|
  {
    var s := text[offset..offset + count];
    if AllDigits(s) then Some(Number(s)) else None
  }

  method ParseDigits(text: string, offset: nat, count: nat) returns (value: Option<int>)
    requires offset + count <= |text|
    ensures value == Field(text, offset, count)
  {
    var result := 0;
    for i := 0 to count
      invariant AllDigits(text[offset..offset + i])
      invariant result == Number(text[offset..offset + i])
    {
      var c := text[offset + i];
      if c < '0' || c > '9' {
        assert !IsDigit(text[offset..offset + count][i]);
        return None;
      }
      assert text[offset..offset + i + 1] == text[offset..offset + i] + [c];
      result := result * 10 + (c as int - '0' as int);
    }
    return Some(result);
  }

  // ---------------------------------------------------------------- the accepted text

  datatype Offset = Zulu(mark: char) | Numeric(negative: bool, hours: int, minutes: int)

  datatype Head = Head(date: Civil, separator: char, hour: int, minute: int, second: int)

  datatype Stamp = Stamp(head: Head, fraction: Option<string>, offset: Offset)

  predicate IsHead(h: Head)
  {
    && 1 <= h.date.year <= 9999 && IsCivil(h.date)
    && (h.separator == 'T' || h.separator == 't' || h.separator == ' ')
    && 0 <= h.hour <= 23 && 0 <= h.minute <= 59 && 0 <= h.second <= 60
  }

  predicate IsFraction(f: Option<string>)
  {
    f.Some? ==> f.value != "" && AllDigits(f.value)
  }

  predicate IsOffset(o: Offset)
  {
    match o
    case Zulu(mark) => mark == 'Z' || mark == 'z'
    case Numeric(_, hours, minutes) => 0 <= hours <= 23 && 0 <= minutes <= 59
  }

  predicate IsStamp(t: Stamp)
  {
    IsHead(t.head) && IsFraction(t.fraction) && IsOffset(t.offset)
  }

  predicate HasDateKey(c: Civil)
  {
    0 <= c.year < 10000 && 0 <= c.month < 100 && 0 <= c.day < 100
  }

  lemma HeadHasDateKey(c: Civil)
    requires 1 <= c.year <= 9999 && IsCivil(c)
    ensures HasDateKey(c)
  {
    DaysInMonthBound(c.year, c.month);
  }

  function RenderDate(c: Civil): (s: string)
    requires HasDateKey(c)
    ensures |s| == 10
  {
    Digits4(c.year) + "-" + Digits2(c.month) + "-" + Digits2(c.day)
  }

  function RenderHead(h: Head): string
    requires IsHead(h)
  {
    HeadHasDateKey(h.date);
    RenderDate(h.date) + [h.separator] + Digits2(h.hour) + ":" + Digits2(h.minute) + ":" + Digits2(h.second)
  }

  function RenderFraction(f: Option<string>): string
  {
    if f.Some? then "." + f.value else ""
  }

  function RenderOffset(o: Offset): string
    requires IsOffset(o)
  {
    match o
    case Zulu(mark) => [mark]
    case Numeric(negative, hours, minutes) =>
      (if negative then "-" else "+") + Digits2(hours) + ":" + Digits2(minutes)
  }

  /** The `date-time` of RFC 3339, section 5.6, with the relaxations the source allows. */
  function Render(t: Stamp): string
    requires IsStamp(t)
  {
    RenderHead(t.head) + (RenderFraction(t.fraction) + RenderOffset(t.offset))
  }

  function OffsetSeconds(o: Offset): int
  {
    match o
    case Zulu(_) => 0
    case Numeric(negative, hours, minutes) =>
      var s := hours * 3600 + minutes * 60;
      if negative then -s else s
  }

  /** The instant a stamp names; a leap second counts as the second before it. */
  function StampEpoch(t: Stamp): int
  {
    DaysFromCivil(t.head.date) * 86400 + t.head.hour * 3600 + t.head.minute * 60
    + (if t.head.second == 60 then 59 else t.head.second) - OffsetSeconds(t.offset)
  }

  // ---------------------------------------------------------------- the parser's specification

  function ParseHead(s: string): Option<Head>
    requires |s| == 19
  {
    var year, month, day := Field(s, 0, 4), Field(s, 5, 2), Field(s, 8, 2);
    var hour, minute, second := Field(s, 11, 2), Field(s, 14, 2), Field(s, 17, 2);
    if s[4] == '-' && s[7] == '-' && s[13] == ':' && s[16] == ':'
       && year.Some? && month.Some? && day.Some? && hour.Some? && minute.Some? && second.Some?
       && IsHead(Head(Civil(year.value, month.value, day.value), s[10],
                      hour.value, minute.value, second.value))
    then Some(Head(Civil(year.value, month.value, day.value), s[10],
                   hour.value, minute.value, second.value))
    else None
  }

  /** The end of the run of digits that starts at `i`. */
  function DigitRun(s: string, i: nat): (end: nat)
    requires i <= |s|
    ensures i <= end <= |s| && AllDigits(s[i..end])
    ensures end < |s| ==> !IsDigit(s[end])
    decreases |s| - i
  {
    if i < |s| && IsDigit(s[i]) then
      var end := DigitRun(s, i + 1);
      assert s[i..end] == [s[i]] + s[i + 1..end];
      end
    else i
  }

  function ParseOffset(s: string): Option<Offset>
  {
    if |s| == 1 && (s[0] == 'Z' || s[0] == 'z') then Some(Zulu(s[0]))
    else if |s| == 6 && (s[0] == '+' || s[0] == '-') && s[3] == ':'
            && Field(s, 1, 2).Some? && Field(s, 4, 2).Some?
            && Field(s, 1, 2).value <= 23 && Field(s, 4, 2).value <= 59
    then Some(Numeric(s[0] == '-', Field(s, 1, 2).value, Field(s, 4, 2).value))
    else None
  }

  /** The length of an optional fraction, or nothing when a dot is not followed by a digit. */
  function FractionLength(s: string): Option<nat>
  {
    if s != "" && s[0] == '.' then
      if DigitRun(s, 1) == 1 then None else Some(DigitRun(s, 1))
    else Some(0)
  }

  function ParseStamp(s: string): Option<Stamp>
  {
    if |s| < 20 || ParseHead(s[..19]).None? || FractionLength(s[19..]).None? then None
    else
      var head, tail, length := ParseHead(s[..19]).value, s[19..], FractionLength(s[19..]).value;
      match ParseOffset(tail[length..])
      case None => None
      case Some(offset) =>
        Some(Stamp(head, if length == 0 then None else Some(tail[1..length]), offset))
  }

  /** Two-digit fields read what two-digit fields print. */
  lemma FieldReadsTwo(s: string, offset: nat, n: int)
    requires offset + 2 <= |s|
    ensures Field(s, offset, 2) == Some(n) <==> 0 <= n < 100 && s[offset..offset + 2] == Digits2(n)
  {
    hide Number, Digits2;
    TwoDigits(s[offset..offset + 2], n);
  }

  lemma FieldReadsFour(s: string, offset: nat, n: int)
    requires offset + 4 <= |s|
    ensures Field(s, offset, 4) == Some(n) <==> 0 <= n < 10000 && s[offset..offset + 4] == Digits4(n)
  {
    hide Number, Digits4;
    FourDigits(s[offset..offset + 4], n);
  }

  /** The six fields and five separators at their places in a 19-character head. */
  predicate HeadFields(s: string, h: Head)
    requires |s| == 19
  {
    && s[4] == '-' && s[7] == '-' && s[10] == h.separator && s[13] == ':' && s[16] == ':'
    && Field(s, 0, 4) == Some(h.date.year) && Field(s, 5, 2) == Some(h.date.month)
    && Field(s, 8, 2) == Some(h.date.day) && Field(s, 11, 2) == Some(h.hour)
    && Field(s, 14, 2) == Some(h.minute) && Field(s, 17, 2) == Some(h.second)
  }

  lemma ParseHeadReadsFields(s: string, h: Head)
    requires |s| == 19
    ensures ParseHead(s) == Some(h) <==> IsHead(h) && HeadFields(s, h)
  {
    hide Field, IsCivil;
  }

  lemma HeadFieldsAreRendered(s: string, h: Head)
    requires |s| == 19 && IsHead(h)
    ensures HeadFields(s, h) <==> s == RenderHead(h)
  {
    hide Field, Digits2, Digits4, AllDigits, IsCivil;
    HeadHasDateKey(h.date);
    FieldReadsFour(s, 0, h.date.year);
    FieldReadsTwo(s, 5, h.date.month);
    FieldReadsTwo(s, 8, h.date.day);
    FieldReadsTwo(s, 11, h.hour);
    FieldReadsTwo(s, 14, h.minute);
    FieldReadsTwo(s, 17, h.second);
    var parts := s[0..4] + [s[4]] + s[5..7] + [s[7]] + s[8..10] + [s[10]]
                 + s[11..13] + [s[13]] + s[14..16] + [s[16]] + s[17..19];
    assert s == parts;
    if s == RenderHead(h) {
      var r := RenderHead(h);
      assert r[0..4] == Digits4(h.date.year) && r[5..7] == Digits2(h.date.month);
      assert r[8..10] == Digits2(h.date.day) && r[11..13] == Digits2(h.hour);
      assert r[14..16] == Digits2(h.minute) && r[17..19] == Digits2(h.second);
    }
  }

  lemma OffsetsAreRendered(s: string, o: Offset)
    ensures ParseOffset(s) == Some(o) <==> IsOffset(o) && s == RenderOffset(o)
  {
    hide Field, Digits2, AllDigits;
    if o.Numeric? && |s| == 6 {
      FieldReadsTwo(s, 1, o.hours);
      FieldReadsTwo(s, 4, o.minutes);
      assert s == [s[0]] + s[1..3] + [s[3]] + s[4..6];
      if IsOffset(o) && s == RenderOffset(o) {
        var r := RenderOffset(o);
        assert r[1..3] == Digits2(o.hours) && r[4..6] == Digits2(o.minutes);
      }
    }
  }

  /** A run of digits ends where the digits do. */
  lemma {:induction false} DigitRunEnds(s: string, i: nat, end: nat)
    requires i <= end <= |s| && AllDigits(s[i..end]) && (end < |s| ==> !IsDigit(s[end]))
    ensures DigitRun(s, i) == end
    decreases end - i
  {
    if i < end {
      assert IsDigit(s[i..end][0]);
      assert s[i + 1..end] == s[i..end][1..];
      DigitRunEnds(s, i + 1, end);
    }
  }

  lemma FractionsAreRendered(s: string, f: Option<string>, o: Offset)
    requires IsFraction(f) && IsOffset(o) && s == RenderFraction(f) + RenderOffset(o)
    ensures FractionLength(s) == Some(|RenderFraction(f)|)
    ensures s[|RenderFraction(f)|..] == RenderOffset(o)
  {
    hide Digits2;
    if f.Some? {
      var end := 1 + |f.value|;
      assert s[1..end] == f.value;
      assert s[end] == RenderOffset(o)[0];
      DigitRunEnds(s, 1, end);
    }
  }

  lemma RenderedLengths(t: Stamp)
    requires IsStamp(t)
    ensures |RenderHead(t.head)| == 19 && |RenderOffset(t.offset)| >= 1
    ensures Render(t)[..19] == RenderHead(t.head)
  {
  }

  /** The parser accepts exactly the rendered stamps, and reads back the stamp rendered. */
  lemma StampsAreRendered(s: string, t: Stamp)
    ensures ParseStamp(s) == Some(t) <==> IsStamp(t) && s == Render(t)
  {
    hide ParseHead, ParseOffset, HeadFields, RenderHead, RenderOffset, DigitRun, IsHead, IsOffset, AllDigits;
    if ParseStamp(s) == Some(t) {
      var tail, length := s[19..], FractionLength(s[19..]).value;
      ParseHeadReadsFields(s[..19], t.head);
      HeadFieldsAreRendered(s[..19], t.head);
      OffsetsAreRendered(tail[length..], t.offset);
      assert tail == RenderFraction(t.fraction) + tail[length..];
      assert s == s[..19] + tail;
    }
    if IsStamp(t) && s == Render(t) {
      RenderedLengths(t);
      ParseHeadReadsFields(s[..19], t.head);
      HeadFieldsAreRendered(s[..19], t.head);
      assert s[19..] == RenderFraction(t.fraction) + RenderOffset(t.offset);
      FractionsAreRendered(s[19..], t.fraction, t.offset);
      OffsetsAreRendered(RenderOffset(t.offset), t.offset);
    }
  }

  /** What the parser answers: the instant of the stamp whose text it is given. */
  function IsoEpoch(text: string): Result<int, VibeError>
  {
    if |text| > 64 || ParseStamp(text).None? then Err(Schema)
    else Ok(StampEpoch(ParseStamp(text).value))
  }

  lemma HeadSlice(text: string, i: nat, j: nat)
    requires i <= j <= 19 <= |text|
    ensures text[..19][i..j] == text[i..j]
  {
  }

  predicate DateInRange(c: Civil)
    ensures DateInRange(c) <==> 1 <= c.year <= 9999 && IsCivil(c)
  {
    !(c.year < 1 || c.year > 9999 || c.month < 1 || c.month > 12 || c.day < 1
      || c.day > DaysInMonth(c.year, c.month))
  }

  /** The fixed-place part of the scan: separators, six fields and their ranges. */
  method ParseHeadAt(text: string) returns (head: Option<Head>)
    requires |text| >= 20
    ensures head == ParseHead(text[..19])
  {
    hide IsCivil;
    if text[4] != '-' || text[7] != '-' || (text[10] != 'T' && text[10] != 't' && text[10] != ' ')
       || text[13] != ':' || text[16] != ':' {
      return None;
    }
    ghost var s := text[..19];
    HeadSlice(text, 0, 4);
    HeadSlice(text, 5, 7);
    HeadSlice(text, 8, 10);
    HeadSlice(text, 11, 13);
    HeadSlice(text, 14, 16);
    HeadSlice(text, 17, 19);
    var year := ParseDigits(text, 0, 4);
    var month := ParseDigits(text, 5, 2);
    var day := ParseDigits(text, 8, 2);
    var hour := ParseDigits(text, 11, 2);
    var minute := ParseDigits(text, 14, 2);
    var second := ParseDigits(text, 17, 2);
    if year.None? || month.None? || day.None? || hour.None? || minute.None? || second.None? {
      return None;
    }
    var date := Civil(year.value, month.value, day.value);
    if !DateInRange(date) || hour.value > 23 || minute.value > 59 || second.value > 60 {
      return None;
    }
    return Some(Head(date, text[10], hour.value, minute.value, second.value));
  }

  /** The offset part of the scan: seconds east of UTC when it ends exactly at the end of the text. */
  method ParseOffsetAt(text: string, start: nat) returns (seconds: Option<int>)
    requires start <= |text|
    ensures seconds ==
      match ParseOffset(text[start..])
      case None => None
      case Some(Zulu(_)) => Some(0)
      case Some(Numeric(negative, hours, minutes)) =>
        Some((hours * 60 + minutes) * (if negative then -60 else 60))
  {
    var length, cursor := |text|, start;
    var offsetSeconds := 0;
    ghost var s := text[start..];
    if cursor < length && (text[cursor] == 'Z' || text[cursor] == 'z') {
      cursor := cursor + 1;
    } else if cursor + 6 == length && (text[cursor] == '+' || text[cursor] == '-')
              && text[cursor + 3] == ':' {
      assert s[1..3] == text[cursor + 1..cursor + 3] && s[4..6] == text[cursor + 4..cursor + 6];
      var hours := ParseDigits(text, cursor + 1, 2);
      var minutes := ParseDigits(text, cursor + 4, 2);
      if hours.None? || minutes.None? || hours.value > 23 || minutes.value > 59 {
        return None;
      }
      offsetSeconds := hours.value * 3600 + minutes.value * 60;
      if text[cursor] == '-' {
        offsetSeconds := -offsetSeconds;
      }
      cursor := cursor + 6;
    } else {
      return None;
    }
    if cursor != length {
      return None;
    }
    return Some(offsetSeconds);
  }

  method Iso8601ToEpoch(text: string) returns (r: Result<int, VibeError>)
    ensures r == IsoEpoch(text)
  {
    hide ParseHead, ParseOffset, Field, IsHead, DaysFromCivil;
    var length := |text|;
    if length < 20 || length > 64 {
      return Err(Schema);
    }
    var head := ParseHeadAt(text);
    if head.None? {
      return Err(Schema);
    }
    var cursor := 19;
    ghost var tail := text[19..];
    if cursor < length && text[cursor] == '.' {
      cursor := cursor + 1;
      var fractionStart := cursor;
      while cursor < length && '0' <= text[cursor] <= '9'
        invariant 20 <= cursor <= length
        invariant DigitRun(tail, 1) == DigitRun(tail, cursor - 19)
      {
        cursor := cursor + 1;
      }
      if cursor == fractionStart {
        return Err(Schema);
      }
    }
    assert tail[cursor - 19..] == text[cursor..];
    var offset := ParseOffsetAt(text, cursor);
    if offset.None? {
      return Err(Schema);
    }
    var serial := DaysFromCivil(head.value.date);
    var seconds := serial * 86400 + head.value.hour * 3600 + head.value.minute * 60
                   + (if head.value.second == 60 then 59 else head.value.second);
    return Ok(seconds - offset.value);
  }

  /** Every accepted text names a second that fits `int64_t`. */
  lemma IsoEpochFits(text: string)
    requires IsoEpoch(text).Ok?
    ensures -TWO_63 <= IsoEpoch(text).value < TWO_63 - 86400
  {
    hide ParseStamp, DaysFromCivil, IsCivil, Render;
    var t := ParseStamp(text).value;
    StampsAreRendered(text, t);
    YearRange(t.head.date);
  }

  // ---------------------------------------------------------------- what an accepted text means

  /** The text of a date and clock time, a fraction and what stands for the offset. */
  function ClockText(c: Civil, separator: char, hour: int, minute: int, second: int, tail: string): string
    requires 0 <= c.year < 10000 && 0 <= c.month < 100 && 0 <= c.day < 100
    requires 0 <= hour < 100 && 0 <= minute < 100 && 0 <= second < 100
  {
    Digits4(c.year) + "-" + Digits2(c.month) + "-" + Digits2(c.day) + [separator]
    + Digits2(hour) + ":" + Digits2(minute) + ":" + Digits2(second) + tail
  }

  /** The clock shows this date and time `shift` seconds after the instant; a leap second shows as the one before. */
  predicate Reads(epoch: int, shift: int, c: Civil, hour: int, minute: int, second: int)
  {
    && Walk(EPOCH, (epoch + shift) / 86400) == c
    && (epoch + shift) % 86400 == hour * 3600 + minute * 60 + (if second == 60 then 59 else second)
  }

  lemma StampReads(t: Stamp)
    requires IsStamp(t) && |Render(t)| <= 64
    ensures IsoEpoch(Render(t)).Ok?
    ensures
      var shift := if t.offset.Zulu? then 0
                   else (t.offset.hours * 3600 + t.offset.minutes * 60) * (if t.offset.negative then -1 else 1);
      Reads(IsoEpoch(Render(t)).value, shift, t.head.date, t.head.hour, t.head.minute, t.head.second)
  {
    hide ParseStamp, DaysFromCivil, IsCivil, Render, CivilFromDays, Walk;
    StampsAreRendered(Render(t), t);
    var c := t.head.date;
    var clock := t.head.hour * 3600 + t.head.minute * 60 + (if t.head.second == 60 then 59 else t.head.second);
    DivUnique(DaysFromCivil(c) * 86400 + clock, 86400, DaysFromCivil(c), clock);
    CivilFromDaysCounts(DaysFromCivil(c));
    SameDay(Walk(EPOCH, DaysFromCivil(c)), c);
  }

  /**
   * In a text with a numeric offset the clock fields are what a clock shows that is ahead of UTC by the
   * hours and minutes after '+', or behind it by those after '-'.
   */
  lemma NumericOffsetReads(c: Civil, separator: char, hour: int, minute: int, second: int,
                           fraction: string, sign: char, hours: int, minutes: int)
    requires 1 <= c.year <= 9999 && IsCivil(c) && HasDateKey(c) && separator in {'T', 't', ' '}
    requires 0 <= hour <= 23 && 0 <= minute <= 59 && 0 <= second <= 60
    requires fraction == "" || (|fraction| >= 2 && fraction[0] == '.' && AllDigits(fraction[1..]))
    requires sign in {'+', '-'} && 0 <= hours <= 23 && 0 <= minutes <= 59
    ensures
      var text := ClockText(c, separator, hour, minute, second,
                            fraction + ([sign] + Digits2(hours) + ":" + Digits2(minutes)));
      var east := hours * 3600 + minutes * 60;
      && (IsoEpoch(text).Ok? <==> |fraction| <= 39)
      && (IsoEpoch(text).Ok? ==>
            Reads(IsoEpoch(text).value, if sign == '+' then east else -east, c, hour, minute, second))
  {
    hide Reads, Digits2, Digits4, IsCivil, ParseStamp, StampEpoch;
    var tail := [sign] + Digits2(hours) + ":" + Digits2(minutes);
    var f := if fraction == "" then None else Some(fraction[1..]);
    var t := Stamp(Head(c, separator, hour, minute, second), f, Numeric(sign == '-', hours, minutes));
    var text := ClockText(c, separator, hour, minute, second, fraction + tail);
    assert RenderFraction(f) == fraction;
    assert RenderOffset(t.offset) == tail;
    assert text == Render(t);
    if |text| <= 64 {
      StampReads(t);
    }
  }

  /** In a text that ends in 'Z' or 'z' the fields are what a clock on UTC shows. */
  lemma ZuluReads(c: Civil, separator: char, hour: int, minute: int, second: int, fraction: string, mark: char)
    requires 1 <= c.year <= 9999 && IsCivil(c) && HasDateKey(c) && separator in {'T', 't', ' '}
    requires 0 <= hour <= 23 && 0 <= minute <= 59 && 0 <= second <= 60
    requires fraction == "" || (|fraction| >= 2 && fraction[0] == '.' && AllDigits(fraction[1..]))
    requires mark in {'Z', 'z'}
    ensures
      var text := ClockText(c, separator, hour, minute, second, fraction + [mark]);
      && (IsoEpoch(text).Ok? <==> |fraction| <= 44)
      && (IsoEpoch(text).Ok? ==> Reads(IsoEpoch(text).value, 0, c, hour, minute, second))
  {
    hide Reads, Digits2, Digits4, IsCivil, ParseStamp, StampEpoch;
    var f := if fraction == "" then None else Some(fraction[1..]);
    var t := Stamp(Head(c, separator, hour, minute, second), f, Zulu(mark));
    var text := ClockText(c, separator, hour, minute, second, fraction + [mark]);
    assert RenderFraction(f) == fraction;
    assert text == Render(t);
    if |text| <= 64 {
      StampReads(t);
    }
  }

  lemma RenderIsClockText(t: Stamp)
    requires IsStamp(t)
    ensures HasDateKey(t.head.date)
    ensures Render(t) == ClockText(t.head.date, t.head.separator, t.head.hour, t.head.minute, t.head.second,
                                   RenderFraction(t.fraction) + RenderOffset(t.offset))
  {
    hide Digits2, Digits4, IsCivil, RenderFraction, RenderOffset;
    HeadHasDateKey(t.head.date);
  }

  /** What may stand for the offset: `Z`, or a sign, hours and minutes. */
  predicate IsTail(tail: string, hours: int, minutes: int)
    requires 0 <= hours <= 23 && 0 <= minutes <= 59
  {
    || tail == "Z" || tail == "z"
    || tail == "+" + Digits2(hours) + ":" + Digits2(minutes)
    || tail == "-" + Digits2(hours) + ":" + Digits2(minutes)
  }

  lemma OffsetIsTail(o: Offset) returns (hours: int, minutes: int)
    requires IsOffset(o)
    ensures 0 <= hours <= 23 && 0 <= minutes <= 59 && IsTail(RenderOffset(o), hours, minutes)
  {
    hide Digits2;
    hours, minutes := 0, 0;
    if o.Numeric? {
      hours, minutes := o.hours, o.minutes;
    }
  }

  /** Only such texts are accepted: any other is refused. */
  lemma AcceptedTexts(text: string)
    returns (c: Civil, separator: char, hour: int, minute: int, second: int, fraction: string,
             tail: string, hours: int, minutes: int)
    requires IsoEpoch(text).Ok?
    ensures |text| <= 64 && 1 <= c.year <= 9999 && IsCivil(c) && HasDateKey(c) && separator in {'T', 't', ' '}
    ensures 0 <= hour <= 23 && 0 <= minute <= 59 && 0 <= second <= 60
    ensures fraction == "" || (|fraction| >= 2 && fraction[0] == '.' && AllDigits(fraction[1..]))
    ensures 0 <= hours <= 23 && 0 <= minutes <= 59 && IsTail(tail, hours, minutes)
    ensures text == ClockText(c, separator, hour, minute, second, fraction + tail)
  {
    hide ParseStamp, StampEpoch, IsCivil, Render, ClockText, RenderOffset, IsTail;
    var t := ParseStamp(text).value;
    StampsAreRendered(text, t);
    RenderIsClockText(t);
    c, separator, hour, minute, second := t.head.date, t.head.separator, t.head.hour, t.head.minute, t.head.second;
    fraction, tail := RenderFraction(t.fraction), RenderOffset(t.offset);
    hours, minutes := OffsetIsTail(t.offset);
    assert t.fraction.Some? ==> fraction[1..] == t.fraction.value;
  }

  lemma EightHours()
    ensures Digits2(8) == "08" && Digits2(0) == "00"
  {
  }

  /** A clock time of Shanghai, written with its offset, falls there on the date written. */
  lemma OwnOffsetKeepsDate(c: Civil, hour: int, minute: int, second: int)
    requires 1 <= c.year <= 9999 && IsCivil(c) && HasDateKey(c)
    requires 0 <= hour <= 23 && 0 <= minute <= 59 && 0 <= second <= 60
    ensures
      var text := ClockText(c, 'T', hour, minute, second, "+08:00");
      IsoEpoch(text).Ok?
      && (IsoEpochFits(text); DateFromEpoch(IsoEpoch(text).value, AsiaShanghai)) == Ok(KeyOf(c))
  {
    EightHours();
    hide IsoEpoch, Digits2, Digits4, IsCivil, DateFromEpoch, Walk;
    NumericOffsetReads(c, 'T', hour, minute, second, "", '+', 8, 0);
    assert "" + (['+'] + Digits2(8) + ":" + Digits2(0)) == "+08:00";
    var text := ClockText(c, 'T', hour, minute, second, "+08:00");
    var epoch := IsoEpoch(text).value;
    IsoEpochFits(text);
    DateFromEpochNarrows(epoch, AsiaShanghai);
    CastsExact(c.year);
  }

  method Iso8601ToDate(text: string, zone: Timezone) returns (r: Result<int, VibeError>)
    ensures r == match IsoEpoch(text)
                 case Err(e) => Err(e)
                 case Ok(epoch) => (IsoEpochFits(text); DateFromEpoch(epoch, zone))
  {
    hide IsoEpoch, DateFromEpoch;
    var epoch := Iso8601ToEpoch(text);
    if epoch.Err? {
      return Err(epoch.error);
    }
    IsoEpochFits(text);
    return DateFromEpoch(epoch.value, zone);
  }

  // ---------------------------------------------------------------- printing

  const NUL: char := '\0'

  /** `vibe_date_format_iso`: ten characters and a terminator, or an untouched buffer. */
  method FormatIso(key: int32, output: array<char>) returns (error: Option<VibeError>)
    requires output.Length >= 11
    modifies output
    ensures SplitDate(key).None? ==> error == Some(InvalidArgument) && output[..] == old(output[..])
    ensures SplitDate(key).Some? ==>
      error.None? && HasDateKey(SplitDate(key).value)
      && output[..] == RenderDate(SplitDate(key).value) + [NUL] + old(output[11..])
  {
    hide IsCivil;
    var split := SplitDate(key);
    if split.None? {
      return Some(InvalidArgument);
    }
    var c := split.value;
    KeysAreDates(key, c);
    HeadHasDateKey(c);
    output[0] := DigitChar(c.year / 1000);
    output[1] := DigitChar(c.year / 100 % 10);
    output[2] := DigitChar(c.year / 10 % 10);
    output[3] := DigitChar(c.year % 10);
    output[4] := '-';
    output[5] := DigitChar(c.month / 10);
    output[6] := DigitChar(c.month % 10);
    output[7] := '-';
    output[8] := DigitChar(c.day / 10);
    output[9] := DigitChar(c.day % 10);
    output[10] := NUL;
    return None;
  }

  function Truncated(text: string, size: nat): string
    requires size >= 1
  {
    if |text| < size then text else text[..size - 1]
  }

  /** `snprintf`: at most `size - 1` characters of the text, then a terminator. */
  method Snprintf(output: array<char>, size: nat, text: string)
    requires 1 <= size <= output.Length
    modifies output
    ensures output[..] == Truncated(text, size) + [NUL] + old(output[|Truncated(text, size)| + 1..])
  {
    var n := if |text| < size then |text| else size - 1;
    for i := 0 to n
      invariant forall k :: 0 <= k < i ==> output[k] == text[k]
      invariant forall k :: i <= k < output.Length ==> output[k] == old(output[k])
    {
      output[i] := text[i];
    }
    output[n] := NUL;
    assert output[..n] == Truncated(text, size) && output[n + 1..] == old(output[n + 1..]);
    assert output[..] == output[..n] + [output[n]] + output[n + 1..];
  }

  // ---------------------------------------------------------------- one local day in UTC

  /** The UTC date on which the local day `c` begins. */
  function StartDate(c: Civil, zone: Timezone): Civil
  {
    if zone == AsiaShanghai then Predecessor(c) else c
  }

  /** The local days with bounds: all but the first one east of UTC. */
  predicate HasBounds(c: Civil, zone: Timezone)
  {
    zone != OtherZone && 1 <= c.year <= 9999 && IsCivil(c) && 1 <= StartDate(c, zone).year
  }

  lemma BoundDates(c: Civil, zone: Timezone)
    requires HasBounds(c, zone)
    ensures HasDateKey(c) && HasDateKey(StartDate(c, zone))
    ensures IsCivil(StartDate(c, zone)) && StartDate(c, zone).year <= 9999
  {
    PredecessorIsCivil(c);
    HeadHasDateKey(c);
    HeadHasDateKey(StartDate(c, zone));
  }

  function WindowFrom(c: Civil, zone: Timezone): string
    requires HasBounds(c, zone)
  {
    BoundDates(c, zone);
    RenderDate(StartDate(c, zone)) + ("T" + (if zone == AsiaShanghai then "16" else "00") + ":00:00.000Z")
  }

  function WindowTo(c: Civil, zone: Timezone): string
    requires HasBounds(c, zone)
  {
    BoundDates(c, zone);
    RenderDate(c) + ("T" + (if zone == AsiaShanghai then "15" else "23") + ":59:59.999Z")
  }

  /** A date and a clock suffix, printed into a 25-character buffer. */
  method PrintBound(key: int32, suffix: string, output: array<char>)
    requires SplitDate(key).Some? && |suffix| == 14 && output.Length == 25
    modifies output
    ensures HasDateKey(SplitDate(key).value)
    ensures output[..] == RenderDate(SplitDate(key).value) + suffix + [NUL]
  {
    hide RenderDate, SplitDate, HasDateKey;
    var date := new char[11];
    var ignored := FormatIso(key, date);
    Snprintf(output, 25, date[..10] + suffix);
  }

  lemma PredecessorYear(c: Civil)
    ensures c.year - 1 <= Predecessor(c).year <= c.year
  {
  }

  lemma DayBefore(key: int32, c: Civil)
    requires SplitDate(key) == Some(c)
    ensures AddDays(key, -1) == if 1 <= Predecessor(c).year then Ok(KeyOf(Predecessor(c))) else Err(OutOfRange)
    ensures AddDays(key, -1).Ok? ==>
      SplitDate(AddDays(key, -1).value) == Some(Predecessor(c)) && -TWO_31 <= AddDays(key, -1).value < TWO_31
  {
    hide CivilFromDays, DaysFromCivil, IsCivil, Predecessor;
    KeysAreDates(key, c);
    PredecessorYear(c);
    AddDaysWalks(key, -1, c);
    assert Walk(c, -1) == Walk(Predecessor(c), 0);
    if AddDays(key, -1).Ok? {
      AddDaysIsDate(key, -1, c);
    }
  }

  method ApiBounds(key: int32, zone: Timezone, from: array<char>, to: array<char>)
    returns (error: Option<VibeError>)
    requires from.Length == 25 && to.Length == 25 && from != to
    modifies from, to
    ensures error.None? <==> SplitDate(key).Some? && HasBounds(SplitDate(key).value, zone)
    ensures error.None? ==>
      var c := SplitDate(key).value;
      from[..] == WindowFrom(c, zone) + [NUL] && to[..] == WindowTo(c, zone) + [NUL]
    ensures error.Some? ==> from[..] == old(from[..]) && to[..] == old(to[..])
    ensures error.Some? ==>
      error.value == if SplitDate(key).None? || zone == OtherZone then InvalidArgument else OutOfRange
  {
    hide IsCivil, Predecessor, RenderDate, SplitDate, AddDays, HasDateKey;
    if SplitDate(key).None? || (zone != AsiaShanghai && zone != Utc) {
      return Some(InvalidArgument);
    }
    ghost var c := SplitDate(key).value;
    KeysAreDates(key, c);
    var startKey: int32 := key;
    if zone == AsiaShanghai {
      DayBefore(key, c);
      var moved := AddDays(key, -1);
      if moved.Err? {
        return Some(moved.error);
      }
      startKey := moved.value;
    }
    BoundDates(c, zone);
    PrintBound(startKey, "T" + (if zone == AsiaShanghai then "16" else "00") + ":00:00.000Z", from);
    PrintBound(key, "T" + (if zone == AsiaShanghai then "15" else "23") + ":59:59.999Z", to);
    return None;
  }

  /** The stamp with the given clock fields, milliseconds and the mark `Z`. */
  function UtcStamp(c: Civil, hour: int, minute: int, second: int, millis: string): Stamp
  {
    Stamp(Head(c, 'T', hour, minute, second), Some(millis), Zulu('Z'))
  }

  function ClockSuffix(hour: int, minute: int, second: int, millis: string): string
    requires 0 <= hour < 100 && 0 <= minute < 100 && 0 <= second < 100
  {
    "T" + Digits2(hour) + ":" + Digits2(minute) + ":" + Digits2(second) + "." + millis + "Z"
  }

  lemma UtcStampParses(c: Civil, hour: int, minute: int, second: int, millis: string)
    requires 1 <= c.year <= 9999 && IsCivil(c) && HasDateKey(c)
    requires 0 <= hour < 24 && 0 <= minute < 60 && 0 <= second < 60
    requires |millis| == 3 && AllDigits(millis)
    ensures IsoEpoch(RenderDate(c) + ClockSuffix(hour, minute, second, millis))
         == Ok(DaysFromCivil(c) * 86400 + hour * 3600 + minute * 60 + second)
  {
    hide ParseStamp, DaysFromCivil, IsCivil, Digits2, RenderDate;
    var t := UtcStamp(c, hour, minute, second, millis);
    var text := RenderDate(c) + ClockSuffix(hour, minute, second, millis);
    assert text == Render(t);
    StampsAreRendered(text, t);
  }

  lemma WindowDigits()
    ensures Digits2(16) == "16" && Digits2(0) == "00" && Digits2(15) == "15"
    ensures Digits2(23) == "23" && Digits2(59) == "59"
  {
  }

  lemma WindowSuffixes()
    ensures ClockSuffix(16, 0, 0, "000") == "T" + "16" + ":00:00.000Z"
    ensures ClockSuffix(0, 0, 0, "000") == "T" + "00" + ":00:00.000Z"
    ensures ClockSuffix(15, 59, 59, "999") == "T" + "15" + ":59:59.999Z"
    ensures ClockSuffix(23, 59, 59, "999") == "T" + "23" + ":59:59.999Z"
  {
    WindowDigits();
    hide Digits2;
  }

  /** The two bounds parse to the first and the last second of the local day. */
  lemma WindowInstants(c: Civil, zone: Timezone)
    requires HasBounds(c, zone)
    ensures IsoEpoch(WindowFrom(c, zone)) == Ok(DaysFromCivil(c) * 86400 - UtcOffset(zone))
    ensures IsoEpoch(WindowTo(c, zone)) == Ok(DaysFromCivil(c) * 86400 - UtcOffset(zone) + 86399)
  {
    hide IsoEpoch, DaysFromCivil, RenderDate, IsCivil, Predecessor, ClockSuffix;
    BoundDates(c, zone);
    PredecessorSubtractsOne(c);
    WindowSuffixes();
    if zone == AsiaShanghai {
      UtcStampParses(Predecessor(c), 16, 0, 0, "000");
      UtcStampParses(c, 15, 59, 59, "999");
    } else {
      UtcStampParses(c, 0, 0, 0, "000");
      UtcStampParses(c, 23, 59, 59, "999");
    }
  }

  lemma BoundsFit(c: Civil, zone: Timezone)
    requires HasBounds(c, zone)
    ensures DaysFromCivil(c) * 86400 + 86400 < TWO_63
  {
    YearRange(c);
  }

  /**
   * The bounds of a day enclose exactly the seconds that fall on it, and the clock conversion puts
   * exactly these on it, save for seconds whose year wraps into range.
   */
  lemma WindowIsTheDay(c: Civil, zone: Timezone, epoch: int64)
    requires HasBounds(c, zone)
    ensures IsoEpoch(WindowFrom(c, zone)).Ok? && IsoEpoch(WindowTo(c, zone)).Ok?
    ensures
      var within := IsoEpoch(WindowFrom(c, zone)).value <= epoch <= IsoEpoch(WindowTo(c, zone)).value;
      (within <==> LocalDate(epoch, zone) == c)
      && (within ==> DateFromEpoch(epoch, zone) == Ok(KeyOf(c)))
      && (!Wraps(LocalDate(epoch, zone)) ==> (within <==> DateFromEpoch(epoch, zone) == Ok(KeyOf(c))))
  {
    hide IsoEpoch, DateFromEpoch, DaysFromCivil, CivilFromDays, IsCivil, WindowFrom, WindowTo, Walk;
    var day := LocalDay(epoch, zone);
    var w := LocalDate(epoch, zone);
    WindowInstants(c, zone);
    DateFromEpochCounts(epoch, zone);
    CivilFromDaysCounts(day);
    if day == DaysFromCivil(c) {
      SameDay(c, w);
      BoundsFit(c, zone);
    } else {
      KeysAreDates(KeyOf(c), c);
      KeysAreDates(KeyOf(w), w);
    }
  }

  lemma SuccessorYear(c: Civil)
    ensures c.year <= Successor(c).year <= c.year + 1
  {
  }

  /** The windows of consecutive days meet without overlap or gap. */
  lemma WindowsAdjoin(c: Civil, zone: Timezone)
    requires HasBounds(c, zone) && Successor(c).year <= 9999
    ensures HasBounds(Successor(c), zone)
    ensures IsoEpoch(WindowTo(c, zone)).Ok? && IsoEpoch(WindowFrom(Successor(c), zone)).Ok?
    ensures IsoEpoch(WindowFrom(Successor(c), zone)).value == IsoEpoch(WindowTo(c, zone)).value + 1
  {
    hide IsoEpoch, DaysFromCivil, IsCivil, WindowFrom, WindowTo, Predecessor;
    SuccessorIsCivil(c);
    SuccessorAddsOne(c);
    SuccessorYear(c);
    WindowInstants(c, zone);
    WindowInstants(Successor(c), zone);
  }
}
