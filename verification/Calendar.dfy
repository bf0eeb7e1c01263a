/** Civil dates and serial days, as in components/vibe_usage/src/vibe_date.c. */
module Calendar {
  import opened Bytes

  datatype Civil = Civil(year: int, month: int, day: int)

  // ---------------------------------------------------------------- the calendar itself

  predicate IsLeap(year: int)
  {
    (year % 4 == 0 && year % 100 != 0) || year % 400 == 0
  }

  function DaysInMonth(year: int, month: int): nat
  {
    if month == 2 && IsLeap(year) then 29
    else if 1 <= month <= 12 then [31, 28, 31, 30, 31, 30, 31, 31, 30, 31, 30, 31][month - 1]
    else 0
  }

  predicate IsCivil(c: Civil)
  {
    1 <= c.month <= 12 && 1 <= c.day <= DaysInMonth(c.year, c.month)
  }

  /** The next calendar day, by the month lengths alone. */
  function Successor(c: Civil): Civil
  {
    if c.day < DaysInMonth(c.year, c.month) then Civil(c.year, c.month, c.day + 1)
    else if c.month < 12 then Civil(c.year, c.month + 1, 1)
    else Civil(c.year + 1, 1, 1)
  }

  /** The previous calendar day, by the month lengths alone. */
  function Predecessor(c: Civil): Civil
  {
    if c.day > 1 then Civil(c.year, c.month, c.day - 1)
    else if c.month > 1 then Civil(c.year, c.month - 1, DaysInMonth(c.year, c.month - 1))
    else Civil(c.year - 1, 12, 31)
  }

  /** The calendar day `n` days after (before, when negative) `c`, one day at a time. */
  function Walk(c: Civil, n: int): Civil
    decreases if n < 0 then -n else n
  {
    if n == 0 then c
    else if n > 0 then Walk(Successor(c), n - 1)
    else Walk(Predecessor(c), n + 1)
  }

  // ---------------------------------------------------------------- the source's arithmetic

  function DaysFromCivil(c: Civil): int
  {
    var year := if c.month <= 2 then c.year - 1 else c.year;
    var era := TruncDiv(if year >= 0 then year else year - 399, 400);
    var yearOfEra := ToUint32(year - era * 400);
    var shifted := ToUint32(c.month + (if c.month > 2 then ToUint32(-3) else 9));
    var dayOfYear := (153 * shifted + 2) / 5 + c.day - 1;
    var dayOfEra := yearOfEra * 365 + yearOfEra / 4 - yearOfEra / 100 + dayOfYear;
    era * 146097 + dayOfEra - 719468
  }

  /** The year estimate from a day of the era. */
  function YearOfEra(dayOfEra: int): int
  {
    (dayOfEra - dayOfEra / 1460 + dayOfEra / 36524 - dayOfEra / 146096) / 365
  }

  /** Calendar month of a March-based month index, in `unsigned` arithmetic. */
  function CalendarMonth(monthPrime: int): int
  {
    ToUint32(monthPrime + (if monthPrime < 10 then 3 else ToUint32(-9)))
  }

  /**
   * The year is cast to `int` and added up in `int`, both modulo 2^32. (C leaves an overflowing sum
   * undefined; `SumsFitInRange` shows that none lies behind a year in 1 to 9999.)
   */
  function CivilFromDays(days: int): Civil
  {
    var shifted := days + 719468;
    var era := TruncDiv(if shifted >= 0 then shifted else shifted - 146096, 146097);
    var dayOfEra := ToUint32(shifted - era * 146097);
    var yearOfEra := YearOfEra(dayOfEra);
    var resultYear := ToInt32(ToInt32(yearOfEra) + ToInt32(era * 400));
    var dayOfYear := dayOfEra - (365 * yearOfEra + yearOfEra / 4 - yearOfEra / 100);
    var monthPrime := (5 * dayOfYear + 2) / 153;
    var day := dayOfYear - (153 * monthPrime + 2) / 5 + 1;
    var month := CalendarMonth(monthPrime);
    Civil(if month <= 2 then ToInt32(resultYear + 1) else resultYear, month, day)
  }

  // ---------------------------------------------------------------- era-relative form

  /** Days from 1 March to the first of the month with March-based index `m`. */
  function MonthStart(m: int): int
  {
    (153 * m + 2) / 5
  }

  /** March-based month index of a calendar month. */
  function MarchMonth(month: int): int
  {
    if month > 2 then month - 3 else month + 9
  }

  function MarchYear(c: Civil): int
  {
    if c.month <= 2 then c.year - 1 else c.year
  }

  lemma TruncDivIsFloor(a: int, b: int)
    requires b > 0
    ensures TruncDiv(if a >= 0 then a else a - (b - 1), b) == a / b
  {
    if a < 0 {
      var n := b - 1 - a;
      var q := n / b;
      assert n == q * b + n % b;
      var r := b - 1 - n % b;
      assert a == (-q) * b + r by {
        assert (-q) * b == -(q * b);
      }
      assert 0 <= r < b;
      DivUnique(a, b, -q, r);
    }
  }

  /** Serial day of 1 March of year `y`, counted from 1 March of year 0. */
  function YearStart(y: int): int
  {
    y / 400 * 146097 + y % 400 * 365 + y % 400 / 4 - y % 400 / 100
  }

  lemma MonthShifted(month: int)
    requires 1 <= month <= 12
    ensures ToUint32(month + (if month > 2 then ToUint32(-3) else 9)) == MarchMonth(month)
  {
  }

  /** `DaysFromCivil` without the C types: March-based year, then day of that year. */
  lemma DaysByEra(c: Civil)
    requires 1 <= c.month <= 12
    ensures DaysFromCivil(c)
         == YearStart(MarchYear(c)) + MonthStart(MarchMonth(c.month)) + c.day - 1 - 719468
  {
    hide TruncDiv, ToUint32;
    var y := MarchYear(c);
    TruncDivIsFloor(y, 400);
    CastsExact(y % 400);
    MonthShifted(c.month);
  }

  // ---------------------------------------------------------------- successor law

  lemma DivStep(a: int, b: int)
    requires b > 0
    ensures (a + 1) / b == a / b + if (a + 1) % b == 0 then 1 else 0
  {
    var q, r := a / b, a % b;
    if r == b - 1 {
      assert (q + 1) * b == q * b + b;
      DivUnique(a + 1, b, q + 1, 0);
    } else {
      DivUnique(a + 1, b, q, r + 1);
    }
  }

  lemma LeapInEra(yoe: int)
    requires 0 <= yoe < 400
    ensures IsLeap(yoe) <==> yoe % 4 == 0 && (yoe % 100 != 0 || yoe == 0)
  {
  }

  lemma LeapWithinEra(year: int)
    ensures IsLeap(year) <==> IsLeap(year % 400)
  {
    var era, yoe := year / 400, year % 400;
    DivUnique(year, 4, era * 100 + yoe / 4, yoe % 4);
    DivUnique(year, 100, era * 4 + yoe / 100, yoe % 100);
  }

  /** A March-based year has 366 days exactly when its closing February is in a leap year. */
  lemma YearLength(y: int)
    ensures YearStart(y + 1) == YearStart(y) + if IsLeap(y + 1) then 366 else 365
  {
    hide IsLeap;
    var era, yoe := y / 400, y % 400;
    LeapWithinEra(y + 1);
    if yoe == 399 {
      DivUnique(y + 1, 400, era + 1, 0);
      LeapInEra(0);
    } else {
      DivUnique(y + 1, 400, era, yoe + 1);
      DivStep(yoe, 4);
      DivStep(yoe, 100);
      LeapInEra(yoe + 1);
    }
  }

  /** Within a March-based year a month starts where the previous one ends. */
  lemma MonthLength(year: int, month: int)
    requires 1 <= month <= 12 && month != 2
    ensures MonthStart(MarchMonth(if month == 12 then 1 else month + 1))
         == MonthStart(MarchMonth(month)) + DaysInMonth(year, month)
  {
  }

  lemma SuccessorIsCivil(c: Civil)
    requires IsCivil(c)
    ensures IsCivil(Successor(c)) && Predecessor(Successor(c)) == c
  {
  }

  lemma PredecessorIsCivil(c: Civil)
    requires IsCivil(c)
    ensures IsCivil(Predecessor(c)) && Successor(Predecessor(c)) == c
  {
  }

  /** One calendar day is one serial day. */
  lemma SuccessorAddsOne(c: Civil)
    requires IsCivil(c)
    ensures DaysFromCivil(Successor(c)) == DaysFromCivil(c) + 1
  {
    hide DaysFromCivil, YearStart;
    SuccessorIsCivil(c);
    DaysByEra(c);
    DaysByEra(Successor(c));
    if c.day == DaysInMonth(c.year, c.month) {
      if c.month == 2 {
        YearLength(c.year - 1);
      } else {
        MonthLength(c.year, c.month);
      }
    }
  }

  lemma PredecessorSubtractsOne(c: Civil)
    requires IsCivil(c)
    ensures DaysFromCivil(Predecessor(c)) == DaysFromCivil(c) - 1
  {
    PredecessorIsCivil(c);
    SuccessorAddsOne(Predecessor(c));
  }

  // ---------------------------------------------------------------- the conversions are inverse

  /** Day of the March-based year. */
  function DayOfYear(c: Civil): int
  {
    MonthStart(MarchMonth(c.month)) + c.day - 1
  }

  lemma DayOfYearBounds(c: Civil)
    requires IsCivil(c)
    ensures 0 <= DayOfYear(c) <= 365
    ensures DayOfYear(c) == 365 ==> IsLeap(MarchYear(c) + 1)
  {
  }

  lemma MonthRecovered(c: Civil)
    requires IsCivil(c)
    ensures (5 * DayOfYear(c) + 2) / 153 == MarchMonth(c.month)
  {
  }

  /** The estimate is exact: its divisions count each leap day once, whatever the century. */
  lemma YearRecoveredByParts(c: int, q: int, s: int, doy: int)
    requires 0 <= c < 4 && 0 <= q < 25 && 0 <= s < 4 && 0 <= doy <= 365
    requires doy == 365 ==> s == 3 && (q != 24 || c == 3)
    ensures 0 <= 36524 * c + 1461 * q + 365 * s + doy < 146097
    ensures YearOfEra(36524 * c + 1461 * q + 365 * s + doy) == 100 * c + 4 * q + s
  {
    var doe := 36524 * c + 1461 * q + 365 * s + doy;
    var lastDay := if doe == 146096 then 1 else 0;
    DivUnique(doe, 36524, c + lastDay, doe - 36524 * (c + lastDay));
    DivUnique(doe, 146096, lastDay, doe - 146096 * lastDay);
    var residue := 24 * c + q + 365 * s + doy;
    var carry := if residue >= 1460 then 1 else 0;
    DivUnique(doe, 1460, 25 * c + q + carry, residue - 1460 * carry);
    DivUnique(36500 * c + 1460 * q + 365 * s + doy - carry, 365, 100 * c + 4 * q + s, doy - carry);
  }

  lemma YearRecovered(yoe: int, doy: int)
    requires 0 <= yoe < 400 && 0 <= doy <= 365
    requires doy == 365 ==> (yoe + 1) % 4 == 0 && ((yoe + 1) % 100 != 0 || yoe == 399)
    ensures 0 <= yoe * 365 + yoe / 4 - yoe / 100 + doy < 146097
    ensures YearOfEra(yoe * 365 + yoe / 4 - yoe / 100 + doy) == yoe
  {
    hide YearOfEra;
    var c, r := yoe / 100, yoe % 100;
    var q, s := r / 4, r % 4;
    DivUnique(yoe, 4, 25 * c + q, s);
    YearRecoveredByParts(c, q, s, doy);
  }

  /** The leap rule read from the year of the era. */
  lemma LeapByYearOfEra(y: int)
    requires IsLeap(y + 1)
    ensures (y % 400 + 1) % 4 == 0 && ((y % 400 + 1) % 100 != 0 || y % 400 == 399)
  {
    LeapWithinEra(y + 1);
    var era, yoe := y / 400, y % 400;
    if yoe < 399 {
      DivUnique(y + 1, 400, era, yoe + 1);
    }
  }

  lemma EraRecovered(era: int, doe: int)
    requires 0 <= doe < 146097
    ensures
      var shifted := era * 146097 + doe;
      TruncDiv(if shifted >= 0 then shifted else shifted - 146096, 146097) == era
  {
    hide TruncDiv;
    var shifted := era * 146097 + doe;
    TruncDivIsFloor(shifted, 146097);
    DivUnique(shifted, 146097, era, doe);
  }

  lemma MonthRestored(m: int)
    requires 0 <= m < 12
    ensures CalendarMonth(m) == if m < 10 then m + 3 else m - 9
  {
  }

  /** `CivilFromDays` with only its narrowing casts left, for an era, a year of it and a day of that year. */
  lemma CivilByEra(era: int, yoe: int, doy: int)
    requires 0 <= yoe < 400 && 0 <= doy <= 365
    requires 0 <= yoe * 365 + yoe / 4 - yoe / 100 + doy < 146097
    requires YearOfEra(yoe * 365 + yoe / 4 - yoe / 100 + doy) == yoe
    ensures
      var m := (5 * doy + 2) / 153;
      var month := if m < 10 then m + 3 else m - 9;
      CivilFromDays(era * 146097 + (yoe * 365 + yoe / 4 - yoe / 100 + doy) - 719468)
      == Civil(ToInt32(era * 400 + yoe + (if month <= 2 then 1 else 0)),
               month, doy - MonthStart(m) + 1)
  {
    hide YearOfEra, TruncDiv, CalendarMonth, ToUint32, ToInt32;
    var doe := yoe * 365 + yoe / 4 - yoe / 100 + doy;
    EraRecovered(era, doe);
    CastsExact(doe);
    CastsExact(yoe);
    ToInt32Adds(era * 400, yoe);
    ToInt32Adds(era * 400 + yoe, 1);
    MonthRestored((5 * doy + 2) / 153);
  }

  /** The date as `int` holds it: its year modulo 2^32. */
  function Narrowed(c: Civil): Civil
  {
    c.(year := ToInt32(c.year))
  }

  /** Converting a date to its serial day and back gives the date, its year narrowed to `int`. */
  lemma CivilOfDays(c: Civil)
    requires IsCivil(c)
    ensures CivilFromDays(DaysFromCivil(c)) == Narrowed(c)
  {
    hide CivilFromDays, DaysFromCivil, YearOfEra, ToInt32;
    var y, doy := MarchYear(c), DayOfYear(c);
    DaysByEra(c);
    DayOfYearBounds(c);
    if doy == 365 {
      LeapByYearOfEra(y);
    }
    YearRecovered(y % 400, doy);
    DivUnique(DaysFromCivil(c) + 719468, 146097, y / 400, YearStart(y) - y / 400 * 146097 + doy);
    CivilByEra(y / 400, y % 400, doy);
    MonthRecovered(c);
  }

  /** Walking `n` days moves the serial day by `n`. */
  lemma {:induction false} WalkAddsDays(c: Civil, n: int)
    requires IsCivil(c)
    ensures IsCivil(Walk(c, n)) && DaysFromCivil(Walk(c, n)) == DaysFromCivil(c) + n
    decreases if n < 0 then -n else n
  {
    hide DaysFromCivil, IsCivil, Successor, Predecessor;
    if n > 0 {
      SuccessorIsCivil(c);
      SuccessorAddsOne(c);
      WalkAddsDays(Successor(c), n - 1);
    } else if n < 0 {
      PredecessorIsCivil(c);
      PredecessorSubtractsOne(c);
      WalkAddsDays(Predecessor(c), n + 1);
    }
  }

  const EPOCH := Civil(1970, 1, 1)

  lemma EpochIsDayZero()
    ensures IsCivil(EPOCH) && DaysFromCivil(EPOCH) == 0
  {
    hide DaysFromCivil;
    DaysByEra(EPOCH);
  }

  /** For every serial day: the date reached by counting days from 1970-01-01, its year narrowed to `int`. */
  lemma CivilFromDaysCounts(days: int)
    ensures CivilFromDays(days) == Narrowed(Walk(EPOCH, days))
    ensures IsCivil(Walk(EPOCH, days)) && DaysFromCivil(Walk(EPOCH, days)) == days
  {
    hide CivilFromDays, DaysFromCivil, IsCivil, ToInt32;
    EpochIsDayZero();
    WalkAddsDays(EPOCH, days);
    CivilOfDays(Walk(EPOCH, days));
  }

  // ---------------------------------------------------------------- ranges of years

  const FIRST_DAY := -719162 // 0001-01-01
  const LAST_DAY := 2932896 // 9999-12-31
  const FIRST_INT_DAY := -784353015833 // the first day of year -2^31
  const LAST_INT_DAY := 784351576776 // the last day of year 2^31 - 1

  lemma {:induction false} YearStartGrows(y: int, z: int)
    requires y <= z
    ensures YearStart(y) + 365 * (z - y) <= YearStart(z)
    decreases z - y
  {
    hide YearStart;
    if y < z {
      YearLength(z - 1);
      YearStartGrows(y, z - 1);
    }
  }

  /** A date lies between 1 January and 31 December of its year. */
  lemma YearEnds(c: Civil)
    requires IsCivil(c)
    ensures YearStart(c.year - 1) + 306 - 719468 <= DaysFromCivil(c) <= YearStart(c.year) + 305 - 719468
  {
    hide DaysFromCivil, YearStart;
    DaysByEra(c);
    YearLength(c.year - 1);
  }

  /** Years from `first` to `last` are the serial days from 1 January of the one to 31 December of the other. */
  lemma YearsAreDays(c: Civil, first: int, last: int)
    requires IsCivil(c)
    ensures first <= c.year <= last <==>
      YearStart(first - 1) + 306 - 719468 <= DaysFromCivil(c) <= YearStart(last) + 305 - 719468
  {
    hide DaysFromCivil, YearStart, IsLeap;
    DaysByEra(c);
    YearEnds(c);
    if first <= c.year {
      YearStartGrows(first - 1, c.year - 1);
    } else {
      YearStartGrows(c.year, first - 1);
    }
    if c.year <= last {
      YearStartGrows(c.year, last);
    } else {
      YearStartGrows(last, c.year - 1);
    }
  }

  /** Dates are told apart by their serial days. */
  lemma SameDay(c: Civil, d: Civil)
    requires IsCivil(c) && IsCivil(d) && DaysFromCivil(c) == DaysFromCivil(d)
    ensures c == d
  {
    hide CivilFromDays, DaysFromCivil, IsLeap, IsCivil, ToInt32;
    YearEnds(c);
    YearEnds(d);
    CivilOfDays(c);
    CivilOfDays(d);
    if c.year < d.year {
      YearStartGrows(c.year, d.year - 1);
    } else if d.year < c.year {
      YearStartGrows(d.year, c.year - 1);
    }
  }

  /** A date lies in years 1 to 9999 exactly when its serial day lies in one interval. */
  lemma YearRange(c: Civil)
    requires IsCivil(c)
    ensures 1 <= c.year <= 9999 <==> FIRST_DAY <= DaysFromCivil(c) <= LAST_DAY
  {
    hide DaysFromCivil;
    assert YearStart(0) == 0 && YearStart(9999) == 3652059;
    YearsAreDays(c, 1, 9999);
  }

  lemma IntYearStarts(before: int, last: int)
    requires before == -2147483649 && last == 2147483647
    ensures YearStart(before) + 306 - 719468 == FIRST_INT_DAY
    ensures YearStart(last) + 305 - 719468 == LAST_INT_DAY
  {
  }

  /** A date's year fits `int` exactly when its serial day lies in one interval. */
  lemma IntYearRange(c: Civil)
    requires IsCivil(c)
    ensures -TWO_31 <= c.year < TWO_31 <==> FIRST_INT_DAY <= DaysFromCivil(c) <= LAST_INT_DAY
  {
    hide DaysFromCivil;
    IntYearStarts(-2147483649, 2147483647);
    YearsAreDays(c, -2147483648, 2147483647);
  }

  /** The conversion counts calendar days exactly on the serial days whose year fits `int`. */
  lemma CivilFromDaysExact(days: int)
    ensures CivilFromDays(days) == Walk(EPOCH, days) <==> FIRST_INT_DAY <= days <= LAST_INT_DAY
  {
    hide CivilFromDays, DaysFromCivil, IsCivil, Walk;
    CivilFromDaysCounts(days);
    IntYearRange(Walk(EPOCH, days));
    CastsExact(Walk(EPOCH, days).year);
  }

  /** The year of the era and the narrowed start of the era, which the conversion adds up. */
  function YearParts(days: int): (int, int32)
  {
    var shifted := days + 719468;
    (YearOfEra(shifted % 146097), ToInt32(shifted / 146097 * 400))
  }

  lemma YearOfEraBounds(doe: int)
    requires 0 <= doe < 146097
    ensures 0 <= YearOfEra(doe) <= 400
  {
  }

  lemma YearIsSum(days: int)
    ensures
      var (yoe, start) := YearParts(days);
      0 <= yoe <= 400 && CivilFromDays(days).year in {ToInt32(yoe + start), ToInt32(ToInt32(yoe + start) + 1)}
  {
    hide YearOfEra, TruncDiv, CalendarMonth, ToUint32, ToInt32;
    var era, doe := (days + 719468) / 146097, (days + 719468) % 146097;
    EraRecovered(era, doe);
    YearOfEraBounds(doe);
    CastsExact(doe);
    CastsExact(YearOfEra(doe));
  }

  /** Behind a year in 1 to 9999 neither `int` sum of the conversion has overflowed. */
  lemma SumsFitInRange(days: int)
    requires 1 <= CivilFromDays(days).year <= 9999
    ensures YearParts(days).0 + YearParts(days).1 + 1 < TWO_31
  {
    hide YearParts, CivilFromDays;
    YearIsSum(days);
    var sum := YearParts(days).0 + YearParts(days).1;
    if sum >= TWO_31 {
      DivUnique(sum, TWO_32, 0, sum);
      DivUnique(sum - TWO_32 + 1, TWO_32, -1, sum + 1);
    }
  }

  // ---------------------------------------------------------------- date keys

  datatype VibeError = InvalidArgument | Schema | Overflow | OutOfRange

  function KeyOf(c: Civil): int
  {
    c.year * 10000 + c.month * 100 + c.day
  }

  function SplitDate(key: int): Option<Civil>
  {
    if key <= 0 then None
    else
      var c := Civil(key / 10000, key / 100 % 100, key % 100);
      if 1 <= c.year <= 9999 && IsCivil(c) then Some(c) else None
  }

  lemma DaysInMonthBound(year: int, month: int)
    ensures DaysInMonth(year, month) <= 31
  {
  }

  /** Keys and dates of years 1 to 9999 correspond one to one. */
  lemma KeysAreDates(key: int, c: Civil)
    ensures SplitDate(key) == Some(c) <==> key == KeyOf(c) && 1 <= c.year <= 9999 && IsCivil(c)
  {
    hide DaysInMonth, IsLeap;
    if key == KeyOf(c) && 1 <= c.year <= 9999 && IsCivil(c) {
      DaysInMonthBound(c.year, c.month);
      DivUnique(key, 10000, c.year, c.month * 100 + c.day);
      DivUnique(key, 100, c.year * 100 + c.month, c.day);
      DivUnique(key / 100, 100, c.year, c.month);
    }
  }

  function AddDays(key: int32, delta: int32): Result<int, VibeError>
  {
    match SplitDate(key)
    case None => Err(InvalidArgument)
    case Some(c) =>
      var moved := CivilFromDays(DaysFromCivil(c) + delta);
      if moved.year < 1 || moved.year > 9999 then Err(OutOfRange) else Ok(KeyOf(moved))
  }

  /** Adding days walks the calendar, and fails exactly when the walk leaves years 1 to 9999. */
  lemma AddDaysWalks(key: int32, delta: int32, c: Civil)
    requires SplitDate(key) == Some(c)
    ensures
      AddDays(key, delta) ==
      var w := Walk(c, delta);
      if 1 <= w.year <= 9999 then Ok(KeyOf(w)) else Err(OutOfRange)
    ensures AddDays(key, delta).Ok? <==> FIRST_DAY <= DaysFromCivil(c) + delta <= LAST_DAY
  {
    hide CivilFromDays, DaysFromCivil, IsCivil, SplitDate, Walk, ToInt32;
    KeysAreDates(key, c);
    YearRange(c);
    WalkAddsDays(c, delta);
    CivilOfDays(Walk(c, delta));
    YearRange(Walk(c, delta));
    IntYearRange(Walk(c, delta));
    CastsExact(Walk(c, delta).year);
  }

  /** Exactly the keys of no date are refused as invalid. */
  lemma AddDaysRefuses(key: int32, delta: int32)
    ensures AddDays(key, delta) == Err(InvalidArgument) <==>
      forall c: Civil :: key == KeyOf(c) && 1 <= c.year <= 9999 ==> !IsCivil(c)
  {
    hide CivilFromDays, DaysFromCivil, SplitDate, IsCivil, KeyOf;
    forall c: Civil
      ensures SplitDate(key) == Some(c) <==> key == KeyOf(c) && 1 <= c.year <= 9999 && IsCivil(c)
    {
      KeysAreDates(key, c);
    }
  }

  /** Adding `a` days and then `b` days is adding `a + b` days. */
  lemma AddDaysComposes(key: int32, a: int32, b: int32)
    requires -TWO_31 <= a + b < TWO_31
    ensures AddDays(key, a).Ok? ==>
      -TWO_31 <= AddDays(key, a).value < TWO_31
      && AddDays(AddDays(key, a).value, b) == AddDays(key, a + b)
  {
    hide CivilFromDays, DaysFromCivil, IsCivil;
    if AddDays(key, a).Ok? {
      var c := SplitDate(key).value;
      var w := Walk(c, a);
      AddDaysWalks(key, a, c);
      KeysAreDates(key, c);
      WalkAddsDays(c, a);
      KeysAreDates(KeyOf(w), w);
    }
  }

  /** The key of a successful addition names the day walked to. */
  lemma AddDaysIsDate(key: int32, delta: int32, c: Civil)
    requires SplitDate(key) == Some(c)
    ensures AddDays(key, delta).Ok? ==>
      -TWO_31 <= AddDays(key, delta).value < TWO_31
      && SplitDate(AddDays(key, delta).value) == Some(Walk(c, delta))
  {
    hide CivilFromDays, DaysFromCivil, IsCivil, Walk;
    if AddDays(key, delta).Ok? {
      var w := Walk(c, delta);
      AddDaysWalks(key, delta, c);
      KeysAreDates(key, c);
      WalkAddsDays(c, delta);
      KeysAreDates(KeyOf(w), w);
    }
  }
}
