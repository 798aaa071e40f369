/** Calendar arithmetic of the platform log: the day-count-to-date computation used for time stamps,
    proved equal to a calendar that only knows how to step one day forwards or backwards. */
module Calendar {

  newtype i32 = x: int | -0x8000_0000 <= x < 0x8000_0000
  newtype u32 = x: int | 0 <= x < 0x1_0000_0000
  newtype i64 = x: int | -0x8000_0000_0000_0000 <= x < 0x8000_0000_0000_0000
  newtype u64 = x: int | 0 <= x < 0x1_0000_0000_0000_0000

  /** A day of the proleptic Gregorian calendar. */
  datatype Date = Date(year: int, month: int, day: int)

  // ---------------------------------------------------------------- the naive calendar

  predicate IsLeap(year: int) {
    year % 4 == 0 && (year % 100 != 0 || year % 400 == 0)
  }

  function DaysInMonth(year: int, month: int): int {
    if month == 2 then if IsLeap(year) then 29 else 28
    else if month in {4, 6, 9, 11} then 30
    else 31
  }

  predicate Valid(d: Date) {
    1 <= d.month <= 12 && 1 <= d.day <= DaysInMonth(d.year, d.month)
  }

  function NextDay(d: Date): Date {
    if d.day < DaysInMonth(d.year, d.month) then d.(day := d.day + 1)
    else if d.month < 12 then Date(d.year, d.month + 1, 1)
    else Date(d.year + 1, 1, 1)
  }

  function PreviousDay(d: Date): Date {
    if d.day > 1 then d.(day := d.day - 1)
    else if d.month > 1 then Date(d.year, d.month - 1, DaysInMonth(d.year, d.month - 1))
    else Date(d.year - 1, 12, 31)
  }

  const EPOCH := Date(1970, 1, 1)

  /** The date `n` days after 1 January 1970 (before it, when `n` is negative), one day at a time. */
  function NaiveDate(n: int): Date
    decreases if n < 0 then -n else n
  {
    if n == 0 then EPOCH
    else if n > 0 then NextDay(NaiveDate(n - 1))
    else PreviousDay(NaiveDate(n + 1))
  }

  predicate Before(a: Date, b: Date) {
    a.year < b.year || (a.year == b.year && (a.month < b.month || (a.month == b.month && a.day < b.day)))
  }

  // ---------------------------------------------------------------- the computation of the log

  /** Rust's `/` on signed integers: rounds towards zero. */
  function TruncatingDiv(a: int, b: int): int
    requires b > 0
  {
    if a >= 0 then a / b else -((-a) / b)
  }

  /** Rust's `as i32`: keeps the low 32 bits. */
  function WrapI32(x: int): (r: i32)
    ensures -0x8000_0000 <= x < 0x8000_0000 <==> r as int == x
  {
    (((x + 0x8000_0000) % 0x1_0000_0000) - 0x8000_0000) as i32
  }

  /** Year, month and day of day `doe` of an era; every subtraction is checked to stay in the unsigned type. */
  function InEra(doe: u32): (u32, u32, u32)
    requires doe < 146097
  {
    var yoe: u32 := (doe - doe / 1460 + doe / 36524 - doe / 146096) / 365;
    EraYear(doe as int);
    var doy: u32 := doe - (365 * yoe + yoe / 4 - yoe / 100);
    var mp: u32 := (5 * doy + 2) / 153;
    (yoe, if mp < 10 then mp + 3 else mp - 9, doy - (153 * mp + 2) / 5 + 1)
  }

  /** The era algorithm, with the integer types of the program.  The precondition is the one under which the first
      addition does not overflow. */
  function CivilFromDays(days: i64): (i32, u32, u32)
    requires days as int + 719468 < 0x8000_0000_0000_0000
  {
    var z: i64 := days + 719468;
    var era: i64 := TruncatingDiv((if z >= 0 then z else z - 146096) as int, 146097) as i64;
    FloorEra(z as int);
    var doe: u32 := (z - era * 146097) as u32;
    var (yoe, m, d) := InEra(doe);
    var y: i64 := yoe as i64 + era * 400;
    (WrapI32((if m <= 2 then y + 1 else y) as int), m, d)
  }

  // ---------------------------------------------------------------- the same computation on integers

  /** Year of the 400-year era that contains day `doe` of it; years start on 1 March. */
  function YearOfEra(doe: int): int {
    (doe - doe / 1460 + doe / 36524 - doe / 146096) / 365
  }

  function DaysBeforeYear(yoe: int): int {
    365 * yoe + yoe / 4 - yoe / 100
  }

  /** Day `doy` of the year that starts on 1 March of `year`. */
  function MarchDate(year: int, doy: int): Date {
    var mp := (5 * doy + 2) / 153;
    Date(if mp < 10 then year else year + 1, if mp < 10 then mp + 3 else mp - 9, doy - (153 * mp + 2) / 5 + 1)
  }

  /** Day `doe` of the 400-year era number `era`. */
  function EraDate(era: int, doe: int): Date {
    var yoe := YearOfEra(doe);
    MarchDate(yoe + era * 400, doe - DaysBeforeYear(yoe))
  }

  function IdealDate(days: int): Date {
    EraDate((days + 719468) / 146097, (days + 719468) % 146097)
  }

  lemma EraYear(doe: int)
    requires 0 <= doe < 146097
    ensures 0 <= YearOfEra(doe) < 400
    ensures 0 <= doe - DaysBeforeYear(YearOfEra(doe)) < YearLength(YearOfEra(doe))
  {
    var century := if doe < 146096 then doe / 36524 else 3;
    var inCentury := doe - 36524 * century;
    var four := inCentury / 1461;
    var inFour := inCentury - 1461 * four;
    var year := if inFour < 1460 then inFour / 365 else 3;
    LeapInEra(century, four, year);
    hide IsLeap, YearOfEra, DaysBeforeYear;
    EraYearParts(century, four, year, inFour - 365 * year);
  }

  function YearLength(yoe: int): int {
    if IsLeap(yoe + 1) then 366 else 365
  }

  /** Centuries of 36524 days, groups of four years of 1461 days, years of 365 days, and what is left. */
  lemma EraYearParts(century: int, four: int, year: int, doy: int)
    requires 0 <= century < 4 && 0 <= four < 25 && 0 <= year < 4
    requires 0 <= doy && doy < YearLength(100 * century + 4 * four + year)
    ensures YearOfEra(36524 * century + 1461 * four + 365 * year + doy) == 100 * century + 4 * four + year
    ensures DaysBeforeYear(100 * century + 4 * four + year) == 36524 * century + 1461 * four + 365 * year
  {
    var doe := 36524 * century + 1461 * four + 365 * year + doy;
    var yoe := 100 * century + 4 * four + year;
    var carry := if 365 * year + doy + four + 24 * century >= 1460 then 1 else 0;
    LeapInEra(century, four, year);
    hide IsLeap;
    YearParts(century, four, year);
    EraQuotients(century, four, year, doy, carry);
    assert doe - doe / 1460 + doe / 36524 - doe / 146096 == 365 * yoe + (doy - carry);
  }

  lemma YearParts(century: int, four: int, year: int)
    requires 0 <= century < 4 && 0 <= four < 25 && 0 <= year < 4
    ensures var yoe := 100 * century + 4 * four + year;
            yoe / 100 == century && yoe % 100 / 4 == four && yoe % 4 == year && yoe / 4 == 25 * century + four
  {
  }

  /** `carry` is 1 in the last days of a group of four years. */
  lemma EraQuotients(century: int, four: int, year: int, doy: int, carry: int)
    requires 0 <= century < 4 && 0 <= four < 25 && 0 <= year < 4
    requires 0 <= doy < if year == 3 && (four == 24 ==> century == 3) then 366 else 365
    requires carry == if 365 * year + doy + four + 24 * century >= 1460 then 1 else 0
    ensures var doe := 36524 * century + 1461 * four + 365 * year + doy;
            doe / 1460 == 25 * century + four + carry && doe / 36524 - doe / 146096 == century
    ensures 0 <= doy - carry < 365
  {
  }

  lemma LeapInEra(century: int, four: int, year: int)
    requires 0 <= century < 4 && 0 <= four < 25 && 0 <= year < 4
    ensures IsLeap(100 * century + 4 * four + year + 1) <==> year == 3 && (four == 24 ==> century == 3)
  {
    var inCentury := 4 * four + year + 1;
    Periodic4(year + 1, 25 * century + four);
    Periodic100(inCentury, century);
    MultipleUpTo(year + 1, 4);
    MultipleUpTo(inCentury, 100);
    MultipleUpTo(100 * century + inCentury, 400);
  }

  lemma MultipleUpTo(x: int, n: int)
    requires 0 < x <= n
    ensures x % n == 0 <==> x == n
  {
  }

  /** Within a year the date steps like the calendar, whatever the length of its February. */
  lemma MarchStep(year: int, doy: int)
    requires 0 <= doy < YearLength(year)
    ensures Valid(MarchDate(year, doy))
    ensures NextDay(MarchDate(year, doy)) ==
            if doy + 1 < YearLength(year) then MarchDate(year, doy + 1) else MarchDate(year + 1, 0)
  {
  }

  lemma EraPeriod(yoe: int, era: int)
    ensures YearLength(yoe + era * 400) == YearLength(yoe)
  {
    assert era * 400 == 4 * (100 * era) == 100 * (4 * era) == 400 * era;
    Periodic4(yoe + 1, 100 * era);
    Periodic100(yoe + 1, 4 * era);
    Periodic400(yoe + 1, era);
  }

  lemma Periodic4(x: int, k: int)
    ensures (x + 4 * k) % 4 == x % 4
  {
    assert x + 4 * k == 4 * (x / 4 + k) + x % 4;
  }

  lemma Periodic100(x: int, k: int)
    ensures (x + 100 * k) % 100 == x % 100
  {
    assert x + 100 * k == 100 * (x / 100 + k) + x % 100;
  }

  lemma Periodic400(x: int, k: int)
    ensures (x + 400 * k) % 400 == x % 400
  {
    assert x + 400 * k == 400 * (x / 400 + k) + x % 400;
  }

  /** Two descriptions of one day of the era agree. */
  lemma EraUnique(yoe: int, doy: int)
    requires 0 <= yoe < 400 && 0 <= doy < YearLength(yoe)
    ensures YearOfEra(DaysBeforeYear(yoe) + doy) == yoe
  {
    hide YearOfEra, DaysBeforeYear, YearLength;
    var century, four, year := yoe / 100, yoe % 100 / 4, yoe % 4;
    assert yoe == 100 * century + 4 * four + year;
    EraYearParts(century, four, year, doy);
  }

  lemma EraStep(era: int, doe: int)
    requires 0 <= doe < 146097
    ensures Valid(EraDate(era, doe))
    ensures NextDay(EraDate(era, doe)) == if doe < 146096 then EraDate(era, doe + 1) else EraDate(era + 1, 0)
  {
    hide NextDay, Valid, MarchDate, YearOfEra, YearLength;
    EraYear(doe);
    var yoe := YearOfEra(doe);
    var doy := doe - DaysBeforeYear(yoe);
    EraPeriod(yoe, era);
    MarchStep(yoe + era * 400, doy);
    EraYearEnd(yoe);
    if doy + 1 < YearLength(yoe) {
      EraUnique(yoe, doy + 1);
    } else if yoe < 399 {
      EraUnique(yoe + 1, 0);
    } else {
      EraStart();
    }
  }

  lemma EraStart()
    ensures YearOfEra(0) == 0 && DaysBeforeYear(0) == 0
  {
  }

  /** Years fill the era without gap: the last one ends on day 146097. */
  lemma EraYearEnd(yoe: int)
    requires 0 <= yoe < 400
    ensures YearLength(yoe + 1) > 0
    ensures DaysBeforeYear(yoe) + YearLength(yoe) == if yoe < 399 then DaysBeforeYear(yoe + 1) else 146097
    ensures yoe < 399 ==> DaysBeforeYear(yoe + 1) < 146097
  {
    MultipleUpTo(yoe + 1, 400);
    NextQuotient(yoe);
    assert (yoe + 1) % 400 == 0 ==> (yoe + 1) % 100 == 0 && (yoe + 1) % 4 == 0;
  }

  lemma NextQuotient(x: int)
    requires 0 <= x
    ensures (x + 1) / 4 == if (x + 1) % 4 == 0 then x / 4 + 1 else x / 4
    ensures (x + 1) / 100 == if (x + 1) % 100 == 0 then x / 100 + 1 else x / 100
  {
  }

  lemma IdealEpoch()
    ensures IdealDate(0) == EPOCH
  {
    assert 719468 / 146097 == 4 && 719468 % 146097 == 135080;
    assert YearOfEra(135080) == 369;
  }

  lemma IdealStep(days: int)
    ensures Valid(IdealDate(days)) && NextDay(IdealDate(days)) == IdealDate(days + 1)
  {
    hide NextDay, Valid, EraDate;
    var z := days + 719468;
    EraStep(z / 146097, z % 146097);
    if z % 146097 < 146096 {
      assert z + 1 == 146097 * (z / 146097) + (z % 146097 + 1);
    } else {
      assert z + 1 == 146097 * (z / 146097 + 1);
    }
  }

  // ---------------------------------------------------------------- main results

  lemma PreviousNext(d: Date)
    requires Valid(d)
    ensures PreviousDay(NextDay(d)) == d
  {
  }

  lemma {:induction false} IdealIsNaive(n: int)
    ensures IdealDate(n) == NaiveDate(n)
    decreases if n < 0 then -n else n
  {
    hide NextDay, PreviousDay, Valid, EraDate;
    if n > 0 {
      IdealIsNaive(n - 1);
      IdealStep(n - 1);
    } else if n < 0 {
      IdealIsNaive(n + 1);
      IdealStep(n);
      PreviousNext(IdealDate(n));
    } else {
      IdealEpoch();
    }
  }

  /** Later day counts give later dates: no two days share a date. */
  lemma {:induction false} NaiveIncreases(a: int, b: int)
    requires a < b
    ensures Before(NaiveDate(a), NaiveDate(b))
    decreases b - a
  {
    hide NaiveDate, IdealDate;
    IdealIsNaive(b - 1);
    IdealIsNaive(b);
    IdealStep(b - 1);
    if a < b - 1 {
      NaiveIncreases(a, b - 1);
    }
  }

  /** The first day of the first year that fits 32 bits, and the day after the last day of the last one. */
  const FIRST_DAY := -784353015833
  const END_DAY := 784351576777

  lemma FirstAndEnd(first: int, end: int)
    requires first == FIRST_DAY && end == END_DAY
    ensures NaiveDate(first) == Date(-0x8000_0000, 1, 1) && NaiveDate(end) == Date(0x8000_0000, 1, 1)
  {
    hide NaiveDate;
    DateInEra(first, -5368710, 128505);
    DateInEra(end, 5368709, 17472);
    assert YearOfEra(128505) == 351 && YearOfEra(17472) == 47;
  }

  lemma DateInEra(days: int, era: int, doe: int)
    requires 0 <= doe < 146097 && days + 719468 == 146097 * era + doe
    ensures NaiveDate(days) == EraDate(era, doe)
  {
    hide NaiveDate, EraDate;
    IdealIsNaive(days);
  }

  /** The year of a day fits 32 bits exactly between two day counts. */
  lemma YearFitsExactly(days: int)
    ensures Valid(NaiveDate(days))
    ensures -0x8000_0000 <= NaiveDate(days).year < 0x8000_0000 <==> FIRST_DAY <= days < END_DAY
  {
    var first, end := FIRST_DAY, END_DAY;
    FirstAndEnd(first, end);
    IdealStep(days);
    IdealIsNaive(days);
    hide NaiveDate, IdealDate;
    if days < first {
      NaiveIncreases(days, first);
    } else if first < days {
      NaiveIncreases(first, days);
    }
    if days < end {
      NaiveIncreases(days, end);
    } else if end < days {
      NaiveIncreases(end, days);
    }
  }

  /** For every day count the computation yields month and day of the naive calendar, and its year cut to 32 bits;
      the year is right exactly from 1 January -2147483648 to 31 December 2147483647. */
  lemma CivilFromDaysIsCalendar(days: i64)
    requires days as int + 719468 < 0x8000_0000_0000_0000
    ensures var (y, m, d) := CivilFromDays(days);
            var date := NaiveDate(days as int);
            && Valid(date)
            && m as int == date.month && d as int == date.day && y == WrapI32(date.year)
            && (y as int == date.year <==> FIRST_DAY <= days as int < END_DAY)
  {
    CivilFromDaysIsIdeal(days);
    YearFitsExactly(days as int);
    IdealIsNaive(days as int);
    hide CivilFromDays, NaiveDate, IdealDate, Valid;
  }

  lemma CivilFromDaysIsIdeal(days: i64)
    requires days as int + 719468 < 0x8000_0000_0000_0000
    ensures var (y, m, d) := CivilFromDays(days);
            var date := IdealDate(days as int);
            m as int == date.month && d as int == date.day && y == WrapI32(date.year)
  {
    hide WrapI32, InEra, MarchDate, YearOfEra;
    var z := days as int + 719468;
    FloorEra(z);
    InEraIsMarch((z % 146097) as u32, z / 146097 * 400);
  }

  lemma InEraIsMarch(doe: u32, base: int)
    requires doe < 146097
    ensures var (yoe, m, d) := InEra(doe);
            var yoe' := YearOfEra(doe as int);
            var date := MarchDate(yoe' + base, doe as int - DaysBeforeYear(yoe'));
            yoe < 400 && m as int == date.month && d as int == date.day &&
            date.year == if m <= 2 then yoe as int + base + 1 else yoe as int + base
  {
    EraYear(doe as int);
  }

  /** The adjusted truncating division of the program is floor division, also before the first era. */
  lemma FloorEra(z: int)
    ensures TruncatingDiv(if z >= 0 then z else z - 146096, 146097) == z / 146097
  {
    if z < 0 {
      var q, r := z / 146097, z % 146097;
      assert 146096 - z == 146097 * (-q) + (146096 - r);
    }
  }

  // ---------------------------------------------------------------- time stamps

  /** The numbers of a log time stamp, from the seconds since the epoch. */
  datatype Stamp = Stamp(year: i32, month: u32, day: u32, hours: u64, minutes: u64, seconds: u64)

  function FormatTimestamp(secs: u64): Stamp {
    var timeOfDay := secs % 86400;
    var (y, m, d) := CivilFromDays((secs / 86400) as i64);
    Stamp(y, m, d, timeOfDay / 3600, timeOfDay % 3600 / 60, timeOfDay % 60)
  }

  predicate YearFits(secs: u64) {
    (secs / 86400) as int < END_DAY
  }

  /** The stamp is the date of the second's day and its hour, minute and second on that day. */
  lemma StampMeans(secs: u64)
    ensures var stamp, date := FormatTimestamp(secs), NaiveDate((secs / 86400) as int);
            && stamp.month as int == date.month && stamp.day as int == date.day
            && (YearFits(secs) ==> stamp.year as int == date.year)
            && stamp.hours < 24 && stamp.minutes < 60 && stamp.seconds < 60
            && secs as int == 86400 * (secs as int / 86400) + 3600 * stamp.hours as int + 60 * stamp.minutes as int
                              + stamp.seconds as int
  {
    var days := (secs / 86400) as i64;
    CivilFromDaysIsCalendar(days);
    hide CivilFromDays, NaiveDate;
    MixedRadix((secs % 86400) as int);
    ClockBounds((secs % 86400) as int);
  }

  lemma ClockBounds(n: int)
    requires 0 <= n < 86400
    ensures n / 3600 < 24 && n % 3600 / 60 < 60 && n % 60 < 60
  {
  }

  /** The stamp names the second it was made from: no two seconds share one while the year fits its 32-bit field. */
  lemma StampIsExact(secs: u64, other: u64)
    ensures YearFits(secs) && YearFits(other) && FormatTimestamp(secs) == FormatTimestamp(other) ==> secs == other
  {
    if YearFits(secs) && YearFits(other) && FormatTimestamp(secs) == FormatTimestamp(other) {
      SameStamp(secs, other);
    }
  }

  lemma SameStamp(secs: u64, other: u64)
    requires YearFits(secs) && YearFits(other)
    requires FormatTimestamp(secs) == FormatTimestamp(other)
    ensures secs == other
  {
    hide CivilFromDays, NaiveDate;
    var a, b := (secs / 86400) as i64, (other / 86400) as i64;
    CivilFromDaysIsCalendar(a);
    CivilFromDaysIsCalendar(b);
    YearNotNegative(a as int);
    YearNotNegative(b as int);
    if a < b {
      NaiveIncreases(a as int, b as int);
    } else if b < a {
      NaiveIncreases(b as int, a as int);
    }
    TimeOfDay(secs % 86400, other % 86400);
  }

  lemma {:induction false} YearNotNegative(n: int)
    requires n >= 0
    ensures NaiveDate(n).year >= 1970
  {
    if n > 0 {
      NaiveIncreases(0, n);
    }
  }

  lemma TimeOfDay(s: u64, t: u64)
    requires s < 86400 && t < 86400
    requires s / 3600 == t / 3600 && s % 3600 / 60 == t % 3600 / 60 && s % 60 == t % 60
    ensures s == t
  {
    MixedRadix(s as int);
    MixedRadix(t as int);
  }

  lemma MixedRadix(n: int)
    ensures n == 3600 * (n / 3600) + 60 * (n % 3600 / 60) + n % 60
  {
    var q, r := n / 3600, n % 3600;
    Remainder60(r, 60 * q);
    assert r == 60 * (r / 60) + r % 60;
    assert n == 60 * (60 * q) + r;
  }

  lemma Remainder60(x: int, k: int)
    ensures (60 * k + x) % 60 == x % 60
  {
    assert 60 * k + x == 60 * (x / 60 + k) + x % 60;
  }
}
