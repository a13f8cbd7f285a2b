/** Calendar arithmetic of the diagnostics bundle (aisense-core, diagnostics.rs), against the Gregorian calendar. */
module Calendar {
  import opened Prelude

  datatype Date = Date(year: int, month: int, day: int)

  // ---- The calendar, from its rules ----

  predicate IsLeap(y: int) { y % 4 == 0 && (y % 100 != 0 || y % 400 == 0) }

  function DaysIn(y: int, m: int): int {
    if m == 2 then (if IsLeap(y) then 29 else 28)
    else if m == 4 || m == 6 || m == 9 || m == 11 then 30
    else 31
  }

  predicate IsDate(d: Date) {
    1 <= d.month <= 12 && 1 <= d.day <= DaysIn(d.year, d.month)
  }

  function Tomorrow(d: Date): Date {
    if d.day < DaysIn(d.year, d.month) then d.(day := d.day + 1)
    else if d.month < 12 then Date(d.year, d.month + 1, 1)
    else Date(d.year + 1, 1, 1)
  }

  const EPOCH := Date(1970, 1, 1)

  // ---- What the program computes ----

  /** `civil_date`, by days: 719468 days lead from 1 March of year 0 to the epoch. */
  function Civil(day: int): Date {
    var days := day + 719_468;
    var era := days / 146_097;
    var doe := days % 146_097;
    var yoe := YearOfEra(doe);
    FromMarch(yoe + era * 400, doe - (365 * yoe + yoe / 4 - yoe / 100))
  }

  /** Day `doy` of the year that begins on 1 March of `y`. */
  function FromMarch(y: int, doy: int): Date {
    var mp := (5 * doy + 2) / 153;
    var d := doy - (153 * mp + 2) / 5 + 1;
    var m := if mp < 10 then mp + 3 else mp - 9;
    Date(y + (if m <= 2 then 1 else 0), m, d)
  }

  function YearOfEra(doe: int): int {
    (doe - doe / 1460 + doe / 36_524 - doe / 146_096) / 365
  }

  const DAY_MS := 86_400_000

  function CivilDate(ms: int): Date {
    Civil(ms / DAY_MS)
  }

  // ---- Inside one era of 400 years that begin in March ----

  /** Days of the era before its year `y`. */
  function YearStart(y: int): int {
    365 * y + y / 4 - y / 100
  }

  function MonthStart(mp: int): int {
    (153 * mp + 2) / 5
  }

  /** A day of the era, as centuries, four-year cycles, years and days. */
  ghost predicate Splits(doe: int, c: int, q: int, t: int, u: int) {
    && doe == 36_524 * c + 1461 * q + 365 * t + u
    && 0 <= c <= 3 && 0 <= q <= 24 && 0 <= t <= 3 && 0 <= u <= 365
    && (u == 365 ==> t == 3 && (q == 24 ==> c == 3))
  }

  lemma SplitEra(doe: int) returns (c: int, q: int, t: int, u: int)
    requires 0 <= doe < 146_097
    ensures Splits(doe, c, q, t, u)
  {
    c := if doe / 36_524 < 4 then doe / 36_524 else 3;
    var r := doe - 36_524 * c;
    q := r / 1461;
    var s := r - 1461 * q;
    t := if s / 365 < 4 then s / 365 else 3;
    u := s - 365 * t;
  }

  lemma YearOfSplit(doe: int, c: int, q: int, t: int, u: int)
    requires Splits(doe, c, q, t, u)
    ensures YearOfEra(doe) == 100 * c + 4 * q + t
  {
    assert doe / 36_524 - doe / 146_096 == c;
    var extra := 24 * c + q + 365 * t + u;
    assert doe == 1460 * (25 * c + q) + extra;
    assert doe / 1460 == 25 * c + q + (if extra >= 1460 then 1 else 0);
    var y := 100 * c + 4 * q + t;
    assert doe - doe / 1460 + c == 365 * y + (u - if extra >= 1460 then 1 else 0);
  }

  lemma YearStartOfSplit(c: int, q: int, t: int)
    requires 0 <= c <= 3 && 0 <= q <= 24 && 0 <= t <= 3
    ensures YearStart(100 * c + 4 * q + t) == 36_524 * c + 1461 * q + 365 * t
  {
    var y := 100 * c + 4 * q + t;
    assert y / 4 == 25 * c + q;
    assert y / 100 == c;
  }

  lemma LeapOfSplit(era: int, c: int, q: int, t: int)
    requires 0 <= c <= 3 && 0 <= q <= 24 && 0 <= t <= 3
    ensures IsLeap(400 * era + 100 * c + 4 * q + t + 1) <==> t == 3 && (q == 24 ==> c == 3)
  {
    var y := 400 * era + 100 * c + 4 * q + t + 1;
    Remainder4(y, 100 * era + 25 * c + q, t + 1);
    if t == 3 && q < 24 {
      Remainder100(y, 4 * era + c, 4 * q + 4);
    } else if t == 3 {
      Remainder100(y, 4 * era + c + 1, 0);
      Remainder400(y, if c == 3 then era + 1 else era, if c == 3 then 0 else 100 * c + 100);
    }
  }

  lemma Remainder4(y: int, k: int, r: int)
    requires y == 4 * k + r && 0 <= r <= 4
    ensures y % 4 == if r == 4 then 0 else r
  {
  }

  lemma Remainder100(y: int, k: int, r: int)
    requires y == 100 * k + r && 0 <= r < 100
    ensures y % 100 == r
  {
  }

  lemma Remainder400(y: int, k: int, r: int)
    requires y == 400 * k + r && 0 <= r < 400
    ensures y % 400 == r
  {
  }

  /** The year found is the one the day falls in, and the last day exists only before a leap February. */
  lemma YearOfEraIsRight(era: int, doe: int)
    requires 0 <= doe < 146_097
    ensures 0 <= YearOfEra(doe) < 400
    ensures 0 <= doe - YearStart(YearOfEra(doe)) <= 365
    ensures doe - YearStart(YearOfEra(doe)) == 365 ==> IsLeap(400 * era + YearOfEra(doe) + 1)
  {
    var c, q, t, u := SplitEra(doe);
    YearOfSplit(doe, c, q, t, u);
    YearStartOfSplit(c, q, t);
    LeapOfSplit(era, c, q, t);
  }

  lemma MonthOfYearIsRight(doy: int)
    requires 0 <= doy <= 365
    ensures var mp := (5 * doy + 2) / 153; 0 <= mp <= 11 && MonthStart(mp) <= doy < MonthStart(mp + 1)
  {
  }

  // ---- Counting days on the calendar ----

  /** Days from 1 January of year 1 to 1 January of `y`. */
  function DaysBeforeYear(y: int): int {
    365 * (y - 1) + (y - 1) / 4 - (y - 1) / 100 + (y - 1) / 400
  }

  function DaysBeforeMonth(y: int, m: int): int
    decreases m
  {
    if m <= 1 then 0 else DaysBeforeMonth(y, m - 1) + DaysIn(y, m - 1)
  }

  /** Days from the epoch to a date. */
  function DayNumber(d: Date): int {
    DaysBeforeYear(d.year) + DaysBeforeMonth(d.year, d.month) + d.day - 1 - 719_162
  }

  lemma YearLength(y: int)
    ensures DaysBeforeYear(y + 1) == DaysBeforeYear(y) + (if IsLeap(y) then 366 else 365)
  {
    hide IsLeap;
    FourthYears(y);
    HundredthYears(y);
    FourHundredthYears(y);
    LeapCount(y);
  }

  lemma FourthYears(y: int)
    ensures y / 4 == (y - 1) / 4 + (if y % 4 == 0 then 1 else 0)
  {
  }

  lemma HundredthYears(y: int)
    ensures y / 100 == (y - 1) / 100 + (if y % 100 == 0 then 1 else 0)
  {
  }

  lemma FourHundredthYears(y: int)
    ensures y / 400 == (y - 1) / 400 + (if y % 400 == 0 then 1 else 0)
  {
  }

  lemma CenturyIsFourth(y: int)
    ensures y % 100 == 0 ==> y % 4 == 0
  {
    if y % 100 == 0 { assert y == 4 * (25 * (y / 100)); }
  }

  lemma FourthCenturyIsCentury(y: int)
    ensures y % 400 == 0 ==> y % 100 == 0
  {
    if y % 400 == 0 { assert y == 100 * (4 * (y / 400)); }
  }

  lemma LeapCount(y: int)
    ensures (if IsLeap(y) then 1 else 0)
            == (if y % 4 == 0 then 1 else 0) - (if y % 100 == 0 then 1 else 0) + (if y % 400 == 0 then 1 else 0)
  {
    CenturyIsFourth(y);
    FourthCenturyIsCentury(y);
  }

  lemma MonthTable(y: int, m: int)
    requires 1 <= m <= 13
    ensures DaysBeforeMonth(y, m) == if m == 1 then 0 else if m == 2 then 31
            else MonthStart(m - 3) + (if IsLeap(y) then 60 else 59)
  {
    hide IsLeap;
    if m > 1 {
      MonthTable(y, m - 1);
    }
  }

  /** `DayNumber` counts: the epoch is day 0 and every next day is one more. */
  lemma DayNumberCounts(d: Date)
    requires IsDate(d)
    ensures DayNumber(EPOCH) == 0
    ensures IsDate(Tomorrow(d)) && DayNumber(Tomorrow(d)) == DayNumber(d) + 1
  {
    hide IsLeap, DaysBeforeYear, DaysBeforeMonth;
    EpochYear();
    YearLength(d.year);
    MonthTable(1970, 1);
    MonthTable(d.year, 13);
    MonthTable(d.year + 1, 1);
    MonthAdds(d.year, d.month);
  }

  lemma EpochYear()
    ensures DaysBeforeYear(1970) == 719_162
  {
  }

  /** Years that begin in March: where their first day falls on the calendar. */
  lemma MarchStart(era: int, y: int)
    requires 0 <= y < 400
    ensures DaysBeforeYear(400 * era + y + 1) == 146_097 * era + YearStart(y)
    ensures DaysBeforeYear(400 * era + y) + DaysBeforeMonth(400 * era + y, 3) == 146_097 * era + YearStart(y) - 306
  {
    var full := 400 * era + y;
    assert full / 4 == 100 * era + y / 4 && full / 100 == 4 * era + y / 100 && full / 400 == era;
    YearLength(full);
    MonthTable(full, 3);
  }

  lemma FromMarchIsTheDate(era: int, y: int, doy: int)
    requires 0 <= y < 400 && 0 <= doy <= 365 && (doy == 365 ==> IsLeap(400 * era + y + 1))
    ensures IsDate(FromMarch(400 * era + y, doy))
    ensures DayNumber(FromMarch(400 * era + y, doy)) == 146_097 * era + YearStart(y) + doy - 719_468
  {
    hide YearStart, DaysBeforeYear, DaysBeforeMonth, IsLeap, DaysIn;
    var full := 400 * era + y;
    var mp := (5 * doy + 2) / 153;
    MonthOfYearIsRight(doy);
    MarchStart(era, y);
    MonthTable(full, if mp < 10 then mp + 3 else 3);
    MonthTable(full, 3);
    MonthTable(full + 1, if mp < 10 then 1 else mp - 9);
    MonthLengths(if mp < 10 then full else full + 1, mp, doy);
  }

  /** The algorithm returns a date of the calendar, and the one with this day number. */
  lemma CivilIsTheDate(day: int)
    ensures IsDate(Civil(day)) && DayNumber(Civil(day)) == day
  {
    hide YearOfEra, FromMarch, IsDate, DayNumber, IsLeap;
    var days := day + 719_468;
    var era, doe := days / 146_097, days % 146_097;
    YearOfEraIsRight(era, doe);
    FromMarchIsTheDate(era, YearOfEra(doe), doe - YearStart(YearOfEra(doe)));
  }

  lemma MonthLengths(y: int, mp: int, doy: int)
    requires 0 <= mp <= 11 && MonthStart(mp) <= doy < MonthStart(mp + 1) && doy <= 365
    requires doy == 365 ==> IsLeap(y)
    ensures 1 <= doy - MonthStart(mp) + 1 <= DaysIn(y, if mp < 10 then mp + 3 else mp - 9)
  {
    hide IsLeap;
  }

  // ---- The bijection ----

  lemma {:induction false} YearsGrow(a: int, b: int)
    requires a <= b
    ensures DaysBeforeYear(a) <= DaysBeforeYear(b)
    decreases b - a
  {
    if a < b {
      YearsGrow(a, b - 1);
      YearLength(b - 1);
    }
  }

  lemma {:induction false} MonthsGrow(y: int, a: int, b: int)
    requires 1 <= a <= b
    ensures DaysBeforeMonth(y, a) <= DaysBeforeMonth(y, b)
    decreases b - a
  {
    hide DaysIn;
    if a < b {
      MonthsGrow(y, a, b - 1);
      MonthIsNotEmpty(y, b - 1);
    }
  }

  lemma MonthIsNotEmpty(y: int, m: int)
    ensures DaysIn(y, m) >= 28
  {
  }

  ghost predicate Earlier(a: Date, b: Date) {
    a.year < b.year || (a.year == b.year && (a.month < b.month || (a.month == b.month && a.day < b.day)))
  }

  lemma EarlierHasSmallerNumber(a: Date, b: Date)
    requires IsDate(a) && IsDate(b) && Earlier(a, b)
    ensures DayNumber(a) < DayNumber(b)
  {
    hide DaysBeforeYear, DaysBeforeMonth, DaysIn;
    WithinYear(a);
    WithinYear(b);
    if a.year < b.year {
      YearsGrow(a.year + 1, b.year);
    } else if a.month < b.month {
      MonthsGrow(a.year, a.month + 1, b.month);
      MonthAdds(a.year, a.month);
    }
  }

  lemma MonthAdds(y: int, m: int)
    requires m >= 1
    ensures DaysBeforeMonth(y, m + 1) == DaysBeforeMonth(y, m) + DaysIn(y, m)
  {
  }

  lemma WithinYear(d: Date)
    requires IsDate(d)
    ensures DaysBeforeYear(d.year) <= DayNumber(d) + 719_162 < DaysBeforeYear(d.year + 1)
  {
    hide DaysBeforeYear, DaysBeforeMonth, DaysIn, IsLeap;
    YearLength(d.year);
    MonthTable(d.year, 1);
    MonthTable(d.year, 13);
    MonthAdds(d.year, d.month);
    MonthsGrow(d.year, 1, d.month);
    MonthsGrow(d.year, d.month + 1, 13);
  }

  /** Both ways round: dates and day numbers determine each other. */
  lemma CalendarBijection(d: Date, day: int)
    requires IsDate(d)
    ensures Civil(DayNumber(d)) == d
    ensures IsDate(Civil(day)) && DayNumber(Civil(day)) == day
  {
    CivilIsTheDate(day);
    CivilIsTheDate(DayNumber(d));
    var other := Civil(DayNumber(d));
    hide Civil, DayNumber, IsDate;
    if Earlier(d, other) { EarlierHasSmallerNumber(d, other); }
    if Earlier(other, d) { EarlierHasSmallerNumber(other, d); }
  }

  /** Consecutive days are consecutive on the calendar. */
  lemma NextDayIsTomorrow(day: int)
    ensures Civil(day + 1) == Tomorrow(Civil(day)) && Civil(0) == EPOCH
  {
    hide *;
    CivilIsTheDate(day);
    DayNumberCounts(Civil(day));
    CalendarBijection(Tomorrow(Civil(day)), day);
    EpochIsADate();
    CalendarBijection(EPOCH, 0);
  }

  lemma EpochIsADate()
    ensures IsDate(EPOCH)
  {
  }

  // ---- MS-DOS date and time (section 4.4.6 of the PKWARE APPNOTE) ----

  datatype DosStamp = DosStamp(time: int, date: int)

  /** Bitwise or, on numbers of any width. */
  function Or(a: nat, b: nat): nat {
    if a == 0 then b else 2 * Or(a / 2, b / 2) + (if a % 2 == 1 || b % 2 == 1 then 1 else 0)
  }

  /** The cast to 16 bits drops the higher bits of the year. */
  function DosDateTime(ms: int): DosStamp {
    var d := CivilDate(ms);
    if d.year < 1980 then DosStamp(0, Or(1 * TwoTo(5), 1))
    else
      var secs := ms / 1000 % 86_400;
      CivilIsTheDate(ms / DAY_MS);
      DosStamp(Packed(secs / 3600, 11, secs / 60 % 60, secs % 60 / 2), Packed(d.year - 1980, 9, d.month, d.day))
  }

  /** Shifted, or-ed together, cut to 16 bits. */
  function Packed(high: nat, shift: nat, middle: nat, low: nat): nat {
    Or(Or(high * TwoTo(shift), middle * TwoTo(5)), low) % 65_536
  }

  lemma {:induction false} OrAboveAdds(high: nat, k: nat, low: nat)
    requires low < TwoTo(k)
    ensures Or(high * TwoTo(k), low) == high * TwoTo(k) + low
    decreases k
  {
    if k == 0 {
      OrNothing(high);
    } else {
      var half := high * TwoTo(k - 1);
      Doubled(high, TwoTo(k - 1));
      OrAboveAdds(high, k - 1, low / 2);
      hide TwoTo;
      OrOfDouble(half, low);
    }
  }

  lemma OrOfDouble(x: nat, low: nat)
    ensures Or(2 * x, low) == 2 * Or(x, low / 2) + low % 2
  {
    if x == 0 {
      assert Or(0, low) == low;
    } else {
      assert 2 * x / 2 == x && 2 * x % 2 == 0;
    }
  }

  lemma {:induction false} OrNothing(a: nat)
    ensures Or(a, 0) == a
    decreases a
  {
    if a > 0 { OrNothing(a / 2); }
  }

  /** The fields of a stamp do not overlap, so or is addition. */
  lemma FieldsDoNotOverlap(high: nat, shift: nat, middle: nat, low: nat)
    requires shift == 11 || shift == 9
    requires middle * 32 < TwoTo(shift) && low < 32
    ensures Packed(high, shift, middle, low)
            == (high * (if shift == 11 then 2048 else 512) + middle * 32 + low) % 65_536
  {
    hide Or, TwoTo;
    Powers();
    var unit := if shift == 11 then 2048 else 512;
    OrAboveAdds(high, shift, middle * 32);
    var above := high * (unit / 32) + middle;
    assert above * 32 == high * unit + middle * 32;
    OrAboveAdds(above, 5, low);
  }

  function DateOfDos(date: int): Date {
    Date(1980 + date / 512, date / 32 % 16, date % 32)
  }

  function SecondsOfDos(time: int): int {
    time / 2048 * 3600 + time / 32 % 64 * 60 + time % 32 * 2
  }

  lemma DateFields(y: int, m: nat, d: nat)
    requires 1980 <= y <= 2107 && m < 16 && d < 32
    ensures DateOfDos(Packed(y - 1980, 9, m, d)) == Date(y, m, d)
  {
    hide Packed;
    PackedFits(y - 1980, 9, m, d);
    var date := (y - 1980) * 512 + m * 32 + d;
    assert date / 512 == y - 1980;
    assert date / 32 == (y - 1980) * 16 + m;
  }

  /** A stamp whose fields are in range loses nothing to the cast. */
  lemma PackedFits(high: nat, shift: nat, middle: nat, low: nat)
    requires (shift == 11 && high < 32 && middle < 64) || (shift == 9 && high < 128 && middle < 16)
    requires low < 32
    ensures Packed(high, shift, middle, low) == high * (if shift == 11 then 2048 else 512) + middle * 32 + low
  {
    hide Packed, TwoTo;
    Powers();
    FieldsDoNotOverlap(high, shift, middle, low);
    var unit := if shift == 11 then 2048 else 512;
    assert high * unit + middle * 32 + low < 65_536;
  }

  lemma Powers()
    ensures TwoTo(5) == 32 && TwoTo(9) == 512 && TwoTo(11) == 2048
  {
    assert TwoTo(9) == 2 * 2 * 2 * 2 * TwoTo(5);
    assert TwoTo(11) == 2 * 2 * TwoTo(9);
  }

  /** The stamp of every date before the format's first is that first date. */
  lemma FirstStamp()
    ensures Or(1 * TwoTo(5), 1) == 33
  {
    assert TwoTo(5) == 32;
    OrAboveAdds(1, 5, 1);
  }

  lemma DosYears(date: int)
    requires 0 <= date < 65_536
    ensures 1980 <= DateOfDos(date).year <= 2107
  {
  }

  /** The stamp fits 16 bits, and names the same date exactly in the years the format can express. */
  lemma DosDateRoundTrips(ms: int)
    ensures var stamp := DosDateTime(ms);
            && 0 <= stamp.time < 65_536 && 0 <= stamp.date < 65_536
            && (DateOfDos(stamp.date) == CivilDate(ms) <==> 1980 <= CivilDate(ms).year <= 2107)
  {
    var d := CivilDate(ms);
    CivilIsTheDate(ms / DAY_MS);
    hide Civil, IsLeap, DayNumber, DateOfDos, Packed;
    FirstStamp();
    hide Or, TwoTo;
    DosYears(DosDateTime(ms).date);
    if 1980 <= d.year <= 2107 {
      DateFields(d.year, d.month, d.day);
    }
  }

  /** The last instant of 1979 and the first of 2108 are both stamped as the first day of 1980. */
  lemma NextDoorYearsAreMisdated()
    ensures CivilDate(315_532_799_999) == Date(1979, 12, 31) && CivilDate(4_354_819_200_000) == Date(2108, 1, 1)
    ensures DateOfDos(DosDateTime(315_532_799_999).date) == Date(1980, 1, 1)
    ensures DateOfDos(DosDateTime(4_354_819_200_000).date) == Date(1980, 1, 1)
  {
    hide Or, TwoTo, Packed, CivilDate, DateOfDos;
    FirstStamp();
    EndOf1979();
    StartOf2108();
    FieldsDoNotOverlapIn2108();
    FirstStampIsFirstDay();
  }

  lemma FirstStampIsFirstDay()
    ensures DateOfDos(33) == Date(1980, 1, 1)
  {
  }

  /** The steps of the algorithm, for a day whose era and year are at hand. */
  lemma CivilAt(day: int, era: int, doe: int, yoe: int)
    requires day + 719_468 == 146_097 * era + doe && 0 <= doe < 146_097 && YearOfEra(doe) == yoe
    ensures Civil(day) == FromMarch(yoe + era * 400, doe - (365 * yoe + yoe / 4 - yoe / 100))
  {
    hide YearOfEra, FromMarch;
    assert (day + 719_468) / 146_097 == era && (day + 719_468) % 146_097 == doe;
  }

  lemma TwoYears()
    ensures YearOfEra(138_731) == 379 && YearOfEra(39_386) == 107
  {
  }

  lemma TwoDays()
    ensures FromMarch(1979, 305) == Date(1979, 12, 31) && FromMarch(2107, 306) == Date(2108, 1, 1)
  {
  }

  lemma EndOf1979()
    ensures CivilDate(315_532_799_999) == Date(1979, 12, 31)
  {
    hide Civil, YearOfEra, FromMarch;
    TwoYears();
    TwoDays();
    CivilAt(3651, 4, 138_731, 379);
  }

  lemma StartOf2108()
    ensures CivilDate(4_354_819_200_000) == Date(2108, 1, 1)
  {
    hide Civil, YearOfEra, FromMarch;
    TwoYears();
    TwoDays();
    CivilAt(50_403, 5, 39_386, 107);
  }

  lemma FieldsDoNotOverlapIn2108()
    ensures Packed(128, 9, 1, 1) == 33
  {
    hide Packed, TwoTo;
    Powers();
    FieldsDoNotOverlap(128, 9, 1, 1);
  }

  lemma TimeFields(secs: int)
    requires 0 <= secs < 86_400
    ensures SecondsOfDos(Packed(secs / 3600, 11, secs / 60 % 60, secs % 60 / 2)) == secs - secs % 2
  {
    var minutes, s := secs / 60, secs % 60 / 2;
    assert secs == minutes * 60 + secs % 60 && secs % 60 == 2 * s + secs % 2;
    assert minutes / 60 == secs / 3600;
    TimeFieldsApart(minutes / 60, minutes % 60, s);
  }

  lemma TimeFieldsApart(h: nat, m: nat, s: nat)
    requires h < 24 && m < 60 && s < 30
    ensures SecondsOfDos(Packed(h, 11, m, s)) == h * 3600 + m * 60 + 2 * s
  {
    hide SecondsOfDos, Packed;
    var time := h * 2048 + m * 32 + s;
    By32(h * 64 + m, s);
    By64(h, m);
    By2048(h, m * 32 + s);
    assert time == 32 * (h * 64 + m) + s && time == h * 2048 + (m * 32 + s);
    PackedFits(h, 11, m, s);
    SecondsFrom(time, h, m, s);
  }

  lemma SecondsFrom(time: int, h: int, m: int, s: int)
    requires time / 2048 == h && time / 32 % 64 == m && time % 32 == s
    ensures SecondsOfDos(time) == h * 3600 + m * 60 + 2 * s
  {
  }

  lemma By32(k: int, r: int)
    requires 0 <= r < 32
    ensures (32 * k + r) / 32 == k && (32 * k + r) % 32 == r
  {
  }

  lemma By64(k: int, r: int)
    requires 0 <= r < 64
    ensures (k * 64 + r) % 64 == r
  {
  }

  lemma By2048(k: int, r: int)
    requires 0 <= r < 2048
    ensures (k * 2048 + r) / 2048 == k
  {
  }

  lemma SecondOfDay(ms: int)
    ensures ms / 1000 % 86_400 == ms % DAY_MS / 1000
  {
    assert ms / 1000 == ms / DAY_MS * 86_400 + ms % DAY_MS / 1000;
  }

  /** From 1980 on, the time of day survives, rounded down to two seconds. */
  lemma DosTimeRoundTrips(ms: int)
    requires CivilDate(ms).year >= 1980
    ensures var secs := ms % DAY_MS / 1000;
            SecondsOfDos(DosDateTime(ms).time) == secs - secs % 2
  {
    hide CivilDate, Packed, SecondsOfDos;
    SecondOfDay(ms);
    TimeFields(ms / 1000 % 86_400);
  }
}
