/** Days to Gregorian dates and RFC 3339 timestamps, as the runner computes them
    from unsigned milliseconds since 1970. */
module CivilDate {
  import opened Text16

  // ---------- the calendar, by its own rules ----------

  datatype Date = Date(year: int, month: int, day: int)

  predicate Leap(y: int) {
    y % 4 == 0 && (y % 100 != 0 || y % 400 == 0)
  }

  function DaysInMonth(y: int, m: int): int {
    if m == 2 then (if Leap(y) then 29 else 28)
    else if m == 4 || m == 6 || m == 9 || m == 11 then 30
    else 31
  }

  predicate ValidDate(d: Date) {
    1 <= d.month <= 12 && 1 <= d.day <= DaysInMonth(d.year, d.month)
  }

  function NextDay(d: Date): Date {
    if d.day < DaysInMonth(d.year, d.month) then Date(d.year, d.month, d.day + 1)
    else if d.month < 12 then Date(d.year, d.month + 1, 1)
    else Date(d.year + 1, 1, 1)
  }

  function DaysBeforeYear(y: int): int {
    365 * (y - 1) + (y - 1) / 4 - (y - 1) / 100 + (y - 1) / 400
  }

  function DaysBeforeMonth(y: int, m: int): int
    requires 1 <= m <= 12
  {
    [0, 31, 59, 90, 120, 151, 181, 212, 243, 273, 304, 334][m - 1] + (if m > 2 && Leap(y) then 1 else 0)
  }

  /** Days from 1970-01-01. */
  function DayNumber(d: Date): int
    requires 1 <= d.month <= 12
  {
    DaysBeforeYear(d.year) + DaysBeforeMonth(d.year, d.month) + d.day - 1 - 719162
  }

  lemma NextBy4(p: int)
    ensures (p + 1) / 4 - p / 4 == if (p + 1) % 4 == 0 then 1 else 0
  {
  }

  lemma NextBy100(p: int)
    ensures (p + 1) / 100 - p / 100 == if (p + 1) % 100 == 0 then 1 else 0
  {
  }

  lemma NextBy400(p: int)
    ensures (p + 1) / 400 - p / 400 == if (p + 1) % 400 == 0 then 1 else 0
  {
  }

  lemma HundredsAreFours(y: int)
    ensures y % 100 == 0 ==> y % 4 == 0
  {
    if y % 100 == 0 { assert y == 4 * (25 * (y / 100)); }
  }

  lemma FourHundredsAreHundreds(y: int)
    ensures y % 400 == 0 ==> y % 100 == 0
  {
    if y % 400 == 0 { assert y == 100 * (4 * (y / 400)); }
  }

  lemma YearLength(y: int)
    ensures DaysBeforeYear(y + 1) - DaysBeforeYear(y) == if Leap(y) then 366 else 365
  {
    NextBy4(y - 1);
    NextBy100(y - 1);
    NextBy400(y - 1);
    HundredsAreFours(y);
    FourHundredsAreHundreds(y);
  }

  lemma MonthLength(y: int, m: int)
    requires 1 <= m <= 11
    ensures DaysBeforeMonth(y, m + 1) - DaysBeforeMonth(y, m) == DaysInMonth(y, m)
  {
  }

  /** `DayNumber` counts days: it starts at the epoch and each next day adds one. */
  lemma DayNumberCounts(d: Date)
    requires ValidDate(d)
    ensures DayNumber(Date(1970, 1, 1)) == 0
    ensures ValidDate(NextDay(d)) && DayNumber(NextDay(d)) == DayNumber(d) + 1
  {
    if d.day == DaysInMonth(d.year, d.month) {
      if d.month < 12 { MonthLength(d.year, d.month); } else { YearLength(d.year); }
    }
  }

  // ---------- the conversion ----------

  datatype Civil = Civil(date: Date, hour: int, minute: int, second: int)

  function AsU32(n: int): int {
    n % 0x1_0000_0000
  }

  function AsI32(n: int): int {
    if n % 0x1_0000_0000 < 0x8000_0000 then n % 0x1_0000_0000 else n % 0x1_0000_0000 - 0x1_0000_0000
  }

  function AsI64(n: int): int {
    if n % 0x1_0000_0000_0000_0000 < 0x8000_0000_0000_0000 then n % 0x1_0000_0000_0000_0000
    else n % 0x1_0000_0000_0000_0000 - 0x1_0000_0000_0000_0000
  }

  function YearOfEra(doe: int): int {
    (doe - doe / 1460 + doe / 36524 - doe / 146096) / 365
  }

  function DayOfYear(doe: int): int {
    var yoe := YearOfEra(doe);
    doe - (365 * yoe + yoe / 4 - yoe / 100)
  }

  function EraOf(days: int): int {
    (days + 719_468) / 146_097
  }

  function DayOfEra(days: int): int {
    (days + 719_468) % 146_097
  }

  function CivilFromUnix(secs: int): Civil {
    var days := secs / 86_400;
    var rem := AsU32(secs % 86_400);
    var era := EraOf(days);
    var doe := AsU32(DayOfEra(days));
    var y := YearOfEra(doe) + era * 400;
    var doy := DayOfYear(doe);
    var mp := (5 * doy + 2) / 153;
    var day := doy - (153 * mp + 2) / 5 + 1;
    var month := if mp < 10 then mp + 3 else mp - 9;
    var year := if month <= 2 then y + 1 else y;
    Civil(Date(AsI32(year), month, day), rem / 3600, rem % 3600 / 60, rem % 60)
  }

  /** A day of a 400-year era as century, leap cycle, year and day, counted from March. */
  datatype EraDay = EraDay(century: int, cycle: int, year: int, day: int)

  predicate ValidEraDay(e: EraDay) {
    && 0 <= e.century < 4 && 0 <= e.cycle < 25 && 0 <= e.year < 4 && 0 <= e.day <= 365
    && (e.day == 365 ==> e.year == 3 && (e.cycle < 24 || e.century == 3))
  }

  function EraIndex(e: EraDay): int {
    36_524 * e.century + 1_461 * e.cycle + 365 * e.year + e.day
  }

  function EraYear(e: EraDay): int {
    100 * e.century + 4 * e.cycle + e.year
  }

  function SplitEra(doe: int): EraDay {
    var century := if doe / 36_524 < 3 then doe / 36_524 else 3;
    var doc := doe - 36_524 * century;
    var cycle := doc / 1_461;
    var doq := doc - 1_461 * cycle;
    var year := if doq / 365 < 3 then doq / 365 else 3;
    EraDay(century, cycle, year, doq - 365 * year)
  }

  lemma SplitEraValid(doe: int)
    requires 0 <= doe < 146_097
    ensures ValidEraDay(SplitEra(doe)) && EraIndex(SplitEra(doe)) == doe
  {
  }

  lemma CenturyCount(e: EraDay)
    requires ValidEraDay(e)
    ensures 0 <= EraIndex(e) < 146_097
    ensures EraIndex(e) / 36_524 - EraIndex(e) / 146_096 == e.century
  {
  }

  lemma CycleCount(e: EraDay)
    requires ValidEraDay(e)
    ensures var rest := 24 * e.century + e.cycle + 365 * e.year + e.day;
            EraIndex(e) / 1_460 == 25 * e.century + e.cycle + (if rest < 1_460 then 0 else 1)
  {
    var rest := 24 * e.century + e.cycle + 365 * e.year + e.day;
    assert EraIndex(e) == 1_460 * (25 * e.century + e.cycle) + rest;
    assert 0 <= rest < 2 * 1_460;
  }

  /** The division formula finds the year and day the calendar defines. */
  lemma YearOfEraCorrect(e: EraDay)
    requires ValidEraDay(e)
    ensures YearOfEra(EraIndex(e)) == EraYear(e) && DayOfYear(EraIndex(e)) == e.day
  {
    CenturyCount(e);
    CycleCount(e);
    var k := if 24 * e.century + e.cycle + 365 * e.year + e.day < 1_460 then 0 else 1;
    var doe := EraIndex(e);
    assert doe - doe / 1_460 + doe / 36_524 - doe / 146_096 == 365 * EraYear(e) + (e.day - k);
    assert 0 <= e.day - k < 365;
    EraYearParts(e);
  }

  lemma EraYearParts(e: EraDay)
    requires ValidEraDay(e)
    ensures 0 <= EraYear(e) < 400 && EraYear(e) / 4 == 25 * e.century + e.cycle && EraYear(e) / 100 == e.century
  {
  }

  function MarchOffset(mp: int): int {
    (153 * mp + 2) / 5
  }

  lemma MarchFirst(y: int)
    ensures DaysBeforeYear(y) + DaysBeforeMonth(y, 3) == 365 * y + y / 4 - y / 100 + y / 400 - 306
    ensures DaysBeforeYear(y + 1) == DaysBeforeYear(y) + DaysBeforeMonth(y, 3) + 306
  {
    YearLength(y);
  }

  /** The `mp` formula picks the March-based month that holds the day. */
  lemma MonthOfDay(doy: int)
    requires 0 <= doy <= 365
    ensures var mp := (5 * doy + 2) / 153;
            0 <= mp <= 11 && MarchOffset(mp) <= doy && (mp < 11 ==> doy < MarchOffset(mp + 1))
  {
  }

  lemma MonthTable(y: int, mp: int)
    requires 0 <= mp <= 11
    ensures mp < 10 ==> DaysBeforeMonth(y, mp + 3) == DaysBeforeMonth(y, 3) + MarchOffset(mp)
    ensures mp >= 10 ==> DaysBeforeMonth(y + 1, mp - 9) + 306 == MarchOffset(mp)
    ensures mp < 10 ==> MarchOffset(mp + 1) - MarchOffset(mp) == DaysInMonth(y, mp + 3)
    ensures mp == 10 ==> MarchOffset(mp + 1) - MarchOffset(mp) == DaysInMonth(y + 1, 1)
  {
    assert mp == 0 || mp == 1 || mp == 2 || mp == 3 || mp == 4 || mp == 5 || mp == 6 || mp == 7 || mp == 8 || mp == 9 || mp == 10 || mp == 11;
  }

  lemma LongYear(e: EraDay)
    requires ValidEraDay(e) && e.day == 365
    ensures forall era: int :: Leap(400 * era + EraYear(e) + 1)
  {
    forall era: int ensures Leap(400 * era + EraYear(e) + 1) {
      var y := 400 * era + EraYear(e) + 1;
      assert y == 4 * (100 * era + 25 * e.century + e.cycle + 1);
      if e.cycle < 24 {
        assert y == 100 * (4 * era + e.century) + 4 * (e.cycle + 1);
        NotACentury(4 * era + e.century, 4 * (e.cycle + 1));
        FoursDivide(100 * era + 25 * e.century + e.cycle + 1);
      } else {
        assert y == 400 * (era + 1);
        ErasDivide(era + 1);
        FoursDivide(100 * (era + 1));
      }
    }
  }

  lemma NotACentury(q: int, r: int)
    requires 0 < r < 100
    ensures (100 * q + r) % 100 == r
  {
  }

  lemma FoursDivide(q: int)
    ensures (4 * q) % 4 == 0
  {
  }

  lemma ErasDivide(q: int)
    ensures (400 * q) % 400 == 0
  {
  }

  /** The date the source computes from a March-based year and a day of it. */
  function FromMarch(y: int, doy: int): Date {
    var mp := (5 * doy + 2) / 153;
    var month := if mp < 10 then mp + 3 else mp - 9;
    Date(if month <= 2 then y + 1 else y, month, doy - (153 * mp + 2) / 5 + 1)
  }

  lemma FromMarchCorrect(y: int, doy: int)
    requires 0 <= doy <= 365 && (doy == 365 ==> Leap(y + 1))
    ensures ValidDate(FromMarch(y, doy))
    ensures DayNumber(FromMarch(y, doy)) == 365 * y + y / 4 - y / 100 + y / 400 + doy - 719_468
  {
    var mp := (5 * doy + 2) / 153;
    MonthOfDay(doy);
    MonthTable(y, mp);
    MarchFirst(y);
  }

  lemma EraYearStart(era: int, yoe: int)
    requires 0 <= yoe < 400
    ensures var y := yoe + era * 400;
            365 * y + y / 4 - y / 100 + y / 400 == 146_097 * era + 365 * yoe + yoe / 4 - yoe / 100
  {
    var y := yoe + era * 400;
    assert y / 4 == 100 * era + yoe / 4;
    assert y / 100 == 4 * era + yoe / 100;
    assert y / 400 == era;
  }

  lemma EraParts(days: int)
    requires 0 <= days
    ensures 0 <= DayOfEra(days) < 146_097 && 0 <= EraOf(days)
    ensures 146_097 * EraOf(days) + DayOfEra(days) == days + 719_468
  {
  }

  lemma DateOfEraDay(era: int, e: EraDay)
    requires ValidEraDay(e)
    ensures var y := EraYear(e) + era * 400;
            && ValidDate(FromMarch(y, e.day))
            && DayNumber(FromMarch(y, e.day)) == 146_097 * era + EraIndex(e) - 719_468
  {
    var y := EraYear(e) + era * 400;
    EraYearParts(e);
    EraYearStart(era, EraYear(e));
    if e.day == 365 { LongYear(e); assert Leap(400 * era + EraYear(e) + 1); }
    FromMarchCorrect(y, e.day);
  }

  /** The date of a day, without the casts of the source. */
  function PlainDate(days: int): Date {
    FromMarch(YearOfEra(DayOfEra(days)) + EraOf(days) * 400, DayOfYear(DayOfEra(days)))
  }

  /** Every day from the epoch on becomes a valid date whose day number is that day. */
  lemma DateOfDay(days: int)
    requires 0 <= days
    ensures ValidDate(PlainDate(days)) && DayNumber(PlainDate(days)) == days
    ensures 0 <= PlainDate(days).year <= days / 365 + 2401
  {
    hide YearOfEra, DayOfYear, FromMarch, DayNumber, SplitEra, EraOf, DayOfEra, ValidDate, EraYear, EraIndex, ValidEraDay;
    EraParts(days);
    var e := SplitEra(DayOfEra(days));
    SplitEraValid(DayOfEra(days));
    YearOfEraCorrect(e);
    EraYearParts(e);
    DateOfEraDay(EraOf(days), e);
    FromMarchYear(EraYear(e) + EraOf(days) * 400, e.day);
    YearBound(EraOf(days), EraYear(e), days);
  }

  lemma FromMarchYear(y: int, doy: int)
    ensures y <= FromMarch(y, doy).year <= y + 1
  {
  }

  lemma YearBound(era: int, yoe: int, days: int)
    requires 0 <= era && 0 <= yoe < 400 && 146_097 * era <= days + 719_468
    ensures 0 <= yoe + era * 400 <= days / 365 + 2400
  {
    assert 365 * (400 * era) <= days + 719_468;
  }

  const U64: int := 0x1_0000_0000_0000_0000

  function CivilOf(ms: int): Civil {
    CivilFromUnix(AsI64(ms / 1000))
  }

  /** The time of day splits the seconds of the day. */
  lemma TimeOfDay(rem: int)
    requires 0 <= rem < 86_400
    ensures 0 <= rem / 3600 < 24 && 0 <= rem % 3600 / 60 < 60 && 0 <= rem % 60 < 60
    ensures rem / 3600 * 3600 + rem % 3600 / 60 * 60 + rem % 60 == rem
  {
    assert rem == rem / 3600 * 3600 + rem % 3600;
    assert rem % 3600 == rem % 3600 / 60 * 60 + rem % 3600 % 60;
    assert rem % 60 == rem % 3600 % 60;
  }

  lemma CastsKeepDate(secs: int)
    requires 0 <= secs <= U64 / 1000
    ensures CivilFromUnix(secs).date == PlainDate(secs / 86_400)
    ensures 0 <= PlainDate(secs / 86_400).year < 0x8000_0000
  {
    hide YearOfEra, DayOfYear, DayNumber, ValidDate, EraOf, DayOfEra, AsU32, AsI32;
    var days := secs / 86_400;
    DateOfDay(days);
    EraParts(days);
    assert days / 365 + 2401 < 0x8000_0000;
    CastsKeep(DayOfEra(days));
    CastsKeep(PlainDate(days).year);
  }

  lemma CastsKeep(n: int)
    requires 0 <= n < 0x8000_0000
    ensures AsU32(n) == n && AsI32(n) == n
  {
  }

  /** No unsigned subtraction of the conversion underflows. */
  lemma NoUnderflow(doe: int)
    requires 0 <= doe < 146_097
    ensures doe / 1460 <= doe && doe / 146_096 <= doe - doe / 1460 + doe / 36_524
    ensures YearOfEra(doe) / 100 <= 365 * YearOfEra(doe) + YearOfEra(doe) / 4 && 0 <= DayOfYear(doe) <= 365
    ensures (153 * ((5 * DayOfYear(doe) + 2) / 153) + 2) / 5 <= DayOfYear(doe)
  {
    hide YearOfEra, DayOfYear;
    SplitEraValid(doe);
    YearOfEraCorrect(SplitEra(doe));
    EraYearParts(SplitEra(doe));
    MonthOfDay(DayOfYear(doe));
  }

  /** No cast of the conversion loses a bit for any u64 of milliseconds, the date
      is valid, and its day number and time of day are those of the input. */
  lemma ConvertsEveryInstant(ms: int)
    requires 0 <= ms < U64
    ensures AsI64(ms / 1000) == ms / 1000
    ensures var c := CivilOf(ms);
            && ValidDate(c.date) && DayNumber(c.date) == ms / 86_400_000 && 1970 <= c.date.year < 0x8000_0000
            && 0 <= c.hour < 24 && 0 <= c.minute < 60 && 0 <= c.second < 60
            && c.hour * 3600 + c.minute * 60 + c.second == ms / 1000 % 86_400
  {
    hide YearOfEra, DayOfYear, DayNumber, ValidDate, EraOf, DayOfEra, PlainDate;
    var secs := ms / 1000;
    assert AsI64(secs) == secs && AsU32(secs % 86_400) == secs % 86_400;
    assert secs / 86_400 == ms / 86_400_000;
    TimeOfDay(secs % 86_400);
    DateOfDay(secs / 86_400);
    CastsKeepDate(secs);
    AfterEpoch(PlainDate(secs / 86_400));
  }

  lemma AfterEpoch(d: Date)
    requires ValidDate(d) && DayNumber(d) >= 0
    ensures d.year >= 1970
  {
    if d.year < 1970 { LaterYear(d, Date(1970, 1, 1)); }
  }

  // ---------- order ----------

  predicate Before(a: Date, b: Date) {
    a.year < b.year || (a.year == b.year && (a.month < b.month || (a.month == b.month && a.day < b.day)))
  }

  lemma {:induction false} YearsAscend(a: int, b: int)
    requires a < b
    ensures DaysBeforeYear(a) + (if Leap(a) then 366 else 365) <= DaysBeforeYear(b)
    decreases b - a
  {
    YearLength(b - 1);
    if a < b - 1 { YearsAscend(a, b - 1); }
  }

  lemma {:induction false} MonthsAscend(y: int, a: int, b: int)
    requires 1 <= a < b <= 12
    ensures DaysBeforeMonth(y, a) + DaysInMonth(y, a) <= DaysBeforeMonth(y, b)
    decreases b - a
  {
    MonthLength(y, b - 1);
    if a < b - 1 { MonthsAscend(y, a, b - 1); }
  }

  lemma LaterYear(a: Date, b: Date)
    requires ValidDate(a) && ValidDate(b) && a.year < b.year
    ensures DayNumber(a) < DayNumber(b)
  {
    YearsAscend(a.year, b.year);
    if a.month < 12 { MonthsAscend(a.year, a.month, 12); }
  }

  /** Calendar order is day-number order. */
  lemma DayNumberMonotone(a: Date, b: Date)
    requires ValidDate(a) && ValidDate(b)
    ensures Before(a, b) <==> DayNumber(a) < DayNumber(b)
    ensures a == b <==> DayNumber(a) == DayNumber(b)
  {
    Ascends(a, b);
    Ascends(b, a);
    assert Before(a, b) || a == b || Before(b, a);
  }

  lemma Ascends(a: Date, b: Date)
    requires ValidDate(a) && ValidDate(b)
    ensures Before(a, b) ==> DayNumber(a) < DayNumber(b)
  {
    if a.year < b.year {
      LaterYear(a, b);
    } else if a.year == b.year && a.month < b.month {
      MonthsAscend(a.year, a.month, b.month);
    }
  }

  // ---------- the text ----------

  function Pow10(w: nat): nat {
    if w == 0 then 1 else 10 * Pow10(w - 1)
  }

  /** Decimal digits of n, zero-padded to at least w places. */
  function Decimal(n: nat, w: nat): Text {
    if n < 10 && w <= 1 then [48 + n]
    else Decimal(n / 10, if w == 0 then 0 else w - 1) + [48 + n % 10]
  }

  datatype Field = Field(value: nat, width: nat, separator: Unit)

  function Render(fields: seq<Field>): Text {
    if fields == [] then []
    else Decimal(fields[0].value, fields[0].width) + [fields[0].separator] + Render(fields[1..])
  }

  /** year-month-dayThour:minute:second.millisZ */
  function Fields(c: Civil, millis: nat): seq<Field>
    requires c.date.year >= 0 && c.date.month >= 0 && c.date.day >= 0 && c.hour >= 0 && c.minute >= 0 && c.second >= 0
  {
    [Field(c.date.year, 4, 45), Field(c.date.month, 2, 45), Field(c.date.day, 2, 84),
     Field(c.hour, 2, 58), Field(c.minute, 2, 58), Field(c.second, 2, 46), Field(millis, 3, 90)]
  }

  function Timestamp(ms: int): Text
    requires 0 <= ms < U64
  {
    ConvertsEveryInstant(ms);
    Render(Fields(CivilOf(ms), ms % 1000))
  }

  lemma {:induction false} DecimalLess(a: nat, b: nat, w: nat, x: Text, y: Text)
    requires a < b < Pow10(w) && w > 0
    ensures Less(Decimal(a, w) + x, Decimal(b, w) + y)
  {
    if w > 1 {
      var u, v := [48 + a % 10] + x, [48 + b % 10] + y;
      assert Decimal(a, w) + x == Decimal(a / 10, w - 1) + u;
      assert Decimal(b, w) + y == Decimal(b / 10, w - 1) + v;
      if a / 10 < b / 10 {
        DecimalLess(a / 10, b / 10, w - 1, u, v);
      } else {
        LessAfterPrefix(Decimal(a / 10, w - 1), u, v);
      }
    }
  }

  ghost predicate SameShape(f: seq<Field>, g: seq<Field>) {
    |f| == |g| && forall i :: 0 <= i < |f| ==> f[i].width == g[i].width > 0 && f[i].separator == g[i].separator
  }

  /** Two renderings compare as the first field in which they differ. */
  lemma {:induction false} RenderLess(f: seq<Field>, g: seq<Field>, k: nat)
    requires SameShape(f, g) && k < |f|
    requires forall i :: 0 <= i < k ==> f[i].value == g[i].value
    requires f[k].value < g[k].value < Pow10(g[k].width)
    ensures Less(Render(f), Render(g))
  {
    if k == 0 {
      var x, y := [f[0].separator] + Render(f[1..]), [g[0].separator] + Render(g[1..]);
      DecimalLess(f[0].value, g[0].value, f[0].width, x, y);
      assert Render(f) == Decimal(f[0].value, f[0].width) + x && Render(g) == Decimal(g[0].value, g[0].width) + y;
    } else {
      RenderLess(f[1..], g[1..], k - 1);
      LessAfterPrefix(Decimal(f[0].value, f[0].width) + [f[0].separator], Render(f[1..]), Render(g[1..]));
    }
  }

  lemma Widths()
    ensures Pow10(2) == 100 && Pow10(3) == 1000 && Pow10(4) == 10_000
  {
    assert Pow10(1) == 10;
  }

  predicate Plausible(c: Civil, millis: int) {
    && ValidDate(c.date) && 0 <= c.date.year <= 9999
    && 0 <= c.hour < 24 && 0 <= c.minute < 60 && 0 <= c.second < 60 && 0 <= millis < 1000
  }

  lemma DateDecides(c: Civil, x: int, d: Civil, y: int)
    requires Plausible(c, x) && Plausible(d, y) && Before(c.date, d.date)
    ensures Less(Render(Fields(c, x)), Render(Fields(d, y)))
  {
    Widths();
    var k := if c.date.year < d.date.year then 0 else if c.date.month < d.date.month then 1 else 2;
    RenderLess(Fields(c, x), Fields(d, y), k);
  }

  lemma TimeDecides(c: Civil, x: int, d: Civil, y: int)
    requires Plausible(c, x) && Plausible(d, y) && c.date == d.date
    requires var s, t := c.hour * 3600 + c.minute * 60 + c.second, d.hour * 3600 + d.minute * 60 + d.second;
             s < t || (s == t && x < y)
    ensures Less(Render(Fields(c, x)), Render(Fields(d, y)))
  {
    Widths();
    var k := if c.hour < d.hour then 3 else if c.minute < d.minute then 4 else if c.second < d.second then 5 else 6;
    RenderLess(Fields(c, x), Fields(d, y), k);
  }

  /** The first instant of the year 10000, in milliseconds. */
  const YEAR_10000: int := 253_402_300_800_000

  const FIRST_OF_10000 := Date(10_000, 1, 1)

  /** A date has a four-digit year exactly before that day. */
  lemma FourDigitYears(d: Date)
    requires ValidDate(d)
    ensures DayNumber(FIRST_OF_10000) == 2_932_897 == YEAR_10000 / 86_400_000
    ensures d.year <= 9999 <==> DayNumber(d) < 2_932_897
  {
    assert ValidDate(FIRST_OF_10000) && DayNumber(FIRST_OF_10000) == 2_932_897;
    hide DayNumber, ValidDate;
    DayNumberMonotone(d, FIRST_OF_10000);
    FirstOfYear(d, 10_000);
  }

  lemma FirstOfYear(d: Date, year: int)
    requires ValidDate(d)
    ensures Before(d, Date(year, 1, 1)) <==> d.year < year
  {
  }

  lemma EarlierIsLess(a: int, b: int)
    requires 0 <= a < b < YEAR_10000
    ensures Less(Timestamp(a), Timestamp(b))
  {
    hide DayNumber, CivilFromUnix, CivilOf, Render, ValidDate;
    ConvertsEveryInstant(a);
    ConvertsEveryInstant(b);
    var c, d := CivilOf(a), CivilOf(b);
    FourDigitYears(c.date);
    FourDigitYears(d.date);
    DayNumberMonotone(c.date, d.date);
    if a / 86_400_000 < b / 86_400_000 {
      DateDecides(c, a % 1000, d, b % 1000);
    } else {
      SameDay(a, b);
      TimeDecides(c, a % 1000, d, b % 1000);
    }
  }

  lemma SameDay(a: int, b: int)
    requires 0 <= a < b && a / 86_400_000 == b / 86_400_000
    ensures var s, t := a / 1000 % 86_400, b / 1000 % 86_400;
            s < t || (s == t && a % 1000 < b % 1000)
  {
    var d := a / 86_400_000;
    SplitInstant(a);
    SplitInstant(b);
    assert 86_400 * d + a / 1000 % 86_400 == a / 1000 && 86_400 * d + b / 1000 % 86_400 == b / 1000;
    assert a == 1000 * (a / 1000) + a % 1000 && b == 1000 * (b / 1000) + b % 1000;
  }

  lemma SplitInstant(ms: int)
    requires 0 <= ms
    ensures ms / 1000 == 86_400 * (ms / 86_400_000) + ms / 1000 % 86_400
  {
    assert ms / 1000 / 86_400 == ms / 86_400_000;
  }

  /** Up to the year 9999 the texts order as the instants do. */
  lemma TimestampsOrderAsInstants(a: int, b: int)
    requires 0 <= a < YEAR_10000 && 0 <= b < YEAR_10000
    ensures Less(Timestamp(a), Timestamp(b)) <==> a < b
    ensures Timestamp(a) == Timestamp(b) <==> a == b
  {
    LessAsymmetric(Timestamp(a), Timestamp(b));
    LessAsymmetric(Timestamp(a), Timestamp(a));
    if a < b {
      EarlierIsLess(a, b);
    } else if b < a {
      EarlierIsLess(b, a);
    }
  }

  lemma FiveDigits()
    ensures Decimal(10_000, 4) == [49, 48, 48, 48, 48] && Decimal(9999, 4) == [57, 57, 57, 57]
  {
    assert Decimal(1, 0) == [49];
    assert Decimal(10, 1) == [49, 48];
    assert Decimal(100, 2) == [49, 48, 48];
    assert Decimal(1000, 3) == [49, 48, 48, 48];
    assert Decimal(9, 1) == [57];
    assert Decimal(99, 2) == [57, 57];
    assert Decimal(999, 3) == [57, 57, 57];
  }

  /** At the year 10000 the order breaks: its first text sorts before the last one of 9999. */
  lemma OrderBreaksAt10000()
    ensures Less(Timestamp(YEAR_10000), Timestamp(YEAR_10000 - 1))
  {
    var last := Date(9999, 12, 31);
    assert ValidDate(FIRST_OF_10000) && DayNumber(FIRST_OF_10000) == 2_932_897;
    assert ValidDate(last) && DayNumber(last) == 2_932_896;
    ConvertsEveryInstant(YEAR_10000);
    ConvertsEveryInstant(YEAR_10000 - 1);
    hide DayNumber, CivilFromUnix, CivilOf, ValidDate;
    DayNumberMonotone(CivilOf(YEAR_10000).date, FIRST_OF_10000);
    DayNumberMonotone(CivilOf(YEAR_10000 - 1).date, last);
    FiveDigits();
    hide Decimal, Timestamp;
    TextStarts(YEAR_10000);
    TextStarts(YEAR_10000 - 1);
  }

  lemma TextStarts(ms: int)
    requires 0 <= ms < U64
    ensures CivilOf(ms).date.year >= 0 && Decimal(CivilOf(ms).date.year, 4) != [] && Timestamp(ms) != []
    ensures Timestamp(ms)[0] == Decimal(CivilOf(ms).date.year, 4)[0]
  {
    ConvertsEveryInstant(ms);
    hide DayNumber, CivilFromUnix, CivilOf, ValidDate;
  }
}
