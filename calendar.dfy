/**
 * Proleptic Gregorian calendar arithmetic on day numbers (days since
 * 1970-01-01), used to find the calendar date a thread name shows.
 *
 * The conversion splits a day number into 400-year eras (146097 days), then
 * centuries, four-year blocks and years, all counted from 1 March so that the
 * leap day, when there is one, is the last day of the counted year.
 */
module Calendar {

  datatype Date = Date(year: int, month: int, day: int)

  predicate IsLeapYear(y: int) {
    y % 4 == 0 && (y % 100 != 0 || y % 400 == 0)
  }

  function DaysInMonth(y: int, m: int): int
    requires 1 <= m <= 12
  {
    if m == 2 then (if IsLeapYear(y) then 29 else 28)
    else if m == 4 || m == 6 || m == 9 || m == 11 then 30
    else 31
  }

  predicate ValidDate(d: Date) {
    1 <= d.month <= 12 && 1 <= d.day <= DaysInMonth(d.year, d.month)
  }

  /** Days from 1 March to the first day of the month `mp` months later (0 is March, 11 is February). */
  function MonthStart(mp: int): int {
    (153 * mp + 2) / 5
  }

  /** The month, counted from March, that holds day `doy` of a year counted from 1 March. */
  function MonthIndex(doy: int): int {
    (5 * doy + 2) / 153
  }

  /** Day 1970-01-01 falls 719468 days after 0000-03-01. */
  const EpochShift := 719468
  const DaysPerEra := 146097
  const DaysPerCentury := 36524
  const DaysPerQuad := 1461

  /** The day number of a calendar date. */
  function DaysFromCivil(d: Date): int {
    var y := if d.month <= 2 then d.year - 1 else d.year;
    var era := y / 400;
    var yoe := y - era * 400;
    var mp := if d.month > 2 then d.month - 3 else d.month + 9;
    var doy := MonthStart(mp) + d.day - 1;
    var doe := yoe * 365 + yoe / 4 - yoe / 100 + doy;
    era * DaysPerEra + doe - EpochShift
  }

  /**
   * Where a day falls: its 400-year era, and within the era (counted from
   * 1 March of its first year) the century, the four-year block, the year in
   * the block and the day in the year.
   */
  datatype Position = Position(era: int, century: int, quad: int, year: int, dayOfYear: int)

  predicate InEra(p: Position) {
    && 0 <= p.century <= 3 && 0 <= p.quad <= 24 && 0 <= p.year <= 3 && 0 <= p.dayOfYear <= 365
    && (p.dayOfYear == 365 ==> p.year == 3 && (p.quad < 24 || p.century == 3))
  }

  /** The day number of the first day of a position's era plus its offset within the era. */
  function PositionDay(p: Position): int {
    p.era * DaysPerEra + DaysPerCentury * p.century + DaysPerQuad * p.quad + 365 * p.year + p.dayOfYear - EpochShift
  }

  /** The position of day number `z`; it names the same day. */
  function PositionOf(z: int): (p: Position)
    ensures InEra(p) && PositionDay(p) == z
  {
    var z' := z + EpochShift;
    var era := z' / DaysPerEra;
    var doe := z' - era * DaysPerEra;
    var c := if doe / DaysPerCentury < 3 then doe / DaysPerCentury else 3;
    var doc := doe - DaysPerCentury * c;
    var q := doc / DaysPerQuad;
    var doq := doc - DaysPerQuad * q;
    var r := if doq / 365 < 3 then doq / 365 else 3;
    EraParts(doe);
    Position(era, c, q, r, doq - 365 * r)
  }

  /** The calendar date at a position. */
  function DateAt(p: Position): Date {
    var mp := MonthIndex(p.dayOfYear);
    var month := if mp < 10 then mp + 3 else mp - 9;
    var yoe := 100 * p.century + 4 * p.quad + p.year;
    Date(p.era * 400 + yoe + (if month <= 2 then 1 else 0), month, p.dayOfYear - MonthStart(mp) + 1)
  }

  /** The calendar date of a day number. */
  function CivilFromDays(z: int): Date {
    DateAt(PositionOf(z))
  }

  /** Months counted from March: the month a day falls in, and the length of that month. */
  lemma MonthOfDay(doy: int, leap: bool)
    requires 0 <= doy <= (if leap then 365 else 364)
    ensures 0 <= MonthIndex(doy) <= 11
    ensures MonthStart(MonthIndex(doy)) <= doy
    ensures var mp := MonthIndex(doy);
            var month := if mp < 10 then mp + 3 else mp - 9;
            doy - MonthStart(mp) < (if month == 2 then (if leap then 29 else 28) else DaysInMonth(2001, month))
  {
    var mp := MonthIndex(doy);
    assert 153 * mp <= 5 * doy + 2 < 153 * mp + 153;
  }

  /** The parts of a day number within its era: century, four-year block, year and day. */
  lemma EraParts(doe: int)
    requires 0 <= doe < DaysPerEra
    ensures var c := if doe / DaysPerCentury < 3 then doe / DaysPerCentury else 3;
            var doc := doe - DaysPerCentury * c;
            var q := doc / DaysPerQuad;
            var doq := doc - DaysPerQuad * q;
            var r := if doq / 365 < 3 then doq / 365 else 3;
            var doy := doq - 365 * r;
            && 0 <= c <= 3 && 0 <= q <= 24 && 0 <= r <= 3 && 0 <= doy <= 365
            && doe == DaysPerCentury * c + DaysPerQuad * q + 365 * r + doy
            && (doy == 365 ==> r == 3 && (q < 24 || c == 3))
  {
  }

  /** Every position within an era names a real calendar date. */
  lemma DateAtValid(p: Position)
    requires InEra(p)
    ensures ValidDate(DateAt(p))
  {
    // The year that holds the February at the end of this March-based year.
    var y := p.era * 400 + 100 * p.century + 4 * p.quad + p.year + 1;
    if p.dayOfYear == 365 {
      LeapYearAtEnd(p.era, p.century, p.quad);
    }
    MonthOfDay(p.dayOfYear, IsLeapYear(y));
    var d := DateAt(p);
    assert d.month <= 2 ==> d.year == y;
  }

  /** The year after the last year of a four-year block is a leap year, except at a century that is not a 400-year one. */
  lemma LeapYearAtEnd(era: int, c: int, q: int)
    requires 0 <= c <= 3 && 0 <= q <= 24 && (q < 24 || c == 3)
    ensures IsLeapYear(era * 400 + 100 * c + 4 * q + 4)
  {
    var y := era * 400 + 100 * c + 4 * q + 4;
    Shift4(100 * era + 25 * c + q + 1, 0);
    assert y == 4 * (100 * era + 25 * c + q + 1) + 0;
    if q < 24 {
      Shift100(4 * era + c, 4 * q + 4);
      assert y == 100 * (4 * era + c) + (4 * q + 4);
    } else {
      Shift400(era + 1, 0);
      assert y == 400 * (era + 1) + 0;
    }
  }

  /** Every day number names a real calendar date. */
  lemma CivilFromDaysValid(z: int)
    ensures ValidDate(CivilFromDays(z))
  {
    DateAtValid(PositionOf(z));
  }

  /** Converting a day number to a date and back gives the same day number. */
  lemma DaysFromCivilInverse(z: int)
    ensures DaysFromCivil(CivilFromDays(z)) == z
  {
    DaysOfDateAt(PositionOf(z));
  }

  /** The day number of the date at a position is the position's day. */
  lemma DaysOfDateAt(p: Position)
    requires InEra(p)
    ensures DaysFromCivil(DateAt(p)) == PositionDay(p)
  {
    var d := DateAt(p);
    MonthOfDay(p.dayOfYear, true);
    var mp := MonthIndex(p.dayOfYear);
    var yoe := 100 * p.century + 4 * p.quad + p.year;
    YearParts(p.century, p.quad, p.year);
    // The March-based year and month DaysFromCivil recovers are the ones the position names.
    DaysFromCivilParts(d, p.era, yoe, mp);
    assert yoe * 365 + yoe / 4 - yoe / 100 == DaysPerCentury * p.century + DaysPerQuad * p.quad + 365 * p.year;
  }

  /** The day number of a date, given the era, the year in the era and the month counted from March. */
  lemma DaysFromCivilParts(d: Date, era: int, yoe: int, mp: int)
    requires 0 <= yoe < 400 && 0 <= mp <= 11
    requires d.month == (if mp < 10 then mp + 3 else mp - 9)
    requires (if d.month <= 2 then d.year - 1 else d.year) == era * 400 + yoe
    ensures DaysFromCivil(d) == era * DaysPerEra + yoe * 365 + yoe / 4 - yoe / 100 + MonthStart(mp) + d.day - 1 - EpochShift
  {
    EraOfYear(era, yoe);
  }

  /** A year within its era, given as century, four-year block and year in the block. */
  lemma YearParts(c: int, q: int, r: int)
    requires 0 <= c <= 3 && 0 <= q <= 24 && 0 <= r <= 3
    ensures var yoe := 100 * c + 4 * q + r;
            && 0 <= yoe < 400 && yoe / 4 == 25 * c + q && yoe / 100 == c
  {
    var yoe := 100 * c + 4 * q + r;
    assert yoe == 4 * (25 * c + q) + r;
    assert yoe == 100 * c + (4 * q + r) && 4 * q + r < 100;
  }

  /** The era and year in the era of a year number. */
  lemma EraOfYear(era: int, yoe: int)
    requires 0 <= yoe < 400
    ensures (era * 400 + yoe) / 400 == era
    ensures era * 400 + yoe - (era * 400 + yoe) / 400 * 400 == yoe
  {
  }

  /** Two positions within eras that name the same day are the same position. */
  lemma PositionUnique(p: Position, p': Position)
    requires InEra(p) && InEra(p') && PositionDay(p) == PositionDay(p')
    ensures p == p'
  {
    var off := PositionDay(p) + EpochShift - p.era * DaysPerEra;
    var off' := PositionDay(p') + EpochShift - p'.era * DaysPerEra;
    assert 0 <= off < DaysPerEra && 0 <= off' < DaysPerEra;
    assert p.era == p'.era;
    assert p.century == p'.century;
    assert p.quad == p'.quad;
    assert p.year == p'.year;
  }

  /** A month's first day, counted from March, is found again by MonthIndex. */
  lemma MonthIndexOfDay(mp: int, day: int)
    requires 0 <= mp <= 11 && 1 <= day <= 31
    requires mp != 11 ==> day <= (if mp == 1 || mp == 3 || mp == 6 || mp == 8 then 30 else 31)
    requires mp == 11 ==> day <= 29
    ensures MonthIndex(MonthStart(mp) + day - 1) == mp
  {
  }

  /** A year within its era, read as century, four-year block and year in the block. */
  lemma YearOfEra(yoe: int)
    requires 0 <= yoe < 400
    ensures var c, q, r := yoe / 100, (yoe % 100) / 4, yoe % 4;
            && 0 <= c <= 3 && 0 <= q <= 24 && 0 <= r <= 3
            && yoe == 100 * c + 4 * q + r
            && yoe / 4 == 25 * c + q
  {
  }

  /** Adding whole multiples of the modulus leaves a remainder unchanged. */
  lemma Shift4(k: int, t: int)
    ensures (4 * k + t) % 4 == t % 4
  {
    assert 4 * k + t == 4 * (k + t / 4) + t % 4;
  }

  lemma Shift100(k: int, t: int)
    ensures (100 * k + t) % 100 == t % 100
  {
    assert 100 * k + t == 100 * (k + t / 100) + t % 100;
  }

  lemma Shift400(k: int, t: int)
    ensures (400 * k + t) % 400 == t % 400
  {
    assert 400 * k + t == 400 * (k + t / 400) + t % 400;
  }

  /** The year after one that ends a four-year block is a leap year only if it is one of the 400-year kind when it ends a century. */
  lemma LeapAfter(era: int, yoe: int)
    requires 0 <= yoe < 400
    requires IsLeapYear(era * 400 + yoe + 1)
    ensures yoe % 4 == 3
    ensures (yoe % 100) / 4 == 24 ==> yoe / 100 == 3
  {
    Shift4(100 * era, yoe + 1);
    Shift100(4 * era, yoe + 1);
    Shift400(era, yoe + 1);
    var c, rest := yoe / 100, yoe % 100;
    assert yoe == 100 * c + rest && 0 <= rest < 100 && 0 <= c < 4;
    assert yoe + 1 == 100 * c + (rest + 1);
  }

  /** The position of a date, read off its year, month and day. */
  function DatePosition(d: Date): Position
    requires 1 <= d.month <= 12
  {
    var y := if d.month <= 2 then d.year - 1 else d.year;
    var era := y / 400;
    var yoe := y - era * 400;
    var mp := if d.month > 2 then d.month - 3 else d.month + 9;
    Position(era, yoe / 100, (yoe % 100) / 4, yoe % 4, MonthStart(mp) + d.day - 1)
  }

  /** A valid date's position lies within its era. */
  lemma DatePositionInEra(d: Date)
    requires ValidDate(d)
    ensures InEra(DatePosition(d))
  {
    var y := if d.month <= 2 then d.year - 1 else d.year;
    var era := y / 400;
    var yoe := y - era * 400;
    assert 0 <= yoe < 400;
    YearOfEra(yoe);
    var mp := if d.month > 2 then d.month - 3 else d.month + 9;
    var doy := MonthStart(mp) + d.day - 1;
    assert DatePosition(d) == Position(era, yoe / 100, (yoe % 100) / 4, yoe % 4, doy);
    if doy == 365 {
      assert d.month == 2 && d.day == 29;
      LeapAfter(era, yoe);
    }
  }

  /** A date's position names the date's day number. */
  lemma DatePositionDay(d: Date)
    requires 1 <= d.month <= 12
    ensures PositionDay(DatePosition(d)) == DaysFromCivil(d)
  {
    var y := if d.month <= 2 then d.year - 1 else d.year;
    var era := y / 400;
    var yoe := y - era * 400;
    assert 0 <= yoe < 400;
    YearOfEra(yoe);
    var mp := if d.month > 2 then d.month - 3 else d.month + 9;
    DaysFromCivilParts(d, era, yoe, mp);
  }

  /** The date at a valid date's position is that date. */
  lemma DateAtDatePosition(d: Date)
    requires ValidDate(d)
    ensures DateAt(DatePosition(d)) == d
  {
    var y := if d.month <= 2 then d.year - 1 else d.year;
    var era := y / 400;
    var yoe := y - era * 400;
    assert 0 <= yoe < 400;
    YearOfEra(yoe);
    var mp := if d.month > 2 then d.month - 3 else d.month + 9;
    MonthIndexOfDay(mp, d.day);
  }

  /** Converting a valid date to its day number and back gives the same date. */
  lemma CivilFromDaysInverse(d: Date)
    requires ValidDate(d)
    ensures CivilFromDays(DaysFromCivil(d)) == d
  {
    DatePositionInEra(d);
    DatePositionDay(d);
    DateAtDatePosition(d);
    PositionUnique(DatePosition(d), PositionOf(DaysFromCivil(d)));
  }
}
