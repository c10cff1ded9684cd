/**
  `Temporal.PlainYearMonth` arithmetic in the ISO calendar: adding years and months,
  and the rounded difference of two months. A stored value also carries a reference
  day, which must exist in its month.
 */
module YearMonth {
  import opened Options
  import opened Rounding
  import opened TemporalOptions

  datatype IsoDate = IsoDate(year: int, month: int, day: int)

  datatype Duration = Duration(years: int, months: int, weeks: int, days: int, hours: int, minutes: int,
                               seconds: int, ms: int, us: int, ns: int)

  datatype Error = SmallerUnits | OutOfRange | NoSuchDay | WeeksOrDays | ZeroIncrement

  datatype Result<+T> = Ok(value: T) | Err(error: Error)

  predicate IsLeapYear(year: int) {
    year % 4 == 0 && (year % 100 != 0 || year % 400 == 0)
  }

  function DaysInMonth(year: int, month: int): (n: nat)
    ensures 28 <= n <= 31
  {
    if month in {4, 6, 9, 11} then 30
    else if month == 2 then (if IsLeapYear(year) then 29 else 28)
    else 31
  }

  /** The leap days up to and with a year, by floor divisions. */
  function LeapDays(year: int): int {
    year / 4 - year / 100 + year / 400
  }

  /** The days from March of year zero to a month: whole years of 365 days, their leap days, and 153 days for every five months. */
  function MonthStart(year: int, month: int): int
    requires 1 <= month <= 12
  {
    var y, m := if month <= 2 then year - 1 else year, (month + 9) % 12;
    365 * y + LeapDays(y) + (153 * m + 2) / 5
  }

  lemma LeapDaysStep(year: int)
    ensures LeapDays(year) - LeapDays(year - 1) == if IsLeapYear(year) then 1 else 0
  {
    FloorStep(year, 4);
    FloorStep(year, 100);
    FloorStep(year, 400);
    if year % 400 == 0 { Divides(year, 4, 100); }
    if year % 100 == 0 { Divides(year, 25, 4); }
  }

  lemma Divides(x: int, a: nat, b: nat)
    requires a > 0 && b > 0 && x % (a * b) == 0
    ensures x % b == 0
  {
    var q := x / (a * b);
    assert x == q * a * b;
    QuotientIs(x, b, q * a, 0);
  }

  lemma FloorStep(x: int, n: nat)
    requires n > 1
    ensures x / n - (x - 1) / n == if x % n == 0 then 1 else 0
  {
    var k := if x % n == 0 then x / n - 1 else x / n;
    QuotientIs(x - 1, n, k, x - 1 - k * n);
  }

  /** The table of month lengths is that of the day count: every month ends where the next one starts. */
  lemma DaysInMonthMeaning(year: int, month: int)
    requires 1 <= month <= 12
    ensures DaysInMonth(year, month)
         == (if month == 12 then MonthStart(year + 1, 1) else MonthStart(year, month + 1)) - MonthStart(year, month)
  {
    if month == 2 { LeapDaysStep(year); }
    hide LeapDays, IsLeapYear;
  }

  /** A date of the calendar, in the years a month value may have. */
  predicate Valid(d: IsoDate) {
    -271821 <= d.year <= 275760 && 1 <= d.month <= 12 && 1 <= d.day <= DaysInMonth(d.year, d.month)
  }

  /** Months since the start of year zero. */
  function Index(d: IsoDate): int {
    d.year * 12 + d.month - 1
  }

  predicate SameMonth(a: IsoDate, b: IsoDate) {
    a.year == b.year && a.month == b.month
  }

  lemma IndexIsMonth(a: IsoDate, b: IsoDate)
    requires 1 <= a.month <= 12 && 1 <= b.month <= 12
    ensures Index(a) == Index(b) <==> SameMonth(a, b)
    ensures Index(a) < Index(b) <==> a.year < b.year || (a.year == b.year && a.month < b.month)
  {
  }

  // ---- Adding -------------------------------------------------------------

  /** The floor of a twelfth, without negating the dividend. */
  function YearOf(total: int): int {
    if total >= 0 then TDiv(total, 12) else TDiv(total - 11, 12)
  }

  /** The hand-written floor division puts the month in 0..11, for negative totals too. */
  lemma YearOfIsFloor(total: int)
    ensures YearOf(total) == total / 12 && 0 <= total - YearOf(total) * 12 < 12
  {
  }

  lemma IndexSplits(d: IsoDate)
    requires 1 <= d.month <= 12
    ensures YearOf(Index(d)) == d.year && Index(d) - d.year * 12 + 1 == d.month
  {
    YearOfIsFloor(Index(d));
  }

  lemma MonthAtIndex(d: IsoDate, day: int)
    requires 1 <= d.month <= 12
    ensures SameMonth(MonthAt(Index(d), day), d)
  {
    IndexSplits(d);
  }

  predicate OnlyMonths(d: Duration) {
    d.weeks == 0 && d.days == 0 && d.hours == 0 && d.minutes == 0 && d.seconds == 0 && d.ms == 0 && d.us == 0 && d.ns == 0
  }

  function Months(d: Duration): int {
    12 * d.years + d.months
  }

  /** The years the arithmetic accepts, one less at each end than a month value may have. */
  predicate InGuard(year: int) {
    -271820 <= year <= 275759
  }

  /** The month `total` months after year zero, on the last of its days not after `day`. */
  function MonthAt(total: int, day: int): IsoDate {
    var year := YearOf(total);
    var month := total - year * 12 + 1;
    IsoDate(year, month, if day <= DaysInMonth(year, month) then day else DaysInMonth(year, month))
  }

  /** The specification of `add` and `subtract`. */
  function Moved(d: IsoDate, shift: int, constrain: bool): Result<IsoDate> {
    var target := MonthAt(Index(d) + shift, d.day);
    if !InGuard(target.year) then Err(OutOfRange)
    else if target.day != d.day && !constrain then Err(NoSuchDay)
    else Ok(target)
  }

  function AddOrSubtract(d: IsoDate, dur: Duration, constrain: bool, negate: bool): Result<IsoDate> {
    if !OnlyMonths(dur) then Err(SmallerUnits) else Moved(d, if negate then -Months(dur) else Months(dur), constrain)
  }

  method TryNewIso(year: int, month: int, day: int) returns (r: Result<IsoDate>)
    ensures r == if Valid(IsoDate(year, month, day)) then Ok(IsoDate(year, month, day))
                 else Err(if -271821 <= year <= 275760 && 1 <= month <= 12 then NoSuchDay else OutOfRange)
  {
    if year < -271821 || year > 275760 { return Err(OutOfRange); }
    if month < 1 || month > 12 { return Err(OutOfRange); }
    var maxDay := DaysInMonth(year, month);
    if day < 1 || day > maxDay { return Err(NoSuchDay); }
    r := Ok(IsoDate(year, month, day));
  }

  /** The range of the year and month fields of a duration. */
  predicate ValidDuration(d: Duration) {
    -0x1_0000_0000 < d.years < 0x1_0000_0000 && -0x1_0000_0000 < d.months < 0x1_0000_0000
  }

  /** The computation with 64-bit totals; none overflows for a valid duration. */
  method ComputeSum(d: IsoDate, dur: Duration, constrain: bool, negate: bool) returns (r: Result<IsoDate>)
    requires Valid(d) && ValidDuration(dur)
    ensures r == AddOrSubtract(d, dur, constrain, negate)
  {
    hide DaysInMonth, TDiv;
    if dur.weeks != 0 || dur.days != 0 || dur.hours != 0 || dur.minutes != 0 || dur.seconds != 0
       || dur.ms != 0 || dur.us != 0 || dur.ns != 0 {
      return Err(SmallerUnits);
    }
    var sign := if negate then -1 else 1;
    var addYears, addMonths := ToInt64(dur.years * sign), ToInt64(dur.months * sign);
    var total := ToInt64(ToInt64(ToInt64(d.year * 12) + (d.month - 1) + ToInt64(addYears * 12)) + addMonths);
    var newYear := if total >= 0 then TDiv(total, 12) else TDiv(ToInt64(total - 11), 12);
    var newMonthZero := total - newYear * 12;
    YearOfIsFloor(total);
    if newYear < -271820 || newYear > 275759 { return Err(OutOfRange); }
    r := TryNewIso(newYear, newMonthZero + 1, d.day);
    if r.Ok? { return; }
    if !constrain { return; }
    var clamped := DaysInMonth(newYear, newMonthZero + 1);
    r := TryNewIso(newYear, newMonthZero + 1, clamped);
  }

  /** A sum is a calendar date exactly `shift` months away, and keeps the day unless the month is too short. */
  lemma MovedMeaning(d: IsoDate, shift: int, constrain: bool)
    requires Valid(d) && Moved(d, shift, constrain).Ok?
    ensures var r := Moved(d, shift, constrain).value;
      && Valid(r) && Index(r) == Index(d) + shift
      && r.day <= d.day && (r.day < d.day ==> constrain && r.day == DaysInMonth(r.year, r.month))
  {
    YearOfIsFloor(Index(d) + shift);
  }

  /** The months between are exactly those asked for, a year being twelve. */
  lemma AddedMonths(d: IsoDate, dur: Duration, constrain: bool, negate: bool)
    requires Valid(d) && AddOrSubtract(d, dur, constrain, negate).Ok?
    ensures var r := AddOrSubtract(d, dur, constrain, negate).value;
      && Valid(r) && 12 * (r.year - d.year) + (r.month - d.month) == (if negate then -(12 * dur.years + dur.months) else 12 * dur.years + dur.months)
  {
    MovedMeaning(d, if negate then -Months(dur) else Months(dur), constrain);
  }

  /** A month before the last of May 2024 is the last of April. */
  lemma LastOfMay()
    ensures AddOrSubtract(IsoDate(2024, 5, 31), Duration(0, 1, 0, 0, 0, 0, 0, 0, 0, 0), true, true) == Ok(IsoDate(2024, 4, 30))
  {
  }

  /** Subtracting what was added gives back the month, and the day exactly when the month between had it. */
  lemma AddThenSubtract(d: IsoDate, dur: Duration)
    requires Valid(d) && AddOrSubtract(d, dur, true, false).Ok?
    ensures var mid := AddOrSubtract(d, dur, true, false).value;
            var back := AddOrSubtract(mid, dur, true, true);
      && (back.Ok? <==> InGuard(d.year))
      && (back.Ok? ==> SameMonth(back.value, d) && (back.value == d <==> d.day <= DaysInMonth(mid.year, mid.month)))
  {
    var shift := Months(dur);
    MovedMeaning(d, shift, true);
    var mid := Moved(d, shift, true).value;
    IndexSplits(d);
    assert MonthAt(Index(mid) - shift, mid.day).year == d.year;
  }

  function Plus(a: Duration, b: Duration): Duration {
    Duration(a.years + b.years, a.months + b.months, a.weeks + b.weeks, a.days + b.days, a.hours + b.hours,
             a.minutes + b.minutes, a.seconds + b.seconds, a.ms + b.ms, a.us + b.us, a.ns + b.ns)
  }

  /**
    Two additions reach the month of one combined addition, whatever clamping does
    to the day; they agree on the day too exactly when the month between is not the
    one that cuts it.
   */
  lemma AddTwice(d: IsoDate, x: Duration, y: Duration)
    requires Valid(d) && AddOrSubtract(d, x, true, false).Ok?
    requires AddOrSubtract(AddOrSubtract(d, x, true, false).value, y, true, false).Ok?
    ensures var mid := AddOrSubtract(d, x, true, false).value;
            var twice := AddOrSubtract(mid, y, true, false).value;
            var once := AddOrSubtract(d, Plus(x, y), true, false);
      && once.Ok? && SameMonth(once.value, twice)
      && (once.value == twice <==> once.value.day <= DaysInMonth(mid.year, mid.month))
  {
    hide IsLeapYear, DaysInMonth;
    MovedMeaning(d, Months(x), true);
    var mid := Moved(d, Months(x), true).value;
    MovedMeaning(mid, Months(y), true);
    assert Months(Plus(x, y)) == Months(x) + Months(y);
    assert Index(mid) + Months(y) == Index(d) + Months(Plus(x, y));
  }

  /**
    When an addition succeeds: the guard refuses the two outermost years even where
    a month value may have them, and nothing else that a month value may have.
   */
  lemma AddSucceeds(d: IsoDate, dur: Duration, constrain: bool)
    requires Valid(d) && OnlyMonths(dur)
    ensures var target := MonthAt(Index(d) + Months(dur), d.day);
      && (AddOrSubtract(d, dur, constrain, false).Ok? <==>
            Valid(target) && target.year != -271821 && target.year != 275760 && (constrain || target.day == d.day))
      && (Valid(target) <==> -271821 * 12 <= Index(d) + Months(dur) < 275761 * 12)
  {
    YearOfIsFloor(Index(d) + Months(dur));
  }

  // ---- The calendar's difference ------------------------------------------

  datatype Span = Span(years: int, months: int)

  function Total(s: Span): int {
    s.years * 12 + s.months
  }

  function Negated(s: Span): Span {
    Span(-s.years, -s.months)
  }

  /** A number of months in whole years and the rest, of one sign. */
  function InYears(total: int): Span {
    Span(TDiv(total, 12), total - TDiv(total, 12) * 12)
  }

  lemma InYearsMeaning(total: int)
    ensures var s := InYears(total);
      && Total(s) == total && -12 < s.months < 12
      && (total >= 0 ==> s.years >= 0 && s.months >= 0) && (total <= 0 ==> s.years <= 0 && s.months <= 0)
    ensures InYears(-total) == Negated(InYears(total))
  {
  }

  lemma InYearsIs(total: int, s: Span)
    requires Total(s) == total && -12 < s.months < 12
    requires (total >= 0 && s.months >= 0) || (total <= 0 && s.months <= 0)
    ensures InYears(total) == s
  {
    if total >= 0 && s.months >= 0 {
      DivTwelve(total, s.years, s.months);
    } else {
      DivTwelve(-total, -s.years, -s.months);
    }
  }

  lemma DivTwelve(total: int, years: int, months: int)
    requires total == years * 12 + months && 0 <= months < 12
    ensures total / 12 == years
  {
  }

  /** -1, 0 or 1 as the first date is before, at or after the second. */
  function Compare(a: IsoDate, b: IsoDate): int {
    if a.year != b.year then (if a.year < b.year then -1 else 1)
    else if a.month != b.month then (if a.month < b.month then -1 else 1)
    else if a.day != b.day then (if a.day < b.day then -1 else 1)
    else 0
  }

  /** Whether `from` plus the candidate goes past `to` in the direction of `sign`. */
  predicate Surpasses(sign: int, from: IsoDate, to: IsoDate, candYears: int, candMonths: int) {
    var total := from.month - 1 + candMonths;
    var carry := TDiv(total, 12);
    var rest := total - carry * 12;
    var year := from.year + candYears + (if rest < 0 then carry - 1 else carry);
    var month := (if rest < 0 then rest + 12 else rest) + 1;
    var dim := DaysInMonth(year, month);
    var cmp := Compare(IsoDate(year, month, if from.day < dim then from.day else dim), to);
    if sign > 0 then cmp > 0 else cmp < 0
  }

  /** On first days the comparison is one of month numbers. */
  lemma SurpassesIsIndex(sign: int, from: IsoDate, to: IsoDate, candYears: int, candMonths: int)
    requires from.day == 1 && to.day == 1 && 1 <= from.month <= 12 && 1 <= to.month <= 12
    ensures var gap := Index(from) + 12 * candYears + candMonths - Index(to);
      Surpasses(sign, from, to, candYears, candMonths) <==> if sign > 0 then gap > 0 else gap < 0
  {
    var total := from.month - 1 + candMonths;
    var year, month := from.year + candYears + total / 12, total % 12 + 1;
    assert total == total / 12 * 12 + total % 12;
    IndexIsMonth(IsoDate(year, month, 1), to);
  }

  /** The specification of the difference of two first days: only months and years are counted. */
  function Between(delta: int, largest: Unit): Span {
    if largest.Year? then InYears(delta) else if largest.Month? then Span(0, delta) else Span(0, 0)
  }

  /** Steps candidates until they surpass: first years, then months. */
  method CalendarDateUntil(from: IsoDate, to: IsoDate, largest: Unit) returns (d: Span)
    requires from.day == 1 && to.day == 1 && 1 <= from.month <= 12 && 1 <= to.month <= 12
    ensures d == Between(Index(to) - Index(from), largest)
  {
    hide Surpasses;
    ghost var delta := Index(to) - Index(from);
    IndexIsMonth(from, to);
    if largest.Auto? || largest.Day? { return Span(0, 0); }
    var cmp := Compare(from, to);
    if cmp == 0 { return Span(0, 0); }
    var sign := if cmp < 0 then 1 else -1;
    var years, months := 0, 0;
    if largest.Year? || largest.Month? {
      var candYears := to.year - from.year;
      if candYears != 0 { candYears := candYears - sign; }
      SurpassesIsIndex(sign, from, to, candYears, 0);
      while !Surpasses(sign, from, to, candYears, 0)
        invariant Surpasses(sign, from, to, candYears, 0) <==> if sign > 0 then 12 * candYears > delta else 12 * candYears < delta
        invariant if sign > 0 then 0 <= 12 * years <= delta else delta <= 12 * years <= 0
        invariant candYears == years + sign || !Surpasses(sign, from, to, candYears, 0)
        invariant sign > 0 ==> candYears >= 0
        invariant sign < 0 ==> candYears <= 0
        decreases if sign > 0 then delta - 12 * candYears else 12 * candYears - delta
      {
        years := candYears;
        candYears := candYears + sign;
        SurpassesIsIndex(sign, from, to, candYears, 0);
      }
      var candMonths := sign;
      SurpassesIsIndex(sign, from, to, years, candMonths);
      while !Surpasses(sign, from, to, years, candMonths)
        invariant Surpasses(sign, from, to, years, candMonths)
             <==> if sign > 0 then 12 * years + candMonths > delta else 12 * years + candMonths < delta
        invariant candMonths == months + sign
        invariant if sign > 0 then 0 <= months && 12 * years + months <= delta else months <= 0 && delta <= 12 * years + months
        decreases if sign > 0 then delta - candMonths else candMonths - delta
      {
        months := candMonths;
        candMonths := candMonths + sign;
        SurpassesIsIndex(sign, from, to, years, candMonths);
      }
      InYearsIs(delta, Span(years, months));
      if largest.Month? {
        months := months + years * 12;
        years := 0;
      }
    }
    d := Span(years, months);
  }

  // ---- The rounded difference ---------------------------------------------

  function SmallestOf(s: Settings): Unit {
    if s.smallest.Some? then s.smallest.value else Month
  }

  function LargestOf(s: Settings): Unit {
    if s.largest.Some? then s.largest.value else Year
  }

  predicate NoWeeksOrDays(s: Settings) {
    !LargestOf(s).Week? && !LargestOf(s).Day? && !SmallestOf(s).Week? && !SmallestOf(s).Day?
  }

  /** Rounding is skipped for single months. */
  predicate Rounds(s: Settings) {
    !SmallestOf(s).Month? || IncrementOf(s) != 1
  }

  function StepOf(s: Settings): nat {
    if SmallestOf(s).Year? then 12 * IncrementOf(s) else IncrementOf(s)
  }

  /** A rounded number of months in the units asked for. */
  function Spread(r: int, s: Settings): Span {
    if SmallestOf(s).Year? || LargestOf(s).Year? then InYears(r) else Span(0, r)
  }

  /** The rounding tail on the calendar's difference. */
  function Tail(d: Span, s: Settings, mode: Mode): Result<Span> {
    if !Rounds(s) then Ok(d)
    else if StepOf(s) == 0 then Err(ZeroIncrement)
    else
      Ok(Spread(Round(Total(d), StepOf(s), mode), s))
  }

  /** The specification of `until` and `since`: `since` negates the mode before and the result after. */
  function Difference(a: IsoDate, b: IsoDate, s: Settings, negate: bool): Result<Span> {
    if !NoWeeksOrDays(s) then Err(WeeksOrDays)
    else if SameMonth(a, b) then Ok(Span(0, 0))
    else
      var r := Tail(Between(Index(b) - Index(a), LargestOf(s)), s, if negate then Negate(ModeOf(s)) else ModeOf(s));
      if negate && r.Ok? then Ok(Negated(r.value)) else r
  }

  function Until(a: IsoDate, b: IsoDate, s: Settings): Result<Span> {
    Difference(a, b, s, false)
  }

  function Since(a: IsoDate, b: IsoDate, s: Settings): Result<Span> {
    Difference(a, b, s, true)
  }

  /** The integer rounder: halves are judged against half the divisor, rounded down, with odd divisors set apart. */
  method RoundToIncrement(q: int, divisor: nat, mode: Mode) returns (r: int)
    requires divisor > 0
    ensures r == Round(q, divisor, mode)
  {
    var positive := q >= 0;
    var u := Unsigned(mode, positive);
    var dividend: int := if positive then q else -q;
    var r1, rem := dividend / divisor, dividend % divisor;
    var rounded: int;
    var midway := divisor / 2;
    if rem == 0 || u == Zero { rounded := r1; }
    else if u == Infinity { rounded := r1 + 1; }
    else if rem < midway { rounded := r1; }
    else if rem > midway { rounded := r1 + 1; }
    else if divisor % 2 != 0 { rounded := r1; }
    else if u == HalfZero { rounded := r1; }
    else if u == HalfInfinity { rounded := r1 + 1; }
    else { rounded := if r1 % 2 == 0 then r1 else r1 + 1; }
    if !positive { rounded := -rounded; }
    r := rounded * divisor;
  }

  lemma FirstDay(a: IsoDate)
    ensures Index(a.(day := 1)) == Index(a)
  {
  }

  method DiffYearMonth(a: IsoDate, b: IsoDate, s: Settings, negate: bool) returns (r: Result<Span>)
    requires Valid(a) && Valid(b)
    ensures r == Difference(a, b, s, negate)
  {
    hide Round, Between, Index, TDiv;
    if s.largest.Some? && (s.largest.value.Week? || s.largest.value.Day?) { return Err(WeeksOrDays); }
    if s.smallest.Some? && (s.smallest.value.Week? || s.smallest.value.Day?) { return Err(WeeksOrDays); }
    if a.year == b.year && a.month == b.month { return Ok(Span(0, 0)); }
    var largest := LargestOf(s);
    var d := CalendarDateUntil(a.(day := 1), b.(day := 1), largest);
    FirstDay(a);
    FirstDay(b);
    var smallest, increment, mode := SmallestOf(s), IncrementOf(s), ModeOf(s);
    if !smallest.Month? || increment != 1 {
      var total := d.years * 12 + d.months;
      var effective := if negate then Negate(mode) else mode;
      if smallest.Year? {
        if 12 * increment == 0 { return Err(ZeroIncrement); }
        var rounded := RoundToIncrement(total, 12 * increment, effective);
        d := Span(TDiv(rounded, 12), rounded - TDiv(rounded, 12) * 12);
      } else {
        if increment == 0 { return Err(ZeroIncrement); }
        var rounded := RoundToIncrement(total, increment, effective);
        if largest.Year? {
          d := Span(TDiv(rounded, 12), rounded - TDiv(rounded, 12) * 12);
        } else {
          d := Span(0, rounded);
        }
      }
    }
    if negate { d := Span(-d.years, -d.months); }
    r := Ok(d);
  }

  // ---- Laws of the difference ---------------------------------------------

  predicate CountsMonths(s: Settings) {
    LargestOf(s).Year? || LargestOf(s).Month?
  }

  lemma CountsMonthsIs(s: Settings)
    ensures CountsMonths(s) <==> LargestOf(s).Year? || LargestOf(s).Month?
    ensures Total(Span(0, 0)) == 0
  {
  }

  lemma BetweenTotal(delta: int, largest: Unit)
    ensures Total(Between(delta, largest)) == if largest.Year? || largest.Month? then delta else 0
    ensures !largest.Year? && !largest.Month? ==> Between(delta, largest) == Span(0, 0)
  {
    hide InYears;
    InYearsMeaning(delta);
  }

  lemma BetweenNegated(delta: int, largest: Unit)
    ensures Between(-delta, largest) == Negated(Between(delta, largest))
  {
    hide InYears;
    InYearsMeaning(delta);
  }

  lemma SpreadTotal(r: int, s: Settings)
    ensures Total(Spread(r, s)) == r
  {
    hide InYears;
    InYearsMeaning(r);
  }

  lemma SpreadNegated(r: int, s: Settings)
    ensures Spread(-r, s) == Negated(Spread(r, s))
  {
    hide InYears, Total;
    InYearsMeaning(r);
  }

  lemma RoundZero(inc: nat, mode: Mode)
    requires inc > 0
    ensures Round(0, inc, mode) == 0
  {
  }

  lemma RoundByOne(q: int, mode: Mode)
    ensures Round(q, 1, mode) == q
  {
    UnitsIsRounding(q, 1, mode);
  }

  /** When it fails: weeks or days are asked for, or a zero increment has something to round. */
  lemma UntilFails(a: IsoDate, b: IsoDate, s: Settings)
    ensures Until(a, b, s).Err? <==> !NoWeeksOrDays(s) || (IncrementOf(s) == 0 && !SameMonth(a, b))
  {
  }

  /**
    The months of a difference are the rounding of the exact number of months, in one
    sign; below a year when years are counted, and none when years are the smallest unit.
   */
  lemma UntilMeaning(a: IsoDate, b: IsoDate, s: Settings)
    requires Valid(a) && Valid(b) && CountsMonths(s) && StepOf(s) > 0 && Until(a, b, s).Ok?
    ensures var d := Until(a, b, s).value;
      && Total(d) == Round(Index(b) - Index(a), StepOf(s), ModeOf(s))
      && ((d.years >= 0 && d.months >= 0) || (d.years <= 0 && d.months <= 0))
      && (if SmallestOf(s).Year? then d.months == 0
          else if LargestOf(s).Year? then -12 < d.months < 12
          else d.years == 0)
  {
    hide Round, DaysInMonth, InYears, Index, TDiv, Total, StepOf, Rounds;
    var delta, step, mode := Index(b) - Index(a), StepOf(s), ModeOf(s);
    IndexIsMonth(a, b);
    CountsMonthsIs(s);
    if SameMonth(a, b) {
      RoundZero(step, mode);
    } else {
      BetweenTotal(delta, LargestOf(s));
      if Rounds(s) {
        SpreadTotal(Round(delta, step, mode), s);
        InYearsMeaning(Round(delta, step, mode));
        if SmallestOf(s).Year? { WholeYears(delta, s, mode); }
      } else {
        UnroundedStep(s);
        InYearsMeaning(delta);
        RoundByOne(delta, mode);
      }
    }
  }

  lemma UnroundedStep(s: Settings)
    requires !Rounds(s)
    ensures StepOf(s) == 1 && SmallestOf(s).Month?
  {
  }

  lemma WholeYears(delta: int, s: Settings, mode: Mode)
    requires SmallestOf(s).Year? && StepOf(s) > 0
    ensures InYears(Round(delta, StepOf(s), mode)).months == 0
  {
    hide InYears;
    var u, inc := Units(delta, StepOf(s), mode), IncrementOf(s);
    assert u * (12 * inc) == (u * inc) * 12;
    InYearsIs(Round(delta, StepOf(s), mode), Span(u * inc, 0));
  }

  /** What `a` is since `b` is what lies from `b` until `a`, for every pair of months and all settings. */
  lemma SinceIsUntilReversed(a: IsoDate, b: IsoDate, s: Settings)
    ensures Since(a, b, s) == Until(b, a, s)
  {
    hide Round, Between, Spread, Total, StepOf, Rounds, Index, NoWeeksOrDays;
    var delta := Index(b) - Index(a);
    BetweenNegated(delta, LargestOf(s));
    var d := Between(delta, LargestOf(s));
    assert Index(a) - Index(b) == -delta;
    TotalNegated(d);
    if Rounds(s) && StepOf(s) > 0 {
      RoundNegated(Total(d), StepOf(s), Negate(ModeOf(s)));
      SpreadNegated(Round(Total(d), StepOf(s), Negate(ModeOf(s))), s);
      assert Negate(Negate(ModeOf(s))) == ModeOf(s);
    }
  }

  lemma TotalNegated(d: Span)
    ensures Total(Negated(d)) == -Total(d)
  {
  }

  /** `since` is the negation of `until` exactly when the negated mode rounds alike. */
  lemma SinceVersusUntil(a: IsoDate, b: IsoDate, s: Settings)
    requires Valid(a) && Valid(b) && CountsMonths(s) && StepOf(s) > 0 && Until(a, b, s).Ok?
    ensures var delta := Index(b) - Index(a);
      Since(a, b, s) == Ok(Negated(Until(a, b, s).value)) <==>
        Abs(delta) % StepOf(s) == 0 || Negate(ModeOf(s)) == ModeOf(s) || (IsHalf(ModeOf(s)) && !IsTie(delta, StepOf(s)))
  {
    hide Round, Between, Spread, Total, StepOf, Rounds, Index, DaysInMonth, CountsMonths, IsTie;
    var delta, step, mode := Index(b) - Index(a), StepOf(s), ModeOf(s);
    IndexIsMonth(a, b);
    CountsMonthsIs(s);
    BetweenTotal(delta, LargestOf(s));
    RoundModeNegated(delta, step, mode);
    if SameMonth(a, b) {
      RoundZero(step, mode);
      RoundZero(step, Negate(mode));
    } else if Rounds(s) {
      SpreadTotal(Round(delta, step, mode), s);
      SpreadTotal(Round(delta, step, Negate(mode)), s);
    } else {
      UnroundedStep(s);
      RoundByOne(delta, mode);
      RoundByOne(delta, Negate(mode));
    }
  }

  lemma UnroundedUntil(a: IsoDate, b: IsoDate, s: Settings)
    requires NoWeeksOrDays(s) && !Rounds(s)
    ensures Until(a, b, s) == Ok(if SameMonth(a, b) then Span(0, 0) else Between(Index(b) - Index(a), LargestOf(s)))
  {
    hide Round, Between, Index;
  }

  /**
    Only years and months may be the largest unit: with any other that is accepted,
    `auto` among them, the result is zero however far apart the months are, rounded or
    not. It is right only when the exact difference rounds to zero as well.
   */
  lemma OtherUnitsLoseTheDifference(a: IsoDate, b: IsoDate, s: Settings)
    requires Valid(a) && Valid(b) && Until(a, b, s).Ok?
    ensures !CountsMonths(s) ==> Until(a, b, s) == Ok(Span(0, 0))
    ensures StepOf(s) > 0 ==>
      (Total(Until(a, b, s).value) == Round(Index(b) - Index(a), StepOf(s), ModeOf(s))
       <==> CountsMonths(s) || Round(Index(b) - Index(a), StepOf(s), ModeOf(s)) == 0)
  {
    hide Until, Index, Round, DaysInMonth, CountsMonths, StepOf, Total;
    CountsMonthsIs(s);
    if StepOf(s) > 0 && CountsMonths(s) {
      UntilMeaning(a, b, s);
    }
    if !CountsMonths(s) {
      ZeroUntil(a, b, s);
    }
  }

  lemma ZeroUntil(a: IsoDate, b: IsoDate, s: Settings)
    requires Until(a, b, s).Ok? && !CountsMonths(s)
    ensures Until(a, b, s) == Ok(Span(0, 0))
  {
    hide Round, InYears, Index, Between, Total, StepOf, Rounds;
    CountsMonthsIs(s);
    BetweenTotal(Index(b) - Index(a), LargestOf(s));
    if StepOf(s) > 0 { RoundZero(StepOf(s), ModeOf(s)); }
    InYearsIs(0, Span(0, 0));
  }

  /** A difference as a duration. */
  function AsDuration(d: Span): Duration {
    Duration(d.years, d.months, 0, 0, 0, 0, 0, 0, 0, 0)
  }

  lemma AsDurationMeaning(d: Span)
    ensures OnlyMonths(AsDuration(d)) && Months(AsDuration(d)) == Total(d)
  {
  }

  lemma AddReaches(a: IsoDate, b: IsoDate, dur: Duration)
    requires Valid(b) && InGuard(b.year) && OnlyMonths(dur) && Index(a) + Months(dur) == Index(b)
    ensures var sum := AddOrSubtract(a, dur, true, false);
      sum.Ok? && SameMonth(sum.value, b)
  {
    hide MonthAt, Index, DaysInMonth, OnlyMonths, Months;
    MonthAtIndex(b, a.day);
  }

  /** Fourteen months: by default a year and two months; in whole years one; in months fourteen. */
  lemma FourteenMonths()
    ensures var a, b := IsoDate(2024, 1, 1), IsoDate(2025, 3, 1);
      && Until(a, b, Settings(None, None, None, None)) == Ok(Span(1, 2))
      && Until(a, b, Settings(Some(Year), None, None, None)) == Ok(Span(1, 0))
      && Until(a, b, Settings(None, Some(Month), None, None)) == Ok(Span(0, 14))
  {
  }

  /** Adding an unrounded difference arrives at the other month. */
  lemma AddUntil(a: IsoDate, b: IsoDate, s: Settings)
    requires Valid(a) && Valid(b) && InGuard(b.year) && NoWeeksOrDays(s) && CountsMonths(s) && !Rounds(s)
    ensures Until(a, b, s).Ok?
    ensures var sum := AddOrSubtract(a, AsDuration(Until(a, b, s).value), true, false);
      sum.Ok? && SameMonth(sum.value, b)
  {
    hide Until, Between, Index, Rounds, NoWeeksOrDays, DaysInMonth, CountsMonths, SameMonth, Total,
         OnlyMonths, Months, AddOrSubtract, AsDuration;
    UnroundedUntil(a, b, s);
    IndexIsMonth(a, b);
    BetweenTotal(Index(b) - Index(a), LargestOf(s));
    CountsMonthsIs(s);
    AsDurationMeaning(Until(a, b, s).value);
    AddReaches(a, b, AsDuration(Until(a, b, s).value));
  }

  /** From December 275759 the next month exists, and the addition refuses it. */
  lemma OutermostYearRefused()
    ensures var d, dur := IsoDate(275759, 12, 1), Duration(0, 1, 0, 0, 0, 0, 0, 0, 0, 0);
      && Valid(d) && AddOrSubtract(d, dur, true, false) == Err(OutOfRange)
      && MonthAt(Index(d) + Months(dur), d.day) == IsoDate(275760, 1, 1) && Valid(IsoDate(275760, 1, 1))
  {
    hide IsLeapYear;
    YearOfIsFloor(Index(IsoDate(275759, 12, 1)) + 1);
  }

  /** A year apart, with the largest unit given as `auto`: no difference. */
  lemma AutoSaysNothing()
    ensures var a, b, s := IsoDate(2024, 1, 1), IsoDate(2025, 1, 1), Settings(None, Some(Auto), None, None);
      Valid(a) && Valid(b) && Until(a, b, s) == Ok(Span(0, 0)) && Index(b) - Index(a) == 12
  {
    var a, b, s := IsoDate(2024, 1, 1), IsoDate(2025, 1, 1), Settings(None, Some(Auto), None, None);
    UntilFails(a, b, s);
    ZeroUntil(a, b, s);
  }
}
