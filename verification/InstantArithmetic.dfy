/**
  `Temporal.Instant` arithmetic on epoch nanoseconds: rounding, and the difference
  of two instants rounded and balanced into the fields of a duration.
 */
module InstantArithmetic {
  import opened Options
  import opened Rounding
  import opened TemporalOptions

  const MICRO: int := 1000
  const MILLI: int := 1_000_000
  const SECOND: int := 1_000_000_000
  const MINUTE: int := 60_000_000_000
  const HOUR: int := 3_600_000_000_000
  const DAY: int := 86_400_000_000_000

  /** The largest epoch nanoseconds of a valid instant, 10^8 days. */
  const MAX_EPOCH: int := 8_640_000_000_000_000_000_000

  predicate ValidEpoch(ns: int) {
    -MAX_EPOCH <= ns <= MAX_EPOCH
  }

  /** The unit's length, for units of fixed length. */
  function UnitNs(u: Unit): Option<nat> {
    match u
    case Day => Some(86_400_000_000_000)
    case Hour => Some(3_600_000_000_000)
    case Minute => Some(60_000_000_000)
    case Second => Some(1_000_000_000)
    case Millisecond => Some(1_000_000)
    case Microsecond => Some(1000)
    case Nanosecond => Some(1)
    case _ => None
  }

  datatype Error = SmallestMissing | BadSmallest | BadLargest | ZeroIncrement | OutOfRange | TooManyMicroseconds | TooManyNanoseconds

  datatype Result<+T> = Ok(value: T) | Err(error: Error)

  /** The product of increment and unit fits the 64-bit word it is computed in; the code relies on it. */
  predicate StepFits(s: Settings, unit: Unit) {
    UnitNs(unit).Some? ==> IncrementOf(s) * UnitNs(unit).value <= INT64_MAX
  }

  // ---- Rounding an instant ------------------------------------------------

  function RoundInstant(ns: int, s: Settings): Result<int>
    requires s.smallest.Some? ==> StepFits(s, s.smallest.value)
  {
    if s.smallest.None? then Err(SmallestMissing)
    else if UnitNs(s.smallest.value).None? || s.smallest.value == Day then Err(BadSmallest)
    else if IncrementOf(s) == 0 then Err(ZeroIncrement)
    else
      var inc := IncrementOf(s) * UnitNs(s.smallest.value).value;
      assert inc > 0;
      var r := Round(ns, inc, if s.mode.Some? then s.mode.value else HalfExpand);
      if ValidEpoch(r) then Ok(r) else Err(OutOfRange)
  }

  // ---- Balancing ----------------------------------------------------------

  datatype Fields = Fields(days: int, hours: int, minutes: int, seconds: int, ms: int, us: int, ns: int)

  /** Units from nanosecond 1 to day 7. */
  function Rank(u: Unit): nat {
    match u
    case Day => 7
    case Hour => 6
    case Minute => 5
    case Second => 4
    case Millisecond => 3
    case Microsecond => 2
    case _ => 1
  }

  function Take(rest: int, unit: int, wanted: bool): int
    requires unit > 0
  {
    if wanted then TDiv(rest, unit) else 0
  }

  /** What is left once the unit has been taken off. */
  function Rest(rest: int, unit: int, wanted: bool): int
    requires unit > 0
  {
    rest - Take(rest, unit, wanted) * unit
  }

  function Balance(delta: int, largest: Unit): Fields {
    var k := Rank(largest);
    var r1 := Rest(delta, DAY, k >= 7);
    var r2 := Rest(r1, HOUR, k >= 6);
    var r3 := Rest(r2, MINUTE, k >= 5);
    var r4 := Rest(r3, SECOND, k >= 4);
    var r5 := Rest(r4, MILLI, k >= 3);
    Fields(Take(delta, DAY, k >= 7), Take(r1, HOUR, k >= 6), Take(r2, MINUTE, k >= 5), Take(r3, SECOND, k >= 4),
           Take(r4, MILLI, k >= 3), Take(r5, MICRO, k >= 2), Rest(r5, MICRO, k >= 2))
  }

  function Sum(f: Fields): int {
    f.days * DAY + f.hours * HOUR + f.minutes * MINUTE + f.seconds * SECOND + f.ms * MILLI + f.us * MICRO + f.ns
  }

  // ---- The length of a unit -----------------------------------------------

  /** The units of fixed length. */
  predicate Fixed(u: Unit) {
    u in {Day, Hour, Minute, Second, Millisecond, Microsecond, Nanosecond}
  }

  /** A duration of one such unit. */
  function One(u: Unit): Fields {
    match u
    case Day => Fields(1, 0, 0, 0, 0, 0, 0)
    case Hour => Fields(0, 1, 0, 0, 0, 0, 0)
    case Minute => Fields(0, 0, 1, 0, 0, 0, 0)
    case Second => Fields(0, 0, 0, 1, 0, 0, 0)
    case Millisecond => Fields(0, 0, 0, 0, 1, 0, 0)
    case Microsecond => Fields(0, 0, 0, 0, 0, 1, 0)
    case _ => Fields(0, 0, 0, 0, 0, 0, 1)
  }

  /** The length used for rounding is that of one unit in a duration, and only the fixed units have one. */
  lemma UnitIsField(u: Unit)
    ensures UnitNs(u) == if Fixed(u) then Some(Sum(One(u))) else None
  {
  }

  /** The lengths, one from the next. */
  lemma UnitLadder()
    ensures Sum(One(Nanosecond)) == 1
    ensures Sum(One(Microsecond)) == 1000 * Sum(One(Nanosecond)) && Sum(One(Millisecond)) == 1000 * Sum(One(Microsecond))
    ensures Sum(One(Second)) == 1000 * Sum(One(Millisecond)) && Sum(One(Minute)) == 60 * Sum(One(Second))
    ensures Sum(One(Hour)) == 60 * Sum(One(Minute)) && Sum(One(Day)) == 24 * Sum(One(Hour))
    ensures MAX_EPOCH == 100_000_000 * Sum(One(Day))
  {
  }

  /**
    A rounded instant is valid, is the rounding its mode asks for to a multiple of the
    increment in the smallest unit, and rounds to itself.
   */
  lemma RoundInstantMeaning(ns: int, s: Settings)
    requires s.smallest.Some? && StepFits(s, s.smallest.value) && RoundInstant(ns, s).Ok?
    ensures var r, inc := RoundInstant(ns, s).value, IncrementOf(s) * Sum(One(s.smallest.value));
      && ValidEpoch(r) && inc > 0 && Fixed(s.smallest.value) && s.smallest.value != Day
      && (exists u :: u * inc == r && IsRounding(ns, inc, if s.mode.Some? then s.mode.value else HalfExpand, u))
      && RoundInstant(r, s) == Ok(r)
  {
    UnitIsField(s.smallest.value);
    var inc := IncrementOf(s) * UnitNs(s.smallest.value).value;
    var mode := if s.mode.Some? then s.mode.value else HalfExpand;
    UnitsIsRounding(ns, inc, mode);
    RoundIdempotent(ns, inc, mode);
  }

  /** A minute and a half, rounded to minutes in the default mode. */
  lemma NinetySeconds()
    ensures RoundInstant(90_000_000_000, Settings(Some(Minute), None, None, None)) == Ok(120_000_000_000)
  {
  }

  // ---- The sum taken apart ------------------------------------------------

  /** All fields on one side of zero. */
  predicate OneSign(f: Fields) {
    || (f.days >= 0 && f.hours >= 0 && f.minutes >= 0 && f.seconds >= 0 && f.ms >= 0 && f.us >= 0 && f.ns >= 0)
    || (f.days <= 0 && f.hours <= 0 && f.minutes <= 0 && f.seconds <= 0 && f.ms <= 0 && f.us <= 0 && f.ns <= 0)
  }

  /** The field of rank `r` when `k` is the largest: free at `k`, below the ratio to the next unit under it, zero above. */
  predicate Bounded(x: int, r: nat, k: nat, ratio: int) {
    if r > k then x == 0 else r == k || -ratio < x < ratio
  }

  predicate Balanced(f: Fields, largest: Unit) {
    var k := Rank(largest);
    && OneSign(f)
    && Bounded(f.days, 7, k, 1) && Bounded(f.hours, 6, k, 24) && Bounded(f.minutes, 5, k, 60)
    && Bounded(f.seconds, 4, k, 60) && Bounded(f.ms, 3, k, 1000) && Bounded(f.us, 2, k, 1000) && Bounded(f.ns, 1, k, 1000)
  }

  lemma TDivBelow(a: int, b: int, n: int)
    requires b > 0 && n > 0 && -(n * b) < a < n * b
    ensures -n < TDiv(a, b) < n
  {
    var m := if a >= 0 then a else -a;
    DivParts(m, b);
    if m / b >= n {
      Grows(n, m / b, b);
    }
  }

  /** Taking a unit off leaves less than a unit, of the same sign. */
  lemma TakeUnit(a: int, b: int, n: int, wanted: bool)
    requires b > 0 && n > 0
    ensures var t, rest := Take(a, b, wanted), Rest(a, b, wanted);
      && a == t * b + rest
      && (wanted ==> -b < rest < b)
      && (!wanted ==> t == 0 && rest == a)
      && (a >= 0 ==> rest >= 0 && t >= 0) && (a <= 0 ==> rest <= 0 && t <= 0)
      && (-(n * b) < a < n * b ==> -n < t < n)
  {
    TDivRest(a, b);
    if -(n * b) < a < n * b { TDivBelow(a, b, n); }
  }

  /** The balanced fields add back to the delta, carry its sign, and stay below the next unit. */
  lemma BalanceLaws(delta: int, largest: Unit)
    ensures var f := Balance(delta, largest);
      Sum(f) == delta && Balanced(f, largest) && (delta > 0 ==> f.ns >= 0 && f.days >= 0) && (delta < 0 ==> f.ns <= 0 && f.days <= 0)
  {
    hide Take, Rest;
    var k := Rank(largest);
    TakeUnit(delta, DAY, 1, k >= 7);
    var r1 := Rest(delta, DAY, k >= 7);
    TakeUnit(r1, HOUR, 24, k >= 6);
    var r2 := Rest(r1, HOUR, k >= 6);
    TakeUnit(r2, MINUTE, 60, k >= 5);
    var r3 := Rest(r2, MINUTE, k >= 5);
    TakeUnit(r3, SECOND, 60, k >= 4);
    var r4 := Rest(r3, SECOND, k >= 4);
    TakeUnit(r4, MILLI, 1000, k >= 3);
    var r5 := Rest(r4, MILLI, k >= 3);
    TakeUnit(r5, MICRO, 1000, k >= 2);
  }

  lemma TDivIs(a: int, b: int, t: int)
    requires b > 0 && -b < a - t * b < b && (a >= 0 ==> a - t * b >= 0) && (a <= 0 ==> a - t * b <= 0)
    ensures TDiv(a, b) == t
  {
    TDivRest(a, b);
    var u := TDiv(a, b);
    if t < u { Multiples(t, u, b); }
    if u < t { Multiples(u, t, b); }
  }

  lemma TakeIs(a: int, b: int, t: int, wanted: bool)
    requires b > 0 && ((a - t * b >= 0 && a >= 0) || (a - t * b <= 0 && a <= 0))
    requires if wanted then -b < a - t * b < b else t == 0
    ensures Take(a, b, wanted) == t && Rest(a, b, wanted) == a - t * b
  {
    if wanted { TDivIs(a, b, t); }
  }

  // What is left of a balanced sum below each unit.

  function BelowMillis(f: Fields): int {
    f.us * MICRO + f.ns
  }

  function BelowSeconds(f: Fields): int {
    f.ms * MILLI + BelowMillis(f)
  }

  function BelowMinutes(f: Fields): int {
    f.seconds * SECOND + BelowSeconds(f)
  }

  function BelowHours(f: Fields): int {
    f.minutes * MINUTE + BelowMinutes(f)
  }

  function BelowDays(f: Fields): int {
    f.hours * HOUR + BelowHours(f)
  }

  lemma LowerOfSum(f: Fields, k: nat)
    requires OneSign(f) && Bounded(f.ms, 3, k, 1000) && Bounded(f.us, 2, k, 1000) && Bounded(f.ns, 1, k, 1000)
    ensures Take(BelowSeconds(f), MILLI, k >= 3) == f.ms && Rest(BelowSeconds(f), MILLI, k >= 3) == BelowMillis(f)
    ensures Take(BelowMillis(f), MICRO, k >= 2) == f.us && Rest(BelowMillis(f), MICRO, k >= 2) == f.ns
    ensures f.ns >= 0 && f.us >= 0 && f.ms >= 0 ==> BelowSeconds(f) >= 0
    ensures f.ns <= 0 && f.us <= 0 && f.ms <= 0 ==> BelowSeconds(f) <= 0
    ensures k >= 4 ==> -SECOND < BelowSeconds(f) < SECOND
  {
    hide Take, Rest;
    SumStep(f.us, MICRO, f.ns);
    SumStep(f.ms, MILLI, BelowMillis(f));
    TakeIs(BelowSeconds(f), MILLI, f.ms, k >= 3);
    TakeIs(BelowMillis(f), MICRO, f.us, k >= 2);
  }

  lemma MiddleOfSum(f: Fields, k: nat)
    requires OneSign(f) && Bounded(f.minutes, 5, k, 60) && Bounded(f.seconds, 4, k, 60)
    requires k >= 4 ==> -SECOND < BelowSeconds(f) < SECOND
    requires f.ns >= 0 && f.us >= 0 && f.ms >= 0 ==> BelowSeconds(f) >= 0
    requires f.ns <= 0 && f.us <= 0 && f.ms <= 0 ==> BelowSeconds(f) <= 0
    ensures Take(BelowHours(f), MINUTE, k >= 5) == f.minutes && Rest(BelowHours(f), MINUTE, k >= 5) == BelowMinutes(f)
    ensures Take(BelowMinutes(f), SECOND, k >= 4) == f.seconds && Rest(BelowMinutes(f), SECOND, k >= 4) == BelowSeconds(f)
    ensures f.ns >= 0 && f.us >= 0 && f.ms >= 0 && f.seconds >= 0 && f.minutes >= 0 ==> BelowHours(f) >= 0
    ensures f.ns <= 0 && f.us <= 0 && f.ms <= 0 && f.seconds <= 0 && f.minutes <= 0 ==> BelowHours(f) <= 0
    ensures k >= 6 ==> -HOUR < BelowHours(f) < HOUR
  {
    hide Take, Rest, BelowSeconds;
    SumStep(f.seconds, SECOND, BelowSeconds(f));
    SumStep(f.minutes, MINUTE, BelowMinutes(f));
    TakeIs(BelowHours(f), MINUTE, f.minutes, k >= 5);
    TakeIs(BelowMinutes(f), SECOND, f.seconds, k >= 4);
  }

  lemma SumSplit(f: Fields)
    ensures Sum(f) == f.days * DAY + BelowDays(f)
  {
  }

  lemma UpperOfSum(f: Fields, k: nat)
    requires OneSign(f) && Bounded(f.days, 7, k, 1) && Bounded(f.hours, 6, k, 24)
    requires k >= 6 ==> -HOUR < BelowHours(f) < HOUR
    requires f.ns >= 0 && f.us >= 0 && f.ms >= 0 && f.seconds >= 0 && f.minutes >= 0 ==> BelowHours(f) >= 0
    requires f.ns <= 0 && f.us <= 0 && f.ms <= 0 && f.seconds <= 0 && f.minutes <= 0 ==> BelowHours(f) <= 0
    ensures Take(Sum(f), DAY, k >= 7) == f.days && Rest(Sum(f), DAY, k >= 7) == BelowDays(f)
    ensures Take(BelowDays(f), HOUR, k >= 6) == f.hours && Rest(BelowDays(f), HOUR, k >= 6) == BelowHours(f)
  {
    hide Take, Rest, BelowHours;
    assert Sum(f) == f.days * DAY + BelowDays(f) by { SumSplit(f); }
    SumStep(f.hours, HOUR, BelowHours(f));
    SumStep(f.days, DAY, BelowDays(f));
    TakeIs(Sum(f), DAY, f.days, k >= 7);
    TakeIs(BelowDays(f), HOUR, f.hours, k >= 6);
  }

  /** Balancing loses nothing and is the only way to write the sum: it undoes `Sum` on balanced fields. */
  lemma BalanceOfSum(f: Fields, largest: Unit)
    requires Balanced(f, largest)
    ensures Balance(Sum(f), largest) == f
  {
    hide Take, Rest, OneSign, Bounded, Sum, BelowDays, BelowHours, BelowMinutes, BelowSeconds, BelowMillis;
    LowerOfSum(f, Rank(largest));
    MiddleOfSum(f, Rank(largest));
    UpperOfSum(f, Rank(largest));
  }

  /** A field and a rest of the same sign: the sign and the size of the sum. */
  lemma SumStep(x: int, unit: int, rest: int)
    requires unit > 0
    ensures x >= 0 && rest >= 0 ==> x * unit + rest >= 0
    ensures x <= 0 && rest <= 0 ==> x * unit + rest <= 0
  {
    if x >= 0 { Grows(0, x, unit); }
    if x <= 0 { Grows(x, 0, unit); }
  }

  function Negated(f: Fields): Fields {
    Fields(-f.days, -f.hours, -f.minutes, -f.seconds, -f.ms, -f.us, -f.ns)
  }

  lemma NegatedSum(f: Fields)
    ensures Sum(Negated(f)) == -Sum(f)
  {
  }

  lemma NegatedBalanced(f: Fields, largest: Unit)
    requires Balanced(f, largest)
    ensures Balanced(Negated(f), largest)
  {
    hide Sum;
  }

  lemma BalanceNegated(delta: int, largest: Unit)
    ensures Balance(-delta, largest) == Negated(Balance(delta, largest))
  {
    hide Balance, Balanced, Sum;
    var f := Balance(delta, largest);
    BalanceLaws(delta, largest);
    NegatedSum(f);
    NegatedBalanced(f, largest);
    BalanceOfSum(Negated(f), largest);
  }

  // ---- Difference ---------------------------------------------------------

  function SmallestOf(s: Settings): Unit {
    if s.smallest.Some? then s.smallest.value else Nanosecond
  }

  function LargestOf(s: Settings): Unit {
    if s.largest.None? || s.largest.value == Auto then Second else s.largest.value
  }

  /** The first objection to the settings, in the order the code checks them. */
  function Objection(s: Settings): Option<Error> {
    if UnitNs(SmallestOf(s)).None? then Some(BadSmallest)
    else if IncrementOf(s) == 0 then Some(ZeroIncrement)
    else if UnitNs(LargestOf(s)).None? then Some(BadLargest)
    else None
  }

  function StepOf(s: Settings): nat
    requires Objection(s).None?
  {
    IncrementOf(s) * UnitNs(SmallestOf(s)).value
  }

  lemma StepPositive(s: Settings)
    requires Objection(s).None?
    ensures StepOf(s) > 0
  {
  }

  /** The difference before balancing. */
  function Rounded(delta: int, s: Settings, mode: Mode): int
    requires Objection(s).None?
  {
    StepPositive(s);
    Round(delta, StepOf(s), mode)
  }

  /** The fields, unless the largest one would not fit 64 bits. */
  function Guarded(delta: int, largest: Unit): Result<Fields> {
    if largest == Microsecond && Abs(delta) / MICRO > INT64_MAX then Err(TooManyMicroseconds)
    else if largest == Nanosecond && Abs(delta) > INT64_MAX then Err(TooManyNanoseconds)
    else Ok(Balance(delta, largest))
  }

  function Difference(self: int, other: int, s: Settings, negate: bool): Result<Fields> {
    if Objection(s).Some? then Err(Objection(s).value)
    else
      var delta := if negate then -(other - self) else other - self;
      Guarded(Rounded(delta, s, if negate then Negate(ModeOf(s)) else ModeOf(s)), LargestOf(s))
  }

  function Until(self: int, other: int, s: Settings): Result<Fields> {
    Difference(self, other, s, false)
  }

  function Since(self: int, other: int, s: Settings): Result<Fields> {
    Difference(self, other, s, true)
  }

  // ---- The algorithm ------------------------------------------------------

  /** The rounding block, which is skipped for the default settings. */
  method RoundDelta(delta: int, smallestNs: nat, increment: nat, mode: Mode) returns (r: int)
    requires smallestNs > 0 && increment > 0 && increment * smallestNs > 0
    ensures r == Round(delta, increment * smallestNs, mode)
  {
    r := delta;
    if smallestNs != 1 || increment != 1 || mode != Trunc {
      var incNs := increment * smallestNs;
      var positive := delta >= 0;
      var u := Unsigned(mode, positive);
      var a := if positive then delta else -delta;
      var q, rem := a / incNs, a % incNs;
      var roundedQ: int;
      if rem == 0 || u == Zero {
        roundedQ := q;
      } else if u == Infinity {
        roundedQ := q + 1;
      } else {
        var twice := rem + rem;
        if twice < incNs {
          roundedQ := q;
        } else if twice > incNs {
          roundedQ := q + 1;
        } else {
          match u {
            case HalfZero => roundedQ := q;
            case HalfInfinity => roundedQ := q + 1;
            case EvenHalf => roundedQ := if q % 2 == 0 then q else q + 1;
            case _ => roundedQ := q;
          }
        }
      }
      NegTimes(roundedQ, incNs);
      r := if positive then roundedQ * incNs else -(roundedQ * incNs);
    } else {
      assert IsRounding(delta, 1, Trunc, delta);
      UnitsExactly(delta, 1, Trunc, delta);
    }
  }

  /** The size of a rounded difference of valid instants. */
  predicate InReach(delta: int) {
    Abs(delta) <= 2 * MAX_EPOCH + INT64_MAX
  }

  /** A remainder in reach, divided by a millisecond or more, fits 64 bits. */
  lemma FitsInt64(a: int, unit: int)
    requires InReach(a) && unit >= MILLI
    ensures Int64(TDiv(a, unit))
  {
    Grows(MILLI, unit, 1_000_000_000_000_000_000);
    TDivBelow(a, unit, 1_000_000_000_000_000_000);
  }

  /** Takes a unit off the remainder; narrowing the count loses nothing. */
  method TakeOff(remainder: int, unit: int, wanted: bool) returns (count: int, rest: int)
    requires InReach(remainder) && unit >= MILLI
    ensures count == Take(remainder, unit, wanted) && rest == Rest(remainder, unit, wanted)
    ensures InReach(rest) && (if wanted then Abs(rest) < unit else rest == remainder)
  {
    TakeUnit(remainder, unit, 1, wanted);
    TakeUnitShrinks(remainder, unit, wanted);
    count, rest := 0, remainder;
    if wanted {
      FitsInt64(remainder, unit);
      count := ToInt64(TDiv(remainder, unit));
      rest := rest - count * unit;
    }
  }

  lemma TakeUnitShrinks(a: int, unit: int, wanted: bool)
    requires unit > 0
    ensures Abs(Rest(a, unit, wanted)) <= Abs(a)
  {
    TakeUnit(a, unit, 1, wanted);
    var t := Take(a, unit, wanted);
    if t >= 0 { Grows(0, t, unit); }
    if t <= 0 { Grows(t, 0, unit); }
  }

  /** Balances step by step; no narrowing loses anything. */
  method BalanceTimeDuration(delta: int, largest: Unit) returns (f: Fields)
    requires InReach(delta)
    requires largest == Microsecond ==> Abs(delta) / MICRO <= INT64_MAX
    requires Rank(largest) == 1 ==> Abs(delta) <= INT64_MAX
    ensures f == Balance(delta, largest)
  {
    hide Take, Rest, TDiv, InReach;
    var k := Rank(largest);
    var days, hours, minutes, seconds, ms, remainder;
    var us := 0;
    days, remainder := TakeOff(delta, DAY, k >= 7);
    hours, remainder := TakeOff(remainder, HOUR, k >= 6);
    minutes, remainder := TakeOff(remainder, MINUTE, k >= 5);
    seconds, remainder := TakeOff(remainder, SECOND, k >= 4);
    ms, remainder := TakeOff(remainder, MILLI, k >= 3);
    ghost var r5 := remainder;
    TakeUnit(r5, MICRO, 1, k >= 2);
    if k >= 2 {
      MicrosFit(remainder);
      us := ToInt64(TDiv(remainder, MICRO));
      remainder := remainder - us * MICRO;
    }
    TakeIsPart(r5, MICRO, k >= 2);
    f := Fields(days, hours, minutes, seconds, ms, us, ToInt64(remainder));
  }

  lemma TakeIsPart(a: int, unit: int, wanted: bool)
    requires unit > 0
    ensures Take(a, unit, wanted) == if wanted then TDiv(a, unit) else 0
    ensures Rest(a, unit, wanted) == a - Take(a, unit, wanted) * unit
  {
  }

  lemma MicrosFit(a: int)
    requires Abs(a) / MICRO <= INT64_MAX
    ensures Int64(TDiv(a, MICRO))
  {
  }

  method Diff(self: int, other: int, s: Settings, negate: bool) returns (r: Result<Fields>)
    requires ValidEpoch(self) && ValidEpoch(other) && StepFits(s, SmallestOf(s))
    ensures r == Difference(self, other, s, negate)
  {
    var smallest := SmallestOf(s);
    if UnitNs(smallest).None? { return Err(BadSmallest); }
    var smallestNs := UnitNs(smallest).value;
    var increment := IncrementOf(s);
    if increment == 0 { return Err(ZeroIncrement); }
    var mode := ModeOf(s);
    if negate { mode := Negate(mode); }
    var largest := LargestOf(s);
    if UnitNs(largest).None? { return Err(BadLargest); }
    var delta := other - self;
    if negate { delta := -delta; }
    StepPositive(s);
    RoundedInReach(delta, increment * smallestNs, mode);
    delta := RoundDelta(delta, smallestNs, increment, mode);
    if largest == Microsecond {
      if Abs(delta) / MICRO > INT64_MAX { return Err(TooManyMicroseconds); }
    } else if largest == Nanosecond {
      if Abs(delta) > INT64_MAX { return Err(TooManyNanoseconds); }
    }
    var f := BalanceTimeDuration(delta, largest);
    r := Ok(f);
  }

  lemma RoundedInReach(delta: int, inc: nat, mode: Mode)
    requires 0 < inc <= INT64_MAX && Abs(delta) <= 2 * MAX_EPOCH
    ensures InReach(Round(delta, inc, mode))
  {
    hide Units;
    UnitsIsRounding(delta, inc, mode);
  }

  // ---- Laws of the difference ---------------------------------------------

  /** The step is the increment in the smallest unit. */
  lemma StepIs(s: Settings)
    requires Objection(s).None?
    ensures Fixed(SmallestOf(s)) && Fixed(LargestOf(s)) && StepOf(s) == IncrementOf(s) * Sum(One(SmallestOf(s))) > 0
  {
    UnitIsField(SmallestOf(s));
    UnitIsField(LargestOf(s));
    StepPositive(s);
  }

  /** The fields of a difference add up to the rounding of the exact difference and are balanced. */
  lemma UntilMeaning(self: int, other: int, s: Settings)
    requires Until(self, other, s).Ok?
    ensures Objection(s).None? && IncrementOf(s) * Sum(One(SmallestOf(s))) > 0
    ensures var f, step := Until(self, other, s).value, IncrementOf(s) * Sum(One(SmallestOf(s)));
      && Balanced(f, LargestOf(s))
      && Sum(f) == Round(other - self, step, ModeOf(s))
      && IsRounding(other - self, step, ModeOf(s), Units(other - self, step, ModeOf(s)))
  {
    hide Balance, Round, IsRounding, Sum;
    StepIs(s);
    BalanceLaws(Rounded(other - self, s, ModeOf(s)), LargestOf(s));
    UnitsIsRounding(other - self, StepOf(s), ModeOf(s));
  }

  /** Every field below the unit of the rank is zero. */
  predicate ZeroBelow(f: Fields, k: nat) {
    && (k > 6 ==> f.hours == 0) && (k > 5 ==> f.minutes == 0) && (k > 4 ==> f.seconds == 0)
    && (k > 3 ==> f.ms == 0) && (k > 2 ==> f.us == 0) && (k > 1 ==> f.ns == 0)
  }

  /** Balanced fields of a multiple of a unit not above the largest are zero below it. */
  lemma MultipleIsZeroBelow(f: Fields, largest: Unit, unit: Unit, t: int)
    requires Balanced(f, largest) && Fixed(unit) && Rank(unit) <= Rank(largest) && Sum(f) == t * Sum(One(unit))
    ensures ZeroBelow(f, Rank(unit))
  {
    match unit {
      case Day => LowIsZero(f.days, DAY, f.hours * HOUR + MinutesOf(f), t);
      case Hour => LowIsZero(f.days * 24 + f.hours, HOUR, MinutesOf(f), t);
      case Minute => LowIsZero(f.days * 1440 + f.hours * 60 + f.minutes, MINUTE, SecondsOf(f), t);
      case Second => LowIsZero(f.days * 86400 + f.hours * 3600 + f.minutes * 60 + f.seconds, SECOND, MillisOf(f), t);
      case Millisecond =>
        LowIsZero(f.days * 86_400_000 + f.hours * 3_600_000 + f.minutes * 60_000 + f.seconds * 1000 + f.ms, MILLI, f.us * MICRO + f.ns, t);
      case Microsecond =>
        LowIsZero(f.days * 86_400_000_000 + f.hours * 3_600_000_000 + f.minutes * 60_000_000 + f.seconds * 1_000_000 + f.ms * 1000 + f.us,
                  MICRO, f.ns, t);
      case Nanosecond =>
    }
  }

  /** The nanoseconds in the fields from minutes, seconds, milliseconds down. */
  function MinutesOf(f: Fields): int {
    f.minutes * MINUTE + SecondsOf(f)
  }

  function SecondsOf(f: Fields): int {
    f.seconds * SECOND + MillisOf(f)
  }

  function MillisOf(f: Fields): int {
    f.ms * MILLI + f.us * MICRO + f.ns
  }

  lemma LowIsZero(high: int, unit: int, low: int, t: int)
    requires unit > 0 && t * unit == high * unit + low && -unit < low < unit
    ensures low == 0
  {
    if high < t { Multiples(high, t, unit); }
    if t < high { Multiples(t, high, unit); }
  }

  lemma ZeroSum(f: Fields)
    requires OneSign(f) && Sum(f) == 0
    ensures f == Fields(0, 0, 0, 0, 0, 0, 0)
  {
  }

  lemma ZeroBelowLargest(f: Fields, largest: Unit, unit: Unit)
    requires Balanced(f, largest) && Fixed(unit) && Fixed(largest) && Rank(largest) < Rank(unit) && ZeroBelow(f, Rank(unit))
    ensures Sum(f) == 0
  {
  }

  /**
    A difference has nothing below its smallest unit exactly when the largest unit is not
    below the smallest, or the difference is zero: the code does not refuse such settings.
   */
  lemma NothingBelowSmallest(self: int, other: int, s: Settings)
    requires Until(self, other, s).Ok?
    ensures var f := Until(self, other, s).value;
      ZeroBelow(f, Rank(SmallestOf(s))) <==> Rank(LargestOf(s)) >= Rank(SmallestOf(s)) || Sum(f) == 0
  {
    hide Balance, Round, IsRounding, Sum, Balanced, ZeroBelow;
    UntilMeaning(self, other, s);
    StepIs(s);
    var f, unit := Until(self, other, s).value, SmallestOf(s);
    if Rank(LargestOf(s)) >= Rank(unit) {
      var u := Units(other - self, StepOf(s), ModeOf(s));
      RoundIsMultiple(other - self, IncrementOf(s), Sum(One(unit)), ModeOf(s));
      MultipleIsZeroBelow(f, LargestOf(s), unit, u * IncrementOf(s));
    } else {
      if ZeroBelow(f, Rank(unit)) { ZeroBelowLargest(f, LargestOf(s), unit); }
      if Sum(f) == 0 { ZeroFields(f, LargestOf(s), Rank(unit)); }
    }
  }

  lemma RoundIsMultiple(x: int, inc: nat, length: int, mode: Mode)
    requires inc * length > 0
    ensures Round(x, inc * length, mode) == (Units(x, inc * length, mode) * inc) * length
  {
    hide Units;
    var u := Units(x, inc * length, mode);
    TimesTwice(u, inc, length);
  }

  lemma TimesTwice(u: int, a: int, b: int)
    ensures u * (a * b) == (u * a) * b
  {
  }

  lemma ZeroFields(f: Fields, largest: Unit, k: nat)
    requires Balanced(f, largest) && Sum(f) == 0
    ensures ZeroBelow(f, k)
  {
    ZeroSum(f);
  }

  /** A minute and a half until, in minutes, with the default largest unit: 60 seconds, and no minute. */
  lemma SmallestAboveLargest()
    ensures Until(0, 90_000_000_000, Settings(Some(Minute), None, None, None)) == Ok(Fields(0, 0, 0, 60, 0, 0, 0))
  {
    hide Balance;
    BalanceOfSum(Fields(0, 0, 0, 60, 0, 0, 0), Second);
  }

  /** A difference is refused by the guards exactly when a field would not fit 64 bits. */
  lemma GuardedExactly(delta: int, largest: Unit)
    requires Abs(delta) <= 2 * MAX_EPOCH + INT64_MAX && Fixed(largest)
    ensures Guarded(delta, largest).Ok? <==> FieldsFit(Balance(delta, largest))
  {
    hide Balance, Sum, Balanced, FieldsFit;
    BalanceLaws(delta, largest);
    var f := Balance(delta, largest);
    if largest == Microsecond {
      MicrosFitExactly(f, delta);
    } else if largest == Nanosecond {
      NanosFitExactly(f, delta);
    } else {
      LongUnitsFit(f, largest);
    }
  }

  lemma MicrosFitExactly(f: Fields, delta: int)
    requires Balanced(f, Microsecond) && Sum(f) == delta
    ensures FieldsFit(f) <==> Abs(delta) / MICRO <= INT64_MAX
  {
  }

  lemma NanosFitExactly(f: Fields, delta: int)
    requires Balanced(f, Nanosecond) && Sum(f) == delta
    ensures FieldsFit(f) <==> Abs(delta) <= INT64_MAX
  {
  }

  lemma LongUnitsFit(f: Fields, largest: Unit)
    requires Balanced(f, largest) && Abs(Sum(f)) <= 2 * MAX_EPOCH + INT64_MAX && largest in {Day, Hour, Minute, Second, Millisecond}
    ensures FieldsFit(f)
  {
    match largest {
      case Day =>
      case Hour =>
      case Minute =>
      case Second =>
      case Millisecond =>
    }
  }

  predicate FieldsFit(f: Fields) {
    && Abs(f.days) <= INT64_MAX && Abs(f.hours) <= INT64_MAX && Abs(f.minutes) <= INT64_MAX && Abs(f.seconds) <= INT64_MAX
    && Abs(f.ms) <= INT64_MAX && Abs(f.us) <= INT64_MAX && Abs(f.ns) <= INT64_MAX
  }

  /** `since` is the field-by-field negation of `until`, for every pair of instants and all settings. */
  lemma SinceNegatesUntil(self: int, other: int, s: Settings)
    ensures Since(self, other, s) ==
            match Until(self, other, s)
            case Ok(f) => Ok(Negated(f))
            case Err(e) => Err(e)
  {
    hide Balance, Round;
    if Objection(s).None? {
      StepPositive(s);
      var delta := other - self;
      RoundNegated(delta, StepOf(s), ModeOf(s));
      BalanceNegated(Rounded(delta, s, ModeOf(s)), LargestOf(s));
    }
  }

  /** The proposal's `since`: the difference towards `other` is rounded in the negated mode, and the result negated. */
  function ProposedSince(self: int, other: int, s: Settings): Result<Fields> {
    if Objection(s).Some? then Err(Objection(s).value)
    else Guarded(-Rounded(other - self, s, Negate(ModeOf(s))), LargestOf(s))
  }

  /** The guard refuses the delta, for its largest field would not fit 64 bits. */
  predicate Refused(delta: int, largest: Unit) {
    (largest == Microsecond && Abs(delta) / MICRO > INT64_MAX) || (largest == Nanosecond && Abs(delta) > INT64_MAX)
  }

  lemma RefusedGrows(a: int, b: int, largest: Unit)
    requires Abs(a) <= Abs(b) && Refused(a, largest)
    ensures Refused(b, largest)
  {
  }

  /** Different deltas give different results unless both are refused. */
  lemma GuardedApart(a: int, b: int, largest: Unit)
    requires a != b
    ensures Guarded(a, largest) == Guarded(b, largest) <==> Refused(a, largest) && Refused(b, largest)
  {
    hide Balance, Sum, Balanced;
    BalanceLaws(a, largest);
    BalanceLaws(b, largest);
  }

  /** A rounding is one of the two multiples around the value. */
  lemma RoundsNext(x: int, inc: nat, mode: Mode)
    requires inc > 0
    ensures var r, low := Round(x, inc, mode), Abs(x) / inc * inc;
      && (Abs(r) == low || Abs(r) == low + inc) && low <= Abs(x) && (if x >= 0 then r >= 0 else r <= 0)
  {
    hide UnsignedUnits, Unsigned;
    var a: nat := if x >= 0 then x else -x;
    var u := UnsignedUnits(a, inc, Unsigned(mode, x >= 0));
    UnitsNext(a, inc, Unsigned(mode, x >= 0));
    Distribute(a / inc, 1, inc);
    NegTimes(u, inc);
    var p := u * inc;
    assert p == a / inc * inc || p == a / inc * inc + inc;
    assert a / inc * inc >= 0 by { Grows(0, a / inc, inc); }
    assert Round(x, inc, mode) == if x >= 0 then p else -p;
  }

  lemma UnitsNext(a: nat, inc: nat, mode: UnsignedMode)
    requires inc > 0
    ensures UnsignedUnits(a, inc, mode) == a / inc || UnsignedUnits(a, inc, mode) == a / inc + 1
    ensures a / inc * inc <= a
  {
  }

  /** Two roundings of one value in different modes: they are equal, or the guard refuses both exactly when it refuses the lower multiple. */
  lemma RefusedTogether(x: int, inc: nat, m: Mode, n: Mode, largest: Unit)
    requires inc > 0
    ensures var r, t := Round(x, inc, m), Round(x, inc, n);
      r != t ==> (Refused(r, largest) && Refused(t, largest) <==> Refused(Abs(x) / inc * inc, largest))
  {
    hide Round, Refused;
    RoundsNext(x, inc, m);
    RoundsNext(x, inc, n);
    var r, t, low := Round(x, inc, m), Round(x, inc, n), Abs(x) / inc * inc;
    if r != t {
      if Refused(low, largest) {
        RefusedGrows(low, r, largest);
        RefusedGrows(low, t, largest);
      }
      if Refused(r, largest) && Refused(t, largest) {
        if Abs(r) == low { RefusedGrows(r, low, largest); } else { RefusedGrows(t, low, largest); }
      }
    }
  }

  /** The modes round the difference alike. */
  predicate SinceAgrees(self: int, other: int, s: Settings)
    requires Objection(s).None?
  {
    StepPositive(s);
    || Negate(ModeOf(s)) == ModeOf(s)
    || Abs(self - other) % StepOf(s) == 0
    || (IsHalf(ModeOf(s)) && !IsTie(self - other, StepOf(s)))
  }

  /**
    The code's `since` rounds the negated difference in the negated mode. Its result, with
    refusals and fields, is the proposal's exactly when the settings are refused, the mode
    is symmetric, the difference is a multiple of the step, the mode is a half mode and
    there is no tie, or the guards refuse even the multiple of the step below.
   */
  lemma SinceVersusProposal(self: int, other: int, s: Settings)
    ensures Objection(s).None? ==> StepOf(s) > 0
    ensures Since(self, other, s) == ProposedSince(self, other, s)
       <==> || Objection(s).Some? || SinceAgrees(self, other, s)
            || Refused(Abs(self - other) / StepOf(s) * StepOf(s), LargestOf(s))
  {
    hide Round, Guarded, Refused, Balance, IsTie, ModeOf, LargestOf, SmallestOf, IncrementOf, Negate;
    if Objection(s).None? {
      StepPositive(s);
      var x, step, m := self - other, StepOf(s), ModeOf(s);
      RoundNegatedTwice(x, step, m);
      RoundModeNegated(x, step, m);
      assert -(other - self) == x && other - self == -x;
      var r, t := Round(x, step, Negate(m)), Round(x, step, m);
      assert Since(self, other, s) == Guarded(r, LargestOf(s));
      assert ProposedSince(self, other, s) == Guarded(t, LargestOf(s));
      if r != t {
        GuardedApart(r, t, LargestOf(s));
        RefusedTogether(x, step, Negate(m), m, LargestOf(s));
      }
    }
  }

  lemma RoundNegatedTwice(x: int, step: nat, m: Mode)
    requires step > 0
    ensures -Round(-x, step, Negate(m)) == Round(x, step, m)
  {
    hide Round;
    RoundNegated(x, step, m);
  }

  /** One and a half seconds, rounded up to seconds: the code's `since` says -2, the proposal's -1. */
  lemma SinceDiffers()
    ensures var s := Settings(Some(Second), None, None, Some(Ceil));
      && Since(0, 1_500_000_000, s) == Ok(Balance(-2_000_000_000, Second))
      && ProposedSince(0, 1_500_000_000, s) == Ok(Balance(-1_000_000_000, Second))
      && Since(0, 1_500_000_000, s) != ProposedSince(0, 1_500_000_000, s)
  {
    hide Balance;
    BalanceLaws(-2_000_000_000, Second);
    BalanceLaws(-1_000_000_000, Second);
  }
}
