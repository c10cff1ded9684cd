/**
  Rounding of a signed quantity to a multiple of an increment in the nine modes of
  the Temporal proposal, with the sign taken off first ("GetUnsignedRoundingMode",
  "ApplyUnsignedRoundingMode").
 */
module Rounding {

  datatype Mode = Ceil | Floor | Expand | Trunc | HalfCeil | HalfFloor | HalfExpand | HalfTrunc | HalfEven

  datatype UnsignedMode = Zero | Infinity | HalfZero | HalfInfinity | EvenHalf

  /** The mode for the magnitude of a value of the given sign. */
  function Unsigned(mode: Mode, positive: bool): UnsignedMode {
    match mode
    case Ceil => if positive then Infinity else Zero
    case Floor => if positive then Zero else Infinity
    case Expand => Infinity
    case Trunc => Zero
    case HalfCeil => if positive then HalfInfinity else HalfZero
    case HalfFloor => if positive then HalfZero else HalfInfinity
    case HalfExpand => HalfInfinity
    case HalfTrunc => HalfZero
    case HalfEven => EvenHalf
  }

  function Negate(mode: Mode): Mode {
    match mode
    case Ceil => Floor
    case Floor => Ceil
    case HalfCeil => HalfFloor
    case HalfFloor => HalfCeil
    case _ => mode
  }

  /** The lower multiple or the one above it, by the remainder. */
  function Pick(r1: int, rem: nat, inc: nat, mode: UnsignedMode): int {
    if rem == 0 || mode == Zero then r1
    else if mode == Infinity then r1 + 1
    else if rem + rem < inc then r1
    else if rem + rem > inc then r1 + 1
    else
      match mode
      case HalfInfinity => r1 + 1
      case EvenHalf => if r1 % 2 == 0 then r1 else r1 + 1
      case _ => r1
  }

  /** The number of increments the magnitude rounds to. */
  function UnsignedUnits(q: nat, inc: nat, mode: UnsignedMode): nat
    requires inc > 0
  {
    Pick(q / inc, q % inc, inc, mode)
  }

  /** The signed number of increments `q` rounds to. */
  function Units(q: int, inc: nat, mode: Mode): int
    requires inc > 0
  {
    var positive := q >= 0;
    var u: int := UnsignedUnits(if positive then q else -q, inc, Unsigned(mode, positive));
    if positive then u else -u
  }

  function Round(q: int, inc: nat, mode: Mode): int
    requires inc > 0
  {
    Units(q, inc, mode) * inc
  }

  function Abs(x: int): nat {
    if x < 0 then -x else x
  }

  // ---- What rounding means ------------------------------------------------

  /** The rule at the exact middle, or for the whole interval in a directed mode. */
  predicate OnSide(q: int, r: int, u: int, mode: Mode) {
    match mode
    case Ceil | HalfCeil => r >= q
    case Floor | HalfFloor => r <= q
    case Expand | HalfExpand => Abs(r) >= Abs(q)
    case Trunc | HalfTrunc => Abs(r) <= Abs(q)
    case HalfEven => u % 2 == 0
  }

  predicate IsHalf(mode: Mode) {
    mode.HalfCeil? || mode.HalfFloor? || mode.HalfExpand? || mode.HalfTrunc? || mode.HalfEven?
  }

  /**
    `u` increments are the rounding of `q`: less than one increment away; for a
    directed mode on the required side; for a half mode nearest, with the side
    deciding an exact tie.
   */
  ghost predicate IsRounding(q: int, inc: nat, mode: Mode, u: int) {
    var r := u * inc;
    && Abs(r - q) < inc
    && (if IsHalf(mode)
        then 2 * Abs(r - q) <= inc && (2 * Abs(r - q) == inc ==> OnSide(q, r, u, mode))
        else OnSide(q, r, u, mode))
  }

  lemma Distribute(a: int, b: int, inc: nat)
    ensures (a + b) * inc == a * inc + b * inc
  {
  }

  lemma NegTimes(a: int, b: int)
    ensures (-a) * b == -(a * b)
  {
  }

  lemma Grows(a: int, b: int, inc: nat)
    requires a <= b
    ensures a * inc <= b * inc
  {
    Distribute(a, b - a, inc);
    assert (b - a) * inc >= 0;
  }

  lemma Multiples(u: int, v: int, inc: nat)
    requires u < v
    ensures u * inc + inc <= v * inc
    ensures v == u + 1 ==> u * inc + inc == v * inc
  {
    Distribute(u, 1, inc);
    Grows(u + 1, v, inc);
  }

  lemma QuotientBounds(q: nat, inc: nat)
    requires inc > 0
    ensures var r1, rem := q / inc, q % inc;
      q == r1 * inc + rem && rem < inc && (r1 + 1) * inc == r1 * inc + inc
  {
    Distribute(q / inc, 1, inc);
  }

  /** The magnitude rounds to a neighbour, on the side its mode asks for. */
  lemma UnsignedIsNear(a: nat, inc: nat, mode: UnsignedMode)
    requires inc > 0
    ensures var w := UnsignedUnits(a, inc, mode);
      var r: int := w * inc;
      && r >= 0 && Abs(r - a) < inc
      && (mode == Zero ==> r <= a) && (mode == Infinity ==> r >= a)
      && (mode != Zero && mode != Infinity ==> 2 * Abs(r - a) <= inc)
      && (2 * Abs(r - a) == inc ==>
            && (mode == HalfZero ==> r <= a) && (mode == HalfInfinity ==> r >= a)
            && (mode == EvenHalf ==> w % 2 == 0))
  {
    QuotientBounds(a, inc);
  }

  /** The computed value is the rounding, in every mode and for both signs. */
  lemma UnitsIsRounding(q: int, inc: nat, mode: Mode)
    requires inc > 0
    ensures IsRounding(q, inc, mode, Units(q, inc, mode))
  {
    hide UnsignedUnits;
    var m := Unsigned(mode, q >= 0);
    UnsignedIsNear(Abs(q), inc, m);
    var w: int := UnsignedUnits(Abs(q), inc, m);
    NegTimes(w, inc);
  }

  lemma NotBoth(q: int, inc: nat, mode: Mode, u: int, v: int)
    requires inc > 0 && u < v
    ensures !(IsRounding(q, inc, mode, u) && IsRounding(q, inc, mode, v))
  {
    var r, s := u * inc, v * inc;
    Multiples(u, v, inc);
    SameSign(u, inc);
    SameSign(v, inc);
    if v > u + 1 { Multiples(u + 1, v, inc); Multiples(u, u + 1, inc); }
    match mode {
      case Ceil =>
      case Floor =>
      case Expand =>
      case Trunc =>
      case HalfCeil =>
      case HalfFloor =>
      case HalfExpand =>
      case HalfTrunc =>
      case HalfEven =>
    }
  }

  /** There is only one rounding, so the definition fixes the result. */
  lemma RoundingUnique(q: int, inc: nat, mode: Mode, u: int, v: int)
    requires inc > 0 && IsRounding(q, inc, mode, u) && IsRounding(q, inc, mode, v)
    ensures u == v
  {
    hide IsRounding;
    if u < v { NotBoth(q, inc, mode, u, v); }
    if v < u { NotBoth(q, inc, mode, v, u); }
  }

  lemma SameSign(u: int, inc: nat)
    requires inc > 0
    ensures u >= 1 ==> u * inc >= inc
    ensures u <= -1 ==> u * inc <= 0 - inc
  {
    if u >= 1 { Grows(1, u, inc); }
    if u <= -1 { Grows(u, -1, inc); }
  }

  lemma UnitsExactly(q: int, inc: nat, mode: Mode, u: int)
    requires inc > 0
    ensures IsRounding(q, inc, mode, u) <==> u == Units(q, inc, mode)
  {
    UnitsIsRounding(q, inc, mode);
    if IsRounding(q, inc, mode, u) {
      RoundingUnique(q, inc, mode, u, Units(q, inc, mode));
    }
  }

  // ---- Truncated division --------------------------------------------------

  /** Division that truncates toward zero. */
  function TDiv(a: int, b: int): int
    requires b > 0
  {
    if a >= 0 then a / b else -((-a) / b)
  }

  lemma DivParts(m: int, b: int)
    requires m >= 0 && b > 0
    ensures m == (m / b) * b + m % b && 0 <= m % b < b && m / b >= 0
  {
  }

  lemma TDivRest(a: int, b: int)
    requires b > 0
    ensures var t := TDiv(a, b);
      -b < a - t * b < b && (a >= 0 ==> a - t * b >= 0 && t >= 0) && (a <= 0 ==> a - t * b <= 0 && t <= 0)
  {
    var m := if a >= 0 then a else -a;
    DivParts(m, b);
    NegTimes(m / b, b);
  }

  // ---- Laws ---------------------------------------------------------------

  /** Rounding a multiple changes nothing, so rounding twice is rounding once. */
  lemma RoundIdempotent(q: int, inc: nat, mode: Mode)
    requires inc > 0
    ensures Round(Round(q, inc, mode), inc, mode) == Round(q, inc, mode)
  {
    var u := Units(q, inc, mode);
    assert IsRounding(u * inc, inc, mode, u);
    UnitsExactly(u * inc, inc, mode, u);
  }

  /** Rounding keeps the order, across zero as well. */
  lemma RoundMonotone(p: int, q: int, inc: nat, mode: Mode)
    requires inc > 0 && p <= q
    ensures Round(p, inc, mode) <= Round(q, inc, mode)
  {
    var u, v := Units(p, inc, mode), Units(q, inc, mode);
    UnitsIsRounding(p, inc, mode);
    UnitsIsRounding(q, inc, mode);
    if v < u {
      Multiples(v, u, inc);
      SameSign(u, inc);
      SameSign(v, inc);
      if p == q {
        RoundingUnique(p, inc, mode, u, v);
      }
    } else {
      Grows(u, v, inc);
    }
  }

  lemma RoundingNegated(q: int, inc: nat, mode: Mode, u: int)
    requires inc > 0 && IsRounding(q, inc, mode, u)
    ensures IsRounding(-q, inc, Negate(mode), -u)
  {
    NegTimes(u, inc);
  }

  /** Rounding the negated value in the negated mode negates the result. */
  lemma RoundNegated(q: int, inc: nat, mode: Mode)
    requires inc > 0
    ensures Round(-q, inc, Negate(mode)) == -Round(q, inc, mode)
  {
    hide Units, IsRounding, Negate;
    var u := Units(q, inc, mode);
    UnitsIsRounding(q, inc, mode);
    RoundingNegated(q, inc, mode, u);
    UnitsExactly(-q, inc, Negate(mode), -u);
    NegTimes(u, inc);
  }

  predicate IsTie(q: int, inc: nat)
    requires inc > 0
  {
    2 * (Abs(q) % inc) == inc
  }

  /** Negating only the mode changes nothing exactly for multiples, symmetric modes, and half modes off the middle. */
  lemma RoundModeNegated(q: int, inc: nat, mode: Mode)
    requires inc > 0
    ensures Round(q, inc, Negate(mode)) == Round(q, inc, mode)
       <==> Abs(q) % inc == 0 || Negate(mode) == mode || (IsHalf(mode) && !IsTie(q, inc))
  {
    var a := Abs(q);
    QuotientBounds(a, inc);
    DifferentUnits(Units(q, inc, mode), Units(q, inc, Negate(mode)), inc);
  }

  lemma DifferentUnits(u: int, v: int, inc: nat)
    requires inc > 0
    ensures u * inc == v * inc <==> u == v
  {
    if u < v { Multiples(u, v, inc); }
    if v < u { Multiples(v, u, inc); }
  }

  /**
    Rounding as if positive, as the proposal does for an instant: the floor of the
    quotient, and the mode of a positive value whatever the sign.
   */
  function UnitsAsIfPositive(q: int, inc: nat, mode: Mode): int
    requires inc > 0
  {
    Pick(q / inc, q % inc, inc, Unsigned(mode, true))
  }

  /**
    Taking the sign off first agrees with rounding as if positive exactly when the
    value is not negative, or a multiple, or the mode does not look at zero: it is
    not `Expand` or `Trunc`, nor `HalfExpand` or `HalfTrunc` at a tie.
   */
  lemma SignedVersusAsIfPositive(q: int, inc: nat, mode: Mode)
    requires inc > 0
    ensures Units(q, inc, mode) == UnitsAsIfPositive(q, inc, mode)
       <==> || q >= 0 || Abs(q) % inc == 0
            || !(mode.Expand? || mode.Trunc? || ((mode.HalfExpand? || mode.HalfTrunc?) && IsTie(q, inc)))
  {
    hide IsTie, Pick, Unsigned;
    if q < 0 {
      var a: nat := -q;
      FloorOfNegative(a, inc);
      TieIs(q, inc);
      QuotientBounds(a, inc);
      PickBelow(a / inc, a % inc, inc, mode);
    }
  }

  /** A magnitude with the mode of its sign, and the floor below it with the mode of a positive value. */
  lemma PickBelow(r1: int, rem: nat, inc: nat, mode: Mode)
    requires rem < inc
    ensures var k, m := if rem == 0 then -r1 else -r1 - 1, if rem == 0 then 0 else inc - rem;
      -Pick(r1, rem, inc, Unsigned(mode, false)) == Pick(k, m, inc, Unsigned(mode, true))
      <==> rem == 0 || !(mode.Expand? || mode.Trunc? || ((mode.HalfExpand? || mode.HalfTrunc?) && rem + rem == inc))
  {
    match mode {
      case Ceil =>
      case Floor =>
      case Expand =>
      case Trunc =>
      case HalfCeil =>
      case HalfFloor =>
      case HalfExpand =>
      case HalfTrunc =>
      case HalfEven =>
    }
  }

  lemma TieIs(q: int, inc: nat)
    requires inc > 0 && q < 0
    ensures IsTie(q, inc) <==> -q % inc + -q % inc == inc
  {
  }

  lemma FloorOfNegative(a: int, inc: int)
    requires inc > 0 && a >= 0
    ensures a % inc == 0 ==> (-a) / inc == -(a / inc) && (-a) % inc == 0
    ensures a % inc != 0 ==> (-a) / inc == -(a / inc) - 1 && (-a) % inc == inc - a % inc
  {
    QuotientBounds(a, inc);
    var r1, rem := a / inc, a % inc;
    var k, m := if rem == 0 then -r1 else -r1 - 1, if rem == 0 then 0 else inc - rem;
    NegTimes(r1, inc);
    Distribute(-r1, -1, inc);
    QuotientIs(-a, inc, k, m);
  }

  lemma QuotientIs(x: int, inc: nat, k: int, m: nat)
    requires inc > 0 && x == k * inc + m && m < inc
    ensures x / inc == k && x % inc == m
  {
    var k', m' := x / inc, x % inc;
    assert x == k' * inc + m';
    if k < k' { Multiples(k, k', inc); }
    if k' < k { Multiples(k', k, inc); }
  }

  /** Minus one half, truncated: to zero with the value's sign, to minus one as if positive. */
  lemma SignMatters()
    ensures Units(-1, 2, Trunc) == 0 && UnitsAsIfPositive(-1, 2, Trunc) == -1
  {
  }
}
