/**
 Fixed point scales: quantising to a multiple of 1/8 (or coarser), auto scale by DPI, and the
 compositor's truncated logical lengths. Doubles are modelled as reals.
 */
module Scale {

  datatype Strategy = Nearest | Up | Down

  const ROUND_TO_DEFAULT: int := 8
  const AUTO_SCALE_DPI_DEFAULT: int := 96
  const AUTO_SCALE_DPI_MIN: int := ROUND_TO_DEFAULT

  /** The reciprocal of SCALE_ROUND_TO: 1, 2, 4 or 8 steps to the unit. */
  type Base = b: int | b == 1 || b == 2 || b == 4 || b == 8 witness 8

  /** The wl_fixed_t distance between two steps. */
  function Quantum(b: Base): int {
    if b == 1 then 256 else if b == 2 then 128 else if b == 4 then 64 else 32
  }

  function Ceil(x: real): int {
    -((-x).Floor)
  }

  /** A C conversion to an integer. */
  function Trunc(x: real): int {
    if x >= 0.0 then x.Floor else Ceil(x)
  }

  /** C round(): halves go away from zero. */
  function Round(x: real): int {
    if x >= 0.0 then (x + 0.5).Floor else -((-x + 0.5).Floor)
  }

  /** wl_fixed_from_double: the nearest multiple of 1/256, halves to the even one. */
  function FixedFromDouble(d: real): int {
    var f := (d * 256.0).Floor;
    var rest := d * 256.0 - f as real;
    if rest < 0.5 || (rest == 0.5 && f % 2 == 0) then f else f + 1
  }

  function RoundBy(strategy: Strategy, x: real): int {
    match strategy
    case Down => x.Floor
    case Up => Ceil(x)
    case Nearest => Round(x)
  }

  /** The quantising step of head_get_fixed_scale, on a fixed point scale. */
  function Quantise(strategy: Strategy, b: Base, f: int): int {
    Trunc(RoundBy(strategy, f as real / 256.0 * b as real) as real * (256.0 / b as real))
  }

  /** head_get_fixed_scale */
  function FixedScale(strategy: Strategy, b: Base, scale: real): int {
    Quantise(strategy, b, FixedFromDouble(scale))
  }

  // -------- quantising --------

  lemma ScaleUp(x: real, y: real, c: real)
    requires x <= y && c > 0.0
    ensures x * c <= y * c
  {
  }

  lemma ScaleUpStrict(x: real, y: real, c: real)
    requires x < y && c > 0.0
    ensures x * c < y * c
  {
  }

  /** The double expressions, for each base: the step count as a ratio, and the way back. */
  lemma Ratios(b: Base, f: int)
    ensures f as real / 256.0 * b as real == f as real / Quantum(b) as real
    ensures f as real * (256.0 / b as real) == (f * Quantum(b)) as real
    ensures f * Quantum(b) % Quantum(b) == 0
    ensures f % Quantum(b) == 0 ==> f == f / Quantum(b) * Quantum(b)
  {
    if b == 1 {
    } else if b == 2 {
    } else if b == 4 {
    } else {
    }
  }

  function InSteps(b: Base, f: int): (x: real)
    ensures x * Quantum(b) as real == f as real
  {
    f as real / Quantum(b) as real
  }

  lemma QuantiseBySteps(strategy: Strategy, b: Base, f: int)
    ensures Quantise(strategy, b, f) == RoundBy(strategy, InSteps(b, f)) * Quantum(b)
  {
    hide RoundBy, Trunc;
    Ratios(b, f);
    Ratios(b, RoundBy(strategy, InSteps(b, f)));
    TruncWhole(RoundBy(strategy, InSteps(b, f)) * Quantum(b));
  }

  lemma TruncWhole(n: int)
    ensures Trunc(n as real) == n
  {
  }

  lemma RoundByNear(strategy: Strategy, x: real)
    ensures var n := RoundBy(strategy, x) as real;
      match strategy
      case Down => x - 1.0 < n <= x
      case Up => x <= n < x + 1.0
      case Nearest => -0.5 <= n - x <= 0.5
  {
  }

  lemma RoundByMonotone(strategy: Strategy, x: real, y: real)
    requires x <= y
    ensures RoundBy(strategy, x) <= RoundBy(strategy, y)
  {
  }

  /**
   Main result: the quantised scale is a whole number of quanta, next to its input on the side the
   strategy says; NEAREST is within half a quantum.
   */
  lemma QuantiseIsNear(strategy: Strategy, b: Base, f: int)
    ensures var s, q := Quantise(strategy, b, f), Quantum(b);
      && s % q == 0
      && match strategy
         case Down => f - q < s <= f
         case Up => f <= s < f + q
         case Nearest => -q <= 2 * (s - f) <= q
  {
    var n := RoundBy(strategy, InSteps(b, f));
    QuantiseBySteps(strategy, b, f);
    RoundByNear(strategy, InSteps(b, f));
    Ratios(b, n);
    match strategy
    case Down => NearBelow(n, InSteps(b, f), f, Quantum(b));
    case Up => NearAbove(n, InSteps(b, f), f, Quantum(b));
    case Nearest => NearEither(n, InSteps(b, f), f, Quantum(b));
  }

  lemma RealProduct(n: int, q: int)
    ensures (n * q) as real == n as real * q as real
  {
  }

  lemma NearBelow(n: int, x: real, f: int, q: int)
    requires q > 0 && x * q as real == f as real && x - 1.0 < n as real <= x
    ensures f - q < n * q <= f
  {
    RealProduct(n, q);
    ScaleUp(n as real, x, q as real);
    ScaleUpStrict(x, n as real + 1.0, q as real);
  }

  lemma NearAbove(n: int, x: real, f: int, q: int)
    requires q > 0 && x * q as real == f as real && x <= n as real < x + 1.0
    ensures f <= n * q < f + q
  {
    RealProduct(n, q);
    ScaleUp(x, n as real, q as real);
    ScaleUpStrict(n as real, x + 1.0, q as real);
  }

  lemma NearEither(n: int, x: real, f: int, q: int)
    requires q > 0 && x * q as real == f as real && -0.5 <= n as real - x <= 0.5
    ensures -q <= 2 * (n * q - f) <= q
  {
    TwiceBounds(2 * n - 1, x, f, q);
    TwiceBounds(2 * n + 1, x, f, q);
    assert (2 * n - 1) * q == 2 * (n * q) - q;
    assert (2 * n + 1) * q == 2 * (n * q) + q;
  }

  lemma TwiceBounds(m: int, x: real, f: int, q: int)
    requires q > 0 && x * q as real == f as real
    ensures m as real <= 2.0 * x ==> m * q <= 2 * f
    ensures m as real >= 2.0 * x ==> m * q >= 2 * f
  {
    RealProduct(m, q);
    assert 2.0 * x * q as real == (2 * f) as real;
    if m as real <= 2.0 * x {
      ScaleUp(m as real, 2.0 * x, q as real);
    }
    if m as real >= 2.0 * x {
      ScaleUp(2.0 * x, m as real, q as real);
    }
  }

  lemma WholeSteps(b: Base, f: int)
    requires f % Quantum(b) == 0
    ensures InSteps(b, f) == (f / Quantum(b)) as real
    ensures f as real / 256.0 * b as real == (f / Quantum(b)) as real
    ensures f / Quantum(b) * Quantum(b) == f
  {
    if b == 1 {
    } else if b == 2 {
    } else if b == 4 {
    } else {
    }
  }

  lemma RoundByWhole(strategy: Strategy, k: int)
    ensures RoundBy(strategy, k as real) == k
  {
  }

  lemma QuantiseFixesQuanta(strategy: Strategy, b: Base, f: int)
    requires f % Quantum(b) == 0
    ensures Quantise(strategy, b, f) == f
  {
    WholeSteps(b, f);
    RoundByWhole(strategy, f / Quantum(b));
    QuantiseBySteps(strategy, b, f);
  }

  /** To the nearest, a scale halfway between two steps goes away from zero. */
  lemma NearestHalves(b: Base, k: nat)
    ensures Quantise(Nearest, b, k * Quantum(b) + Quantum(b) / 2) == (k + 1) * Quantum(b)
    ensures Quantise(Nearest, b, -(k * Quantum(b) + Quantum(b) / 2)) == -((k + 1) * Quantum(b))
  {
    var q, f := Quantum(b), k * Quantum(b) + Quantum(b) / 2;
    HalfStep(k, q, f, InSteps(b, f), InSteps(b, -f));
    QuantiseBySteps(Nearest, b, f);
    QuantiseBySteps(Nearest, b, -f);
    assert -(k + 1) * q == -((k + 1) * q);
  }

  lemma HalfStep(k: nat, q: int, f: int, x: real, y: real)
    requires q > 0 && q % 2 == 0 && f == k * q + q / 2 && x * q as real == f as real && y * q as real == (-f) as real
    ensures RoundBy(Nearest, x) == k + 1 && RoundBy(Nearest, y) == -(k + 1)
  {
    RealProduct(k, q);
    SameFactor(x, k as real + 0.5, q as real);
    SameFactor(y, -(k as real + 0.5), q as real);
  }

  lemma SameFactor(x: real, y: real, q: real)
    requires q > 0.0 && x * q == y * q
    ensures x == y
  {
    assert (x - y) * q == 0.0;
  }

  lemma QuantiseIdempotent(first: Strategy, second: Strategy, b: Base, f: int)
    ensures Quantise(second, b, Quantise(first, b, f)) == Quantise(first, b, f)
  {
    QuantiseIsNear(first, b, f);
    QuantiseFixesQuanta(second, b, Quantise(first, b, f));
  }

  lemma QuantiseMonotone(strategy: Strategy, b: Base, f: int, g: int)
    requires f <= g
    ensures Quantise(strategy, b, f) <= Quantise(strategy, b, g)
  {
    var q := Quantum(b) as real;
    if InSteps(b, f) > InSteps(b, g) {
      ScaleUpStrict(InSteps(b, g), InSteps(b, f), q);
      assert false;
    }
    QuantiseBySteps(strategy, b, f);
    QuantiseBySteps(strategy, b, g);
    RoundByMonotone(strategy, InSteps(b, f), InSteps(b, g));
  }

  lemma FixedMonotone(x: real, y: real)
    requires x <= y
    ensures FixedFromDouble(x) <= FixedFromDouble(y)
  {
  }

  lemma FixedExact(n: int)
    ensures FixedFromDouble(n as real / 256.0) == n
  {
  }

  /** Below or above a whole number of quanta, the quantised scale stays there. */
  lemma FixedScaleBounded(strategy: Strategy, b: Base, scale: real, n: int)
    requires n % Quantum(b) == 0
    ensures scale * 256.0 <= n as real ==> FixedScale(strategy, b, scale) <= n
    ensures scale * 256.0 >= n as real ==> FixedScale(strategy, b, scale) >= n
  {
    var edge := n as real / 256.0;
    FixedExact(n);
    QuantiseFixesQuanta(strategy, b, n);
    if scale <= edge {
      FixedMonotone(scale, edge);
      QuantiseMonotone(strategy, b, FixedFromDouble(scale), n);
    }
    if scale >= edge {
      FixedMonotone(edge, scale);
      QuantiseMonotone(strategy, b, n, FixedFromDouble(scale));
    }
  }

  lemma QuantisePositive(strategy: Strategy, b: Base, f: int)
    requires f >= 0
    ensures Quantise(strategy, b, f) >= 0
    ensures Quantise(strategy, b, f) > 0 <==>
      match strategy
      case Up => f > 0
      case Nearest => 2 * f >= Quantum(b)
      case Down => f >= Quantum(b)
  {
    var q := Quantum(b);
    QuantiseBySteps(strategy, b, f);
    var x := InSteps(b, f);
    StepsPositive(x, f, q);
    TimesPositive(RoundBy(strategy, x), q);
  }

  /** The conversion to fixed point reaches an even number from half below it on. */
  lemma FixedAtLeastEven(scale: real, n: int)
    requires n % 2 == 0
    ensures FixedFromDouble(scale) >= n <==> 512.0 * scale >= (2 * n - 1) as real
  {
  }

  /** It is positive above, but not at, half of its unit. */
  lemma FixedPositive(scale: real)
    ensures FixedFromDouble(scale) > 0 <==> 512.0 * scale > 1.0
  {
  }

  /**
   Main result: exactly which positive scales stay positive: rounding up, those above half a unit of fixed
   point, which is lost before; to the nearest, from half a quantum on; and down, from a quantum on, each
   but for that half unit. A smaller scale becomes 0.
   */
  lemma ScalePositiveIff(strategy: Strategy, b: Base, scale: real)
    requires scale > 0.0
    ensures FixedScale(strategy, b, scale) >= 0
    ensures FixedScale(strategy, b, scale) > 0 <==>
      match strategy
      case Up => 512.0 * scale > 1.0
      case Nearest => 512.0 * scale >= (Quantum(b) - 1) as real
      case Down => 512.0 * scale >= (2 * Quantum(b) - 1) as real
  {
    QuantisePositive(strategy, b, FixedFromDouble(scale));
    FixedPositive(scale);
    FixedAtLeastEven(scale, Quantum(b));
    FixedAtLeastEven(scale, Quantum(b) / 2);
  }

  /** It happens even when rounding up: a SCALE of 0.001 is accepted, and becomes 0. */
  lemma ScaleUpLost()
    ensures FixedScale(Up, 8, 0.001) == 0
  {
    ScalePositiveIff(Up, 8, 0.001);
  }

  lemma StepsPositive(x: real, f: int, q: int)
    requires q > 0 && x * q as real == f as real && f >= 0
    ensures x >= 0.0 && (x > 0.0 <==> f > 0) && (x >= 1.0 <==> f >= q) && (2.0 * x >= 1.0 <==> 2 * f >= q)
  {
    if x <= 0.0 {
      ScaleUp(x, 0.0, q as real);
    }
    AtLeastWhole(x, f, q);
    assert 2.0 * x * q as real == 2.0 * (x * q as real) == (2 * f) as real;
    AtLeastWhole(2.0 * x, 2 * f, q);
  }

  lemma AtLeastWhole(x: real, f: int, q: int)
    requires q > 0 && x * q as real == f as real
    ensures x >= 1.0 <==> f >= q
  {
    if x >= 1.0 {
      ScaleUp(1.0, x, q as real);
    } else {
      ScaleUpStrict(x, 1.0, q as real);
    }
  }

  lemma TimesPositive(n: int, q: int)
    requires q > 0
    ensures n * q > 0 <==> n > 0
    ensures n >= 0 ==> n * q >= 0
  {
  }

  // -------- logical lengths --------

  /** The divisor of desired_scaled_length: the scale in steps, recovered by +0.5 and truncation. */
  function Steps(b: Base, s: int): int {
    Trunc(s as real / 256.0 * b as real + 0.5)
  }

  /** desired_scaled_length; a zero divisor has no C result, and 0 stands for it. */
  function ScaledLength(b: Base, s: int, length: int): int {
    var f := Steps(b, s);
    if f == 0 then 0 else (length as real * b as real / f as real).Floor
  }

  lemma FloorOfRatio(n: int, d: int)
    requires d > 0
    ensures (n as real / d as real).Floor == n / d
  {
    var k := n / d;
    assert k * d <= n < k * d + d;
    assert k as real * d as real <= n as real < (k + 1) as real * d as real;
    assert k as real <= n as real / d as real < (k + 1) as real;
  }

  lemma StepsRecovered(b: Base, s: int)
    requires s >= 0 && s % Quantum(b) == 0
    ensures Steps(b, s) * Quantum(b) == s
  {
    WholeSteps(b, s);
    HalfMore(s / Quantum(b));
    WholeIsNatural(b, s);
  }

  lemma HalfMore(k: int)
    requires k >= 0
    ensures Trunc(k as real + 0.5) == k
  {
  }

  lemma WholeIsNatural(b: Base, s: int)
    requires s >= 0
    ensures s / Quantum(b) >= 0
  {
  }

  /** Main result: scaling undoes the quantised scale exactly, truncating as the compositor does. */
  lemma ScaledLengthTruncates(strategy: Strategy, b: Base, f: int, n: int)
    requires Quantise(strategy, b, f) > 0
    ensures var s := Quantise(strategy, b, f);
      var l := ScaledLength(b, s, n);
      l * s <= 256 * n < (l + 1) * s
  {
    var s, q := Quantise(strategy, b, f), Quantum(b);
    QuantiseIsNear(strategy, b, f);
    StepsRecovered(b, s);
    var k := Steps(b, s);
    assert k > 0;
    assert n as real * b as real == (n * b) as real;
    FloorOfRatio(n * b, k);
    var l := n * b / k;
    assert ScaledLength(b, s, n) == l;
    Rescale(n, b, k, l);
  }

  lemma Rescale(n: int, b: Base, k: int, l: int)
    requires k > 0 && l == n * b / k
    ensures l * (k * Quantum(b)) <= 256 * n < (l + 1) * (k * Quantum(b))
  {
    var q := Quantum(b);
    assert k * l <= n * b < k * l + k;
    assert q * (k * l) <= q * (n * b) < q * (k * l + k);
    assert q * (n * b) == 256 * n;
    assert q * (k * l) == l * (k * q);
    assert q * (k * l + k) == (l + 1) * (k * q);
  }

  // -------- auto scale --------

  /** The minimum in steps of a DPI, which is at least one step. */
  function LeastOf(unit: int, steps: int): int {
    if unit * steps < unit then unit else unit * steps
  }

  function DpiMin(b: Base, dpiBase: int, min: real): int {
    LeastOf(dpiBase / b, Ceil(min * b as real))
  }

  function DpiMax(b: Base, dpiBase: int, max: real): int {
    dpiBase / b * Trunc(max * b as real)
  }

  function Clamp(dpi: real, dpiMin: int, dpiMax: int): real {
    if dpi < dpiMin as real then dpiMin as real
    else if dpiMin <= dpiMax && dpi > dpiMax as real then dpiMax as real
    else dpi
  }

  /** head_auto_scale for a head whose DPI is known. */
  function AutoScale(strategy: Strategy, b: Base, dpiBase: int, min: real, max: real, dpi: real): int
    requires dpiBase != 0
  {
    FixedScale(strategy, b, Clamp(dpi, DpiMin(b, dpiBase, min), DpiMax(b, dpiBase, max)) / dpiBase as real)
  }

  ghost predicate HonoursMin(strategy: Strategy, b: Base, dpiBase: int, min: real, max: real, dpi: real)
    requires dpiBase != 0
  {
    var s := AutoScale(strategy, b, dpiBase, min, max, dpi);
    s as real >= 256.0 * min && s >= Quantum(b)
  }

  lemma RatioAtLeast(unit: int, k: int, b: Base, dpi: real)
    requires unit > 0 && dpi >= (unit * k) as real
    ensures dpi / (unit * b) as real * 256.0 >= (k * Quantum(b)) as real
  {
    var d := (unit * b) as real;
    assert d > 0.0;
    assert (k * Quantum(b)) as real * d == (unit * k) as real * 256.0 by {
      assert (k * Quantum(b)) * (unit * b) == unit * k * 256;
    }
    assert dpi / d * 256.0 >= (unit * k) as real / d * 256.0;
  }

  lemma FromSteps(b: Base, x: real, k: int)
    ensures x * b as real <= k as real ==> 256.0 * x <= (k * Quantum(b)) as real
    ensures x * b as real >= k as real ==> 256.0 * x >= (k * Quantum(b)) as real
  {
    if b == 1 {
    } else if b == 2 {
    } else if b == 4 {
    } else {
    }
  }

  lemma {:induction false} Times(n: int, a: nat, c: nat)
    requires n >= 0 && a <= c
    ensures n * a <= n * c
  {
    assert n * c == n * a + n * (c - a);
  }

  lemma MulLeast(unit: int, c: int)
    requires unit > 0
    ensures unit * c < unit <==> c < 1
  {
    if c < 0 {
      assert unit * c < 0;
    } else if c > 0 {
      Times(unit, 1, c);
    }
  }

  lemma UnitPositive(b: Base, dpiBase: int)
    requires dpiBase >= b
    ensures dpiBase / b >= 1
  {
  }

  lemma LeastIs(unit: int, steps: int, k: int)
    requires unit > 0 && k == if steps < 1 then 1 else steps
    ensures LeastOf(unit, steps) == unit * k
  {
    MulLeast(unit, steps);
  }

  /** The minimum is a whole number of steps of the DPI base, at least one. */
  lemma DpiMinInUnits(b: Base, dpiBase: int, min: real) returns (k: int)
    requires dpiBase >= b
    ensures k >= 1 && k as real >= min * b as real && DpiMin(b, dpiBase, min) == dpiBase / b * k
    ensures k == 1 || k == Ceil(min * b as real)
  {
    hide LeastOf;
    var c := Ceil(min * b as real);
    UnitPositive(b, dpiBase);
    k := if c < 1 then 1 else c;
    LeastIs(dpiBase / b, c, k);
  }

  /** Main result: where the base divides the DPI base, the result is at least the minimum and one step. */
  lemma AutoScaleMin(strategy: Strategy, b: Base, dpiBase: int, min: real, max: real, dpi: real)
    requires dpiBase > AUTO_SCALE_DPI_MIN && dpiBase % b == 0
    ensures HonoursMin(strategy, b, dpiBase, min, max, dpi)
  {
    var unit, q := dpiBase / b, Quantum(b);
    var k := DpiMinInUnits(b, dpiBase, min);
    var clamped := Clamp(dpi, DpiMin(b, dpiBase, min), DpiMax(b, dpiBase, max));
    assert dpiBase == unit * b;
    RatioAtLeast(unit, k, b, clamped);
    Ratios(b, k);
    FixedScaleBounded(strategy, b, clamped / dpiBase as real, k * q);
    FromSteps(b, min, k);
    assert k * q >= q by {
      assert (k - 1) * q >= 0;
    }
  }

  /** A DPI base that leaves a remainder loses part of a quantum for every step of the minimum. */
  lemma AutoScaleMinLost(strategy: Strategy, b: Base, dpiBase: int)
    requires dpiBase > AUTO_SCALE_DPI_MIN && dpiBase % b != 0
    ensures !HonoursMin(strategy, b, dpiBase, (2 * dpiBase) as real / b as real, -1.0, 1.0)
  {
    var unit, min := dpiBase / b, (2 * dpiBase) as real / b as real;
    assert min * b as real == (2 * dpiBase) as real;
    var clamped := Clamp(1.0, DpiMin(b, dpiBase, min), DpiMax(b, dpiBase, -1.0));
    LostDpi(b, dpiBase, min);
    assert clamped / dpiBase as real == (2 * unit) as real;
    Quanta(b, unit);
    FixedScaleBounded(strategy, b, (2 * unit) as real, 512 * unit);
    FromSteps(b, min, 2 * dpiBase);
    LessThanWhole(unit, b, dpiBase);
  }

  lemma LostDpi(b: Base, dpiBase: int, min: real)
    requires dpiBase > AUTO_SCALE_DPI_MIN && min * b as real == (2 * dpiBase) as real
    ensures Clamp(1.0, DpiMin(b, dpiBase, min), DpiMax(b, dpiBase, -1.0)) / dpiBase as real ==
            (2 * (dpiBase / b)) as real
  {
    var unit := dpiBase / b;
    var k := DpiMinInUnits(b, dpiBase, min);
    assert unit >= 1 && k == 2 * dpiBase;
    Times(k, 1, unit);
    TwiceUnits(unit, dpiBase);
    OfBase(2 * unit, dpiBase);
  }

  lemma TwiceUnits(unit: int, dpiBase: int)
    ensures unit * (2 * dpiBase) == 2 * unit * dpiBase
  {
  }

  lemma Quanta(b: Base, unit: int)
    ensures 512 * unit % Quantum(b) == 0
  {
    if b == 1 {
    } else if b == 2 {
    } else if b == 4 {
    } else {
    }
  }

  lemma OfBase(n: int, dpiBase: int)
    requires dpiBase > 0
    ensures (n * dpiBase) as real / dpiBase as real == n as real
  {
    assert (n * dpiBase) as real == n as real * dpiBase as real;
  }

  lemma LessThanWhole(unit: int, b: Base, dpiBase: int)
    requires unit == dpiBase / b && dpiBase % b != 0
    ensures 512 * unit < 2 * dpiBase * Quantum(b)
  {
    if b == 1 {
    } else if b == 2 {
    } else if b == 4 {
    } else {
    }
  }

  /**
   Auto scale respects every minimum at once, and is never below one quantum, for whatever DPI, exactly
   when the DPI base is divisible by the round-to base.
   */
  lemma AutoScaleAllMinsIff(strategy: Strategy, b: Base, dpiBase: int)
    requires dpiBase > AUTO_SCALE_DPI_MIN
    ensures (forall min, max, dpi :: HonoursMin(strategy, b, dpiBase, min, max, dpi)) <==> dpiBase % b == 0
  {
    if dpiBase % b == 0 {
      forall min, max, dpi ensures HonoursMin(strategy, b, dpiBase, min, max, dpi) {
        AutoScaleMin(strategy, b, dpiBase, min, max, dpi);
      }
    } else {
      AutoScaleMinLost(strategy, b, dpiBase);
    }
  }

  /** Main result: a maximum that is not below the minimum is respected, whatever the DPI base. */
  lemma AutoScaleMax(strategy: Strategy, b: Base, dpiBase: int, min: real, max: real, dpi: real)
    requires dpiBase > AUTO_SCALE_DPI_MIN
    requires DpiMin(b, dpiBase, min) <= DpiMax(b, dpiBase, max)
    ensures AutoScale(strategy, b, dpiBase, min, max, dpi) as real <= 256.0 * max
  {
    var unit, j, q := dpiBase / b, Trunc(max * b as real), Quantum(b);
    var k := DpiMinInUnits(b, dpiBase, min);
    AtLeastOne(unit, k, j);
    var clamped := Clamp(dpi, DpiMin(b, dpiBase, min), DpiMax(b, dpiBase, max));
    RatioAtMost(unit, j, b, dpiBase, clamped);
    Ratios(b, j);
    FixedScaleBounded(strategy, b, clamped / dpiBase as real, j * q);
    FromSteps(b, max, j);
  }

  lemma AtLeastOne(unit: int, k: int, j: int)
    requires unit > 0 && k >= 1 && unit * k <= unit * j
    ensures j >= 1
  {
    MulLeast(unit, j);
    MulLeast(unit, k);
  }

  lemma RatioAtMost(unit: int, j: int, b: Base, dpiBase: int, dpi: real)
    requires unit > 0 && j > 0 && unit * b <= dpiBase && dpi <= (unit * j) as real
    ensures dpi / dpiBase as real * 256.0 <= (j * Quantum(b)) as real
  {
    var d, q := dpiBase as real, Quantum(b);
    assert d > 0.0;
    assert unit * j * 256 <= j * q * dpiBase by {
      assert unit * j * 256 == (j * q) * (unit * b);
      assert (j * q) * (dpiBase - unit * b) >= 0;
    }
    assert (unit * j) as real * 256.0 <= (j * q) as real * d;
    assert (unit * j) as real / d * 256.0 <= (j * q) as real;
    assert dpi / d <= (unit * j) as real / d;
  }
}
