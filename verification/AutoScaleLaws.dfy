/** Exactly when auto scale respects a given minimum. */
module AutoScaleLaws {
  import opened Scale

  // -------- how many steps a scale reaches --------

  lemma StepsAtLeast(x: real, f: int, q: int, m: int)
    requires q > 0 && x * q as real == f as real
    ensures x >= m as real <==> f >= m * q
  {
    RealProduct(m, q);
    if x >= m as real {
      ScaleUp(m as real, x, q as real);
    } else {
      ScaleUpStrict(x, m as real, q as real);
    }
  }

  lemma StepsAbove(x: real, f: int, q: int, m: int)
    requires q > 0 && x * q as real == f as real
    ensures x > m as real <==> f > m * q
  {
    RealProduct(m, q);
    if x > m as real {
      ScaleUpStrict(m as real, x, q as real);
    } else {
      ScaleUp(x, m as real, q as real);
    }
  }

  lemma ProductAtLeast(n: int, k: int, q: int)
    requires q > 0
    ensures n * q >= k * q <==> n >= k
  {
    if n >= k {
      assert (n - k) * q >= 0;
    } else {
      assert (k - n) * q > 0;
    }
  }

  lemma RoundByReaches(strategy: Strategy, x: real, k: int)
    requires k >= 1
    ensures RoundBy(strategy, x) >= k <==>
      match strategy
      case Down => x >= k as real
      case Nearest => 2.0 * x >= (2 * k - 1) as real
      case Up => x > (k - 1) as real
  {
  }

  lemma QuantiseReaches(strategy: Strategy, b: Base, f: int, k: int)
    requires k >= 1
    ensures Quantise(strategy, b, f) >= k * Quantum(b) <==>
      match strategy
      case Down => f >= k * Quantum(b)
      case Nearest => 2 * f >= (2 * k - 1) * Quantum(b)
      case Up => f > (k - 1) * Quantum(b)
  {
    hide RoundBy, Quantise;
    var x, q := InSteps(b, f), Quantum(b);
    QuantiseBySteps(strategy, b, f);
    ProductAtLeast(RoundBy(strategy, x), k, q);
    RoundByReaches(strategy, x, k);
    StepsAtLeast(x, f, q, k);
    assert 2.0 * x * q as real == 2.0 * (x * q as real) == (2 * f) as real;
    StepsAtLeast(2.0 * x, 2 * f, q, 2 * k - 1);
    StepsAbove(x, f, q, k - 1);
  }

  /** The conversion to fixed point passes an even number from half above it on. */
  lemma FixedAboveEven(scale: real, n: int)
    requires n % 2 == 0
    ensures FixedFromDouble(scale) > n <==> 512.0 * scale > (2 * n + 1) as real
  {
  }

  lemma QuantaEven(b: Base, m: int)
    ensures m * Quantum(b) % 2 == 0 && 2 * (m * Quantum(b) - Quantum(b) / 2) == (2 * m - 1) * Quantum(b)
    ensures (m * Quantum(b) - Quantum(b) / 2) % 2 == 0 && (m - 1) * Quantum(b) == m * Quantum(b) - Quantum(b)
  {
    FourTimes(m, Quantum(b), Quantum(b) / 4);
  }

  lemma FourTimes(m: int, q: int, j: int)
    requires q == 4 * j
    ensures m * q % 2 == 0 && 2 * (m * q - q / 2) == (2 * m - 1) * q
    ensures (m * q - q / 2) % 2 == 0 && (m - 1) * q == m * q - q
  {
    TimesFour(m, q, j);
    FourEven(m * j, j, m * q, q);
    Distribute(m, 1, q);
    Distribute(2 * m, 1, q);
  }

  lemma TimesFour(m: int, q: int, j: int)
    requires q == 4 * j
    ensures m * q == 4 * (m * j) && 2 * m * q == 2 * (m * q)
  {
  }

  lemma FourEven(n: int, j: int, mq: int, q: int)
    requires mq == 4 * n && q == 4 * j
    ensures mq % 2 == 0 && (mq - q / 2) % 2 == 0 && 2 * (q / 2) == q
  {
    assert mq == 2 * (2 * n) && mq - q / 2 == 2 * (2 * n - j);
  }

  /** The fixed scale of a double reaches k quanta from here on. */
  lemma FixedScaleReaches(strategy: Strategy, b: Base, scale: real, k: int)
    requires k >= 1
    ensures var q := Quantum(b);
      FixedScale(strategy, b, scale) >= k * q <==>
        match strategy
        case Down => 512.0 * scale >= (2 * (k * q) - 1) as real
        case Nearest => 512.0 * scale >= (2 * (k * q) - q - 1) as real
        case Up => 512.0 * scale > (2 * (k * q) - 2 * q + 1) as real
  {
    hide Quantise, FixedFromDouble;
    var q, f := Quantum(b), FixedFromDouble(scale);
    QuantaEven(b, k);
    QuantaEven(b, k - 1);
    QuantiseReaches(strategy, b, f, k);
    FixedAtLeastEven(scale, k * q);
    FixedAtLeastEven(scale, k * q - q / 2);
    FixedAboveEven(scale, k * q - q);
  }

  // -------- the smallest auto scale --------

  /** The minimum in steps of the base: at least one. */
  function MinSteps(b: Base, min: real): int {
    if Ceil(min * b as real) < 1 then 1 else Ceil(min * b as real)
  }

  /** What the integer division of the DPI base loses of the minimum, in 512ths of the DPI base. */
  function Lost(b: Base, dpiBase: int, min: real): int {
    2 * (MinSteps(b, min) * Quantum(b)) * (dpiBase % b)
  }

  lemma DpiMinSteps(b: Base, dpiBase: int, min: real)
    requires dpiBase >= b
    ensures DpiMin(b, dpiBase, min) == dpiBase / b * MinSteps(b, min)
  {
    UnitPositive(b, dpiBase);
    LeastIs(dpiBase / b, Ceil(min * b as real), MinSteps(b, min));
  }

  lemma LossOf(b: Base, dpiBase: int, k: int)
    requires dpiBase > 0
    ensures 512 * (dpiBase / b * k) == 2 * (k * Quantum(b)) * dpiBase - 2 * (k * Quantum(b)) * (dpiBase % b)
  {
    var unit, r, q := dpiBase / b, dpiBase % b, Quantum(b);
    BaseQuanta(b, unit, k);
    assert dpiBase == unit * b + r;
    assert 2 * (k * q) * dpiBase == 2 * (k * q) * (unit * b) + 2 * (k * q) * r;
  }

  lemma BaseQuanta(b: Base, unit: int, k: int)
    ensures 2 * (k * Quantum(b)) * (unit * b) == 512 * (unit * k)
  {
    if b == 1 {
    } else if b == 2 {
    } else if b == 4 {
    } else {
    }
  }

  lemma RatioCompare(n: int, d: int, c: int)
    requires d > 0
    ensures 512.0 * (n as real / d as real) >= c as real <==> 512 * n >= c * d
    ensures 512.0 * (n as real / d as real) > c as real <==> 512 * n > c * d
  {
    var x := 512.0 * (n as real / d as real);
    assert x * d as real == 512.0 * n as real == (512 * n) as real;
    StepsAtLeast(x, 512 * n, d, c);
    StepsAbove(x, 512 * n, d, c);
  }

  /** The condition, by strategy, on what is lost. */
  predicate Keeps(strategy: Strategy, b: Base, dpiBase: int, min: real) {
    var (q, lost) := (Quantum(b), Lost(b, dpiBase, min));
    match strategy
    case Down => lost <= dpiBase
    case Nearest => lost <= (q + 1) * dpiBase
    case Up => lost < (2 * q - 1) * dpiBase
  }

  /** At the smallest DPI that is let through. */
  lemma SmallestReaches(strategy: Strategy, b: Base, dpiBase: int, min: real)
    requires dpiBase >= b
    ensures var k := MinSteps(b, min);
      FixedScale(strategy, b, DpiMin(b, dpiBase, min) as real / dpiBase as real) >= k * Quantum(b) <==>
      Keeps(strategy, b, dpiBase, min)
  {
    hide FixedScale, DpiMin, MinSteps;
    var k, q := MinSteps(b, min), Quantum(b);
    MinStepsPositive(b, min);
    var n, kq := dpiBase / b * k, k * q;
    DpiMinSteps(b, dpiBase, min);
    FixedScaleReaches(strategy, b, n as real / dpiBase as real, k);
    LossOf(b, dpiBase, k);
    RatioCompare(n, dpiBase, 2 * kq - 1);
    RatioCompare(n, dpiBase, 2 * kq - q - 1);
    RatioCompare(n, dpiBase, 2 * kq - 2 * q + 1);
    Distribute(2 * kq, 1, dpiBase);
    Distribute(2 * kq, q + 1, dpiBase);
    Distribute(2 * kq, 2 * q - 1, dpiBase);
  }

  lemma MinStepsPositive(b: Base, min: real)
    ensures MinSteps(b, min) >= 1
  {
  }

  lemma Distribute(a: int, c: int, d: int)
    ensures (a - c) * d == a * d - c * d
  {
  }

  /** A scale of whole quanta is at least the minimum and one quantum iff it has as many steps as the minimum. */
  lemma HonoursSteps(b: Base, min: real, s: int)
    requires s % Quantum(b) == 0
    ensures s as real >= 256.0 * min && s >= Quantum(b) <==> s >= MinSteps(b, min) * Quantum(b)
  {
    var q, n, k := Quantum(b), s / Quantum(b), MinSteps(b, min);
    assert s == n * q;
    ProductAtLeast(n, 1, q);
    ProductAtLeast(n, k, q);
    ByBase(b, min, n);
  }

  lemma ByBase(b: Base, min: real, n: int)
    ensures (n * Quantum(b)) as real >= 256.0 * min <==> n as real >= min * b as real
  {
    if b == 1 {
    } else if b == 2 {
    } else if b == 4 {
    } else {
    }
  }

  lemma FixedScaleMonotone(strategy: Strategy, b: Base, x: real, y: real)
    requires x <= y
    ensures FixedScale(strategy, b, x) <= FixedScale(strategy, b, y)
  {
    FixedMonotone(x, y);
    QuantiseMonotone(strategy, b, FixedFromDouble(x), FixedFromDouble(y));
  }

  lemma HonoursIff(strategy: Strategy, b: Base, dpiBase: int, min: real, max: real, dpi: real)
    requires dpiBase > 0
    ensures HonoursMin(strategy, b, dpiBase, min, max, dpi) <==>
      AutoScale(strategy, b, dpiBase, min, max, dpi) >= MinSteps(b, min) * Quantum(b)
  {
    var scale := Clamp(dpi, DpiMin(b, dpiBase, min), DpiMax(b, dpiBase, max)) / dpiBase as real;
    QuantiseIsNear(strategy, b, FixedFromDouble(scale));
    HonoursSteps(b, min, FixedScale(strategy, b, scale));
  }

  lemma RatioMonotone(x: real, y: real, d: real)
    requires x <= y && d > 0.0
    ensures x / d <= y / d
  {
  }

  /**
   Main result: a given minimum is respected, and one quantum, for whatever DPI and maximum exactly when
   what the integer division of the DPI base loses of it is less than the rounding makes up for.
   */
  lemma AutoScaleMinIff(strategy: Strategy, b: Base, dpiBase: int, min: real)
    requires dpiBase > AUTO_SCALE_DPI_MIN
    ensures (forall max, dpi :: HonoursMin(strategy, b, dpiBase, min, max, dpi)) <==> Keeps(strategy, b, dpiBase, min)
  {
    hide FixedScale, DpiMin, DpiMax, Keeps, HonoursMin;
    var least, k := DpiMin(b, dpiBase, min), MinSteps(b, min);
    SmallestReaches(strategy, b, dpiBase, min);
    var smallest := FixedScale(strategy, b, least as real / dpiBase as real);
    forall max, dpi ensures HonoursMin(strategy, b, dpiBase, min, max, dpi) <== smallest >= k * Quantum(b) {
      var clamped := Clamp(dpi, least, DpiMax(b, dpiBase, max));
      RatioMonotone(least as real, clamped, dpiBase as real);
      FixedScaleMonotone(strategy, b, least as real / dpiBase as real, clamped / dpiBase as real);
      HonoursIff(strategy, b, dpiBase, min, max, dpi);
    }
    HonoursIff(strategy, b, dpiBase, min, 0.0, least as real - 1.0);
    assert Clamp(least as real - 1.0, least, DpiMax(b, dpiBase, 0.0)) == least as real;
  }

  /** At the default minimum of 1, a DPI of 100 is enough to lose it rounding down, but not to the nearest. */
  lemma DefaultMinLost()
    ensures exists max, dpi :: !HonoursMin(Down, 8, 100, 1.0, max, dpi)
    ensures forall max, dpi :: HonoursMin(Nearest, 8, 100, 1.0, max, dpi)
  {
    AutoScaleMinIff(Down, 8, 100, 1.0);
    AutoScaleMinIff(Nearest, 8, 100, 1.0);
    assert MinSteps(8, 1.0) == 8 && Lost(8, 100, 1.0) == 2048;
  }

  // -------- what auto scale gives --------

  /** A whole number of quanta next to the scale, on the side of the strategy, but for half a unit of fixed point. */
  predicate NextTo(strategy: Strategy, b: Base, scale: real, s: int) {
    var (q, twice) := (Quantum(b) as real, (2 * s) as real);
    && s % Quantum(b) == 0
    && match strategy
       case Down => 512.0 * scale - 2.0 * q - 1.0 <= twice <= 512.0 * scale + 1.0
       case Up => 512.0 * scale - 1.0 <= twice <= 512.0 * scale + 2.0 * q + 1.0
       case Nearest => 512.0 * scale - q - 1.0 <= twice <= 512.0 * scale + q + 1.0
  }

  lemma FixedNear(scale: real)
    ensures 512.0 * scale - 1.0 <= (2 * FixedFromDouble(scale)) as real <= 512.0 * scale + 1.0
  {
  }

  lemma FixedScaleNext(strategy: Strategy, b: Base, scale: real)
    ensures NextTo(strategy, b, scale, FixedScale(strategy, b, scale))
  {
    hide Quantise, FixedFromDouble;
    FixedNear(scale);
    QuantiseIsNear(strategy, b, FixedFromDouble(scale));
  }

  /** A scale of 1 is kept by every strategy. */
  lemma OneStays(strategy: Strategy, b: Base)
    ensures FixedScale(strategy, b, 1.0) == 256
  {
    FixedScaleBounded(strategy, b, 1.0, 256);
  }

  /** The steps of the maximum. */
  lemma DpiMaxSteps(b: Base, dpiBase: int, max: real) returns (j: int)
    requires max >= 0.0
    ensures DpiMax(b, dpiBase, max) == dpiBase / b * j && j as real <= max * b as real < (j + 1) as real
  {
    j := Trunc(max * b as real);
  }

  /** The least whole number of steps of the DPI base, at least one, that is the minimum or more. */
  lemma DpiMinLeast(b: Base, dpiBase: int, min: real) returns (k: int)
    requires dpiBase >= b
    ensures DpiMin(b, dpiBase, min) == dpiBase / b * k && k >= 1
    ensures k as real >= min * b as real && (k > 1 ==> (k - 1) as real < min * b as real)
  {
    k := DpiMinInUnits(b, dpiBase, min);
  }

  /**
   Main result: between the quantised limits, auto scale is the DPI by the DPI base, quantised. Below the minimum
   and above the maximum it is what it is there; and a maximum below the minimum is none.
   */
  lemma AutoScaleFollows(strategy: Strategy, b: Base, dpiBase: int, min: real, max: real, dpi: real)
    requires dpiBase > 0
    ensures var (least, most, s) := (DpiMin(b, dpiBase, min), DpiMax(b, dpiBase, max), AutoScale(strategy, b, dpiBase, min, max, dpi));
      && (dpi >= least as real && (most < least || dpi <= most as real) ==> NextTo(strategy, b, dpi / dpiBase as real, s))
      && (dpi <= least as real ==> NextTo(strategy, b, least as real / dpiBase as real, s))
      && (most >= least && dpi >= most as real ==> NextTo(strategy, b, most as real / dpiBase as real, s))
  {
    hide FixedScale, DpiMin, DpiMax, NextTo;
    FixedScaleNext(strategy, b, dpi / dpiBase as real);
    FixedScaleNext(strategy, b, DpiMin(b, dpiBase, min) as real / dpiBase as real);
    FixedScaleNext(strategy, b, DpiMax(b, dpiBase, max) as real / dpiBase as real);
  }

  /** Main result: a display of a higher DPI is never given a smaller scale. */
  lemma AutoScaleMonotone(strategy: Strategy, b: Base, dpiBase: int, min: real, max: real, x: real, y: real)
    requires dpiBase > 0 && x <= y
    ensures AutoScale(strategy, b, dpiBase, min, max, x) <= AutoScale(strategy, b, dpiBase, min, max, y)
  {
    hide FixedScale, DpiMin, DpiMax;
    var least, most := DpiMin(b, dpiBase, min), DpiMax(b, dpiBase, max);
    RatioMonotone(Clamp(x, least, most), Clamp(y, least, most), dpiBase as real);
    FixedScaleMonotone(strategy, b, Clamp(x, least, most) / dpiBase as real, Clamp(y, least, most) / dpiBase as real);
  }

  /** With the defaults, twice the DPI base gives a scale of 2. */
  lemma TwiceIsTwo()
    ensures AutoScale(Nearest, 8, 96, 1.0, -1.0, 192.0) == 512
  {
    AutoScaleFollows(Nearest, 8, 96, 1.0, -1.0, 192.0);
    assert DpiMin(8, 96, 1.0) == 96 && DpiMax(8, 96, -1.0) == -96;
  }
}
