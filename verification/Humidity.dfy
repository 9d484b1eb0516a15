/** The compensation of humidity (bme280_sensor.c), in units of 1 / 1024 percent. A `>>` is a floor division;
    `v` is t_fine - 76800. */
module Humidity {
  import opened Common
  import opened Compensation

  // ---------------------------------------------------------------- the stages of compensate_humidity

  function Linear(c: Calibration, v: int, raw: nat): int {
    raw * 16384 - c.h4 * 1048576 - c.h5 * v
  }

  function Level(c: Calibration, v: int, raw: nat): int {
    (Linear(c, v, raw) + 16384) / 0x8000
  }

  /** The influence of the temperature, from the products p of v and h6, and q of v and h3. */
  function Times(a: int, b: int): int {
    a * b
  }

  function InfluenceProduct(p: int, q: int): int {
    Times(p / 0x400, q / 0x800 + 32768)
  }

  function Influence(p: int, q: int): int {
    InfluenceProduct(p, q) / 0x400 + 2097152
  }

  function SlopeOf(influence: int, h2: int): int {
    (influence * h2 + 8192) / 0x4000
  }

  function Slope(c: Calibration, v: int): int {
    SlopeOf(Influence(v * c.h6, v * c.h3), c.h2)
  }

  function Uncorrected(c: Calibration, v: int, raw: nat): int {
    Level(c, v, raw) * Slope(c, v)
  }

  function Squared(u: int): int {
    u / 0x8000 * (u / 0x8000)
  }

  function Correction(u: int, h1: nat): int {
    Times(Squared(u) / 0x80, h1) / 0x10
  }

  const FULL := 419430400   // 100 percent before the last shift

  /** The reported humidity. */
  function HumidityOf(c: Calibration, v: int, raw: nat): int {
    var u := Uncorrected(c, v, raw);
    Clamped(u - Correction(u, c.h1), 0, FULL) / 0x1000
  }

  predicate SlopeFits(c: Calibration, p: int, q: int) {
    && Fits32(p) && Fits32(q) && Fits32(InfluenceProduct(p, q)) && Fits32(Influence(p, q))
    && Fits32(Influence(p, q) * c.h2) && Fits32(Influence(p, q) * c.h2 + 8192)
  }

  /** No int32 intermediate overflows. */
  predicate HumidityFits(c: Calibration, v: int, raw: nat) {
    var u := Uncorrected(c, v, raw);
    && Fits32(raw * 16384) && Fits32(c.h4 * 1048576) && Fits32(c.h5 * v)
    && Fits32(raw * 16384 - c.h4 * 1048576) && Fits32(Linear(c, v, raw)) && Fits32(Linear(c, v, raw) + 16384)
    && SlopeFits(c, v * c.h6, v * c.h3)
    && Fits32(u) && Fits32(Squared(u)) && Fits32(Times(Squared(u) / 0x80, c.h1)) && Fits32(u - Correction(u, c.h1))
  }

  // ---------------------------------------------------------------- the exact formula

  /** The formula of the data sheet in exact arithmetic. */
  function ExactHumidity(c: Calibration, v: int, raw: nat): real {
    var f := v as real;
    var x := (raw as real - (c.h4 as real * 64.0 + c.h5 as real / 16384.0 * f))
             * (c.h2 as real / 65536.0 * (1.0 + c.h6 as real / 67108864.0 * f * (1.0 + c.h3 as real / 67108864.0 * f)));
    x * (1.0 - c.h1 as real * x / 524288.0) * 1024.0
  }

  function ExactLevel(c: Calibration, v: int, raw: nat): real {
    Linear(c, v, raw) as real / 32768.0
  }

  function TimesReal(a: real, b: real): real {
    a * b
  }

  function ExactInfluenceProduct(p: int, q: int): real {
    TimesReal(p as real / 1024.0, q as real / 2048.0 + 32768.0)
  }

  function ExactInfluence(p: int, q: int): real {
    ExactInfluenceProduct(p, q) / 1024.0 + 2097152.0
  }

  function ExactSlopeOf(influence: real, h2: int): real {
    influence * h2 as real / 16384.0
  }

  function ExactSlope(c: Calibration, v: int): real {
    ExactSlopeOf(ExactInfluence(v * c.h6, v * c.h3), c.h2)
  }

  /** The exact formula in the same stages. */
  function ExactSquared(u: real): real {
    u / 32768.0 * (u / 32768.0)
  }

  function ExactStages(u: real, h1: nat): real {
    u - TimesReal(ExactSquared(u) / 128.0, h1 as real) / 16.0
  }

  lemma LevelForms(c: Calibration, v: int, raw: nat)
    ensures ExactLevel(c, v, raw)
         == (raw as real - (c.h4 as real * 64.0 + c.h5 as real / 16384.0 * v as real)) / 2.0
  {
    var k := c.h5 as real * v as real;
    assert (c.h5 * v) as real == k;
    assert c.h5 as real / 16384.0 * v as real == k / 16384.0;
  }

  lemma InfluenceForms(h6: int, h3: int, v: int)
    ensures ExactInfluence(v * h6, v * h3)
         == 2097152.0 * (1.0 + h6 as real / 67108864.0 * v as real * (1.0 + h3 as real / 67108864.0 * v as real))
  {
    var p, q := h6 as real * v as real, h3 as real * v as real;
    assert (v * h6) as real == p && (v * h3) as real == q;
    assert h6 as real / 67108864.0 * v as real == p / 67108864.0;
    assert h3 as real / 67108864.0 * v as real == q / 67108864.0;
    Expanded(p, q);
  }

  lemma Expanded(p: real, q: real)
    ensures p / 1024.0 * (q / 2048.0 + 32768.0) / 1024.0 == 2097152.0 * (p / 67108864.0 * (1.0 + q / 67108864.0))
  {
    assert p / 1024.0 * (q / 2048.0 + 32768.0) == p * q / 2097152.0 + p * 32.0;
    assert p / 67108864.0 * (1.0 + q / 67108864.0) == p / 67108864.0 + p * q / 4503599627370496.0;
  }

  /** Staged, the formula is the same. */
  lemma ExactForms(c: Calibration, v: int, raw: nat)
    ensures ExactHumidity(c, v, raw) == ExactStages(ExactLevel(c, v, raw) * ExactSlope(c, v), c.h1) / 4096.0
  {
    var f := v as real;
    var a := raw as real - (c.h4 as real * 64.0 + c.h5 as real / 16384.0 * f);
    var w := 1.0 + c.h6 as real / 67108864.0 * f * (1.0 + c.h3 as real / 67108864.0 * f);
    LevelForms(c, v, raw);
    InfluenceForms(c.h6, c.h3, v);
    Combined(a, w, c.h2 as real, c.h1 as real);
  }

  lemma Combined(a: real, w: real, h2: real, h1: real)
    ensures var x, u := a * (h2 / 65536.0 * w), a / 2.0 * (2097152.0 * w * h2 / 16384.0);
      x * (1.0 - h1 * x / 524288.0) * 1024.0 == (u - u / 32768.0 * (u / 32768.0) / 128.0 * h1 / 16.0) / 4096.0
  {
    var x, u := a * (h2 / 65536.0 * w), a / 2.0 * (2097152.0 * w * h2 / 16384.0);
    SameProduct(a, w, h2);
    Quadratic(x, h1);
  }

  lemma SameProduct(a: real, w: real, h2: real)
    ensures a / 2.0 * (2097152.0 * w * h2 / 16384.0) == 4194304.0 * (a * (h2 / 65536.0 * w))
  {
    var k := w * h2;
    assert 2097152.0 * w * h2 == 2097152.0 * k;
    assert h2 / 65536.0 * w == k / 65536.0;
    assert a / 2.0 * (128.0 * k) == 64.0 * (a * k);
    assert a * (k / 65536.0) == a * k / 65536.0;
  }

  lemma Quadratic(x: real, h1: real)
    ensures var u := 4194304.0 * x;
      x * (1.0 - h1 * x / 524288.0) * 1024.0 == (u - u / 32768.0 * (u / 32768.0) / 128.0 * h1 / 16.0) / 4096.0
  {
    var k := x * x;
    assert x * (1.0 - h1 * x / 524288.0) == x - h1 * k / 524288.0;
    assert (4194304.0 * x) / 32768.0 == 128.0 * x;
    assert 128.0 * x * (128.0 * x) == 16384.0 * k;
  }

  // ---------------------------------------------------------------- the errors of the stages

  /** The last term of the products below, over plain reals. */
  lemma DifferenceOfProducts(f: real, g: real, x: real, y: real)
    ensures f * g - x * y == (f - x) * g + x * (g - y)
  {
  }

  lemma DifferenceTimes(a: real, b: real, h: real)
    ensures (a - b) * h == a * h - b * h
  {
  }

  lemma CastProductOf(a: int, b: int)
    ensures (a * b) as real == a as real * b as real
  {
  }

  /** Rounding to the nearest costs at most one half. */
  lemma LevelError(c: Calibration, v: int, raw: nat)
    ensures -0.5 <= Level(c, v, raw) as real - ExactLevel(c, v, raw) <= 0.5
  {
    var n := Linear(c, v, raw) + 16384;
    assert (n / 0x8000 * 0x8000 + n % 0x8000) as real == n as real;
  }

  /** Both factors are floors; the bounds of one factor each way. */
  lemma ProductError(x: int, y: int, x': real, y': real, m: nat, n: nat)
    requires -1.0 <= x as real - x' <= 0.0 && -1.0 <= y as real - y' <= 0.0
    requires Abs(y) <= n && -(m as real) <= x' <= m as real
    ensures -(m + n) as real <= Times(x, y) as real - TimesReal(x', y') <= (m + n) as real
  {
    CastProductOf(x, y);
    ProductOfReals(x as real - x', y as real, 1.0, n as real);
    ProductOfReals(x', y as real - y', m as real, 1.0);
    DifferenceOfProducts(x as real, y as real, x', y');
  }

  lemma InfluenceError(p: int, q: int, m: nat, n: nat)
    requires Abs(p) <= 0x400 * m && Abs(q / 0x800 + 32768) <= n
    ensures var e := (m + n) as real / 1024.0 + 1.0; -e <= Influence(p, q) as real - ExactInfluence(p, q) <= e
  {
    FloorError(p, 0x400, 1024.0);
    FloorError(q, 0x800, 2048.0);
    ProductError(p / 0x400, q / 0x800 + 32768, p as real / 1024.0, q as real / 2048.0 + 32768.0, m, n);
    hide Times, TimesReal;
    FloorError(InfluenceProduct(p, q), 0x400, 1024.0);
  }

  /** The slope, from an influence with an error of at most `e`. */
  lemma SlopeError(i: int, x: real, h2: int, e: real)
    requires 0.0 <= e && -e <= i as real - x <= e
    ensures var h, d := Abs(h2) as real, TimesReal(e, Abs(h2) as real) / 16384.0 + 0.5;
      -d <= SlopeOf(i, h2) as real - ExactSlopeOf(x, h2) <= d
  {
    CastProductOf(i, h2);
    ProductOfReals(i as real - x, h2 as real, e, Abs(h2) as real);
    DifferenceTimes(i as real, x, h2 as real);
    RoundedQuotient(i * h2, x * h2 as real, TimesReal(e, Abs(h2) as real));
  }

  lemma RoundedQuotient(n: int, x: real, e: real)
    requires -e <= n as real - x <= e
    ensures -(e / 16384.0 + 0.5) <= ((n + 8192) / 0x4000) as real - x / 16384.0 <= e / 16384.0 + 0.5
  {
    var k := n + 8192;
    assert (k / 0x4000 * 0x4000 + k % 0x4000) as real == k as real;
  }

  /** The product of level and slope. */
  lemma UncorrectedError(a: int, b: int, x: real, y: real, m: nat, n: nat, d: real)
    requires Abs(a) <= m && -0.5 <= a as real - x <= 0.5
    requires -(n as real) <= y <= n as real && 0.0 <= d && -d <= b as real - y <= d
    ensures var e := TimesReal(m as real, d) + 0.5 * n as real; -e <= (a * b) as real - x * y <= e
  {
    CastProductOf(a, b);
    ProductOfReals(a as real, b as real - y, m as real, d);
    ProductOfReals(a as real - x, y, 0.5, n as real);
    Regrouped(a as real, b as real, x, y);
  }

  lemma Regrouped(f: real, g: real, x: real, y: real)
    ensures f * g - x * y == f * (g - y) + (f - x) * y
  {
  }

  /** The same for the stages: `m` bounds the level, `n` the exact slope and `d` the error of the slope. */
  lemma FirstStages(c: Calibration, v: int, raw: nat, m: nat, n: nat, d: real, e: real)
    requires Abs(Level(c, v, raw)) <= m && -(n as real) <= ExactSlope(c, v) <= n as real
    requires 0.0 <= d && -d <= Slope(c, v) as real - ExactSlope(c, v) <= d
    requires TimesReal(m as real, d) + 0.5 * n as real <= e
    ensures -e <= Uncorrected(c, v, raw) as real - ExactLevel(c, v, raw) * ExactSlope(c, v) <= e
  {
    hide Level, Slope, ExactLevel, ExactSlope, TimesReal;
    LevelError(c, v, raw);
    UncorrectedError(Level(c, v, raw), Slope(c, v), ExactLevel(c, v, raw), ExactSlope(c, v), m, n, d);
  }

  /** No int32 overflow of the square bounds what is squared. */
  lemma SquaredIsSmall(u: int)
    requires Fits32(Squared(u))
    ensures Abs(u / 0x8000) <= 46340 && Squared(u) >= 0
  {
    var g := u / 0x8000;
    RootOfInt32(g);
    NotNegative(Abs(g), Abs(g));
    assert g * g == Abs(g) * Abs(g);
  }

  /** The error that enters the last correction may be large; the correction squares what it gets. */
  const LARGEST := 46400000.0

  lemma SquaredError(u: int, e: real, d: real)
    requires Fits32(Squared(u)) && 0.0 <= d <= LARGEST && -d <= u as real - e <= d
    ensures var k := 94100.0 * (d / 32768.0 + 1.0); -k <= Squared(u) as real - ExactSquared(e) <= k
  {
    SquaredIsSmall(u);
    FloorError(u, 0x8000, 32768.0);
    DifferenceOfSquares(u / 0x8000, e / 32768.0, d / 32768.0 + 1.0);
  }

  lemma DifferenceOfSquares(g: int, x: real, k: real)
    requires Abs(g) <= 46340 && 0.0 <= k <= 1418.0 && -k <= g as real - x <= k
    ensures -(94100.0 * k) <= (g * g) as real - x * x <= 94100.0 * k
  {
    CastProductOf(g, g);
    ProductOfReals(g as real - x, g as real + x, k, 94100.0);
    Regrouped(g as real, g as real, x, x);
    DifferenceTimes(g as real, x, g as real);
    DifferenceTimes(g as real, x, x);
    assert (g as real - x) * (g as real + x) == (g as real - x) * g as real + (g as real - x) * x;
  }

  lemma WeightedError(n: int, y: real, h1: nat, m: real)
    requires h1 < 0x100 && 0.0 <= m && -m <= n as real - y <= m
    ensures var k := 255.0 * m / 16.0 + 1.0;
      -k <= (Times(n, h1) / 0x10) as real - TimesReal(y, h1 as real) / 16.0 <= k
  {
    CastProductOf(n, h1);
    ProductOfReals(n as real - y, h1 as real, m, 255.0);
    DifferenceTimes(n as real, y, h1 as real);
    hide Times, TimesReal;
    FloorError(Times(n, h1), 0x10, 16.0);
  }

  lemma CorrectedError(u: int, e: real, h1: nat, d: real)
    requires Fits32(Squared(u)) && 0.0 <= d <= LARGEST && -d <= u as real - e <= d && h1 < 0x100
    ensures var k := 1.3576 * d + 11750.0; -k <= (u - Correction(u, h1)) as real - ExactStages(e, h1) <= k
  {
    hide Squared, ExactSquared, Times, TimesReal;
    SquaredError(u, e, d);
    FloorError(Squared(u), 0x80, 128.0);
    WeightedError(Squared(u) / 0x80, ExactSquared(e) / 128.0, h1, 94100.0 * (d / 32768.0 + 1.0) / 128.0 + 1.0);
  }

  /** The last clamp and shift. */
  lemma ReducedError(n: int, e: real, k: real)
    requires 0.0 <= k && -k <= n as real - e <= k
    ensures var d := k / 4096.0 + 1.0;
      -d <= (Clamped(n, 0, FULL) / 0x1000) as real - ClampedReal(e / 4096.0, 0.0, 102400.0) <= d
  {
    var m := Clamped(n, 0, FULL);
    FloorError(m, 0x1000, 4096.0);
  }

  /** All stages after the product of level and slope, when that has an error of at most `d`. */
  lemma LastStages(c: Calibration, v: int, raw: nat, d: real)
    requires c.Typed() && HumidityFits(c, v, raw) && 0.0 <= d <= LARGEST
    requires -d <= Uncorrected(c, v, raw) as real - ExactLevel(c, v, raw) * ExactSlope(c, v) <= d
    ensures var k := (1.3576 * d + 11750.0) / 4096.0 + 1.0;
      -k <= HumidityOf(c, v, raw) as real - ClampedReal(ExactHumidity(c, v, raw), 0.0, 102400.0) <= k
  {
    hide Uncorrected, SlopeFits, Linear, ExactSlope, ExactLevel, ExactStages, ExactHumidity, Correction, Times, Squared;
    var u, e := Uncorrected(c, v, raw), ExactLevel(c, v, raw) * ExactSlope(c, v);
    CorrectedError(u, e, c.h1, d);
    ExactForms(c, v, raw);
    ReducedError(u - Correction(u, c.h1), ExactStages(e, c.h1), 1.3576 * d + 11750.0);
  }

  // ---------------------------------------------------------------- how exact the humidity is

  /** The largest distance of t_fine from 76800, if the temperature was computed without overflow. */
  const REACH := 1310720

  lemma FineIsInReach(c: Calibration, raw: nat)
    requires c.Typed() && TemperatureFits(c, raw)
    ensures Abs(Fine(c, raw) - 76800) <= REACH
  {
  }

  /** Whatever the calibration: level and slope are as small as int32 keeps them. */
  lemma StagesFit(c: Calibration, v: int, raw: nat)
    requires c.Typed() && HumidityFits(c, v, raw) && Abs(v) <= REACH
    ensures Abs(Level(c, v, raw)) <= 65536
    ensures Abs(v * c.h6) <= 0x400 * 163840 && Abs(v * c.h3 / 0x800 + 32768) <= 195968
    ensures Fits32(Influence(v * c.h6, v * c.h3) * c.h2)
  {
    hide Influence, Squared, Correction;
    Product(v, c.h6, REACH, 128);
    Product(v, c.h3, REACH, 255);
  }

  lemma AnySlopeError(c: Calibration, v: int, raw: nat)
    requires c.Typed() && HumidityFits(c, v, raw) && Abs(v) <= REACH
    ensures var d := 0.02152 * Abs(c.h2) as real + 0.5; -d <= Slope(c, v) as real - ExactSlope(c, v) <= d
    ensures -131800.0 <= ExactSlope(c, v) <= 131800.0
  {
    hide HumidityFits, Level, Influence, ExactInfluence, SlopeOf, ExactSlopeOf;
    StagesFit(c, v, raw);
    var p, q := v * c.h6, v * c.h3;
    InfluenceError(p, q, 163840, 195968);
    AnySlope(Influence(p, q), ExactInfluence(p, q), c.h2);
  }

  lemma AnySlope(i: int, x: real, h2: int)
    requires Fits32(i * h2) && IsS16(h2) && -352.4 <= i as real - x <= 352.4
    ensures var d := 0.02152 * Abs(h2) as real + 0.5; -d <= SlopeOf(i, h2) as real - ExactSlopeOf(x, h2) <= d
    ensures -131800.0 <= ExactSlopeOf(x, h2) <= 131800.0
  {
    hide SlopeOf, ExactSlopeOf;
    SlopeError(i, x, h2, 352.4);
    SlopeBound(i, x, h2);
  }

  lemma SlopeBound(i: int, x: real, h2: int)
    requires Fits32(i * h2) && IsS16(h2) && -352.4 <= i as real - x <= 352.4
    ensures -131800.0 <= ExactSlopeOf(x, h2) <= 131800.0
  {
    CastProductOf(i, h2);
    ProductOfReals(i as real - x, h2 as real, 352.4, 32768.0);
    DifferenceTimes(i as real, x, h2 as real);
    var t := x * h2 as real;
    assert -2159032320.0 <= t <= 2159032320.0;
  }

  /** For every calibration and reading whose int32 intermediates fit, the result is within 37 + 0.47 |h2| units of
      the exact formula under the same clamp. */
  lemma HumidityError(c: Calibration, v: int, raw: nat)
    requires c.Typed() && HumidityFits(c, v, raw) && Abs(v) <= REACH
    ensures var k := 37.0 + 0.47 * Abs(c.h2) as real;
      -k < HumidityOf(c, v, raw) as real - ClampedReal(ExactHumidity(c, v, raw), 0.0, 102400.0) < k
  {
    hide HumidityFits, HumidityOf, Uncorrected, Level, Slope, Influence, ExactLevel, ExactSlope, ExactHumidity;
    var h := Abs(c.h2) as real;
    StagesFit(c, v, raw);
    AnySlopeError(c, v, raw);
    FirstStages(c, v, raw, 65536, 131800, 0.02152 * h + 0.5, 98668.0 + 1410.4 * h);
    LastStages(c, v, raw, 98668.0 + 1410.4 * h);
  }

  // ---------------------------------------------------------------- mild calibrations

  /** A box of calibrations, for which the bound is sharper. */
  predicate Mild(c: Calibration) {
    Abs(c.h2) <= 512 && 0 <= c.h4 <= 1023 && Abs(c.h5) <= 512 && Abs(c.h6) <= 64 && c.h3 <= 63
  }

  /** Level and slope of a mild calibration, at a temperature that was not clamped. */
  lemma MildStages(c: Calibration, v: int, raw: nat)
    requires Mild(c) && Abs(v) <= SWING && raw < 0x1_0000
    ensures Fits32(c.h5 * v) && Fits32(Linear(c, v, raw)) && Fits32(Linear(c, v, raw) + 16384)
    ensures Abs(Level(c, v, raw)) <= 40960
    ensures Abs(v * c.h6) <= 0x400 * 32768 && Abs(v * c.h3) <= 63 * SWING && Abs(v * c.h3 / 0x800 + 32768) <= 48896
  {
    Product(c.h5, v, 512, SWING);
    Product(v, c.h6, SWING, 64);
    Product(v, c.h3, SWING, 63);
  }

  lemma MildInfluence(p: int, q: int)
    requires Abs(p) <= 0x400 * 32768 && Abs(q) <= 63 * SWING
    ensures Abs(InfluenceProduct(p, q)) <= 1602224128 && Abs(Influence(p, q)) <= 3661824
    ensures -3661824.0 <= ExactInfluence(p, q) <= 3661824.0
  {
    Product(p / 0x400, q / 0x800 + 32768, 32768, 48896);
    ProductOfReals(p as real / 1024.0, q as real / 2048.0 + 32768.0, 32768.0, 48896.0);
  }

  lemma MildSlopeFits(c: Calibration, v: int, raw: nat)
    requires Mild(c) && Abs(v) <= SWING && raw < 0x1_0000
    ensures SlopeFits(c, v * c.h6, v * c.h3)
  {
    hide Linear, Level, Influence, InfluenceProduct, ExactInfluence;
    MildStages(c, v, raw);
    MildInfluence(v * c.h6, v * c.h3);
    Product(Influence(v * c.h6, v * c.h3), c.h2, 3661824, 512);
  }

  lemma MildInfluenceError(c: Calibration, v: int, raw: nat)
    requires Mild(c) && Abs(v) <= SWING && raw < 0x1_0000
    ensures var i, x := Influence(v * c.h6, v * c.h3), ExactInfluence(v * c.h6, v * c.h3);
      -80.75 <= i as real - x <= 80.75 && -3661824.0 <= x <= 3661824.0
  {
    hide Linear, Level, Influence, InfluenceProduct, ExactInfluence;
    MildStages(c, v, raw);
    MildInfluence(v * c.h6, v * c.h3);
    InfluenceError(v * c.h6, v * c.h3, 32768, 48896);
  }

  lemma MildSlopeError(c: Calibration, v: int, raw: nat)
    requires Mild(c) && Abs(v) <= SWING && raw < 0x1_0000
    ensures -3.03 <= Slope(c, v) as real - ExactSlope(c, v) <= 3.03
    ensures -114432.0 <= ExactSlope(c, v) <= 114432.0
  {
    hide Influence, ExactInfluence, SlopeOf, ExactSlopeOf;
    MildInfluenceError(c, v, raw);
    MildSlope(Influence(v * c.h6, v * c.h3), ExactInfluence(v * c.h6, v * c.h3), c.h2);
  }

  lemma MildSlope(i: int, x: real, h2: int)
    requires Abs(h2) <= 512 && -3661824.0 <= x <= 3661824.0 && -80.75 <= i as real - x <= 80.75
    ensures -3.03 <= SlopeOf(i, h2) as real - ExactSlopeOf(x, h2) <= 3.03
    ensures -114432.0 <= ExactSlopeOf(x, h2) <= 114432.0
  {
    SlopeError(i, x, h2, 80.75);
    ProductOfReals(x, h2 as real, 3661824.0, 512.0);
  }

  /** For mild calibrations whose int32 intermediates fit, the result is within one sixteenth of a percent of the exact
      formula under the same clamp. */
  lemma MildHumidityError(c: Calibration, v: int, raw: nat)
    requires c.Typed() && Mild(c) && HumidityFits(c, v, raw) && Abs(v) <= SWING && raw < 0x1_0000
    ensures -64.0 < HumidityOf(c, v, raw) as real - ClampedReal(ExactHumidity(c, v, raw), 0.0, 102400.0) < 64.0
  {
    hide HumidityFits, HumidityOf, Uncorrected, Linear, Level, Slope, SlopeFits, ExactLevel, ExactSlope, ExactHumidity;
    MildStages(c, v, raw);
    MildSlopeError(c, v, raw);
    FirstStages(c, v, raw, 40960, 114432, 3.03, 181328.0);
    LastStages(c, v, raw, 181328.0);
  }

  /** The humidity before its last correction is at most 256 percent. */
  predicate InReach(c: Calibration, v: int, raw: nat) {
    Abs(Uncorrected(c, v, raw)) <= 0x4000_0000
  }

  /** Then nothing overflows. */
  lemma InReachFits(c: Calibration, v: int, raw: nat)
    requires c.Typed() && Mild(c) && Abs(v) <= SWING && raw < 0x1_0000 && InReach(c, v, raw)
    ensures HumidityFits(c, v, raw)
  {
    MildStages(c, v, raw);
    MildSlopeFits(c, v, raw);
    hide Slope, Level, SlopeFits, Uncorrected, Linear;
    CorrectionFits(Uncorrected(c, v, raw), c.h1);
  }

  lemma CorrectionFits(u: int, h1: nat)
    requires Abs(u) <= 0x4000_0000 && h1 < 0x100
    ensures Fits32(Squared(u)) && Fits32(Times(Squared(u) / 0x80, h1)) && Fits32(u - Correction(u, h1))
  {
    var g := u / 0x8000;
    Product(g, g, 32768, 32768);
    NotNegative(Abs(g), Abs(g));
    assert g * g == Abs(g) * Abs(g);
    hide Squared;
    Product(Squared(u) / 0x80, h1, 0x80_0000, 255);
    NotNegative(Squared(u) / 0x80, h1);
  }

  /** A box of calibrations and readings that are in reach at every temperature that was not clamped. */
  lemma TypicalHumidityInReach(c: Calibration, v: int, raw: nat)
    requires Abs(c.h2) <= 400 && 250 <= c.h4 <= 400 && Abs(c.h5) <= 100 && Abs(c.h6) <= 40 && c.h3 <= 15
    requires Abs(v) <= SWING && raw <= 43000
    ensures Mild(c) && InReach(c, v, raw)
  {
    Product(c.h5, v, 100, SWING);
    Product(v, c.h6, SWING, 40);
    Product(v, c.h3, SWING, 15);
    var p, q := v * c.h6, v * c.h3;
    Product(p / 0x400, q / 0x800 + 32768, 20480, 36608);
    Product(Influence(p, q), c.h2, 2829312, 400);
    Product(Level(c, v, raw), Slope(c, v), 15100, 69100);
  }
}
