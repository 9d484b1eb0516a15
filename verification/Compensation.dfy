/** The BME280 driver's arithmetic (bme280_sensor.c): the calibration record and the fixed-point compensation
    of temperature and pressure. A `>>` is a floor division; a C `/` truncates. */
module Compensation {
  import opened Common

  datatype Calibration = Calibration(
    t1: nat, t2: int, t3: int,
    p1: nat, p2: int, p3: int, p4: int, p5: int, p6: int, p7: int, p8: int, p9: int,
    h1: nat, h2: int, h3: nat, h4: int, h5: int, h6: int)
  {
    /** The widths of the record's fields. */
    predicate Typed() {
      && t1 < 0x1_0000 && p1 < 0x1_0000 && h1 < 0x100 && h3 < 0x100
      && IsS16(t2) && IsS16(t3) && IsS16(p2) && IsS16(p3) && IsS16(p4) && IsS16(p5) && IsS16(p6)
      && IsS16(p7) && IsS16(p8) && IsS16(p9) && IsS16(h2) && IsS16(h4) && IsS16(h5) && -128 <= h6 < 128
    }

    /** What read_calibration accepts. */
    predicate Accepted() {
      t1 != 0 && t1 != 0xFFFF && p1 != 0 && p1 != 0xFFFF
    }
  }

  predicate IsS16(v: int) { -0x8000 <= v < 0x8000 }

  predicate Fits32(v: int) { -0x8000_0000 <= v < 0x8000_0000 }

  predicate Fits64(v: int) { -0x8000_0000_0000_0000 <= v < 0x8000_0000_0000_0000 }

  function Clamped(v: int, low: int, high: int): int
    requires low <= high
  {
    if v < low then low else if v > high then high else v
  }

  function ClampedReal(v: real, low: real, high: real): real
    requires low <= high
  {
    if v < low then low else if v > high then high else v
  }

  function Abs(v: int): nat {
    if v < 0 then -v else v
  }

  /** C's division, which truncates toward zero. */
  function Truncated(a: int, b: int): int
    requires b != 0
  {
    if (a >= 0) == (b > 0) then Abs(a) / Abs(b) else -(Abs(a) / Abs(b))
  }

  // ---------------------------------------------------------------- the calibration registers

  /** get_u16_le. */
  function U16(b: seq<byte>): (v: nat)
    requires |b| == 2
    ensures v < 0x1_0000 && TwoBytes(v) == b
  {
    var v := b[0] as int + b[1] as int * 0x100;
    assert v / 0x100 == b[1] as int && v % 0x100 == b[0] as int;
    v
  }

  /** get_s16_le. */
  function S16(b: seq<byte>): (v: int)
    requires |b| == 2
    ensures IsS16(v) && TwoBytes(v) == b
  {
    var u := U16(b);
    var v := if u < 0x8000 then u else u - 0x1_0000;
    SameTwoBytes(v, u);
    v
  }

  lemma SameTwoBytes(v: int, u: nat)
    requires v == u || v == u - 0x1_0000
    ensures TwoBytes(v) == TwoBytes(u)
  {
    assert v % 0x1_0000 == u % 0x1_0000;
  }

  /** The little-endian two's complement form. */
  function TwoBytes(v: int): seq<byte> {
    var u := v % 0x1_0000;
    [LowByte(u), LowByte(u / 0x100)]
  }

  /** sign_extend_12: the 12-bit two's complement value. */
  function Extended12(v: nat): (r: int)
    requires v < 0x1000
    ensures -0x800 <= r < 0x800 && r % 0x1000 == v
  {
    if v < 0x800 then v else v - 0x1000
  }

  /** The registers hold the record: the temperature and pressure block `tp` and the humidity block `h`,
      where h4 and h5 share a byte. */
  predicate Holds(tp: seq<byte>, h: seq<byte>, c: Calibration)
    requires |tp| == 26 && |h| == 7
  {
    && tp[0..2] == TwoBytes(c.t1) && tp[2..4] == TwoBytes(c.t2) && tp[4..6] == TwoBytes(c.t3)
    && tp[6..8] == TwoBytes(c.p1) && tp[8..10] == TwoBytes(c.p2) && tp[10..12] == TwoBytes(c.p3)
    && tp[12..14] == TwoBytes(c.p4) && tp[14..16] == TwoBytes(c.p5) && tp[16..18] == TwoBytes(c.p6)
    && tp[18..20] == TwoBytes(c.p7) && tp[20..22] == TwoBytes(c.p8) && tp[22..24] == TwoBytes(c.p9)
    && tp[25] == c.h1
    && h[0..2] == TwoBytes(c.h2) && h[2] == c.h3 && SharesByte(h[3], h[4], h[5], c.h4, c.h5) && h[6] == c.h6 % 0x100
  }

  /** Two 12-bit fields in three bytes, the low halves in the middle one. */
  predicate SharesByte(high4: byte, shared: byte, high5: byte, h4: int, h5: int) {
    && -0x800 <= h4 < 0x800 && -0x800 <= h5 < 0x800
    && high4 == h4 % 0x1000 / 0x10 && high5 == h5 % 0x1000 / 0x10
    && shared == h4 % 0x10 + h5 % 0x10 * 0x10
  }

  /** A byte as a signed number. */
  function S8(b: byte): (v: int)
    ensures -0x80 <= v < 0x80 && v % 0x100 == b
  {
    if b < 0x80 then b else b as int - 0x100
  }

  lemma SharedByte(high4: byte, shared: byte, high5: byte)
    ensures SharesByte(high4, shared, high5,
                       Extended12(high4 as int * 0x10 + shared as int % 0x10),
                       Extended12(high5 as int * 0x10 + shared as int / 0x10))
  {
    hide Extended12;
    SharedHalf(high4, shared as int % 0x10);
    SharedHalf(high5, shared as int / 0x10);
  }

  lemma SharedHalf(high: byte, low: nat)
    requires low < 0x10
    ensures var v := Extended12(high as int * 0x10 + low); high == v % 0x1000 / 0x10 && low == v % 0x10
  {
    var v := Extended12(high as int * 0x10 + low);
    assert v % 0x1000 == high as int * 0x10 + low;
  }

  // ---------------------------------------------------------------- temperature

  /** The terms of compensate_temperature before they are shifted or multiplied further. */
  function First(c: Calibration, raw: nat): int { raw / 8 - c.t1 * 2 }

  function Second(c: Calibration, raw: nat): int { raw / 16 - c.t1 }

  /** No int32 intermediate overflows. */
  predicate TemperatureFits(c: Calibration, raw: nat) {
    var first, second := First(c, raw), Second(c, raw);
    && Fits32(first * c.t2)
    && Fits32(second * second)
    && Fits32(second * second / 0x1000 * c.t3)
  }

  /** t_fine. */
  function Fine(c: Calibration, raw: nat): int {
    var first, second := First(c, raw), Second(c, raw);
    first * c.t2 / 0x800 + second * second / 0x1000 * c.t3 / 0x4000
  }

  /** The formula of the data sheet in exact arithmetic, in hundredths of a degree. */
  function ExactTemperature(c: Calibration, raw: nat): real {
    var x := raw as real / 16384.0 - c.t1 as real / 1024.0;
    var y := raw as real / 131072.0 - c.t1 as real / 8192.0;
    (x * c.t2 as real + y * y * c.t3 as real) / 51.2
  }

  /** The same over a common denominator, 2^42. */
  function ExactNumerator(c: Calibration, raw: nat): int {
    var d := raw - 16 * c.t1;
    5 * (d * c.t2 * 0x10_0000 + d * d * c.t3)
  }

  lemma ExactIsARatio(c: Calibration, raw: nat)
    ensures ExactTemperature(c, raw) * 4398046511104.0 == ExactNumerator(c, raw) as real
  {
    var d := raw - 16 * c.t1;
    var e, t2, t3 := d as real, c.t2 as real, c.t3 as real;
    var x := raw as real / 16384.0 - c.t1 as real / 1024.0;
    var y := raw as real / 131072.0 - c.t1 as real / 8192.0;
    assert x == e / 16384.0 && y == e / 131072.0;
    assert x * t2 == e * t2 / 16384.0;
    assert y * y * t3 == e * e * t3 / 17179869184.0;
    assert (d * c.t2) as real == e * t2;
    assert (d * d) as real == e * e;
    assert (d * d * c.t3) as real == e * e * t3;
  }

  const UNIT := 0x4_0000_0000   // 2^34

  /** The floor of one shift and one product, against the exact first term. */
  lemma FirstTermError(raw: nat, t1: nat, t2: int, v: int)
    requires IsS16(t2) && v == (raw / 8 - t1 * 2) * t2 / 0x800
    ensures -14 * UNIT <= (raw - 16 * t1) * t2 * 0x10_0000 - v * UNIT < 15 * UNIT
  {
    var a, r := raw / 8 - t1 * 2, raw % 8;
    assert (8 * a + r) * t2 == 8 * (a * t2) + r * t2;
    assert -7 * 0x8000 <= r * t2 <= 7 * 0x8000 by { Product(r, t2, 7, 0x8000); }
  }

  lemma Product(a: int, b: int, m: nat, n: nat)
    requires -(m as int) <= a <= m && -(n as int) <= b <= n
    ensures -(m * n) <= a * b <= m * n
  {
    assert (m - a) * (n + b) >= 0 && (m + a) * (n - b) >= 0;
    assert (m - a) * (n - b) >= 0 && (m + a) * (n + b) >= 0;
  }

  lemma RootOfInt32(a: int)
    requires a * a < 0x8000_0000
    ensures -46340 <= a <= 46340
  {
    assert a > 46340 ==> (a - 46341) * (a + 46341) >= 0;
    assert a < -46340 ==> (-a - 46341) * (-a + 46341) >= 0;
  }

  /** The second term: the floor before squaring, and two more floors. */
  lemma SecondTermError(raw: nat, t1: nat, t3: int, v: int)
    requires IsS16(t3)
    requires var a := raw / 16 - t1; a * a < 0x8000_0000 && v == a * a / 0x1000 * t3 / 0x4000
    ensures -45 * UNIT <= (raw - 16 * t1) * (raw - 16 * t1) * t3 - v * UNIT <= 46 * UNIT
  {
    var a, r := raw / 16 - t1, raw % 16;
    var d := raw - 16 * t1;
    var q, s := a * a % 0x1000, a * a / 0x1000 * t3 % 0x4000;
    var m := 32 * (a * r) + r * r;
    RootOfInt32(a);
    Product(a, r, 46340, 15);
    Product(r, r, 15, 15);
    assert d * d == 256 * (a * a) + m by { assert d == 16 * a + r; Square(a, r); }
    var k := a * a / 0x1000;
    assert a * a == 0x1000 * k + q;
    assert d * d == 0x10_0000 * k + (256 * q + m);
    assert d * d * t3 == 0x10_0000 * (k * t3) + (256 * q + m) * t3 by { Distribute(0x10_0000, k, 256 * q + m, t3); }
    assert k * t3 == 0x4000 * v + s;
    Product(256 * q + m, t3, 23_291_745, 0x8000);
  }

  lemma Square(a: int, r: int)
    ensures (16 * a + r) * (16 * a + r) == 256 * (a * a) + (32 * (a * r) + r * r)
  {
  }

  lemma Distribute(n: int, k: int, m: int, t: int)
    ensures (n * k + m) * t == n * (k * t) + m * t
  {
  }

  lemma TemperatureError(c: Calibration, raw: nat)
    requires c.Typed() && TemperatureFits(c, raw)
    ensures Abs((Fine(c, raw) * 5 + 128) / 0x100 * 0x100 * UNIT - ExactNumerator(c, raw)) < 433 * UNIT
  {
    var first, second := First(c, raw), Second(c, raw);
    var v, v' := first * c.t2 / 0x800, second * second / 0x1000 * c.t3 / 0x4000;
    FirstTermError(raw, c.t1, c.t2, v);
    SecondTermError(raw, c.t1, c.t3, v');
    var d := raw - 16 * c.t1;
    AddErrors(v, v', d * c.t2 * 0x10_0000, d * d * c.t3);
  }

  lemma AddErrors(v: int, v': int, e: int, e': int)
    requires -14 * UNIT <= e - v * UNIT < 15 * UNIT && -45 * UNIT <= e' - v' * UNIT <= 46 * UNIT
    ensures Abs(((v + v') * 5 + 128) / 0x100 * 0x100 * UNIT - 5 * (e + e')) < 433 * UNIT
  {
  }

  /** Clamping brings two numbers no further apart. */
  lemma ClampingContracts(t: int, n: int, exact: real)
    requires Abs(t * 0x100 * UNIT - n) < 433 * UNIT && exact * 4398046511104.0 == n as real
    ensures -2.0 < Clamped(t, -4000, 8500) as real - ClampedReal(exact, -4000.0, 8500.0) < 2.0
  {
    assert (t * 0x100 * UNIT) as real == t as real * 4398046511104.0;
  }

  /** The reported temperature is not the result of clamping. */
  predicate Unclamped(fine: int) {
    -4000 <= (fine * 5 + 128) / 0x100 <= 8500
  }

  const SWING := 0x8_0000   // 2^19

  lemma UnclampedIsBounded(fine: int)
    requires Unclamped(fine)
    ensures Abs(fine - 128000) <= SWING
  {
  }

  /** A box of calibrations for which every 20-bit reading is free of overflow. */
  lemma TypicalTemperatureFits(c: Calibration, raw: nat)
    requires 27000 <= c.t1 <= 29000 && 0 <= c.t2 <= 27800 && -5000 <= c.t3 <= 5000 && raw < 0x10_0000
    ensures TemperatureFits(c, raw)
  {
    var first, second := First(c, raw), Second(c, raw);
    Product(first, c.t2, 77071, 27800);
    Product(second, second, 38535, 38535);
    Product(second * second / 0x1000, c.t3, 362535, 5000);
  }

  // ---------------------------------------------------------------- pressure

  /** The stages of compensate_pressure, where `v` is t_fine - 128000. */
  function Offset(c: Calibration, v: int): int {
    v * v * c.p6 + v * c.p5 * 131072 + c.p4 * 34359738368
  }

  function Sensitivity(c: Calibration, v: int): int {
    v * v * c.p3 / 0x100 + v * c.p2 * 4096
  }

  function Divisor(c: Calibration, v: int): int {
    (140737488355328 + Sensitivity(c, v)) * c.p1 / 0x2_0000_0000
  }

  function Dividend(c: Calibration, v: int, raw: nat): int {
    ((1048576 - raw) * 2147483648 - Offset(c, v)) * 3125
  }

  function SquareTerm(p9: int, q: int): int {
    p9 * (q / 0x2000) * (q / 0x2000) / 0x200_0000
  }

  function LinearTerm(p8: int, q: int): int {
    p8 * q / 0x8_0000
  }

  function Corrected(c: Calibration, q: int): int {
    (q + SquareTerm(c.p9, q) + LinearTerm(c.p8, q)) / 0x100 + c.p7 * 16
  }

  function Scaled(n: int): int {
    Truncated(Truncated(n, 2) * 100, 128)
  }

  /** The signed result before the final cast and clamp. */
  function PressureValue(c: Calibration, v: int, raw: nat): int
    requires Divisor(c, v) != 0
  {
    Scaled(Corrected(c, Truncated(Dividend(c, v, raw), Divisor(c, v))))
  }

  /** No int64 intermediate overflows before the division. */
  predicate DivisionFits(c: Calibration, v: int, raw: nat) {
    && Fits64(v * v) && Fits64(v * v * c.p6) && Fits64(v * c.p5 * 131072)
    && Fits64(v * v * c.p6 + v * c.p5 * 131072) && Fits64(Offset(c, v))
    && Fits64(v * v * c.p3) && Fits64(v * c.p2 * 4096) && Fits64(Sensitivity(c, v))
    && Fits64(140737488355328 + Sensitivity(c, v)) && Fits64((140737488355328 + Sensitivity(c, v)) * c.p1)
    && Fits64((1048576 - raw) * 2147483648) && Fits64((1048576 - raw) * 2147483648 - Offset(c, v))
    && Fits64(Dividend(c, v, raw))
  }

  /** Nor after it, when the quotient is `q`. */
  predicate CorrectionFits(c: Calibration, q: int) {
    var h := q / 0x2000;
    && Fits64(q) && Fits64(c.p9 * h) && Fits64(c.p9 * h * h) && Fits64(c.p8 * q)
    && Fits64(q + SquareTerm(c.p9, q)) && Fits64(q + SquareTerm(c.p9, q) + LinearTerm(c.p8, q))
    && Fits64(Corrected(c, q)) && Fits64(Truncated(Corrected(c, q), 2) * 100)
  }

  predicate PressureFits(c: Calibration, v: int, raw: nat) {
    && DivisionFits(c, v, raw)
    && (Divisor(c, v) != 0 ==> CorrectionFits(c, Truncated(Dividend(c, v, raw), Divisor(c, v))))
  }

  lemma SensitivityBound(c: Calibration, v: int)
    requires c.Typed() && Abs(v) <= SWING
    ensures Abs(Sensitivity(c, v)) <= 0x6000_0000_0000
  {
    Product(v, v, SWING, SWING);
    Product(v * v, c.p3, SWING * SWING, 0x8000);
    Product(v, c.p2, SWING, 0x8000);
  }

  /** Unless the temperature was clamped, the divisor is far from zero. */
  lemma DivisorIsLarge(c: Calibration, fine: int)
    requires c.Typed() && c.Accepted() && Unclamped(fine)
    ensures Divisor(c, fine - 128000) >= 4096
  {
    UnclampedIsBounded(fine);
    SensitivityBound(c, fine - 128000);
    ProductAtLeast(140737488355328 + Sensitivity(c, fine - 128000), c.p1, 0x2000_0000_0000, 1);
  }

  lemma ProductAtLeast(a: int, b: int, m: nat, n: nat)
    requires m <= a && n <= b
    ensures m * n <= a * b
  {
    assert (a - m) * b >= 0 && m * (b - n) >= 0;
  }

  /** A box of calibrations for which no pressure reading overflows, in any unclamped temperature. */
  predicate Moderate(c: Calibration) {
    30000 <= c.p1 <= 37449 && Abs(c.p4) <= 8192 && Abs(c.p5) <= 1024 && Abs(c.p6) <= 128
  }

  lemma OffsetFits(c: Calibration, v: int)
    requires Moderate(c) && Abs(v) <= SWING
    ensures Fits64(v * v) && Fits64(v * v * c.p6) && Fits64(v * c.p5 * 131072)
    ensures Fits64(v * v * c.p6 + v * c.p5 * 131072) && Abs(Offset(c, v)) <= 387_028_092_977_152
  {
    Product(v, v, SWING, SWING);
    Product(v * v, c.p6, SWING * SWING, 128);
    Product(v, c.p5, SWING, 1024);
  }

  lemma SensitivityFits(c: Calibration, v: int)
    requires c.Typed() && Moderate(c) && Abs(v) <= SWING
    ensures Fits64(v * v * c.p3) && Fits64(v * c.p2 * 4096)
    ensures Fits64((140737488355328 + Sensitivity(c, v)) * c.p1)
    ensures 122_880_000 <= Divisor(c, v) <= 1_073_800_000
  {
    Product(v, v, SWING, SWING);
    Product(v * v, c.p3, SWING * SWING, 0x8000);
    Product(v, c.p2, SWING, 0x8000);
    SensitivityBound(c, v);
    ProductAtLeast(140737488355328 + Sensitivity(c, v), c.p1, 0x2000_0000_0000, 30000);
    Product(140737488355328 + Sensitivity(c, v), c.p1, 0xE000_0000_0000, 37449);
  }

  lemma QuotientBound(a: int, b: int, m: nat, n: nat)
    requires Abs(a) <= m && 0 < n <= b
    ensures Abs(Truncated(a, b)) <= m / n
  {
    QuotientAtMost(Abs(a), b);
    ShrinkDivisor(Abs(a) / b, Abs(a) % b, b, n);
    DivideThrough(Abs(a) / b, m, n);
  }

  lemma ShrinkDivisor(q: nat, r: nat, b: nat, n: nat)
    requires n <= b
    ensures q * n <= q * b + r
  {
    assert q * (b - n) >= 0;
  }

  lemma DivideThrough(q: nat, m: nat, n: nat)
    requires 0 < n && q * n <= m
    ensures q <= m / n
  {
    var r := m / n;
    assert q >= r + 1 ==> (q - r - 1) * n >= 0;
  }

  lemma CorrectionIsSmall(c: Calibration, q: int)
    requires c.Typed() && Abs(q) <= 0x10_0000_0000
    ensures CorrectionFits(c, q) && Abs(Scaled(Corrected(c, q))) < 0x8000_0000
  {
    var h := q / 0x2000;
    Product(c.p9, h, 0x8000, 0x80_0000);
    Product(c.p9 * h, h, 0x40_0000_0000, 0x80_0000);
    Product(c.p8, q, 0x8000, 0x10_0000_0000);
  }

  /** The divisor is not small, and the uncorrected pressure at most 2^20 pascal either way. */
  ghost predicate Regular(c: Calibration, v: int, raw: nat) {
    122_880_000 <= Divisor(c, v) && Abs(Truncated(Dividend(c, v, raw), Divisor(c, v))) <= 0x10_0000_0000
  }

  /** It is so whenever the divisor is at least 2^27 and nothing overflows. */
  lemma LargeDivisorIsRegular(c: Calibration, v: int, raw: nat)
    requires DivisionFits(c, v, raw) && 0x800_0000 <= Divisor(c, v)
    ensures Regular(c, v, raw)
  {
    hide Divisor, Offset, Sensitivity, Truncated;
    assert Abs(Dividend(c, v, raw)) <= 0x8000_0000_0000_0000;
    QuotientBound(Dividend(c, v, raw), Divisor(c, v), 0x8000_0000_0000_0000, 0x800_0000);
  }

  lemma RegularPressureFits(c: Calibration, v: int, raw: nat)
    requires c.Typed() && DivisionFits(c, v, raw) && Regular(c, v, raw)
    ensures PressureFits(c, v, raw) && Abs(PressureValue(c, v, raw)) < 0x8000_0000
  {
    hide Divisor, Dividend, Corrected, CorrectionFits, DivisionFits, Truncated, Scaled;
    CorrectionIsSmall(c, Truncated(Dividend(c, v, raw), Divisor(c, v)));
  }

  lemma ModerateDivisionFits(c: Calibration, v: int, raw: nat)
    requires c.Typed() && Moderate(c) && Abs(v) <= SWING && raw < 0x10_0000
    ensures DivisionFits(c, v, raw)
  {
    OffsetFits(c, v);
    SensitivityBound(c, v);
    SensitivityFits(c, v);
    hide Offset, Sensitivity;
  }

  lemma ModeratePressureFits(c: Calibration, v: int, raw: nat)
    requires c.Typed() && Moderate(c) && Abs(v) <= SWING && raw < 0x10_0000
    ensures PressureFits(c, v, raw) && Regular(c, v, raw) && Abs(PressureValue(c, v, raw)) < 0x8000_0000
  {
    hide Divisor, DivisionFits, Truncated, PressureFits, PressureValue, Dividend, Moderate;
    ModerateDivisionFits(c, v, raw);
    SensitivityFits(c, v);
    DividendBound(c, v, raw);
    QuotientBound(Dividend(c, v, raw), Divisor(c, v), 8_247_000_000_000_000_000, 122_880_000);
    RegularPressureFits(c, v, raw);
  }

  // ---------------------------------------------------------------- how exact the pressure is

  /** The formula of the data sheet in exact arithmetic, in hundredths of a pascal: `x` is t_fine / 2 - 64000. */
  function ExactDivisor(c: Calibration, v: int): real {
    var x := v as real / 2.0;
    (1.0 + (c.p3 as real * x * x / 524288.0 + c.p2 as real * x) / 524288.0 / 32768.0) * c.p1 as real
  }

  function ExactDividend(c: Calibration, v: int, raw: nat): real {
    var x := v as real / 2.0;
    (1048576.0 - raw as real
     - ((x * x * c.p6 as real / 32768.0 + x * c.p5 as real * 2.0) / 4.0 + c.p4 as real * 65536.0) / 4096.0) * 6250.0
  }

  function ExactCorrected(c: Calibration, p: real): real {
    p + (c.p9 as real * p * p / 2147483648.0 + p * c.p8 as real / 32768.0 + c.p7 as real) / 16.0
  }

  function ExactPressure(c: Calibration, v: int, raw: nat): real
    requires ExactDivisor(c, v) != 0.0
  {
    ExactCorrected(c, ExactDividend(c, v, raw) / ExactDivisor(c, v)) * 100.0
  }

  /** The stages of compensate_pressure in exact arithmetic. */
  function StagedDivisor(c: Calibration, v: int): real {
    (140737488355328.0 + v as real * v as real * c.p3 as real / 256.0 + v as real * c.p2 as real * 4096.0)
    * c.p1 as real / 8589934592.0
  }

  function StagedSquareTerm(p9: int, q: real): real {
    p9 as real * (q / 8192.0) * (q / 8192.0) / 33554432.0
  }

  function StagedLinearTerm(p8: int, q: real): real {
    p8 as real * q / 524288.0
  }

  function StagedCorrected(c: Calibration, q: real): real {
    (q + StagedSquareTerm(c.p9, q) + StagedLinearTerm(c.p8, q)) / 256.0 + c.p7 as real * 16.0
  }

  function StagedPressure(c: Calibration, v: int, raw: nat): real
    requires StagedDivisor(c, v) != 0.0
  {
    StagedCorrected(c, Dividend(c, v, raw) as real / StagedDivisor(c, v)) * 100.0 / 256.0
  }

  lemma DivisorForms(c: Calibration, v: int)
    ensures StagedDivisor(c, v) == 16384.0 * ExactDivisor(c, v)
  {
    var x, p2, p3 := v as real / 2.0, c.p2 as real, c.p3 as real;
    var square, linear := p3 * x * x, p2 * x;
    assert v as real * v as real * p3 == 4.0 * square && v as real * p2 == 2.0 * linear;
    var sum := 1.0 + (square / 524288.0 + linear) / 524288.0 / 32768.0;
    assert 140737488355328.0 + 4.0 * square / 256.0 + 2.0 * linear * 4096.0 == 140737488355328.0 * sum;
    Rescaled(sum, c.p1 as real);
  }

  lemma Rescaled(sum: real, p1: real)
    ensures 140737488355328.0 * sum * p1 / 8589934592.0 == 16384.0 * (sum * p1)
  {
  }

  lemma DividendForms(c: Calibration, v: int, raw: nat)
    ensures Dividend(c, v, raw) as real == 1073741824.0 * ExactDividend(c, v, raw)
  {
    var x, p5, p6 := v as real / 2.0, c.p5 as real, c.p6 as real;
    var square, linear := x * x * p6, x * p5;
    assert (v * v * c.p6) as real == 4.0 * square by { CastProducts(v, c.p6); }
    assert (v * c.p5) as real == 2.0 * linear;
    assert Offset(c, v) as real == 4.0 * square + 2.0 * linear * 131072.0 + c.p4 as real * 34359738368.0;
  }

  lemma CastProducts(v: int, p: int)
    ensures var x := v as real / 2.0; (v * v * p) as real == 4.0 * (x * x * p as real)
  {
    assert (v * v * p) as real == v as real * v as real * p as real;
  }

  lemma CorrectedForms(c: Calibration, p: real)
    ensures StagedCorrected(c, 65536.0 * p) == 256.0 * ExactCorrected(c, p)
  {
    var square, linear := c.p9 as real * p * p, p * c.p8 as real;
    assert StagedSquareTerm(c.p9, 65536.0 * p) == 64.0 * square / 33554432.0;
    assert StagedLinearTerm(c.p8, 65536.0 * p) == linear / 8.0;
  }

  lemma QuotientForms(n: real, d: real)
    requires d != 0.0
    ensures 1073741824.0 * n / (16384.0 * d) == 65536.0 * (n / d)
  {
    var q := n / d;
    assert n == q * d;
    assert 1073741824.0 * n == 65536.0 * q * (16384.0 * d);
  }

  /** Staged, the formula is the same. */
  lemma PressureForms(c: Calibration, v: int, raw: nat)
    requires ExactDivisor(c, v) != 0.0
    ensures StagedDivisor(c, v) != 0.0 && StagedPressure(c, v, raw) == ExactPressure(c, v, raw)
  {
    hide ExactDivisor, ExactDividend, ExactCorrected, StagedDivisor, StagedCorrected, Dividend;
    DivisorForms(c, v);
    DividendForms(c, v, raw);
    QuotientForms(ExactDividend(c, v, raw), ExactDivisor(c, v));
    CorrectedForms(c, ExactDividend(c, v, raw) / ExactDivisor(c, v));
  }

  const SCALE := 0x200_0000_0000   // 2^41

  /** The exact divisor over the common denominator 2^41. */
  function DivisorNumerator(c: Calibration, v: int): int {
    (36028797018963968 + v * v * c.p3 + v * c.p2 * 1048576) * c.p1
  }

  lemma DivisorIsARatio(c: Calibration, v: int)
    ensures StagedDivisor(c, v) * 2199023255552.0 == DivisorNumerator(c, v) as real
  {
    var r := v as real;
    assert (v * v * c.p3) as real == r * r * c.p3 as real;
    assert (v * c.p2 * 1048576) as real == r * c.p2 as real * 1048576.0;
    var sum := 36028797018963968 + v * v * c.p3 + v * c.p2 * 1048576;
    assert (sum * c.p1) as real == sum as real * c.p1 as real;
  }

  /** Two floors in the divisor. */
  lemma DivisorError(c: Calibration, v: int)
    requires c.Typed()
    ensures 0 <= DivisorNumerator(c, v) - Divisor(c, v) * SCALE < SCALE + 0x100_0000
  {
    var square, linear := v * v * c.p3, v * c.p2;
    var whole, part := square / 0x100, square % 0x100;
    FlooredProduct(140737488355328 + whole + linear * 4096, part, c.p1);
  }

  lemma FlooredProduct(a: int, part: nat, p: nat)
    requires part < 0x100 && p < 0x1_0000
    ensures 0 <= (0x100 * a + part) * p - a * p / 0x2_0000_0000 * SCALE < SCALE + 0x100_0000
  {
    var m := part * p;
    Distribute(0x100, a, part, p);
    assert 0 <= m <= 0xFF * 0xFFFF by { Product(part, p, 0xFF, 0xFFFF); ProductAtLeast(part, p, 0, 0); }
    FlooredSum(a * p, m);
  }

  lemma FlooredSum(n: int, m: nat)
    requires m <= 0xFF * 0xFFFF
    ensures 0 <= 0x100 * n + m - n / 0x2_0000_0000 * SCALE < SCALE + 0x100_0000
  {
  }

  /** The quotient, for a divisor `d` with an error of about one and a quotient of at most 2^36. */
  lemma QuotientError(n: int, d: int, e: int)
    requires 122_880_000 <= d && Abs(Truncated(n, d)) <= 0x10_0000_0000 && 0 <= e - d * SCALE < SCALE + 0x100_0000
    ensures Abs(Truncated(n, d) * e - n * SCALE) <= 561 * e
  {
    hide Abs, Truncated;
    var q, gap := Truncated(n, d), e - d * SCALE;
    TruncationError(n, d);
    GapTimes(q, gap);
    Expand(q, d, gap, n);
    QuotientErrorSum(q * gap, q * d - n, d, e);
  }

  lemma GapTimes(q: int, gap: int)
    requires Abs(q) <= 0x10_0000_0000 && 0 <= gap < SCALE + 0x100_0000
    ensures Abs(q * gap) <= 0x10_0000_0000 * (SCALE + 0x100_0000)
  {
    Product(q, gap, 0x10_0000_0000, SCALE + 0x100_0000);
  }

  lemma QuotientErrorSum(a: int, rest: int, d: int, e: int)
    requires 122_880_000 <= d && d * SCALE <= e
    requires Abs(a) <= 0x10_0000_0000 * (SCALE + 0x100_0000) && Abs(rest) < d
    ensures Abs(a + rest * SCALE) <= 561 * e
  {
  }

  lemma Expand(q: int, d: int, gap: int, n: int)
    ensures q * (d * SCALE + gap) - n * SCALE == q * gap + (q * d - n) * SCALE
  {
    assert q * (d * SCALE) == q * d * SCALE;
  }

  lemma TruncationError(n: int, d: int)
    requires 0 < d
    ensures Abs(Truncated(n, d) * d - n) < d
  {
    var q := Abs(n) / d;
    assert q * d + Abs(n) % d == Abs(n);
    assert (-q) * d == -(q * d);
  }

  lemma RatioError(q: int, n: int, e: int, x: real)
    requires 0 < e && Abs(q * e - n * SCALE) <= 561 * e && x * e as real == n as real * 2199023255552.0
    ensures -561.0 <= q as real - x <= 561.0
  {
    var gap, r := q as real - x, e as real;
    assert (q * e) as real == q as real * r;
    assert (n * SCALE) as real == n as real * 2199023255552.0;
    assert gap * r == (q * e - n * SCALE) as real;
    assert gap > 561.0 ==> (gap - 561.0) * r > 0.0;
    assert gap < -561.0 ==> (gap + 561.0) * r < 0.0;
  }

  lemma ProductOfReals(a: real, b: real, m: real, n: real)
    requires -m <= a <= m && -n <= b <= n
    ensures -(m * n) <= a * b <= m * n
  {
    assert (m - a) * (n + b) >= 0.0 && (m + a) * (n - b) >= 0.0;
    assert (m - a) * (n - b) >= 0.0 && (m + a) * (n + b) >= 0.0;
  }

  lemma CoarseQuotient(q: int, x: real)
    requires Abs(q) <= 0x10_0000_0000 && -561.0 <= q as real - x <= 561.0
    ensures Abs(q / 0x2000) <= 8388608 && -1.0685 <= (q / 0x2000) as real - x / 8192.0 <= 1.0685
  {
    FloorError(q, 0x2000, 8192.0);
  }

  /** The squared term: flooring the quotient first costs most. */
  lemma SquareError(p9: int, q: int, x: real)
    requires IsS16(p9) && Abs(q) <= 0x10_0000_0000 && -561.0 <= q as real - x <= 561.0
    ensures -17508.0 <= SquareTerm(p9, q) as real - StagedSquareTerm(p9, x) <= 17508.0
  {
    var h := q / 0x2000;
    CastProduct(p9, h);
    CoarseQuotient(q, x);
    RealSquareError(p9 as real, h as real, x / 8192.0);
    FlooredError(p9 * h * h, p9 as real * (x / 8192.0) * (x / 8192.0));
  }

  lemma CastProduct(p: int, h: int)
    ensures (p * h * h) as real == p as real * h as real * h as real
  {
  }

  lemma RealSquareError(p: real, g: real, y: real)
    requires -32768.0 <= p <= 32768.0 && -1.0685 <= g - y <= 1.0685 && -8388608.0 <= g <= 8388608.0
    ensures -587415552000.0 <= p * g * g - p * y * y <= 587415552000.0
  {
    SquaresDiffer(g, y);
    ProductOfReals(p, g * g - y * y, 32768.0, 17926500.0);
    Spread(p, g, y);
  }

  lemma FlooredError(n: int, exact: real)
    requires -587415552000.0 <= n as real - exact <= 587415552000.0
    ensures -17508.0 <= (n / 0x200_0000) as real - exact / 33554432.0 <= 17508.0
  {
    FloorError(n, 0x200_0000, 33554432.0);
  }

  lemma SquaresDiffer(g: real, y: real)
    requires -1.0685 <= g - y <= 1.0685 && -8388608.0 <= g <= 8388608.0
    ensures -17926500.0 <= g * g - y * y <= 17926500.0
  {
    ProductOfReals(g - y, g + y, 1.0685, 16777218.0);
    assert (g - y) * (g + y) == g * g - y * y;
  }

  lemma Spread(p: real, g: real, y: real)
    ensures p * (g * g - y * y) == p * g * g - p * y * y
  {
  }

  lemma FloorError(n: int, d: nat, divisor: real)
    requires 0 < d && divisor == d as real
    ensures -1.0 <= (n / d) as real - n as real / divisor <= 0.0
  {
    var q, r := n / d, n % d;
    assert n == q * d + r;
    assert (q * d) as real == q as real * divisor;
    assert n as real / divisor == q as real + r as real / divisor;
    assert 0.0 <= r as real / divisor <= 1.0;
  }

  lemma LinearError(p8: int, q: int, x: real)
    requires IsS16(p8) && -561.0 <= q as real - x <= 561.0
    ensures -37.0 <= LinearTerm(p8, q) as real - StagedLinearTerm(p8, x) <= 36.0
  {
    var p := p8 as real;
    ProductOfReals(p, q as real - x, 32768.0, 561.0);
    assert p * (q as real - x) == p * q as real - p * x;
    assert (p8 * q) as real == p * q as real;
    FloorError(p8 * q, 0x8_0000, 524288.0);
  }

  lemma CorrectionError(c: Calibration, q: int, x: real)
    requires c.Typed() && Abs(q) <= 0x10_0000_0000 && -561.0 <= q as real - x <= 561.0
    ensures -72.0 < Corrected(c, q) as real - StagedCorrected(c, x) < 72.0
  {
    hide SquareTerm, LinearTerm, StagedSquareTerm, StagedLinearTerm;
    SquareError(c.p9, q, x);
    LinearError(c.p8, q, x);
    SumError(q, SquareTerm(c.p9, q), LinearTerm(c.p8, q), c.p7, x, StagedSquareTerm(c.p9, x), StagedLinearTerm(c.p8, x));
  }

  lemma SumError(q: int, a: int, b: int, p7: int, x: real, y: real, z: real)
    requires -561.0 <= q as real - x <= 561.0 && -17508.0 <= a as real - y <= 17508.0 && -37.0 <= b as real - z <= 36.0
    ensures -72.0 < ((q + a + b) / 0x100 + p7 * 16) as real - ((x + y + z) / 256.0 + p7 as real * 16.0) < 72.0
  {
    var n := q + a + b;
    assert (n / 0x100 * 0x100 + n % 0x100) as real == n as real;
  }

  lemma ScalingError(n: int)
    ensures -1.4 < Scaled(n) as real - n as real * 100.0 / 256.0 < 1.4
  {
  }

  lemma DividendBound(c: Calibration, v: int, raw: nat)
    requires Moderate(c) && Abs(v) <= SWING && raw < 0x10_0000
    ensures Abs(Dividend(c, v, raw)) <= 8_247_000_000_000_000_000
  {
    OffsetFits(c, v);
    hide Offset;
  }

  lemma FinalError(c: Calibration, q: int, x: real)
    requires c.Typed() && Abs(q) <= 0x10_0000_0000 && -561.0 <= q as real - x <= 561.0
    ensures -30.0 < Scaled(Corrected(c, q)) as real - StagedCorrected(c, x) * 100.0 / 256.0 < 30.0
  {
    CorrectionError(c, q, x);
    ScalingError(Corrected(c, q));
    hide Corrected, StagedCorrected, Scaled;
  }

  /** For every calibration and reading of a regular pressure the integer result is within 0.3 pascal of the exact
      formula. */
  lemma PressureError(c: Calibration, v: int, raw: nat)
    requires c.Typed() && Regular(c, v, raw)
    ensures ExactDivisor(c, v) > 0.0
    ensures -30.0 < PressureValue(c, v, raw) as real - ExactPressure(c, v, raw) < 30.0
  {
    hide Dividend, Corrected, StagedCorrected, Scaled, DivisorNumerator, StagedDivisor, ExactDivisor, ExactPressure, Divisor,
      Truncated;
    var n, d, e := Dividend(c, v, raw), Divisor(c, v), DivisorNumerator(c, v);
    DivisorError(c, v);
    DivisorIsARatio(c, v);
    QuotientError(n, d, e);
    ExactQuotient(n, StagedDivisor(c, v), e);
    RatioError(Truncated(n, d), n, e, n as real / StagedDivisor(c, v));
    DivisorForms(c, v);
    PressureForms(c, v, raw);
    FinalError(c, Truncated(n, d), n as real / StagedDivisor(c, v));
  }

  lemma ExactQuotient(n: int, d: real, e: int)
    requires 0 < e && d * 2199023255552.0 == e as real
    ensures d > 0.0 && n as real / d * e as real == n as real * 2199023255552.0
  {
    var x := n as real / d;
    assert x * d == n as real;
    assert x * (d * 2199023255552.0) == x * d * 2199023255552.0;
  }

  // ---------------------------------------------------------------- the reported pressure

  const PRESSURE_MIN := 3000000
  const PRESSURE_MAX := 11000000

  /** The cast to uint32 comes before the clamp. */
  function Reported(value: int): int {
    Clamped(value % 0x1_0000_0000, PRESSURE_MIN, PRESSURE_MAX)
  }

  /** The reported pressure is the computed one brought into range exactly when the cast changed nothing, or the
      remainder it left happens to be brought to the same end of the range. */
  lemma ReportedIsClampedExactlyWhen(value: int)
    ensures Reported(value) == Clamped(value, PRESSURE_MIN, PRESSURE_MAX)
       <==> if value < 0 then value % 0x1_0000_0000 <= PRESSURE_MIN
            else value < 0x1_0000_0000 || value % 0x1_0000_0000 >= PRESSURE_MAX
  {
  }

  /** With a regular pressure it is so exactly when the computed pressure is not negative; a negative one is reported as
      the highest. */
  lemma RegularIsClampedExactlyWhen(c: Calibration, v: int, raw: nat)
    requires c.Typed() && DivisionFits(c, v, raw) && Regular(c, v, raw)
    ensures var value := PressureValue(c, v, raw);
      && (Reported(value) == Clamped(value, PRESSURE_MIN, PRESSURE_MAX) <==> value >= 0)
      && (value < 0 ==> Reported(value) == PRESSURE_MAX)
  {
    hide Divisor, Dividend, Truncated, PressureValue, PressureFits, DivisionFits, Reported;
    RegularPressureFits(c, v, raw);
    SmallIsClampedExactlyWhen(PressureValue(c, v, raw));
  }

  lemma SmallIsClampedExactlyWhen(value: int)
    requires Abs(value) < 0x8000_0000
    ensures Reported(value) == Clamped(value, PRESSURE_MIN, PRESSURE_MAX) <==> value >= 0
    ensures value < 0 ==> Reported(value) == PRESSURE_MAX
  {
    ReportedIsClampedExactlyWhen(value);
  }

  /** Unless it is negative, the reported pressure is within 0.3 pascal of the exact formula under the same clamp. */
  lemma ReportedError(c: Calibration, v: int, raw: nat)
    requires c.Typed() && DivisionFits(c, v, raw) && Regular(c, v, raw) && PressureValue(c, v, raw) >= 0
    ensures ExactDivisor(c, v) > 0.0
    ensures -30.0 < Reported(PressureValue(c, v, raw)) as real - ClampedReal(ExactPressure(c, v, raw), 3000000.0, 11000000.0)
            < 30.0
  {
    hide Divisor, Dividend, Truncated, ExactDivisor, PressureValue, ExactPressure, PressureFits, DivisionFits;
    PressureError(c, v, raw);
    RegularIsClampedExactlyWhen(c, v, raw);
    hide Reported;
  }

  lemma TermsBound(p8: int, p9: int, q: nat)
    requires IsS16(p8) && 0 <= p9
    ensures SquareTerm(p9, q) >= 0 && 16 * LinearTerm(p8, q) + q + 16 >= 0
  {
    ProductAtLeast(p9, q / 0x2000, 0, 0);
    ProductAtLeast(p9 * (q / 0x2000), q / 0x2000, 0, 0);
    ProductAtLeast(p8 + 0x8000, q, 0, 0);
  }

  lemma PositiveQuotient(n: int, d: int)
    requires n >= 190_000_000_000_000_000 && 0 < d <= 1_073_800_000
    ensures Truncated(n, d) >= 170_000_000
  {
    var q, r := n / d, n % d;
    Divided(n, d);
    assert q < 170_000_000 ==> (170_000_000 - 1 - q) * d >= 0;
  }

  /** A box of moderate calibrations and of readings in which the pressure is regular and not negative. */
  lemma TypicalPressureIsNotNegative(c: Calibration, v: int, raw: nat)
    requires c.Typed() && Moderate(c) && 0 <= c.p9 && Abs(v) <= SWING && raw <= 840_000
    ensures Regular(c, v, raw) && PressureValue(c, v, raw) >= 0
  {
    hide Divisor, Offset, Sensitivity, Truncated, SquareTerm, LinearTerm, PressureFits;
    ModeratePressureFits(c, v, raw);
    OffsetFits(c, v);
    SensitivityFits(c, v);
    PositiveQuotient(Dividend(c, v, raw), Divisor(c, v));
    var q := Truncated(Dividend(c, v, raw), Divisor(c, v));
    TermsBound(c.p8, c.p9, q);
    assert Corrected(c, q) >= 0;
    ScaledIsNotNegative(Corrected(c, q));
  }

  lemma ScaledIsNotNegative(n: nat)
    ensures Scaled(n) >= 0
  {
  }

  /** So in that box the reported pressure is exact to 0.3 pascal at every temperature that was not clamped. */
  lemma TypicalPressureError(c: Calibration, fine: int, raw: nat)
    requires c.Typed() && Moderate(c) && 0 <= c.p9 && Unclamped(fine) && raw <= 840_000
    ensures var v := fine - 128000;
      && Divisor(c, v) > 0 && ExactDivisor(c, v) > 0.0
      && -30.0 < Reported(PressureValue(c, v, raw)) as real - ClampedReal(ExactPressure(c, v, raw), 3000000.0, 11000000.0)
         < 30.0
  {
    hide Moderate, DivisionFits, Divisor, Dividend, Truncated, ExactDivisor, PressureValue, ExactPressure, Reported;
    UnclampedIsBounded(fine);
    ModerateDivisionFits(c, fine - 128000, raw);
    TypicalPressureIsNotNegative(c, fine - 128000, raw);
    ReportedError(c, fine - 128000, raw);
  }

  /** The calibration printed as an example in the data sheet. */
  const EXAMPLE := Calibration(27504, 26435, -1000, 36477, -10685, 3024, 2855, 140, -7, 15500, -14600, 6000,
                               0, 0, 0, 0, 0, 0)

  /** With it, a reading at the end of the range comes out as the highest pressure instead of the lowest. */
  lemma LowReadingReportsHighest()
    ensures EXAMPLE.Typed() && EXAMPLE.Accepted() && Moderate(EXAMPLE)
    ensures Fine(EXAMPLE, 519888) == 128422 && Unclamped(128422)
    ensures Divisor(EXAMPLE, 422) != 0
    ensures PressureValue(EXAMPLE, 422, 0xFFFFF) < 0 && Reported(PressureValue(EXAMPLE, 422, 0xFFFFF)) == PRESSURE_MAX
  {
    assert First(EXAMPLE, 519888) == 9978 && Second(EXAMPLE, 519888) == 4989;
    assert Offset(EXAMPLE, 422) == 98104795527812;
    assert Sensitivity(EXAMPLE, 422) == -18467047103;
    assert Divisor(EXAMPLE, 422) == 597560748;
    assert Dividend(EXAMPLE, 422, 0xFFFFF) == -306570775138012500;
    hide Divisor, Dividend;
    assert Truncated(-306570775138012500, 597560748) == -513037002;
    assert Corrected(EXAMPLE, -513037002) == -1697504;
  }

  /** Accepted calibrations whose pressures do not fit 32 bits although nothing overflows. */
  predicate Steep(c: Calibration) {
    && c.Typed() && c.Accepted() && c.p1 == 1 && 0 <= c.p4 <= 512
    && c.p2 == 0 && c.p3 == 0 && c.p5 == 0 && c.p6 == 0 && c.p7 == 0 && c.p8 == 0 && c.p9 == 0
  }

  lemma SteepDivision(c: Calibration, v: int, raw: nat)
    requires Steep(c) && v == 422 && raw < 0x10_0000
    ensures DivisionFits(c, v, raw) && Divisor(c, v) == 16384
    ensures Dividend(c, v, raw) == ((1048576 - raw) * 2147483648 - c.p4 * 34359738368) * 3125
  {
    assert v * v == 178084 && v * v * c.p6 == 0 && v * v * c.p3 == 0;
    assert v * c.p5 == 0 && v * c.p2 == 0;
    assert Sensitivity(c, v) == 0 && Offset(c, v) == c.p4 * 34359738368;
  }

  lemma SteepCorrection(c: Calibration, q: int)
    requires Steep(c) && Fits64(100 * q)
    ensures CorrectionFits(c, q) && Corrected(c, q) == q / 0x100
  {
    assert c.p9 * (q / 0x2000) == 0 && c.p9 * (q / 0x2000) * (q / 0x2000) == 0 && c.p8 * q == 0;
    assert SquareTerm(c.p9, q) == 0 && LinearTerm(c.p8, q) == 0;
  }

  /** With one of them a negative pressure is reported as one in the middle of the range. */
  lemma NegativeReadsAsPlausible(c: Calibration)
    requires Steep(c) && c.p4 == 512
    ensures Unclamped(128422) && PressureFits(c, 422, 1047244) && Divisor(c, 422) != 0
    ensures PressureValue(c, 422, 1047244) == -4287500000 && Reported(-4287500000) == 7467296
  {
    SteepDivision(c, 422, 1047244);
    SteepCorrection(c, -2809856000000);
    assert Truncated(-46036680704000000, 16384) == -2809856000000;
    hide Divisor, Dividend, Corrected, DivisionFits, CorrectionFits, Truncated, Scaled;
    ScaledSteep();
  }

  lemma ScaledSteep()
    ensures Scaled(-10976000000) == -4287500000 && Scaled(637721600000) == 249110000000
  {
  }

  /** With another a pressure far above the range is reported as the lowest one. */
  lemma HighReadsAsLowest(c: Calibration)
    requires Steep(c) && c.p4 == 0
    ensures Unclamped(128422) && PressureFits(c, 422, 650000) && Divisor(c, 422) != 0
    ensures PressureValue(c, 422, 650000) == 249110000000 && Reported(249110000000) == PRESSURE_MIN
  {
    SteepDivision(c, 422, 650000);
    SteepCorrection(c, 163256729600000);
    assert Truncated(2674798257766400000, 16384) == 163256729600000;
    hide Divisor, Dividend, Corrected, DivisionFits, CorrectionFits, Truncated, Scaled;
    ScaledSteep();
  }

  /** There are such calibrations, and they reach that t_fine. */
  lemma SteepExists(p4: int) returns (c: Calibration)
    requires 0 <= p4 <= 512
    ensures Steep(c) && c.p4 == p4 && Fine(c, 519888) == 128422
  {
    c := Calibration(27504, 26435, -1000, 1, 0, 0, p4, 0, 0, 0, 0, 0, 0, 0, 0, 0, 0, 0);
    assert First(c, 519888) == 9978 && Second(c, 519888) == 4989;
  }

  /** The guard against a zero divisor is needed: a temperature out of range can meet it. */
  lemma ZeroDivisorWhenClamped()
    ensures var c := EXAMPLE.(p1 := 1, p2 := -32768, p3 := 0);
      c.Typed() && c.Accepted() && !Unclamped(0x10_0000 + 128000) && Divisor(c, 0x10_0000) == 0
  {
  }
}
