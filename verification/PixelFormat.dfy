/** Pixel formats, pixel conversion and the wire form of pixels (app_vnc_server.c). */
module PixelFormat {
  import opened Common
  import opened Bits
  import opened Capture

  datatype Format = Format(
    bitsPerPixel: byte,
    depth: byte,
    bigEndian: bool,
    trueColour: byte,
    redMax: nat, greenMax: nat, blueMax: nat,
    redShift: byte, greenShift: byte, blueShift: byte)
  {
    /** The maxima are unsigned 16-bit. */
    predicate Typed() {
      redMax < 0x1_0000 && greenMax < 0x1_0000 && blueMax < 0x1_0000
    }

    function Bytes(): nat {
      bitsPerPixel / 8
    }

    function RedMask(): nat { Shl(redMax, redShift) }

    function GreenMask(): nat { Shl(greenMax, greenShift) }

    function BlueMask(): nat { Shl(blueMax, blueShift) }
  }

  const UINT32_MAX := 0xFFFF_FFFF

  /** RFB_Default_Pixel_Format. */
  const DEFAULT_FORMAT := Format(16, 16, false, 1, 31, 63, 31, 11, 5, 0)

  /** RFB_Pixel_Format_Valid. */
  predicate Supported(f: Format) {
    var bits := f.bitsPerPixel;
    && (bits == 8 || bits == 16 || bits == 32)
    && f.depth != 0 && f.depth <= bits
    && f.trueColour != 0
    && f.redMax != 0 && f.greenMax != 0 && f.blueMax != 0
    && f.redShift < bits && f.greenShift < bits && f.blueShift < bits
    && f.redMax <= Shr(UINT32_MAX, f.redShift)
    && f.greenMax <= Shr(UINT32_MAX, f.greenShift)
    && f.blueMax <= Shr(UINT32_MAX, f.blueShift)
    && (bits < 32 ==> Or(Or(f.RedMask(), f.GreenMask()), f.BlueMask()) <= Pow2(bits) - 1)
  }

  /** A channel value 0..range rescaled to 0..max, rounding to nearest. */
  function Scale(v: nat, max: nat, range: nat): nat
    requires 0 < range
  {
    (v * max + range / 2) / range
  }

  // The three channels of an RGB565 pixel.
  function Red(p: Pixel): nat { p / 0x800 }

  function Green(p: Pixel): nat { p / 0x20 % 0x40 }

  function Blue(p: Pixel): nat { p % 0x20 }

  /** RFB_Convert_Pixel. */
  function Convert(p: Pixel, f: Format): nat {
    Or(Or(Shl(Scale(Red(p), f.redMax, 31), f.redShift),
          Shl(Scale(Green(p), f.greenMax, 63), f.greenShift)),
       Shl(Scale(Blue(p), f.blueMax, 31), f.blueShift))
  }

  /** RFB_Append_Pixel: byte `i` of the wire form of `v` on `n` bytes. */
  function WireByte(v: nat, n: nat, bigEndian: bool, i: nat): byte
    requires i < n
  {
    LowByte(Shr(v, 8 * (if bigEndian then n - i - 1 else i)))
  }

  function WireBytes(v: nat, n: nat, bigEndian: bool): (b: seq<byte>)
    ensures |b| == n
  {
    seq(n, i requires 0 <= i < n => WireByte(v, n, bigEndian, i))
  }

  function PixelBytes(p: Pixel, f: Format): (b: seq<byte>)
    ensures |b| == f.Bytes()
  {
    WireBytes(Convert(p, f), f.Bytes(), f.bigEndian)
  }

  // ---------------------------------------------------------------- the client's side

  /** The number a client reads from the bytes of one pixel. */
  function FromWire(b: seq<byte>, bigEndian: bool): nat {
    if b == [] then 0
    else if bigEndian then FromWire(b[..|b| - 1], true) * 0x100 + b[|b| - 1]
    else b[0] as int + FromWire(b[1..], false) * 0x100
  }

  lemma LastByte(b: seq<byte>, last: byte)
    ensures FromWire(b + [last], true) == FromWire(b, true) * 0x100 + last
  {
    assert (b + [last])[..|b|] == b;
  }

  /** The protocol's own integers are big-endian too. */
  lemma U16IsBigEndian(n: nat)
    requires n < 0x1_0000
    ensures FromWire(PutU16(n), true) == n
  {
    var b := PutU16(n);
    LastByte([], b[0]);
    LastByte([b[0]], b[1]);
    assert b == [] + [b[0]] + [b[1]];
    hide FromWire;
  }

  lemma GetU16IsBigEndian(b: seq<byte>)
    requires |b| == 2
    ensures FromWire(b, true) == GetU16(b)
  {
    U16IsFaithful(b);
    U16IsBigEndian(GetU16(b));
  }

  lemma U32IsBigEndian(n: nat)
    requires n < 0x1_0000_0000
    ensures FromWire(PutU32(n), true) == n
  {
    hide FromWire;
    var high, low := PutU16(n / 0x1_0000), PutU16(n % 0x1_0000);
    U16IsBigEndian(n / 0x1_0000);
    LastByte(high, low[0]);
    LastByte(high + [low[0]], low[1]);
    assert PutU32(n) == high + [low[0]] + [low[1]];
  }

  /** Section 7.4 of RFC 6143: shift the pixel right and mask it with the maximum. */
  function Channel(v: nat, shift: nat, max: nat): nat {
    And(Shr(v, shift), max)
  }

  /** The RGB565 pixel nearest to the number the client received. */
  function Recovered(v: nat, f: Format): nat
    requires f.redMax > 0 && f.greenMax > 0 && f.blueMax > 0
  {
    Scale(Channel(v, f.redShift, f.redMax), 31, f.redMax) * 0x800
    + Scale(Channel(v, f.greenShift, f.greenMax), 63, f.greenMax) * 0x20
    + Scale(Channel(v, f.blueShift, f.blueMax), 31, f.blueMax)
  }

  // ---------------------------------------------------------------- nothing is lost on the wire

  lemma QuotientIs(n: nat, d: nat, p: int, r: int, q: nat)
    requires n == p * d + r && 0 <= r && n < (q + 1) * d
    ensures p <= q
  {
    assert p > q ==> (p - (q + 1)) * d >= 0;
  }

  lemma Below(n: nat, d: nat, q: nat)
    requires 0 < d && n < (q + 1) * d
    ensures n / d <= q
  {
    QuotientIs(n, d, n / d, n % d, q);
  }

  lemma ScaleBound(v: nat, max: nat, range: nat)
    requires 0 < range && v <= range
    ensures Scale(v, max, range) <= max
  {
    var n := v * max + range / 2;
    assert (range - v) * max >= 0;
    assert n < (max + 1) * range;
    Below(n, range, max);
  }

  lemma FloorExactly(a: nat, b: nat, q: nat)
    requires 0 < b
    ensures q <= a / b <==> q * b <= a
  {
    var k := a / b;
    Divided(a, b);
    assert (q - k - 1) * b == q * b - k * b - b && (k - q) * b == k * b - q * b;
    if q <= k {
      NotNegative(k - q, b);
    } else {
      NotNegative(q - k - 1, b);
    }
  }

  lemma ShiftedFits(v: nat, max: nat, shift: nat, bits: nat)
    requires v <= max
    requires max <= Shr(UINT32_MAX, shift)
    requires bits == 32 || (bits < 32 && Shl(max, shift) < Pow2(bits))
    ensures Shl(v, shift) < Pow2(bits)
  {
    ShlMonotone(v, max, shift);
    if bits == 32 {
      Pow32();
      FloorExactly(UINT32_MAX, Pow2(shift), max);
    }
  }

  lemma Pow32()
    ensures Pow2(8) == 0x100 && Pow2(16) == 0x1_0000 && Pow2(32) == 0x1_0000_0000
  {
    assert Pow2(4) == 16;
    assert Pow2(8) == 0x100;
    assert Pow2(12) == 0x1000;
    assert Pow2(16) == 0x1_0000;
    assert Pow2(20) == 0x10_0000;
    assert Pow2(24) == 0x100_0000;
    assert Pow2(28) == 0x1000_0000;
  }

  // ---------------------------------------------------------------- which formats are accepted

  /** A true-colour format of 8, 16 or 32 bits whose channels are not empty and fit. */
  ghost predicate Usable(f: Format) {
    && f.bitsPerPixel in {8, 16, 32} && 1 <= f.depth <= f.bitsPerPixel && f.trueColour > 0
    && FieldFits(f.redMax, f.redShift, f.bitsPerPixel)
    && FieldFits(f.greenMax, f.greenShift, f.bitsPerPixel)
    && FieldFits(f.blueMax, f.blueShift, f.bitsPerPixel)
  }

  ghost predicate FieldFits(max: nat, shift: nat, bits: nat) {
    0 < max && max * Pow2(shift) < Pow2(bits)
  }

  /** No carry out of 32 bits. */
  lemma ShiftIn32(max: nat, shift: nat)
    ensures max <= Shr(UINT32_MAX, shift) <==> Shl(max, shift) < Pow2(32)
  {
    Pow32();
    FloorExactly(UINT32_MAX, Pow2(shift), max);
  }

  lemma {:induction false} Pow2Grows(a: nat, b: nat)
    requires a <= b
    ensures Pow2(a) <= Pow2(b)
  {
    if a < b {
      Pow2Grows(a, b - 1);
    }
  }

  /** A shift as far as all bits leaves no room. */
  lemma ShiftIsBelow(max: nat, shift: nat, bits: nat)
    requires FieldFits(max, shift, bits)
    ensures shift < bits
  {
    assert (max - 1) * Pow2(shift) == max * Pow2(shift) - Pow2(shift);
    NotNegative(max - 1, Pow2(shift));
    if bits <= shift {
      Pow2Grows(bits, shift);
    }
  }

  lemma MasksFit(a: nat, b: nat, c: nat, bits: nat)
    ensures Or(Or(a, b), c) < Pow2(bits) <==> a < Pow2(bits) && b < Pow2(bits) && c < Pow2(bits)
  {
    OrAtLeast(a, b);
    OrAtLeast(Or(a, b), c);
    if a < Pow2(bits) && b < Pow2(bits) && c < Pow2(bits) {
      OrBelow(a, b, bits);
      OrBelow(Or(a, b), c, bits);
    }
  }

  /** The validity test accepts exactly the usable formats. */
  lemma SupportedExactlyWhen(f: Format)
    ensures Supported(f) <==> Usable(f)
  {
    hide Or, Pow2, Shr;
    var bits := f.bitsPerPixel;
    ShiftIn32(f.redMax, f.redShift);
    ShiftIn32(f.greenMax, f.greenShift);
    ShiftIn32(f.blueMax, f.blueShift);
    MasksFit(f.RedMask(), f.GreenMask(), f.BlueMask(), bits);
    if bits <= 32 {
      Pow2Grows(bits, 32);
    }
    if Usable(f) {
      ShiftIsBelow(f.redMax, f.redShift, bits);
      ShiftIsBelow(f.greenMax, f.greenShift, bits);
      ShiftIsBelow(f.blueMax, f.blueShift, bits);
    }
  }

  /** A pixel converted to a supported format needs no more than its bits per pixel. */
  lemma ConvertFits(p: Pixel, f: Format)
    requires Supported(f)
    ensures Convert(p, f) < Pow2(f.bitsPerPixel)
  {
    var bits := f.bitsPerPixel;
    var red, green, blue := Scale(Red(p), f.redMax, 31), Scale(Green(p), f.greenMax, 63), Scale(Blue(p), f.blueMax, 31);
    ScaleBound(Red(p), f.redMax, 31);
    ScaleBound(Green(p), f.greenMax, 63);
    ScaleBound(Blue(p), f.blueMax, 31);
    OrAtLeast(f.RedMask(), f.GreenMask());
    OrAtLeast(Or(f.RedMask(), f.GreenMask()), f.BlueMask());
    ShiftedFits(red, f.redMax, f.redShift, bits);
    ShiftedFits(green, f.greenMax, f.greenShift, bits);
    ShiftedFits(blue, f.blueMax, f.blueShift, bits);
    OrBelow(Shl(red, f.redShift), Shl(green, f.greenShift), bits);
    OrBelow(Or(Shl(red, f.redShift), Shl(green, f.greenShift)), Shl(blue, f.blueShift), bits);
  }

  lemma {:induction false} Pow2Add(a: nat, b: nat)
    ensures Pow2(a + b) == Pow2(a) * Pow2(b)
  {
    if a > 0 {
      Pow2Add(a - 1, b);
    }
  }

  lemma ShrByte(v: nat, k: nat)
    ensures Shr(v, 8 * (k + 1)) == Shr(v / 0x100, 8 * k)
  {
    Pow32();
    Pow2Add(8, 8 * k);
    DivDiv(v, 0x100, Pow2(8 * k));
  }

  lemma ShorterByAByte(v: nat, n: nat)
    requires n > 0 && v < Pow2(8 * n)
    ensures v / 0x100 < Pow2(8 * (n - 1))
  {
    Pow32();
    Pow2Add(8, 8 * (n - 1));
  }

  /** The bytes of a number are those of its upper part and its low byte. */
  lemma BytesSplit(v: nat, n: nat, bigEndian: bool)
    requires n > 0
    ensures var rest := WireBytes(v / 0x100, n - 1, bigEndian);
            WireBytes(v, n, bigEndian) == if bigEndian then rest + [LowByte(v)] else [LowByte(v)] + rest
  {
    assert Shr(v, 0) == v;
    forall k | 0 <= k < n - 1 ensures Shr(v, 8 * (k + 1)) == Shr(v / 0x100, 8 * k) {
      ShrByte(v, k);
    }
  }

  /** In either endianness the bytes of a number that fits give the number back. */
  lemma {:induction false} WireRoundTrip(v: nat, n: nat, bigEndian: bool)
    requires v < Pow2(8 * n)
    ensures FromWire(WireBytes(v, n, bigEndian), bigEndian) == v
  {
    if n > 0 {
      ShorterByAByte(v, n);
      WireRoundTrip(v / 0x100, n - 1, bigEndian);
      var b, rest := WireBytes(v, n, bigEndian), WireBytes(v / 0x100, n - 1, bigEndian);
      BytesSplit(v, n, bigEndian);
      if bigEndian {
        assert b[..n - 1] == rest;
      } else {
        assert b[1..] == rest;
      }
    }
  }

  /** A client that reads the bytes of a pixel in a supported format gets exactly the converted pixel. */
  lemma NoByteIsLost(p: Pixel, f: Format)
    requires Supported(f)
    ensures FromWire(PixelBytes(p, f), f.bigEndian) == Convert(p, f)
  {
    hide Supported, Convert, Pow2, FieldFits;
    SupportedExactlyWhen(f);
    assert f.bitsPerPixel == 8 * f.Bytes();
    ConvertFits(p, f);
    WireRoundTrip(Convert(p, f), f.Bytes(), f.bigEndian);
  }

  // ---------------------------------------------------------------- no colour is lost

  /** `max` is 2^n - 1 for some n. */
  ghost predicate IsMask(max: nat) {
    exists n :: max == Pow2(n) - 1
  }

  ghost predicate Separate(f: Format) {
    && IsMask(f.redMax) && IsMask(f.greenMax) && IsMask(f.blueMax)
    && And(f.RedMask(), f.GreenMask()) == 0
    && And(f.RedMask(), f.BlueMask()) == 0
    && And(f.GreenMask(), f.BlueMask()) == 0
  }

  lemma InsideMask(v: nat, max: nat, shift: nat)
    requires v <= max && IsMask(max)
    ensures And(v, max) == v
    ensures And(Shl(v, shift), Shl(max, shift)) == Shl(v, shift)
  {
    var n :| max == Pow2(n) - 1;
    AndLowMask(v, n);
    AndOfShifted(v, max, shift);
  }

  /** One of three fields combined by Or is read back through its own mask. */
  lemma FieldIsReadBack(a: nat, b: nat, c: nat, v: nat, max: nat, shift: nat)
    requires v <= max && IsMask(max)
    requires a == Shl(v, shift) && And(b, Shl(max, shift)) == 0 && And(c, Shl(max, shift)) == 0
    ensures Channel(Or(Or(a, b), c), shift, max) == v
    ensures Channel(Or(Or(b, a), c), shift, max) == v
    ensures Channel(Or(Or(b, c), a), shift, max) == v
  {
    var mask := Shl(max, shift);
    InsideMask(v, max, shift);
    forall x | x == Or(Or(a, b), c) || x == Or(Or(b, a), c) || x == Or(Or(b, c), a)
      ensures Channel(x, shift, max) == v
    {
      AndDistributes(a, b, mask);
      AndDistributes(b, a, mask);
      AndDistributes(b, c, mask);
      AndDistributes(Or(a, b), c, mask);
      AndDistributes(Or(b, a), c, mask);
      AndDistributes(Or(b, c), a, mask);
      OrZero(a);
      OrZero(0);
      assert And(x, mask) == a;
      MaskThenShift(x, max, shift);
      ShlInjective(Channel(x, shift, max), v, shift);
    }
  }

  lemma Disjoint(v: nat, max: nat, shift: nat, mask: nat)
    requires v <= max && IsMask(max) && And(Shl(max, shift), mask) == 0
    ensures And(Shl(v, shift), mask) == 0
  {
    InsideMask(v, max, shift);
    InsideStaysDisjoint(Shl(v, shift), Shl(max, shift), mask);
  }

  lemma ChannelsAreReadBack(p: Pixel, f: Format)
    requires Separate(f)
    ensures Channel(Convert(p, f), f.redShift, f.redMax) == Scale(Red(p), f.redMax, 31)
    ensures Channel(Convert(p, f), f.greenShift, f.greenMax) == Scale(Green(p), f.greenMax, 63)
    ensures Channel(Convert(p, f), f.blueShift, f.blueMax) == Scale(Blue(p), f.blueMax, 31)
  {
    var red, green, blue := Scale(Red(p), f.redMax, 31), Scale(Green(p), f.greenMax, 63), Scale(Blue(p), f.blueMax, 31);
    ScaleBound(Red(p), f.redMax, 31);
    ScaleBound(Green(p), f.greenMax, 63);
    ScaleBound(Blue(p), f.blueMax, 31);
    AndCommutes(f.RedMask(), f.GreenMask());
    AndCommutes(f.RedMask(), f.BlueMask());
    AndCommutes(f.GreenMask(), f.BlueMask());
    Disjoint(red, f.redMax, f.redShift, f.GreenMask());
    Disjoint(red, f.redMax, f.redShift, f.BlueMask());
    Disjoint(green, f.greenMax, f.greenShift, f.RedMask());
    Disjoint(green, f.greenMax, f.greenShift, f.BlueMask());
    Disjoint(blue, f.blueMax, f.blueShift, f.RedMask());
    Disjoint(blue, f.blueMax, f.blueShift, f.GreenMask());
    var r, g, b := Shl(red, f.redShift), Shl(green, f.greenShift), Shl(blue, f.blueShift);
    FieldIsReadBack(r, g, b, red, f.redMax, f.redShift);
    FieldIsReadBack(g, r, b, green, f.greenMax, f.greenShift);
    FieldIsReadBack(b, r, g, blue, f.blueMax, f.blueShift);
  }

  /** Rescaling rounds to nearest. */
  lemma ScaleIsNearest(v: nat, max: nat, range: nat)
    requires 0 < range
    ensures -(range as int) <= 2 * (Scale(v, max, range) * range - v * max) <= range
  {
    Divided(v * max + range / 2, range);
  }

  /** `c` is the value of 0..max nearest to `v` of 0..range. */
  ghost predicate Nearest(c: nat, max: nat, v: nat, range: nat) {
    c <= max && -(range as int) <= 2 * (c * range - v * max) <= range
  }

  /** In every format with separate fields the client reads each channel of a pixel as the nearest value there is. */
  lemma ChannelsAreNearest(p: Pixel, f: Format)
    requires Supported(f) && Separate(f)
    ensures var v := FromWire(PixelBytes(p, f), f.bigEndian);
      && Nearest(Channel(v, f.redShift, f.redMax), f.redMax, Red(p), 31)
      && Nearest(Channel(v, f.greenShift, f.greenMax), f.greenMax, Green(p), 63)
      && Nearest(Channel(v, f.blueShift, f.blueMax), f.blueMax, Blue(p), 31)
  {
    hide Separate, Supported, Scale, Channel, Convert, PixelBytes, FromWire;
    NoByteIsLost(p, f);
    ChannelsAreReadBack(p, f);
    ThreeChannels(p);
    ScaleBound(Red(p), f.redMax, 31);
    ScaleBound(Green(p), f.greenMax, 63);
    ScaleBound(Blue(p), f.blueMax, 31);
    ScaleIsNearest(Red(p), f.redMax, 31);
    ScaleIsNearest(Green(p), f.greenMax, 63);
    ScaleIsNearest(Blue(p), f.blueMax, 31);
  }

  /** Scaling up from an odd range to at least as large a maximum and back to nearest is the identity. */
  lemma ScaleRoundTrip(v: nat, max: nat, range: nat)
    requires range % 2 == 1 && v <= range <= max
    ensures Scale(Scale(v, max, range), range, max) == v
  {
    var s := Scale(v, max, range);
    var h := range / 2;
    var rest := (v * max + h) % range;
    assert s * range == v * max + h - rest;
    assert 0 <= max / 2 + h - rest < max;
    DivisionIsUnique(s * range + max / 2, max, v, max / 2 + h - rest);
  }

  /** A supported format whose channels are separate and no narrower than those of RGB565. */
  ghost predicate Lossless(f: Format) {
    Supported(f) && Separate(f) && 31 <= f.redMax && 63 <= f.greenMax && 31 <= f.blueMax
  }

  /** In a supported format with separate fields whose maxima are at least those of RGB565, the client
      recovers every pixel exactly. */
  lemma PixelsSurvive(p: Pixel, f: Format)
    requires Lossless(f)
    ensures Recovered(FromWire(PixelBytes(p, f), f.bigEndian), f) == p
  {
    NoByteIsLost(p, f);
    ConvertedPixelIsRecovered(p, f);
  }

  lemma ConvertedPixelIsRecovered(p: Pixel, f: Format)
    requires Separate(f)
    requires 31 <= f.redMax && 63 <= f.greenMax && 31 <= f.blueMax
    ensures Recovered(Convert(p, f), f) == p
  {
    ChannelsAreReadBack(p, f);
    ScaleRoundTrip(Red(p), f.redMax, 31);
    ScaleRoundTrip(Green(p), f.greenMax, 63);
    ScaleRoundTrip(Blue(p), f.blueMax, 31);
    ThreeChannels(p);
  }

  lemma ThreeChannels(p: Pixel)
    ensures Red(p) * 0x800 + Green(p) * 0x20 + Blue(p) == p
    ensures Red(p) <= 31 && Green(p) <= 63 && Blue(p) <= 31
  {
  }

  /** The initial format is one of these. */
  lemma DefaultIsSupported()
    ensures Supported(DEFAULT_FORMAT) && DEFAULT_FORMAT.Typed()
  {
    hide Supported, Pow2;
    Pow32();
    SmallPowers();
    SupportedExactlyWhen(DEFAULT_FORMAT);
  }

  lemma SmallPowers()
    ensures Pow2(0) == 1 && Pow2(5) == 32 && Pow2(6) == 64 && Pow2(11) == 2048
  {
  }

  lemma DefaultIsLossless()
    ensures Lossless(DEFAULT_FORMAT)
  {
    hide And, Supported, Pow2;
    DefaultIsSupported();
    SmallPowers();
    AndIsZero(31, 11, 2016);
    AndIsZero(31, 11, 31);
    AndIsZero(63, 5, 31);
  }

  // ---------------------------------------------------------------- exactly when

  ghost predicate Injective(max: nat, range: nat)
    requires 0 < range
  {
    forall u, v :: 0 <= u < v <= range ==> Scale(u, max, range) != Scale(v, max, range)
  }

  lemma ScaleMonotone(u: nat, v: nat, max: nat, range: nat)
    requires 0 < range && u <= v
    ensures Scale(u, max, range) <= Scale(v, max, range)
  {
    assert u * max <= v * max;
    DivMonotone(u * max + range / 2, v * max + range / 2, range);
  }

  lemma DivMonotone(a: nat, b: nat, m: nat)
    requires 0 < m && a <= b
    ensures a / m <= b / m
  {
    var k := a / m - b / m;
    assert k * m == (a - a % m) - (b - b % m);
    assert k >= 1 ==> k * m >= m;
  }

  lemma {:induction false} InjectiveClimbs(v: nat, max: nat, range: nat)
    requires 0 < range && v <= range && Injective(max, range)
    ensures v <= Scale(v, max, range)
  {
    if v > 0 {
      InjectiveClimbs(v - 1, max, range);
      ScaleMonotone(v - 1, v, max, range);
      assert Scale(v - 1, max, range) != Scale(v, max, range);
    }
  }

  /** The channel values of RGB565 stay distinguishable exactly when the client's maximum is no smaller. */
  lemma ChannelSurvivesExactlyWhen(max: nat, range: nat)
    requires range % 2 == 1
    ensures Injective(max, range) <==> range <= max
  {
    if range <= max {
      forall u, v | 0 <= u < v <= range ensures Scale(u, max, range) != Scale(v, max, range) {
        ScaleRoundTrip(u, max, range);
        ScaleRoundTrip(v, max, range);
      }
    }
    if Injective(max, range) {
      InjectiveClimbs(range, max, range);
      ScaleBound(range, max, range);
    }
  }
}
