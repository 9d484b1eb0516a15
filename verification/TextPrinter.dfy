/** The bounded printer of the status display (app_guix.c): text, decimals and fixed-point numbers appended to a
    character buffer, cut where the buffer ends. */
module TextPrinter {
  import opened Common

  // ---------------------------------------------------------------- decimal texts

  function Digit(v: nat): char {
    '0' + (v % 10) as char
  }

  function Pow10(k: nat): (p: nat)
    ensures p > 0
  {
    if k == 0 then 1 else 10 * Pow10(k - 1)
  }

  function Quotient(v: nat, d: nat): (q: nat)
    requires d > 0
    ensures q <= v
  {
    QuotientAtMost(v, d);
    v / d
  }

  function Remainder(v: nat, d: nat): (r: nat)
    requires d > 0
    ensures r < d
  {
    v % d
  }

  /** The digits of `v` without leading zeros: none for zero. */
  function Digits(v: nat): seq<char> {
    if v == 0 then [] else Digits(v / 10) + [Digit(v)]
  }

  /** What append_u32 prints: at least one digit. */
  function Decimal(v: nat): seq<char> {
    Digits(v / 10) + [Digit(v)]
  }

  /** The last `k` digits of `v`, with leading zeros. */
  function Padded(v: nat, k: nat): (s: seq<char>)
    ensures |s| == k
  {
    if k == 0 then [] else Padded(v / 10, k - 1) + [Digit(v)]
  }

  function Magnitude(v: int): nat {
    if v < 0 then -v else v
  }

  function Sign(v: int): seq<char> {
    if v < 0 then "-" else ""
  }

  /** The digits after the point; even without places one zero is printed. */
  function Fraction(v: nat, k: nat): seq<char> {
    if k == 0 then "0" else Padded(v, k)
  }

  function UnsignedText(m: nat, k: nat): seq<char> {
    Decimal(Quotient(m, Pow10(k))) + "." + Fraction(Remainder(m, Pow10(k)), k)
  }

  /** A value in units of 1 / 10^k as a decimal text with k places. */
  function FixedText(v: int, k: nat): seq<char> {
    Sign(v) + UnsignedText(Magnitude(v), k)
  }

  /** How often the printer divides by ten to find the number of places. */
  function Places(d: nat): nat {
    if d <= 1 then 0 else 1 + Places(d / 10)
  }

  /** The digits it prints after the point, of a remainder `f` with divisor `d`. */
  function PrintedFraction(f: nat, d: nat, width: nat): seq<char>
    decreases width
  {
    if width > 1 && f < d / 10 then "0" + PrintedFraction(f, d / 10, width - 1) else Decimal(f)
  }

  function PrintedUnsigned(m: nat, d: nat): seq<char>
    requires d > 0
  {
    Decimal(Quotient(m, d)) + "." + PrintedFraction(Remainder(m, d), d, Places(d))
  }

  /** What append_fixed_i32 prints, for any divisor. */
  function Printed(v: int, d: nat): seq<char>
    requires d > 0
  {
    Sign(v) + PrintedUnsigned(Magnitude(v), d)
  }

  /** What fits of a text. */
  function Kept(s: seq<char>, room: nat): seq<char> {
    if room < |s| then s[..room] else s
  }

  // ---------------------------------------------------------------- reading them back

  datatype Fixed = Fixed(value: int, places: nat) | Malformed

  predicate IsDigit(c: char) {
    '0' <= c <= '9'
  }

  predicate AllDigits(s: seq<char>) {
    forall i :: 0 <= i < |s| ==> IsDigit(s[i])
  }

  function ValueOf(s: seq<char>): nat
    requires AllDigits(s)
  {
    if s == [] then 0 else ValueOf(s[..|s| - 1]) * 10 + (s[|s| - 1] - '0') as nat
  }

  /** The position of the first point; |s| without one. */
  function PointIn(s: seq<char>): (p: nat)
    ensures p <= |s| && (p < |s| ==> s[p] == '.') && forall i :: 0 <= i < p ==> s[i] != '.'
  {
    if s == [] || s[0] == '.' then 0 else 1 + PointIn(s[1..])
  }

  /** An unsigned number: digits, a point, digits. */
  function ParseUnsigned(s: seq<char>): Fixed {
    var p := PointIn(s);
    if p < |s| && AllDigits(s[..p]) && AllDigits(s[p + 1..])
    then Fixed(ValueOf(s[..p] + s[p + 1..]), |s| - p - 1)
    else Malformed
  }

  function Negated(f: Fixed): Fixed {
    match f
    case Fixed(v, places) => Fixed(-v, places)
    case Malformed => Malformed
  }

  function Parse(s: seq<char>): Fixed {
    if s != [] && s[0] == '-' then Negated(ParseUnsigned(s[1..]))
    else ParseUnsigned(s)
  }

  lemma DigitValue(v: nat)
    ensures IsDigit(Digit(v)) && (Digit(v) - '0') as nat == v % 10
  {
  }

  lemma {:induction false} DigitsValue(v: nat)
    ensures AllDigits(Digits(v)) && ValueOf(Digits(v)) == v
  {
    if v > 0 {
      DigitsValue(v / 10);
      DigitValue(v);
      assert Digits(v)[..|Digits(v)| - 1] == Digits(v / 10);
    }
  }

  lemma DecimalValue(v: nat)
    ensures |Decimal(v)| > 0 && AllDigits(Decimal(v)) && ValueOf(Decimal(v)) == v
  {
    DigitsValue(v / 10);
    DigitValue(v);
    assert Decimal(v)[..|Decimal(v)| - 1] == Digits(v / 10);
  }

  /** Digits followed by the padded rest of a division by 10^k read as the whole. */
  lemma {:induction false} PaddedValue(s: seq<char>, v: nat, k: nat)
    requires AllDigits(s) && v < Pow10(k)
    ensures AllDigits(Padded(v, k)) && ValueOf(s + Padded(v, k)) == ValueOf(s) * Pow10(k) + v
  {
    if k == 0 {
      assert s + [] == s;
    } else {
      PaddedValue(s, v / 10, k - 1);
      DigitValue(v);
      var all := s + Padded(v, k);
      assert all[..|all| - 1] == s + Padded(v / 10, k - 1);
      TenTimes(ValueOf(s), Pow10(k - 1), v);
    }
  }

  lemma TenTimes(a: nat, p: nat, v: nat)
    ensures (a * p + v / 10) * 10 + v % 10 == a * (10 * p) + v
  {
    assert a * (10 * p) == a * p * 10;
  }

  lemma {:induction false} PointAfterDigits(s: seq<char>, rest: seq<char>)
    requires AllDigits(s)
    ensures PointIn(s + ['.'] + rest) == |s|
  {
    var all := s + ['.'] + rest;
    assert all[|s|] == '.';
    var p := PointIn(all);
    assert forall i :: 0 <= i < |s| ==> all[i] == s[i] && IsDigit(s[i]);
  }

  /** The whole text reads back as the number printed. */
  lemma UnsignedRoundTrip(m: nat, k: nat)
    requires k > 0
    ensures ParseUnsigned(UnsignedText(m, k)) == Fixed(m, k)
  {
    Divided(m, Pow10(k));
    hide Pow10, Decimal, Quotient, Remainder;
    var whole, part := Decimal(Quotient(m, Pow10(k))), Fraction(Remainder(m, Pow10(k)), k);
    DecimalValue(Quotient(m, Pow10(k)));
    PaddedValue(whole, Remainder(m, Pow10(k)), k);
    PointAfterDigits(whole, part);
    var s := whole + "." + part;
    assert s[..|whole|] == whole && s[|whole| + 1..] == part;
  }

  /** No proper beginning of it does: it has no point, or too few digits after it. */
  lemma CutIsNoticed(m: nat, k: nat, n: nat)
    requires k > 0 && n < |UnsignedText(m, k)|
    ensures var p := ParseUnsigned(UnsignedText(m, k)[..n]); p.Malformed? || p.places < k
  {
    var whole, part := Decimal(Quotient(m, Pow10(k))), Fraction(Remainder(m, Pow10(k)), k);
    DecimalValue(Quotient(m, Pow10(k)));
    var s := whole + "." + part;
    var p := PointIn(s[..n]);
    assert forall i :: 0 <= i < |whole| ==> s[i] == whole[i] && IsDigit(s[i]);
    assert p < n ==> s[..n][p] == s[p];
  }

  lemma StartsWithDigit(m: nat, k: nat)
    ensures |UnsignedText(m, k)| > 0 && UnsignedText(m, k)[0] != '-'
  {
    DecimalValue(Quotient(m, Pow10(k)));
  }

  lemma ParseSigned(v: int, u: seq<char>)
    requires u == [] || u[0] != '-'
    ensures Parse(Sign(v) + u) == if v < 0 then Negated(ParseUnsigned(u)) else ParseUnsigned(u)
  {
    assert v < 0 ==> (Sign(v) + u)[1..] == u;
    assert v >= 0 ==> Sign(v) + u == u;
  }

  lemma KeptOfSigned(v: int, u: seq<char>, room: nat)
    requires |Sign(v)| <= room < |Sign(v) + u|
    ensures Kept(Sign(v) + u, room) == Sign(v) + u[..room - |Sign(v)|]
  {
  }

  /** What is kept of a fixed-point text reads back as its value exactly when the whole text fits. */
  lemma FixedTextReadsBack(v: int, k: nat, room: nat)
    requires k > 0
    ensures Parse(Kept(FixedText(v, k), room)) == Fixed(v, k) <==> |FixedText(v, k)| <= room
  {
    hide ParseUnsigned, UnsignedText;
    var u := UnsignedText(Magnitude(v), k);
    UnsignedRoundTrip(Magnitude(v), k);
    StartsWithDigit(Magnitude(v), k);
    EmptyIsMalformed();
    if |FixedText(v, k)| <= room {
      ParseSigned(v, u);
    } else if |Sign(v)| <= room {
      var n := room - |Sign(v)|;
      KeptOfSigned(v, u, room);
      CutIsNoticed(Magnitude(v), k, n);
      ParseSigned(v, u[..n]);
    }
  }

  lemma EmptyIsMalformed()
    ensures ParseUnsigned([]) == Malformed
  {
  }

  lemma UnsignedWithoutPlaces(m: nat)
    ensures ParseUnsigned(UnsignedText(m, 0)) == Fixed(10 * m, 1)
  {
    var whole := Decimal(m);
    assert Quotient(m, 1) == m;
    assert UnsignedText(m, 0) == whole + "." + "0";
    DecimalValue(m);
    PointAfterDigits(whole, "0");
    var s := whole + "." + "0";
    assert s[..|whole|] == whole && s[|whole| + 1..] == "0";
    assert (whole + "0")[..|whole|] == whole;
  }

  lemma FixedTextWithoutPlaces(v: int)
    ensures Parse(FixedText(v, 0)) == Fixed(10 * v, 1)
  {
    hide ParseUnsigned, UnsignedText;
    UnsignedWithoutPlaces(Magnitude(v));
    StartsWithDigit(Magnitude(v), 0);
    ParseSigned(v, UnsignedText(Magnitude(v), 0));
  }

  // ---------------------------------------------------------------- which divisors

  predicate IsInt32(v: int) {
    -0x8000_0000 <= v < 0x8000_0000
  }

  /** Every value reads back, with the places the divisor stands for. */
  ghost predicate AllReadBack(d: nat)
    requires d > 0
  {
    forall v :: IsInt32(v) ==> Parse(Printed(v, d)) == Fixed(v, Places(d))
  }

  ghost predicate IsPowerOfTen(d: nat) {
    exists k :: k > 0 && d == Pow10(k)
  }

  lemma {:induction false} LeadingZero(v: nat, k: nat)
    requires k > 0 && v < Pow10(k - 1)
    ensures Padded(v, k) == ['0'] + Padded(v, k - 1)
  {
    if k > 1 {
      LeadingZero(v / 10, k - 1);
    }
  }

  lemma {:induction false} NoLeadingZero(v: nat, k: nat)
    requires k > 0 && v < Pow10(k) && (k == 1 || Pow10(k - 1) <= v)
    ensures Padded(v, k) == Decimal(v)
  {
    if k > 1 {
      NoLeadingZero(v / 10, k - 1);
    }
  }

  lemma {:induction false} PlacesOfPower(k: nat)
    ensures Places(Pow10(k)) == k
  {
    if k > 0 {
      PlacesOfPower(k - 1);
      assert Pow10(k) / 10 == Pow10(k - 1);
    }
  }

  lemma {:induction false} PowersArePadded(f: nat, k: nat)
    requires f < Pow10(k)
    ensures PrintedFraction(f, Pow10(k), k) == Fraction(f, k)
  {
    if k > 1 && f < Pow10(k) / 10 {
      assert Pow10(k) / 10 == Pow10(k - 1);
      PowersArePadded(f, k - 1);
      LeadingZero(f, k);
    } else if k > 0 {
      NoLeadingZero(f, k);
    }
  }

  /** With a power of ten the printer prints the fixed-point text. */
  lemma PowersPrintFixed(v: int, k: nat)
    ensures Printed(v, Pow10(k)) == FixedText(v, k)
  {
    PlacesOfPower(k);
    PowersArePadded(Remainder(Magnitude(v), Pow10(k)), k);
  }

  /** With a power of ten, from ten on, what the buffer holds reads back as the value printed exactly when the
      whole text fits. */
  lemma ReadsBackExactlyWhenItFits(v: int, k: nat, room: nat)
    requires k > 0
    ensures Parse(Kept(Printed(v, Pow10(k)), room)) == Fixed(v, k) <==> |Printed(v, Pow10(k))| <= room
  {
    PowersPrintFixed(v, k);
    FixedTextReadsBack(v, k, room);
  }

  /** With divisor one a zero follows the point, so that the text reads as tenths. */
  lemma WithoutPlaces(v: int)
    ensures Parse(Printed(v, 1)) == Fixed(10 * v, 1)
  {
    PowersPrintFixed(v, 0);
    FixedTextWithoutPlaces(v);
  }

  lemma {:induction false} ZeroFraction(d: nat, width: nat) returns (n: nat)
    ensures n > 0 && PrintedFraction(0, d, width) == Padded(0, n)
  {
    if width > 1 && 0 < d / 10 {
      n := ZeroFraction(d / 10, width - 1);
      LeadingZero(0, n + 1);
      n := n + 1;
    } else {
      n := 1;
    }
  }

  /** The divisor itself reads back only as a power of ten. */
  lemma OnlyPowersReadBack(d: nat)
    requires d > 0 && Parse(Printed(d, d)) == Fixed(d, Places(d))
    ensures IsPowerOfTen(d)
  {
    var n := ZeroFraction(d, Places(d));
    var p := Pow10(n);
    assert Quotient(d, d) == 1 && Remainder(d, d) == 0;
    assert Quotient(p, p) == 1 && Remainder(p, p) == 0;
    assert PrintedUnsigned(d, d) == UnsignedText(p, n);
    UnsignedRoundTrip(p, n);
    StartsWithDigit(p, n);
    hide UnsignedText, PrintedUnsigned, ParseUnsigned;
    ParseSigned(d, UnsignedText(p, n));
  }

  /** With a divisor of 2 to 4 times 10^j, nine in the last place loses a leading zero. */
  lemma {:induction false} NineIsShort(d: nat, j: nat)
    requires j > 0 && 2 * Pow10(j) <= d < 5 * Pow10(j)
    ensures |PrintedFraction(9, d, j + 1)| == j && Places(d) == j + 1
  {
    if j > 1 {
      assert Pow10(j - 1) >= 10;
      NineIsShort(d / 10, j - 1);
    } else {
      assert Pow10(1) == 10;
      assert Decimal(9) == [Digit(9)];
      assert Places(d / 10) == 1;
    }
  }

  /** What follows the point is as long as the places that are read. */
  lemma PlacesRead(whole: seq<char>, part: seq<char>)
    requires AllDigits(whole)
    ensures var p := ParseUnsigned(whole + "." + part); p.Malformed? || p.places == |part|
  {
    PointAfterDigits(whole, part);
  }

  lemma LargeDivisorsFail(d: nat)
    requires 0x8000_0000 <= d < 0x1_0000_0000
    ensures Parse(Printed(9, d)) != Fixed(9, Places(d))
  {
    NinthPower();
    NineIsShort(d, 9);
    NineOf(d);
    var part := PrintedFraction(9, d, Places(d));
    hide PrintedUnsigned, ParseUnsigned, PrintedFraction, Places, Pow10;
    PlacesRead("0", part);
    ParseSigned(9, "0" + "." + part);
  }

  lemma NinthPower()
    ensures Pow10(9) == 1000000000
  {
    assert Pow10(4) == 10000;
  }

  lemma NineOf(d: nat)
    requires 9 < d
    ensures PrintedUnsigned(9, d) == "0" + "." + PrintedFraction(9, d, Places(d))
  {
    hide PrintedFraction, Places;
    assert Quotient(9, d) == 0 && Remainder(9, d) == 9 && Decimal(0) == "0";
  }

  lemma LargeDivisorsAreNoPowers(d: nat)
    requires 0x8000_0000 <= d < 0x1_0000_0000
    ensures !IsPowerOfTen(d)
  {
    NinthPower();
    TenDigits();
    hide Pow10;
    forall k ensures d != Pow10(k) {
      if k <= 9 {
        Pow10Monotone(k, 9);
      } else {
        Pow10Monotone(10, k);
      }
    }
  }

  lemma {:induction false} Pow10Monotone(j: nat, k: nat)
    requires j <= k
    ensures Pow10(j) <= Pow10(k)
  {
    if j < k {
      Pow10Monotone(j, k - 1);
    }
  }

  lemma TenDigits()
    ensures 0x1_0000_0000 <= Pow10(10)
  {
    assert Pow10(5) == 100000;
  }

  /** Every value printed reads back exactly when the divisor is a power of ten, from ten on. */
  lemma AllReadBackExactlyWhen(d: nat)
    requires 0 < d < 0x1_0000_0000
    ensures AllReadBack(d) <==> IsPowerOfTen(d)
  {
    if IsPowerOfTen(d) {
      var k :| k > 0 && d == Pow10(k);
      forall v | IsInt32(v) ensures Parse(Printed(v, d)) == Fixed(v, Places(d)) {
        PowersPrintFixed(v, k);
        PlacesOfPower(k);
        FixedTextReadsBack(v, k, |FixedText(v, k)|);
      }
    } else if d < 0x8000_0000 {
      if AllReadBack(d) {
        assert Parse(Printed(d, d)) == Fixed(d, Places(d));
        OnlyPowersReadBack(d);
      }
    } else {
      LargeDivisorsFail(d);
      LargeDivisorsAreNoPowers(d);
      assert IsInt32(9);
    }
  }

  // ---------------------------------------------------------------- the appending loops

  /** Behind `position` the buffer `before` got what fits of `text`, with room for a final NUL; it now ends at
      `now`, and only that one place after it may have changed. */
  ghost predicate Appended(before: seq<char>, after: seq<char>, position: nat, capacity: nat, text: seq<char>, now: nat) {
    && position < capacity <= |before| == |after|
    && now == position + |Kept(text, capacity - 1 - position)|
    && after[..now] == before[..position] + Kept(text, capacity - 1 - position)
    && after[now + 1..] == before[now + 1..]
  }

  lemma AppendedTwice(a: seq<char>, b: seq<char>, c: seq<char>, position: nat, middle: nat, now: nat, capacity: nat,
                      s: seq<char>, t: seq<char>)
    requires Appended(a, b, position, capacity, s, middle) && Appended(b, c, middle, capacity, t, now)
    ensures Appended(a, c, position, capacity, s + t, now)
  {
    assert Kept(s + t, capacity - 1 - position) == Kept(s, capacity - 1 - position) + Kept(t, capacity - 1 - middle);
    assert a[now + 1..] == a[middle + 1..][now - middle..];
    assert b[now + 1..] == b[middle + 1..][now - middle..];
  }

  lemma NothingAppended(a: seq<char>, position: nat, capacity: nat)
    requires position < capacity <= |a|
    ensures Appended(a, a, position, capacity, "", position)
  {
  }

  method AppendText(buffer: array<char>, position: nat, capacity: nat, text: seq<char>) returns (now: nat)
    requires position < capacity <= buffer.Length
    modifies buffer
    ensures position <= now < capacity
    ensures Appended(old(buffer[..]), buffer[..], position, capacity, text, now) && buffer[now] == '\0'
  {
    var i := 0;
    now := position;
    while i < |text| && now + 1 < capacity
      invariant i <= |text| && now == position + i < capacity
      invariant buffer[..now] == old(buffer[..position]) + text[..i]
      invariant forall k :: now <= k < buffer.Length ==> buffer[k] == old(buffer[k])
    {
      buffer[now] := text[i];
      now, i := now + 1, i + 1;
    }
    buffer[now] := '\0';
    assert text[..i] == Kept(text, capacity - 1 - position);
  }

  /** One character, when there is room for it and a NUL; with `terminate` the NUL is written. */
  method AppendChar(buffer: array<char>, position: nat, capacity: nat, c: char, terminate: bool) returns (now: nat)
    requires position < capacity <= buffer.Length
    modifies buffer
    ensures position <= now < capacity
    ensures Appended(old(buffer[..]), buffer[..], position, capacity, [c], now)
    ensures terminate && old(buffer[position]) == '\0' ==> buffer[now] == '\0'
  {
    now := position;
    if position + 1 < capacity {
      buffer[now] := c;
      now := now + 1;
      if terminate {
        buffer[now] := '\0';
      }
    }
    assert Kept([c], capacity - 1 - position) == if now == position then [] else [c];
  }

  function Reversed(s: seq<char>): (r: seq<char>)
    ensures |r| == |s|
  {
    if s == [] then [] else [s[|s| - 1]] + Reversed(s[..|s| - 1])
  }

  lemma ReversedMore(s: seq<char>, c: char)
    ensures Reversed(s + [c]) == [c] + Reversed(s)
  {
    assert (s + [c])[..|s|] == s;
  }

  lemma MoveAcross(a: seq<char>, c: char, b: seq<char>)
    ensures (a + [c]) + b == a + ([c] + b)
  {
  }

  lemma DigitMoved(value: nat, rest: nat, done: seq<char>, d: char)
    requires d == Digit(rest)
    requires (rest == value && done == []) || (rest > 0 && Decimal(value) == Digits(rest) + Reversed(done))
    ensures Decimal(value) == Digits(rest / 10) + Reversed(done + [d])
  {
    ReversedMore(done, d);
    if done == [] && rest == value {
      assert Reversed([]) == [];
      assert [d] + [] == [d];
    } else {
      assert Digits(rest) == Digits(rest / 10) + [d];
      hide Digits, Reversed, Decimal, Digit;
      MoveAcross(Digits(rest / 10), d, Reversed(done));
    }
  }

  lemma NoDigitsLeft(rest: nat)
    requires rest == 0
    ensures forall s: seq<char> :: Digits(rest) + s == s
  {
  }

  /** The digits of `value`, the last one first. */
  method ReverseDigits(value: nat, digits: array<char>) returns (count: nat)
    requires value < Pow10(10) && digits.Length == 10
    modifies digits
    ensures 0 < count <= 10 && Reversed(digits[..count]) == Decimal(value)
  {
    hide Decimal, Digits, Reversed, Digit;
    count := 0;
    var rest := value;
    while true
      invariant count <= 10 && rest < Pow10(10 - count)
      invariant count == 0 ==> rest == value
      invariant count > 0 ==> rest > 0 && count < 10 && Decimal(value) == Digits(rest) + Reversed(digits[..count])
      decreases 10 - count
    {
      DigitMoved(value, rest, digits[..count], Digit(rest));
      digits[count] := Digit(rest);
      assert digits[..count + 1] == digits[..count] + [Digit(rest)];
      count := count + 1;
      rest := rest / 10;
      if rest == 0 || count == digits.Length {
        NoDigitsLeft(rest);
        return;
      }
    }
  }

  lemma {:induction false} ReversedAt(s: seq<char>, k: nat)
    requires k < |s|
    ensures Reversed(s)[k] == s[|s| - 1 - k]
  {
    if k > 0 {
      ReversedAt(s[..|s| - 1], k - 1);
    }
  }

  /** The second loop of append_u32: the last digit first, while there is room. */
  method AppendReversed(buffer: array<char>, position: nat, capacity: nat, digits: array<char>, total: nat) returns (now: nat)
    requires position < capacity <= buffer.Length && total <= digits.Length && buffer != digits
    modifies buffer
    ensures position <= now < capacity
    ensures Appended(old(buffer[..]), buffer[..], position, capacity, Reversed(digits[..total]), now) && buffer[now] == '\0'
  {
    ghost var text := Reversed(digits[..total]);
    var count := total;
    now := position;
    while count != 0 && now + 1 < capacity
      invariant count <= total && now == position + total - count < capacity
      invariant buffer[..now] == old(buffer[..position]) + text[..total - count]
      invariant forall k :: now <= k < buffer.Length ==> buffer[k] == old(buffer[k])
    {
      ReversedAt(digits[..total], total - count);
      count := count - 1;
      buffer[now] := digits[count];
      now := now + 1;
    }
    buffer[now] := '\0';
    assert text[..total - count] == Kept(text, capacity - 1 - position);
  }

  method AppendU32(buffer: array<char>, position: nat, capacity: nat, value: nat) returns (now: nat)
    requires position < capacity <= buffer.Length && value < 0x1_0000_0000
    modifies buffer
    ensures position <= now < capacity
    ensures Appended(old(buffer[..]), buffer[..], position, capacity, Decimal(value), now) && buffer[now] == '\0'
  {
    TenDigits();
    var digits := new char[10];
    var count := ReverseDigits(value, digits);
    now := AppendReversed(buffer, position, capacity, digits, count);
  }

  /** The loop that finds the number of places. */
  method PlacesOf(divisor: nat) returns (width: nat)
    ensures width == Places(divisor)
  {
    width := 0;
    var left := divisor;
    while left > 1
      invariant width + Places(left) == Places(divisor)
    {
      left, width := left / 10, width + 1;
    }
  }

  /** One more leading zero. */
  lemma ZeroStep(done: seq<char>, f: nat, d: nat, width: nat)
    requires width > 1 && f < d / 10
    ensures done + PrintedFraction(f, d, width) == (done + "0") + PrintedFraction(f, d / 10, width - 1)
  {
    assert done + ("0" + PrintedFraction(f, d / 10, width - 1)) == (done + "0") + PrintedFraction(f, d / 10, width - 1);
  }

  lemma NoMoreZeros(f: nat, d: nat, width: nat)
    requires !(width > 1 && f < d / 10)
    ensures PrintedFraction(f, d, width) == Decimal(f)
  {
  }

  /** The digits after the point: zeros for missing leading digits, then the rest. */
  method AppendFraction(buffer: array<char>, position: nat, capacity: nat, fraction: nat, power: nat, places: nat)
    returns (now: nat)
    requires position < capacity <= buffer.Length && fraction < power < 0x1_0000_0000
    requires buffer[position] == '\0'
    modifies buffer
    ensures position <= now < capacity
    ensures Appended(old(buffer[..]), buffer[..], position, capacity, PrintedFraction(fraction, power, places), now)
    ensures buffer[now] == '\0'
  {
    NothingAppended(buffer[..], position, capacity);
    hide Appended, Decimal, Kept, PrintedFraction;
    ghost var text, start, done := PrintedFraction(fraction, power, places), buffer[..], [];
    now := position;
    var divisor, width := power, places;
    assert [] + text == text;
    while width > 1 && fraction < divisor / 10
      invariant text == done + PrintedFraction(fraction, divisor, width) && position <= now < capacity
      invariant Appended(start, buffer[..], position, capacity, done, now) && buffer[now] == '\0'
    {
      ghost var before, middle := buffer[..], now;
      now := AppendChar(buffer, now, capacity, '0', true);
      AppendedTwice(start, before, buffer[..], position, middle, now, capacity, done, "0");
      ZeroStep(done, fraction, divisor, width);
      done := done + "0";
      divisor, width := divisor / 10, width - 1;
    }
    ghost var before, middle := buffer[..], now;
    NoMoreZeros(fraction, divisor, width);
    now := AppendU32(buffer, now, capacity, fraction);
    AppendedTwice(start, before, buffer[..], position, middle, now, capacity, done, Decimal(fraction));
  }

  /** Everything after the sign. */
  method AppendUnsigned(buffer: array<char>, position: nat, capacity: nat, magnitude: nat, divisor: nat) returns (now: nat)
    requires position < capacity <= buffer.Length
    requires magnitude < 0x1_0000_0000 && 0 < divisor < 0x1_0000_0000
    modifies buffer
    ensures position <= now < capacity
    ensures Appended(old(buffer[..]), buffer[..], position, capacity, PrintedUnsigned(magnitude, divisor), now)
    ensures buffer[now] == '\0'
  {
    hide Appended, Decimal, Kept, PrintedFraction, Quotient, Remainder, Places;
    ghost var a := buffer[..];
    now := AppendU32(buffer, position, capacity, Quotient(magnitude, divisor));
    ghost var b, p := buffer[..], now;
    now := AppendChar(buffer, now, capacity, '.', true);
    ghost var c, q := buffer[..], now;
    AppendedTwice(a, b, c, position, p, q, capacity, Decimal(Quotient(magnitude, divisor)), ".");
    var places := PlacesOf(divisor);
    now := AppendFraction(buffer, now, capacity, Remainder(magnitude, divisor), divisor, places);
    AppendedTwice(a, c, buffer[..], position, q, now, capacity, Decimal(Quotient(magnitude, divisor)) + ".",
                  PrintedFraction(Remainder(magnitude, divisor), divisor, places));
  }

  /** append_fixed_i32, for every int32 - the least one included - and every divisor. */
  method AppendFixed(buffer: array<char>, position: nat, capacity: nat, value: int, divisor: nat) returns (now: nat)
    requires position < capacity <= buffer.Length
    requires IsInt32(value) && 0 < divisor < 0x1_0000_0000
    modifies buffer
    ensures position <= now < capacity
    ensures Appended(old(buffer[..]), buffer[..], position, capacity, Printed(value, divisor), now) && buffer[now] == '\0'
  {
    NothingAppended(buffer[..], position, capacity);
    hide Appended, Kept, PrintedUnsigned;
    ghost var a := buffer[..];
    now := position;
    var magnitude := value;
    if value < 0 {
      now := AppendChar(buffer, now, capacity, '-', false);
      magnitude := -(value + 1) + 1;
    }
    ghost var b, middle := buffer[..], now;
    now := AppendUnsigned(buffer, now, capacity, magnitude, divisor);
    AppendedTwice(a, b, buffer[..], position, middle, now, capacity, Sign(value), PrintedUnsigned(magnitude, divisor));
  }
}
