/** The numbers of src/cJSON.c as texts: what parse_number reads and print_number writes.
    A number is mant * 10^exp, as every finite double is. */
module Decimals {
  type Char = c: int | 0 < c < 256 witness 32

  type Text = seq<Char>

  const MINUS: Char := 45
  const PLUS: Char := 43
  const POINT: Char := 46
  const ZERO: Char := 48
  const LETTER_E: Char := 101

  /** Characters as the numbers C has for them. */
  function Ascii(s: string): (t: Text)
    requires forall i :: 0 <= i < |s| ==> 0 < s[i] as int < 256
    ensures |t| == |s| && forall i :: 0 <= i < |s| ==> t[i] == s[i] as int
  {
    seq(|s|, i requires 0 <= i < |s| => s[i] as int)
  }

  /** The character at a place, 0 at the end. */
  function At(t: Text, i: nat): int { if i < |t| then t[i] else 0 }

  // ----- reading -----

  predicate IsDigit(c: int) { 48 <= c <= 57 }

  /** A run of digits read on from `n`. */
  function Digits(t: Text, n: nat): (r: (nat, Text))
    ensures |r.1| <= |t|
    ensures t != [] && IsDigit(t[0]) ==> |r.1| < |t|
  {
    if t != [] && IsDigit(t[0]) then Digits(t[1..], n * 10 + (At(t, 0) - 48)) else (n, t)
  }

  /** The exponent, if there is one. */
  function Exponent(t: Text): (r: (int, Text))
    ensures |r.1| <= |t|
  {
    if At(t, 0) != LETTER_E && At(t, 0) != 69 then (0, t)
    else if At(t, 1) == PLUS then Digits(t[2..], 0)
    else if At(t, 1) == MINUS then var d := Digits(t[2..], 0); var e: int := d.0; (-e, d.1)
    else Digits(t[1..], 0)
  }

  /** One zero, digits, a fraction and an exponent. */
  function ReadUnsigned(t: Text): (r: (nat, int, Text))
    ensures |r.2| <= |t| && (IsDigit(At(t, 0)) ==> |r.2| < |t|)
  {
    var t2 := if At(t, 0) == ZERO then t[1..] else t;
    var (n, t3) := if 49 <= At(t2, 0) <= 57 then Digits(t2, 0) else (0, t2);
    var (m, t4) := if At(t3, 0) == POINT && IsDigit(At(t3, 1)) then Digits(t3[1..], n) else (n, t3);
    var scale := if At(t3, 0) == POINT && IsDigit(At(t3, 1)) then |t4| - (|t3| - 1) else 0;
    var (e, t5) := Exponent(t4);
    (m, scale + e, t5)
  }

  /** parse_number: mantissa, exponent and the text after the number. */
  function ReadNumber(t: Text): (r: (int, int, Text))
    requires At(t, 0) == MINUS || IsDigit(At(t, 0))
    ensures |r.2| < |t|
  {
    var (m, e, rest) := ReadUnsigned(if t[0] == MINUS then t[1..] else t);
    (Signed(t[0] == MINUS, m), e, rest)
  }

  // ----- writing -----

  function Abs(n: int): nat { if n < 0 then -n else n }

  function Signed(negative: bool, n: int): int { if negative then -n else n }

  function Power(k: nat): (p: nat)
    ensures p >= 1
  {
    if k == 0 then 1 else 10 * Power(k - 1)
  }

  /** A number as a fraction. */
  function Numer(mant: int, exp: int): int { if exp >= 0 then mant * Power(exp) else mant }

  function Denom(exp: int): (d: nat)
    ensures d >= 1
  {
    if exp >= 0 then 1 else Power(-exp)
  }

  predicate SameValue(m: int, e: int, m': int, e': int) {
    Numer(m, e) * Denom(e') == Numer(m', e') * Denom(e)
  }

  /** The nearest whole number to a/d, the even one of two. */
  function Nearest(a: nat, d: nat): nat
    requires d >= 1
  {
    var q, r := a / d, a % d;
    if 2 * r < d || (2 * r == d && q % 2 == 0) then q else q + 1
  }

  /** 1 / DBL_EPSILON */
  const EPSILONS := 0x10_0000_0000_0000

  /** z is no further than DBL_EPSILON from n/d. */
  predicate Near(z: int, n: int, d: nat) { Abs(z * d - n) * EPSILONS <= d }

  /** The conversion of n/d to int. */
  function Truncated(n: int, d: nat): int
    requires d >= 1
  {
    Signed(n < 0, Abs(n) / d)
  }

  /** The test before %d. */
  predicate LikeInt(n: int, d: nat)
    requires d >= 1
  {
    Near(Truncated(n, d), n, d) && -0x8000_0000 * d <= n <= 0x7FFF_FFFF * d
  }

  /** The test before %e. */
  predicate FarOut(n: int, d: nat) { Abs(n) * 1_000_000 < d || Abs(n) > 1_000_000_000 * d }

  function Decimal(n: nat): (d: Text)
    ensures d != [] && forall i :: 0 <= i < |d| ==> IsDigit(d[i])
  {
    if n < 10 then [48 + n] else Decimal(n / 10) + [48 + n % 10]
  }

  /** The last w digits. */
  function Padded(x: nat, w: nat): (d: Text)
    ensures |d| == w && forall i :: 0 <= i < |d| ==> IsDigit(d[i])
  {
    if w == 0 then [] else Padded(x / 10, w - 1) + [48 + x % 10]
  }

  function Sign(negative: bool): Text { if negative then [MINUS] else [] }

  /** %d, and %.0f of a whole number. */
  function PrintInt(i: int): Text { Sign(i < 0) + Decimal(Abs(i)) }

  /** k millionths with six decimals. */
  function Millionths(k: nat): Text { Decimal(k / 1_000_000) + ([POINT] + Padded(k % 1_000_000, 6)) }

  /** %f */
  function PrintFixed(n: int, d: nat): Text
    requires d >= 1
  {
    Sign(n < 0) + Millionths(Nearest(Abs(n) * 1_000_000, d))
  }

  /** The first seven digits of a * 10^exp, rounded, as millionths, and the exponent that goes with them. */
  function Leading(a: nat, exp: int): (nat, int) {
    var l := |Decimal(a)|;
    var k := if l <= 7 then a * Power(7 - l) else Nearest(a, Power(l - 7));
    if k == 10_000_000 then (1_000_000, l + exp) else (k, l - 1 + exp)
  }

  /** An exponent has a sign and at least two digits. */
  function PrintExponent(x: int): Text {
    [LETTER_E, if x < 0 then MINUS else PLUS] + (if Abs(x) < 10 then [ZERO] else []) + Decimal(Abs(x))
  }

  /** %e */
  function PrintScience(mant: int, exp: int): Text {
    var (k, x) := Leading(Abs(mant), exp);
    Sign(mant < 0) + Millionths(k) + PrintExponent(x)
  }

  /** print_number */
  function NumberText(mant: int, exp: int): Text {
    var n, d := Numer(mant, exp), Denom(exp);
    if LikeInt(n, d) then PrintInt(Truncated(n, d))
    else if Near(n / d, n, d) then PrintInt(Signed(n < 0, Nearest(Abs(n), d)))
    else if FarOut(n, d) then PrintScience(mant, exp)
    else PrintFixed(n, d)
  }

  // ----- what is read back -----

  /** What parse_number makes of what print_number wrote. */
  function ReadBack(mant: int, exp: int): (int, int) {
    var n, d := Numer(mant, exp), Denom(exp);
    if LikeInt(n, d) then (Truncated(n, d), 0)
    else if Near(n / d, n, d) then (Signed(n < 0, Nearest(Abs(n), d)), 0)
    else if FarOut(n, d) then
      var (k, x) := Leading(Abs(mant), exp);
      (Signed(mant < 0, k), x - 6)
    else (Signed(n < 0, Nearest(Abs(n) * 1_000_000, d)), -6)
  }

  /** What may stand after a printed number without being read as part of it. */
  predicate EndsNumber(t: Text) {
    !IsDigit(At(t, 0)) && At(t, 0) != LETTER_E && At(t, 0) != 69 && !(At(t, 0) == POINT && IsDigit(At(t, 1)))
  }

  lemma {:induction false} DecimalStart(n: nat)
    ensures n > 0 ==> Decimal(n)[0] != ZERO
    ensures n == 0 ==> Decimal(n) == [ZERO]
  {
    if n >= 10 { DecimalStart(n / 10); }
  }

  lemma {:induction false} DecimalBack(n: nat, t: Text)
    ensures Digits(Decimal(n) + t, 0) == Digits(t, n)
  {
    if n < 10 {
      assert (Decimal(n) + t)[1..] == t;
    } else {
      var d: Text := [48 + n % 10];
      assert Decimal(n) + t == Decimal(n / 10) + (d + t);
      DecimalBack(n / 10, d + t);
      assert (d + t)[1..] == t;
    }
  }

  lemma {:induction false} PaddedBack(x: nat, w: nat, n: nat, t: Text)
    requires x < Power(w)
    ensures Digits(Padded(x, w) + t, n) == Digits(t, n * Power(w) + x)
  {
    if w == 0 {
      assert Padded(x, w) + t == t;
    } else {
      var d: Text := [48 + x % 10];
      PaddedStep(x, w, t);
      PaddedBack(x / 10, w - 1, n, d + t);
      DigitStep(n * Power(w - 1) + x / 10, x % 10, t);
      Shifted(n, Power(w - 1), x);
    }
  }

  lemma PaddedStep(x: nat, w: nat, t: Text)
    requires w > 0 && x < Power(w)
    ensures Padded(x, w) + t == Padded(x / 10, w - 1) + ([48 + x % 10] + t) && x / 10 < Power(w - 1)
  {
  }

  lemma DigitStep(n: nat, x: nat, t: Text)
    requires x < 10
    ensures Digits([48 + x] + t, n) == Digits(t, n * 10 + x)
  {
    assert ([48 + x] + t)[1..] == t;
  }

  lemma Shifted(n: nat, p: nat, x: nat)
    ensures (n * p + x / 10) * 10 + x % 10 == n * (10 * p) + x
  {
    assert n * (10 * p) == n * p * 10;
  }

  /** Past the digits of a whole part. */
  lemma WholeRead(q: nat, f: Text)
    requires !IsDigit(At(f, 0))
    ensures var t := Decimal(q) + f;
            var t2 := if At(t, 0) == ZERO then t[1..] else t;
            && IsDigit(At(t, 0))
            && (if 49 <= At(t2, 0) <= 57 then Digits(t2, 0) else (0, t2)) == (q, f)
  {
    var t := Decimal(q) + f;
    DecimalStart(q);
    DecimalBack(q, f);
    assert t[0] == Decimal(q)[0];
    if q == 0 { assert t[1..] == f; }
  }

  lemma WholeBack(q: nat, t: Text)
    requires EndsNumber(t)
    ensures ReadUnsigned(Decimal(q) + t) == (q, 0, t)
  {
    WholeRead(q, t);
    hide Digits, Decimal;
  }

  /** Six decimals and perhaps an exponent. */
  lemma MillionthsBack(k: nat, e: int, g: Text, t: Text)
    requires !IsDigit(At(g, 0)) && Exponent(g) == (e, t)
    ensures ReadUnsigned(Millionths(k) + g) == (k, e - 6, t)
  {
    hide *;
    var q, f := k / 1_000_000, [POINT] + (Padded(k % 1_000_000, 6) + g);
    MillionthsShape(k, g);
    FractionRead(k, q, k % 1_000_000, g);
    WholeRead(q, f);
    Unsigned(Decimal(q) + f, q, f, k, g, e, t);
  }

  lemma MillionthsShape(k: nat, g: Text)
    ensures var f := [POINT] + (Padded(k % 1_000_000, 6) + g);
            Millionths(k) + g == Decimal(k / 1_000_000) + f && !IsDigit(At(f, 0))
  {
    hide Decimal;
    var a, b, c := Decimal(k / 1_000_000), Padded(k % 1_000_000, 6), [POINT];
    assert a + (c + b) + g == a + (c + (b + g));
  }

  lemma FractionRead(k: nat, q: nat, x: nat, g: Text)
    requires !IsDigit(At(g, 0)) && k == q * 1_000_000 + x && x < 1_000_000
    ensures var f := [POINT] + (Padded(x, 6) + g);
            && At(f, 0) == POINT && IsDigit(At(f, 1)) && |f| == 7 + |g|
            && Digits(f[1..], q) == (k, g)
  {
    hide Padded, Power;
    var p := Padded(x, 6);
    var f := [POINT] + (p + g);
    assert f[1..] == p + g && f[1] == p[0];
    SevenDigits();
    PaddedBack(x, 6, q, g);
  }

  /** ReadUnsigned, once its parts are known. */
  lemma Unsigned(u: Text, q: nat, f: Text, k: nat, g: Text, e: int, t: Text)
    requires var t2 := if At(u, 0) == ZERO then u[1..] else u;
             (if 49 <= At(t2, 0) <= 57 then Digits(t2, 0) else (0, t2)) == (q, f)
    requires At(f, 0) == POINT && IsDigit(At(f, 1)) && |f| == 7 + |g| && Digits(f[1..], q) == (k, g)
    requires Exponent(g) == (e, t)
    ensures ReadUnsigned(u) == (k, e - 6, t)
  {
    hide Digits, Exponent;
  }

  lemma ExponentBack(x: int, t: Text)
    requires !IsDigit(At(t, 0))
    ensures Exponent(PrintExponent(x) + t) == (x, t) && !IsDigit(At(PrintExponent(x) + t, 0))
  {
    var a, g := Abs(x), PrintExponent(x) + t;
    DecimalBack(a, t);
    assert Digits(t, a) == (a, t);
    if a < 10 {
      assert g[2..] == [ZERO] + (Decimal(a) + t);
      assert ([ZERO] + (Decimal(a) + t))[1..] == Decimal(a) + t;
    } else {
      assert g[2..] == Decimal(a) + t;
    }
  }

  /** A sign in front. */
  lemma SignBack(negative: bool, u: Text, m: nat, e: int, t: Text)
    requires u != [] && IsDigit(u[0]) && ReadUnsigned(u + t) == (m, e, t)
    ensures var s := Sign(negative) + u + t;
            && (At(s, 0) == MINUS || IsDigit(At(s, 0))) && ReadNumber(s) == (Signed(negative, m), e, t)
  {
    hide ReadUnsigned;
    var s := Sign(negative) + u + t;
    if negative { assert s[1..] == u + t; } else { assert s == u + t; }
  }

  lemma IntBack(i: int, t: Text)
    requires EndsNumber(t)
    ensures var s := PrintInt(i) + t;
            (At(s, 0) == MINUS || IsDigit(At(s, 0))) && ReadNumber(s) == (i, 0, t)
  {
    hide ReadNumber, ReadUnsigned, Decimal;
    WholeBack(Abs(i), t);
    SignBack(i < 0, Decimal(Abs(i)), Abs(i), 0, t);
  }

  /** What print_number writes, parse_number reads back as `ReadBack` says, whatever follows that cannot
      extend a number. */
  lemma NumberBack(mant: int, exp: int, t: Text)
    requires EndsNumber(t)
    ensures var s, (m, e) := NumberText(mant, exp) + t, ReadBack(mant, exp);
            (At(s, 0) == MINUS || IsDigit(At(s, 0))) && ReadNumber(s) == (m, e, t)
  {
    hide ReadNumber, ReadUnsigned, Decimal, LikeInt, Near, FarOut, Nearest, Leading, Truncated, Numer, Denom, PrintInt,
      Millionths, PrintExponent, Exponent;
    var n, d := Numer(mant, exp), Denom(exp);
    if LikeInt(n, d) {
      IntBack(Truncated(n, d), t);
    } else if Near(n / d, n, d) {
      IntBack(Signed(n < 0, Nearest(Abs(n), d)), t);
    } else if FarOut(n, d) {
      var (k, x) := Leading(Abs(mant), exp);
      ExponentBack(x, t);
      MillionthsBack(k, x, PrintExponent(x) + t, t);
      MillionthsStart(k);
      var u := Millionths(k) + PrintExponent(x);
      assert u + t == Millionths(k) + (PrintExponent(x) + t);
      SignBack(mant < 0, u, k, x - 6, t);
      assert Sign(mant < 0) + u == NumberText(mant, exp);
    } else {
      var k := Nearest(Abs(n) * 1_000_000, d);
      NoExponent(t);
      MillionthsBack(k, 0, t, t);
      MillionthsStart(k);
      SignBack(n < 0, Millionths(k), k, -6, t);
    }
  }

  lemma NoExponent(t: Text)
    requires EndsNumber(t)
    ensures !IsDigit(At(t, 0)) && Exponent(t) == (0, t)
  {
  }

  lemma MillionthsStart(k: nat)
    ensures Millionths(k) != [] && IsDigit(Millionths(k)[0])
  {
  }

  // ----- what is lost -----

  lemma NearestIs(a: nat, d: nat)
    requires d >= 1
    ensures 2 * Abs(Nearest(a, d) * d - a) <= d
    ensures Nearest(a, d) * d == a <==> a % d == 0
  {
    var q, r := a / d, a % d;
    DivMod(a, d);
    assert (q + 1) * d == q * d + d;
    assert Nearest(a, d) * d - a == -r || Nearest(a, d) * d - a == d - r;
  }

  /** Halfway between two whole numbers it is the even one. */
  lemma TiesToEven(q: nat, d: nat)
    requires d >= 1
    ensures Nearest(2 * q * d + d, 2 * d) == if q % 2 == 0 then q else q + 1
  {
    assert q * (2 * d) + d == 2 * q * d + d;
    QuotientIs(2 * q * d + d, 2 * d, q, d);
  }

  lemma DivMod(a: nat, d: nat)
    requires d >= 1
    ensures a == a / d * d + a % d && 0 <= a % d < d
  {
  }

  lemma {:induction false} PowerAdd(j: nat, k: nat)
    ensures Power(j + k) == Power(j) * Power(k)
  {
    if j > 0 {
      PowerAdd(j - 1, k);
      Regroup(10, Power(j - 1), Power(k));
    }
  }

  lemma Regroup(a: int, b: int, c: int)
    ensures a * (b * c) == a * b * c
  {
  }

  /** k digits are enough just below 10^k. */
  lemma {:induction false} DecimalLength(n: nat, k: nat)
    requires k > 0
    ensures |Decimal(n)| <= k <==> n < Power(k)
  {
    if n >= 10 && k > 1 { DecimalLength(n / 10, k - 1); }
    if k == 1 { assert Power(1) == 10 * Power(0); }
  }

  /** The mantissa and exponent of %e: seven digits, exact if there are no more, else within half a unit of
      the seventh. */
  lemma LeadingIs(a: nat, exp: int)
    requires a > 0
    ensures var l, (k, x) := |Decimal(a)|, Leading(a, exp);
            && 1_000_000 <= k < 10_000_000
            && (l <= 7 ==> x - 6 <= exp && k == a * Power(exp - (x - 6)))
            && (l > 7 ==> x - 6 > exp && 2 * Abs(k * Power(x - 6 - exp) - a) <= Power(l - 7)
                          && (k * Power(x - 6 - exp) == a <==> a % Power(l - 7) == 0))
  {
    hide *;
    var l := |Decimal(a)|;
    DecimalLength(a, l);
    if l > 1 { DecimalLength(a, l - 1); }
    SevenDigits();
    if l <= 7 {
      PowerAdd(l - 1, 7 - l);
      PowerAdd(l, 7 - l);
      Between(Power(l - 1), a, Power(l), Power(7 - l));
      LeadingFew(a, exp);
    } else {
      PowerAdd(6, l - 7);
      PowerAdd(7, l - 7);
      LeadingMany(a, exp);
    }
  }

  lemma LeadingFew(a: nat, exp: int)
    requires |Decimal(a)| <= 7 && 1_000_000 <= a * Power(7 - |Decimal(a)|) < 10_000_000
    ensures Leading(a, exp) == (a * Power(7 - |Decimal(a)|), |Decimal(a)| - 1 + exp)
  {
    hide Power, Decimal;
  }

  lemma LeadingMany(a: nat, exp: int)
    requires |Decimal(a)| > 7 && 1_000_000 * Power(|Decimal(a)| - 7) <= a < 10_000_000 * Power(|Decimal(a)| - 7)
    ensures var l, (k, x) := |Decimal(a)|, Leading(a, exp);
            && 1_000_000 <= k < 10_000_000 && x - 6 > exp
            && 2 * Abs(k * Power(x - 6 - exp) - a) <= Power(l - 7)
            && (k * Power(x - 6 - exp) == a <==> a % Power(l - 7) == 0)
  {
    hide Power, Decimal, Nearest, Abs;
    var l := |Decimal(a)|;
    var p := Power(l - 7);
    NearestBetween(1_000_000, a, 10_000_000, p);
    NearestIs(a, p);
    SevenDigits();
    PowerAdd(1, l - 7);
    Regroup(1_000_000, 10, p);
  }

  lemma SevenDigits()
    ensures Power(0) == 1 && Power(1) == 10 && Power(6) == 1_000_000 && Power(7) == 10_000_000
  {
  }

  lemma Between(low: nat, a: nat, high: nat, p: nat)
    requires low <= a < high && p >= 1
    ensures low * p <= a * p < high * p
  {
  }

  lemma NearestBetween(low: nat, a: nat, high: nat, d: nat)
    requires d >= 1 && low * d <= a < high * d
    ensures low <= Nearest(a, d) <= high
  {
    DivMod(a, d);
    var q := a / d;
    TimesMonotone(q + 1, low, d);
    TimesMonotone(high, q, d);
    assert (q + 1) * d == q * d + d;
  }

  lemma TimesMonotone(a: nat, b: nat, c: nat)
    ensures a <= b ==> a * c <= b * c
  {
  }

  /** Numbers that print_number loses nothing of: whole ones, and others of at most six decimals in its %f range
      and of at most seven digits beyond it. */
  predicate Exact(mant: int, exp: int) {
    var n, d := Numer(mant, exp), Denom(exp);
    if LikeInt(n, d) || Near(n / d, n, d) then Abs(n) % d == 0
    else if FarOut(n, d) then
      var l := |Decimal(Abs(mant))|;
      l <= 7 || Abs(mant) % Power(l - 7) == 0
    else Abs(n) * 1_000_000 % d == 0
  }

  lemma Cancel(a: int, b: int, c: nat)
    requires c >= 1
    ensures a * c == b * c <==> a == b
  {
  }

  /** Values at two exponents. */
  lemma SameScaled(m: int, e: int, k: int, j: nat)
    ensures SameValue(m, e, k, e + j) <==> m == k * Power(j)
    ensures SameValue(k, e + j, m, e) <==> m == k * Power(j)
  {
    hide Power;
    Power0();
    if e >= 0 {
      PowerAdd(j, e);
      Regroup(k, Power(j), Power(e));
      Cancel(m, k * Power(j), Power(e));
    } else if e + j >= 0 {
      PowerAdd(e + j, -e);
      Regroup(k, Power(e + j), Power(-e));
    } else {
      PowerAdd(j, -(e + j));
      Regroup(k, Power(j), Power(-(e + j)));
      Cancel(m, k * Power(j), Power(-(e + j)));
    }
  }

  lemma Power0()
    ensures Power(0) == 1
  {
  }

  lemma SameWhole(m: int, e: int, z: int)
    ensures SameValue(m, e, z, 0) <==> Numer(m, e) == z * Denom(e)
  {
    Power0();
    hide Power;
  }

  lemma SameMillionths(m: int, e: int, k: int)
    ensures SameValue(m, e, k, -6) <==> Numer(m, e) * 1_000_000 == k * Denom(e)
  {
    SevenDigits();
    hide Power;
  }

  lemma SignedTimes(negative: bool, a: int, b: int)
    ensures Signed(negative, a) * b == Signed(negative, a * b)
  {
  }

  lemma SignedAbs(n: int, a: int)
    ensures Signed(n < 0, a) == n <==> a == Abs(n)
  {
  }

  lemma TruncatedExact(n: int, d: nat)
    requires d >= 1
    ensures n == Truncated(n, d) * d <==> Abs(n) % d == 0
  {
    hide Abs, Signed;
    DivMod(Abs(n), d);
    SignedTimes(n < 0, Abs(n) / d, d);
    SignedAbs(n, Abs(n) / d * d);
  }

  lemma NearestExact(n: int, d: nat, scale: nat)
    requires d >= 1 && scale >= 1
    ensures n * scale == Signed(n < 0, Nearest(Abs(n) * scale, d)) * d <==> Abs(n) * scale % d == 0
  {
    var k := Nearest(Abs(n) * scale, d);
    NearestIs(Abs(n) * scale, d);
    hide Nearest;
    SignedTimes(n < 0, k, d);
  }

  /** The exact condition: the number read back is the number that was printed if and only if none of it was lost. */
  lemma ReadExact(mant: int, exp: int)
    ensures var (m, e) := ReadBack(mant, exp); SameValue(mant, exp, m, e) <==> Exact(mant, exp)
  {
    hide SameValue, Numer, Denom, Near, Nearest, Leading, Power, Decimal, Truncated, FarOut, LikeInt;
    var n, d := Numer(mant, exp), Denom(exp);
    var (m, e) := ReadBack(mant, exp);
    if LikeInt(n, d) {
      SameWhole(mant, exp, m);
      TruncatedExact(n, d);
    } else if Near(n / d, n, d) {
      SameWhole(mant, exp, m);
      NearestExact(n, d, 1);
    } else if FarOut(n, d) {
      if mant == 0 { ZeroLikeInt(exp); }
      LeadingIs(Abs(mant), exp);
      ScienceExact(mant, exp);
    } else {
      SameMillionths(mant, exp, m);
      NearestExact(n, d, 1_000_000);
    }
  }

  lemma ZeroLikeInt(exp: int)
    ensures LikeInt(Numer(0, exp), Denom(exp))
  {
    var d := Denom(exp);
    hide Power, Denom;
    assert 0 / d == 0 && Truncated(0, d) == 0;
  }

  lemma ScienceExact(mant: int, exp: int)
    requires mant != 0
    ensures var (k, x), l := Leading(Abs(mant), exp), |Decimal(Abs(mant))|;
            SameValue(mant, exp, Signed(mant < 0, k), x - 6) <==> l <= 7 || Abs(mant) % Power(l - 7) == 0
  {
    hide SameValue, Leading, Power, Decimal;
    var (k, x) := Leading(Abs(mant), exp);
    var l := |Decimal(Abs(mant))|;
    LeadingIs(Abs(mant), exp);
    if l <= 7 {
      SameScaled(Signed(mant < 0, k), x - 6, mant, exp - (x - 6));
      SignedTimes(mant < 0, Abs(mant), Power(exp - (x - 6)));
    } else {
      SameScaled(mant, exp, Signed(mant < 0, k), x - 6 - exp);
      SignedTimes(mant < 0, k, Power(x - 6 - exp));
    }
  }

  /** How near what is read back is, whichever way it was written: within DBL_EPSILON of a whole number, within half
      a millionth, or within half a unit of the seventh digit. */
  lemma ReadNear(mant: int, exp: int)
    ensures var n, d, (m, e) := Numer(mant, exp), Denom(exp), ReadBack(mant, exp);
            if LikeInt(n, d) || Near(n / d, n, d) then e == 0 && Near(m, n, d)
            else if FarOut(n, d) then
              var l, a := |Decimal(Abs(mant))|, Abs(m);
              && 1_000_000 <= a < 10_000_000 && (m < 0 <==> mant < 0)
              && if l <= 7 then SameValue(mant, exp, m, e)
                 else e > exp && 2 * Abs(a * Power(e - exp) - Abs(mant)) <= Power(l - 7)
            else e == -6 && 2 * Abs(m * d - n * 1_000_000) <= d
  {
    hide SameValue, Numer, Denom, Near, Nearest, Leading, Power, Decimal, Truncated, FarOut, LikeInt;
    var n, d := Numer(mant, exp), Denom(exp);
    if LikeInt(n, d) {
      LikeIntNear(n, d);
    } else if Near(n / d, n, d) {
      WholeNear(n, d);
    } else if FarOut(n, d) {
      if mant == 0 { ZeroLikeInt(exp); }
      LeadingIs(Abs(mant), exp);
      ScienceExact(mant, exp);
    } else {
      NearestNear(n, d);
    }
  }

  /** A whole number without an exponent is read back as it was. */
  lemma WholeReadBack(mant: int)
    ensures ReadBack(mant, 0) == (mant, 0)
  {
    Power0();
    hide Power, LikeInt;
    assert Numer(mant, 0) == mant && Denom(0) == 1;
    ByOne(mant);
  }

  lemma ByOne(n: int)
    ensures n / 1 == n && Truncated(n, 1) == n && Near(n / 1, n, 1) && Signed(n < 0, Nearest(Abs(n), 1)) == n
  {
  }

  lemma LikeIntNear(n: int, d: nat)
    requires d >= 1 && LikeInt(n, d)
    ensures Near(Truncated(n, d), n, d)
  {
    hide Near, Truncated;
  }

  /** A number that near to the whole number below it is rounded to that one. */
  lemma WholeNear(n: int, d: nat)
    requires d >= 1 && Near(n / d, n, d)
    ensures Signed(n < 0, Nearest(Abs(n), d)) == n / d
  {
    var q, r := n / d, n % d;
    FloorMod(n, d);
    assert r * EPSILONS <= d;
    if n >= 0 {
      assert Nearest(n, d) == q;
    } else {
      NegatedFloor(n, d);
    }
  }

  lemma FloorMod(n: int, d: nat)
    requires d >= 1
    ensures n == n / d * d + n % d && 0 <= n % d < d
  {
  }

  /** The floor of a negative number is the ceiling of its magnitude. */
  lemma NegatedFloor(n: int, d: nat)
    requires d >= 1 && n < 0 && n % d * EPSILONS <= d
    ensures Nearest(-n, d) == -(n / d)
  {
    FloorMod(n, d);
    var q, r := n / d, n % d;
    assert -q * d == -(q * d) && (-q - 1) * d == -(q * d) - d;
    if r == 0 { QuotientIs(-n, d, -q, 0); } else { QuotientIs(-n, d, -q - 1, d - r); }
  }

  lemma QuotientIs(n: int, d: nat, q: int, r: nat)
    requires r < d && n == q * d + r
    ensures n / d == q && n % d == r
  {
    FloorMod(n, d);
    var p := n / d;
    StepUp(p, q, d);
    StepUp(q, p, d);
  }

  lemma StepUp(a: int, b: int, d: nat)
    ensures a < b ==> a * d + d <= b * d
  {
    if a < b {
      var k := b - a - 1;
      TimesMonotone(0, k, d);
      assert (a + 1 + k) * d == a * d + d + k * d;
    }
  }

  lemma NearestNear(n: int, d: nat)
    requires d >= 1
    ensures 2 * Abs(Signed(n < 0, Nearest(Abs(n) * 1_000_000, d)) * d - n * 1_000_000) <= d
  {
    var k := Nearest(Abs(n) * 1_000_000, d);
    NearestIs(Abs(n) * 1_000_000, d);
    hide Nearest;
    SignedTimes(n < 0, k, d);
  }

  // ----- how long it is -----

  /** print_number's larger buffer, and what fits it with its terminator. */
  const NUMBER_SIZE := 64

  predicate InBuffer(mant: int, exp: int) { |NumberText(mant, exp)| < NUMBER_SIZE }

  /** 21 characters are enough for any C int. */
  lemma IntFits(n: int, d: nat)
    requires d >= 1 && LikeInt(n, d)
    ensures |PrintInt(Truncated(n, d))| <= 11
  {
    var a := Abs(n) / d;
    DivMod(Abs(n), d);
    TimesMonotone(0x8000_0001, a, d);
    hide Power;
    TenDigits();
    DecimalLength(a, 10);
  }

  lemma TenDigits()
    ensures Power(9) == 1_000_000_000 && Power(10) == 10_000_000_000
  {
  }

  lemma IntLength(i: int, size: nat)
    requires size > 2
    ensures |PrintInt(i)| < size <==> if i < 0 then -i < Power(size - 2) else i < Power(size - 1)
  {
    hide Power, Decimal;
    DecimalLength(Abs(i), if i < 0 then size - 2 else size - 1);
  }

  lemma MillionthsLength(k: nat)
    ensures |Millionths(k)| == |Decimal(k / 1_000_000)| + 7
  {
  }

  /** Every number that print_number writes with %f or %e fits, and a whole one just when it has at most 63
      characters; the exponent of %e is taken to have at most fifty digits, where a double's has three. */
  lemma FitsJustWhen(mant: int, exp: int)
    requires Abs(Leading(Abs(mant), exp).1) < Power(50)
    ensures var n, d, z := Numer(mant, exp), Denom(exp), ReadBack(mant, exp).0;
            var whole := LikeInt(n, d) || Near(n / d, n, d);
            InBuffer(mant, exp)
            <==> whole ==> if z < 0 then -z < Power(62) else z < Power(63)
  {
    hide SameValue, Numer, Denom, Near, Nearest, Leading, Power, Decimal, Truncated, FarOut, LikeInt, PrintInt,
      Millionths, PrintExponent;
    var n, d := Numer(mant, exp), Denom(exp);
    if LikeInt(n, d) || Near(n / d, n, d) {
      IntLength(ReadBack(mant, exp).0, NUMBER_SIZE);
    } else if FarOut(n, d) {
      if mant == 0 { ZeroLikeInt(exp); }
      var (k, x) := Leading(Abs(mant), exp);
      LeadingIs(Abs(mant), exp);
      MillionthsLength(k);
      SevenDigits();
      DecimalLength(k / 1_000_000, 1);
      ExponentLength(x);
    } else {
      FixedFits(n, d);
    }
  }

  lemma ExponentLength(x: int)
    requires Abs(x) < Power(50)
    ensures |PrintExponent(x)| <= 53
  {
    hide Power, Decimal;
    DecimalLength(Abs(x), 50);
  }

  lemma FixedFits(n: int, d: nat)
    requires d >= 1 && !FarOut(n, d)
    ensures |PrintFixed(n, d)| <= 18
  {
    hide Power, Decimal, Nearest, Millionths;
    var a := Abs(n) * 1_000_000;
    NearestAtMost(a, d, 1_000_000_000_000_000);
    var k := Nearest(a, d);
    MillionthsLength(k);
    TenDigits();
    DecimalLength(k / 1_000_000, 10);
  }

  lemma NearestAtMost(a: nat, d: nat, most: nat)
    requires d >= 1 && a <= most * d
    ensures Nearest(a, d) <= most
  {
    DivMod(a, d);
    TimesMonotone(most, a / d, d);
    TimesMonotone(most + 1, a / d, d);
    assert (most + 1) * d == most * d + d;
    if a / d >= most { Cancel(a / d, most, d); }
  }

  /** A number that loses a digit: 0.1234567 is written 0.123457. */
  lemma DigitLost()
    ensures ReadBack(1_234_567, -7) == (123_457, -6) && !Exact(1_234_567, -7)
  {
    SevenDigits();
    hide Power, Decimal;
    assert Numer(1_234_567, -7) == 1_234_567 && Denom(-7) == 10_000_000;
    assert Truncated(1_234_567, 10_000_000) == 0 && 1_234_567 / 10_000_000 == 0;
    assert Nearest(1_234_567_000_000, 10_000_000) == 123_457;
  }

  /** A number that overruns its buffer: 10^63, of 64 digits. */
  lemma WholeTooLong()
    ensures !InBuffer(1, 63)
  {
    hide Power, Numer, Denom, NumberText, InBuffer, Near, Nearest, Truncated, PrintInt, Signed, Abs;
    var p := Power(63);
    OneTimes(63);
    ByOne(p);
    WholeText(1, 63);
    IntLength(p, NUMBER_SIZE);
    TextTooLong(1, 63);
  }

  lemma OneTimes(exp: nat)
    ensures Numer(1, exp) == Power(exp) && Denom(exp) == 1
  {
    hide Power;
  }

  /** Of a whole number all the digits are written, with %d or %.0f. */
  lemma WholeText(mant: int, exp: nat)
    requires var n := Numer(mant, exp);
             n / 1 == n && Truncated(n, 1) == n && Near(n / 1, n, 1) && Signed(n < 0, Nearest(Abs(n), 1)) == n
    requires Denom(exp) == 1
    ensures NumberText(mant, exp) == PrintInt(Numer(mant, exp))
  {
    hide Numer, Denom, Truncated, Nearest, PrintInt, LikeInt, Near, Signed, Abs;
  }

  lemma TextTooLong(mant: int, exp: int)
    requires |NumberText(mant, exp)| >= NUMBER_SIZE
    ensures !InBuffer(mant, exp)
  {
    hide NumberText;
  }

  // ----- which format it is -----

  /** No further than 2^-52 from a C int towards zero, or from the whole number below. */
  predicate Rounds(n: int, d: nat)
    requires d >= 1
  {
    || (-2_147_483_648 * d <= n <= 2_147_483_647 * d
        && Abs(Signed(n < 0, Abs(n) / d) * d - n) * 4_503_599_627_370_496 <= d)
    || n % d * 4_503_599_627_370_496 <= d
  }

  /** A number is written without a point just when it is that near to a whole one; otherwise it has an exponent
      just when it is below a millionth or above a milliard. */
  lemma FormatChosen(mant: int, exp: int)
    ensures var t, n, d := NumberText(mant, exp), Numer(mant, exp), Denom(exp);
            && ('.' as int in t <==> !Rounds(n, d))
            && ('e' as int in t <==> !Rounds(n, d) && (Abs(n) * 1_000_000 < d || Abs(n) > 1_000_000_000 * d))
  {
    var n, d := Numer(mant, exp), Denom(exp);
    RoundsIs(n, d);
    hide LikeInt, Near, FarOut, Numer, Denom, Nearest, Leading, Truncated, Rounds, PrintInt, Millionths, PrintExponent,
      Decimal;
    if LikeInt(n, d) {
      NoPoint(Truncated(n, d));
    } else if Near(n / d, n, d) {
      NoPoint(Signed(n < 0, Nearest(Abs(n), d)));
    } else if FarOut(n, d) {
      var (k, x) := Leading(Abs(mant), exp);
      OnePoint(k);
      OneE(x);
      assert NumberText(mant, exp) == Sign(mant < 0) + Millionths(k) + PrintExponent(x);
    } else {
      var k := Nearest(Abs(n) * 1_000_000, d);
      OnePoint(k);
      assert NumberText(mant, exp) == Sign(n < 0) + Millionths(k);
    }
  }

  lemma RoundsIs(n: int, d: nat)
    requires d >= 1
    ensures Rounds(n, d) <==> LikeInt(n, d) || Near(n / d, n, d)
    ensures FarOut(n, d) <==> Abs(n) * 1_000_000 < d || Abs(n) > 1_000_000_000 * d
  {
    FloorMod(n, d);
    var q := n / d;
    assert Abs(q * d - n) == n % d;
  }

  lemma NoPoint(i: int)
    ensures '.' as int !in PrintInt(i) && 'e' as int !in PrintInt(i)
  {
    var d := Decimal(Abs(i));
    assert forall k :: 0 <= k < |d| ==> IsDigit(d[k]);
    hide Decimal;
  }

  lemma OnePoint(k: nat)
    ensures '.' as int in Millionths(k) && 'e' as int !in Millionths(k)
  {
    var a, b := Decimal(k / 1_000_000), Padded(k % 1_000_000, 6);
    assert forall j :: 0 <= j < |a| ==> IsDigit(a[j]);
    assert forall j :: 0 <= j < |b| ==> IsDigit(b[j]);
    hide Decimal, Padded;
    assert Millionths(k)[|a|] == POINT;
  }

  lemma OneE(x: int)
    ensures 'e' as int in PrintExponent(x)
  {
    assert PrintExponent(x)[0] == LETTER_E;
  }

  /** A half and a ten millionth, as they are written. */
  lemma HalfWritten()
    ensures NumberText(-5, -1) == Ascii("-0.500000")
  {
    HalfFixed();
    HalfMillionths();
    hide NumberText, Millionths;
    assert [MINUS] + [48, POINT, 53, 48, 48, 48, 48, 48] == Ascii("-0.500000");
  }

  lemma HalfFixed()
    ensures NumberText(-5, -1) == [MINUS] + Millionths(500_000)
  {
    assert Power(1) == 10 * Power(0) == 10;
    hide Power, Millionths;
    assert Numer(-5, -1) == -5 && Denom(-1) == 10 && Truncated(-5, 10) == 0 && -5 / 10 == -1;
    assert Nearest(5_000_000, 10) == 500_000;
  }

  lemma HalfMillionths()
    ensures Millionths(500_000) == [48, POINT, 53, 48, 48, 48, 48, 48]
  {
    SixOf(500_000);
    hide Padded;
  }

  lemma SixOf(x: nat)
    ensures Padded(x, 6) == [48 + x / 100_000 % 10, 48 + x / 10_000 % 10, 48 + x / 1000 % 10, 48 + x / 100 % 10,
                             48 + x / 10 % 10, 48 + x % 10]
  {
    var a, b, c, d, e := x / 10, x / 100, x / 1000, x / 10_000, x / 100_000;
    assert a / 10 == b && b / 10 == c && c / 10 == d && d / 10 == e;
    assert Padded(e / 10, 0) == [];
    assert Padded(e, 1) == [48 + e % 10];
    assert Padded(d, 2) == [48 + e % 10, 48 + d % 10];
    assert Padded(c, 3) == [48 + e % 10, 48 + d % 10, 48 + c % 10];
    assert Padded(b, 4) == [48 + e % 10, 48 + d % 10, 48 + c % 10, 48 + b % 10];
    assert Padded(a, 5) == [48 + e % 10, 48 + d % 10, 48 + c % 10, 48 + b % 10, 48 + a % 10];
  }

  lemma TenMillionthWritten()
    ensures NumberText(1, -7) == Ascii("1.000000e-07")
  {
    SevenDigits();
    hide Power;
    assert Decimal(1) == [49] && Decimal(7) == [55];
    assert Numer(1, -7) == 1 && Denom(-7) == 10_000_000 && Truncated(1, 10_000_000) == 0 && 1 / 10_000_000 == 0;
    assert Leading(1, -7) == (1_000_000, -7);
    SixOf(0);
    hide Numer, Denom, Leading, Padded, Decimal, Truncated, Near;
    assert Millionths(1_000_000) == [49, 46, 48, 48, 48, 48, 48, 48];
    assert PrintExponent(-7) == [101, 45, 48, 55];
    hide Millionths, PrintExponent;
  }
}
