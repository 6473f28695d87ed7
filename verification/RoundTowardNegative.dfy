/**
 The measured bf16 add rounding: truncate the bit pattern and add one when bits were lost and the
 sign is set.  Proved, for every mantissa width and every number of dropped bits, to be
 roundTowardNegative (section 4.3.2 of IEEE 754-2019): the greatest value of the short format that
 does not exceed the input, through subnormals, changes of exponent and overflow to -infinity.

 A bit pattern is a natural number: sign, then exponent, then mantissa.  Values are counted in
 units of the smallest subnormal of the long format.
 */
module RoundTowardNegative {
  function Pow2(n: nat): (p: nat)
    ensures p >= 1
  {
    if n == 0 then 1 else 2 * Pow2(n - 1)
  }

  /** `topExp` is the all-ones exponent; with an empty mantissa it stands for infinity. */
  datatype Format = Format(topExp: nat, mantissa: nat) {
    function Infinity(): int { topExp * Pow2(mantissa) }

    /** The weight of the sign bit. */
    function SignBit(): int { (topExp + 1) * Pow2(mantissa) }

    predicate IsBits(bits: nat) { bits < 2 * SignBit() }

    predicate Negative(bits: nat) { bits >= SignBit() }

    function Magnitude(bits: nat): int { if Negative(bits) then bits - SignBit() else bits }

    predicate IsNaN(bits: nat) { Magnitude(bits) > Infinity() }

    /** Keep the exponent, drop `k` bits of the mantissa. */
    function Shorten(k: nat): Format
      requires k <= mantissa
    {
      Format(topExp, mantissa - k)
    }
  }

  datatype Value = MinusInfinity | Finite(v: int) | PlusInfinity {
    predicate AtMost(y: Value) {
      MinusInfinity? || y.PlusInfinity? || (Finite? && y.Finite? && v <= y.v)
    }
  }

  /** The value of a finite magnitude: subnormals at exponent 0, a hidden leading one above. */
  function FiniteMagnitude(mantissa: nat, n: nat): nat {
    var e, f := Quotient(n, Pow2(mantissa)), n % Pow2(mantissa);
    if e == 0 then f else Product(Pow2(mantissa) + f, Pow2(e - 1))
  }

  function Quotient(n: nat, d: nat): nat
    requires d > 0
  {
    n / d
  }

  function Product(x: nat, y: nat): nat { x * y }

  /** The value of a pattern that is not a NaN, `unit` being what its smallest subnormal is worth. */
  function ValueOf(fmt: Format, bits: nat, unit: nat): Value
    requires fmt.IsBits(bits) && !fmt.IsNaN(bits)
  {
    var m := fmt.Magnitude(bits);
    if m == fmt.Infinity() then (if fmt.Negative(bits) then MinusInfinity else PlusInfinity)
    else
      var v := FiniteMagnitude(fmt.mantissa, m) * unit;
      Finite(if fmt.Negative(bits) then -v else v)
  }

  /** Truncate, and bump when something was lost below a set sign bit. */
  function Round(fmt: Format, k: nat, bits: nat): nat
    requires k <= fmt.mantissa
  {
    Quotient(bits, Pow2(k)) + if bits % Pow2(k) != 0 && fmt.Negative(bits) then 1 else 0
  }

  // ---------- powers and division ----------

  lemma {:induction false} Pow2Add(a: nat, b: nat)
    ensures Pow2(a + b) == Pow2(a) * Pow2(b)
  {
    if b != 0 {
      Pow2Add(a, b - 1);
      assert Pow2(a + b) == 2 * Pow2(a + (b - 1));
    }
  }

  lemma DivModUnique(n: nat, d: nat, q: nat, r: nat)
    requires d > 0 && r < d && n == q * d + r
    ensures n / d == q && n % d == r
  {
    var q', r' := n / d, n % d;
    assert n == q' * d + r';
    if q < q' {
      Gap(q, q', d);
      assert false;
    }
    if q' < q {
      Gap(q', q, d);
      assert false;
    }
  }

  lemma {:induction false} Gap(q: nat, q': nat, d: nat)
    requires q < q'
    ensures q' * d >= q * d + d
    decreases q'
  {
    var below := q' - 1;
    assert q' * d == below * d + d;
    if q < below { Gap(q, below, d); }
  }

  // ---------- magnitudes grow with their encoding ----------

  lemma FiniteMagnitudeAt(mantissa: nat, e: nat, f: nat)
    requires f < Pow2(mantissa)
    ensures FiniteMagnitude(mantissa, e * Pow2(mantissa) + f)
            == if e == 0 then f else Product(Pow2(mantissa) + f, Pow2(e - 1))
  {
    DivModUnique(e * Pow2(mantissa) + f, Pow2(mantissa), e, f);
  }

  /** The next encoding is a larger magnitude, also across a change of exponent. */
  lemma MagnitudeStep(mantissa: nat, n: nat)
    ensures FiniteMagnitude(mantissa, n) < FiniteMagnitude(mantissa, n + 1)
  {
    hide FiniteMagnitude, Pow2, Product;
    var p := Pow2(mantissa);
    var e, f := Split(n, p);
    FiniteMagnitudeAt(mantissa, e, f);
    if f + 1 < p {
      FiniteMagnitudeAt(mantissa, e, f + 1);
      if e != 0 { ProductGrows(p + f, p + (f + 1), Pow2(e - 1)); }
    } else {
      NextMultiple(e, p);
      FiniteMagnitudeAt(mantissa, e + 1, 0);
      if e == 0 {
        PowBase();
        ProductOne(p + 0);
      } else {
        PowNext(e);
        Crossing(p, f, Pow2(e - 1));
      }
    }
  }

  lemma Split(n: nat, d: nat) returns (q: nat, r: nat)
    requires d > 0
    ensures n == q * d + r && r < d && q == n / d && r == n % d
  {
    q, r := n / d, n % d;
  }

  lemma NextMultiple(e: int, p: int)
    ensures (e + 1) * p == e * p + p
  {
  }

  lemma PowBase()
    ensures Pow2(0) == 1
  {
  }

  lemma PowNext(e: nat)
    requires e > 0
    ensures Pow2(e) == 2 * Pow2(e - 1)
  {
  }

  lemma ProductOne(x: nat)
    ensures Product(x, 1) == x
  {
  }

  lemma ProductGrows(x: nat, y: nat, c: nat)
    requires x < y && c >= 1
    ensures Product(x, c) < Product(y, c)
  {
    ScaleOrder(x, y, c);
  }

  lemma Crossing(p: nat, f: nat, half: nat)
    requires f < p && half >= 1
    ensures Product(p + f, half) < Product(p + 0, 2 * half)
  {
    ScaleOrder(p + f, 2 * p, half);
    assert (2 * p) * half == p * (2 * half);
  }

  lemma {:induction false} MagnitudeMonotone(mantissa: nat, a: nat, b: nat)
    requires a <= b
    ensures FiniteMagnitude(mantissa, a) <= FiniteMagnitude(mantissa, b)
    ensures a < b ==> FiniteMagnitude(mantissa, a) < FiniteMagnitude(mantissa, b)
    decreases b - a
  {
    hide FiniteMagnitude;
    if a < b {
      MagnitudeMonotone(mantissa, a, b - 1);
      MagnitudeStep(mantissa, b - 1);
    }
  }

  lemma MagnitudeOfZero(mantissa: nat)
    ensures FiniteMagnitude(mantissa, 0) == 0
  {
  }

  /** Padding a short mantissa with `k` zero bits keeps the value. */
  lemma MagnitudeWidens(mantissa: nat, k: nat, n: nat)
    requires k <= mantissa
    ensures FiniteMagnitude(mantissa, n * Pow2(k)) == FiniteMagnitude(mantissa - k, n) * Pow2(k)
  {
    hide FiniteMagnitude, Pow2, Product;
    var j := mantissa - k;
    var p, u := Pow2(j), Pow2(k);
    var e, f := Split(n, p);
    Pow2Add(j, k);
    FiniteMagnitudeAt(j, e, f);
    WidenParts(e, p, f, u, n);
    FiniteMagnitudeAt(mantissa, e, f * u);
    if e != 0 { WidenProduct(p, f, u, Pow2(e - 1)); }
  }

  lemma WidenProduct(p: nat, f: nat, u: nat, w: nat)
    requires p * u >= 0 && f * u >= 0
    ensures Product(p * u + f * u, w) == Product(p + f, w) * u
  {
    assert p * u + f * u == (p + f) * u;
    Commute(p + f, u, w);
  }

  lemma Commute(x: nat, u: nat, w: nat)
    ensures (x * u) * w == (x * w) * u
  {
  }

  lemma WidenParts(e: nat, p: nat, f: nat, u: nat, n: nat)
    requires n == e * p + f && f < p && u >= 1
    ensures n * u == e * (p * u) + f * u && 0 <= f * u < p * u
  {
    ScaleOrder(f, p, u);
    ScaleOrder(0, f, u);
    assert (e * p + f) * u == (e * p) * u + f * u;
    Triple(e, p, u);
  }

  // ---------- signed encodings, and the order of their values ----------

  /** The magnitude with the sign attached; equal for both zeros. */
  function Key(fmt: Format, bits: nat): int {
    if fmt.Negative(bits) then -fmt.Magnitude(bits) else fmt.Magnitude(bits)
  }

  /** The value at a key, on the scale of the long format. */
  function ValueAt(fmt: Format, key: int, unit: nat): Value
    requires -fmt.Infinity() <= key <= fmt.Infinity()
  {
    if key == fmt.Infinity() && key > 0 then PlusInfinity
    else if key == -fmt.Infinity() && key < 0 then MinusInfinity
    else if key < 0 then Finite(-(FiniteMagnitude(fmt.mantissa, -key) * unit))
    else Finite(FiniteMagnitude(fmt.mantissa, key) * unit)
  }

  lemma ValueOfKey(fmt: Format, bits: nat, unit: nat)
    requires fmt.IsBits(bits) && !fmt.IsNaN(bits) && fmt.topExp > 0
    ensures -fmt.Infinity() <= Key(fmt, bits) <= fmt.Infinity()
    ensures ValueOf(fmt, bits, unit) == ValueAt(fmt, Key(fmt, bits), unit)
  {
    InfinityPositive(fmt);
    MagnitudeOfZero(fmt.mantissa);
  }

  lemma InfinityPositive(fmt: Format)
    requires fmt.topExp > 0
    ensures fmt.Infinity() > 0
    ensures fmt.SignBit() == fmt.Infinity() + Pow2(fmt.mantissa)
  {
    hide Pow2;
    NextMultiple(fmt.topExp, Pow2(fmt.mantissa));
    ScaleOrder(1, fmt.topExp, Pow2(fmt.mantissa));
  }

  /** Keys and values are ordered alike. */
  lemma ValueOrder(fmt: Format, a: int, b: int)
    requires -fmt.Infinity() <= a <= fmt.Infinity() && -fmt.Infinity() <= b <= fmt.Infinity()
    ensures ValueAt(fmt, a, 1).AtMost(ValueAt(fmt, b, 1)) <==> a <= b
  {
    hide FiniteMagnitude, Format.Infinity;
    var m := fmt.mantissa;
    MagnitudeOfZero(m);
    var x, y: nat := if a < 0 then -a else a, if b < 0 then -b else b;
    if x <= y { MagnitudeMonotone(m, x, y); } else { MagnitudeMonotone(m, y, x); }
    MagnitudeMonotone(m, 0, x);
    MagnitudeMonotone(m, 0, y);
  }

  /** A short pattern, read on the long scale, sits at `2^k` times its key. */
  lemma ShortValue(fmt: Format, k: nat, key: int)
    requires k <= fmt.mantissa
    requires -fmt.Shorten(k).Infinity() <= key <= fmt.Shorten(k).Infinity()
    ensures fmt.Infinity() == fmt.Shorten(k).Infinity() * Pow2(k)
    ensures -fmt.Infinity() <= key * Pow2(k) <= fmt.Infinity()
    ensures ValueAt(fmt.Shorten(k), key, Pow2(k)) == ValueAt(fmt, key * Pow2(k), 1)
  {
    hide FiniteMagnitude, Pow2, Format.Infinity;
    var u, short := Pow2(k), fmt.Shorten(k);
    ShortInfinity(fmt, k);
    ScaleOrder(key, short.Infinity(), u);
    ScaleOrder(-short.Infinity(), key, u);
    ScaleOrder(0, key, u);
    ScaleOrder(key, 0, u);
    assert (-short.Infinity()) * u == -(short.Infinity() * u);
    if key < 0 {
      MagnitudeWidens(fmt.mantissa, k, -key);
      assert (-key) * u == -(key * u);
    } else {
      MagnitudeWidens(fmt.mantissa, k, key);
    }
  }

  lemma ShortInfinity(fmt: Format, k: nat)
    requires k <= fmt.mantissa
    ensures fmt.Infinity() == fmt.Shorten(k).Infinity() * Pow2(k)
    ensures fmt.SignBit() == fmt.Shorten(k).SignBit() * Pow2(k)
  {
    var p, u := Pow2(fmt.mantissa - k), Pow2(k);
    Pow2Add(fmt.mantissa - k, k);
    Triple(fmt.topExp, p, u);
    Triple(fmt.topExp + 1, p, u);
  }

  lemma Triple(x: int, p: int, u: int)
    ensures x * (p * u) == (x * p) * u
  {
  }

  lemma ScaleOrder(a: int, b: int, u: int)
    requires u >= 1
    ensures a <= b <==> a * u <= b * u
    ensures a < b <==> a * u < b * u
    ensures a == b <==> a * u == b * u
  {
    if a < b { PositiveGap(a, b, u); }
    if b < a { PositiveGap(b, a, u); }
  }

  lemma PositiveGap(a: int, b: int, u: int)
    requires a < b && u >= 1
    ensures a * u < b * u
  {
    assert (b - a) * u == b * u - a * u;
    GapAtLeast(b - a, u);
  }

  lemma GapAtLeast(x: int, u: int)
    requires x >= 1 && u >= 1
    ensures x * u >= 1
  {
  }

  /** Floor division of a key, in terms of quotient and remainder of the magnitude. */
  lemma FloorKey(m: int, u: int)
    requires m >= 0 && u >= 1
    ensures (-m) / u == if m % u == 0 then -(m / u) else -(m / u) - 1
  {
    var q, r := m / u, m % u;
    if r == 0 {
      assert (-q) * u == -(q * u);
      FloorUnique(-m, u, -q, 0);
    } else {
      assert (-q - 1) * u == -(q * u) - u;
      FloorUnique(-m, u, -q - 1, u - r);
    }
  }

  lemma FloorUnique(n: int, d: int, q: int, r: int)
    requires d > 0 && 0 <= r < d && n == q * d + r
    ensures n / d == q
  {
    var q', r' := n / d, n % d;
    assert n == q' * d + r';
    ScaleOrder(q + 1, q', d);
    ScaleOrder(q' + 1, q, d);
    assert (q + 1) * d == q * d + d && (q' + 1) * d == q' * d + d;
  }

  /** Truncate-then-bump floors the key. */
  lemma RoundFloorsKey(fmt: Format, k: nat, bits: nat)
    requires k <= fmt.mantissa && fmt.topExp > 0 && fmt.IsBits(bits) && !fmt.IsNaN(bits)
    ensures var short, r := fmt.Shorten(k), Round(fmt, k, bits);
            && short.IsBits(r) && !short.IsNaN(r)
            && Key(short, r) == Key(fmt, bits) / Pow2(k)
  {
    hide Format.Infinity, Format.SignBit, Pow2;
    var short, u := fmt.Shorten(k), Pow2(k);
    var m: int := fmt.Magnitude(bits);
    ShortInfinity(fmt, k);
    InfinityPositive(fmt);
    InfinityPositive(short);
    FloorKey(m, u);
    QuotientBound(m, u, short.Infinity());
    if fmt.Negative(bits) { SignedQuotient(bits, short.SignBit(), u, m); }
  }

  lemma SignedQuotient(bits: int, s: int, u: int, m: int)
    requires u >= 1 && m >= 0 && bits == s * u + m
    ensures bits / u == s + m / u && bits % u == m % u
  {
    var q, r := m / u, m % u;
    assert (s + q) * u == s * u + q * u;
    assert m == q * u + r;
    FloorUnique(bits, u, s + q, r);
    assert bits == (bits / u) * u + bits % u;
  }

  lemma QuotientBound(m: int, u: int, top: int)
    requires u >= 1 && 0 <= m <= top * u
    ensures m / u <= top
    ensures m % u != 0 ==> m / u + 1 <= top
  {
    assert m == (m / u) * u + m % u;
    ScaleOrder(top + 1, m / u, u);
    ScaleOrder(top, m / u, u);
    assert (top + 1) * u == top * u + u;
  }

  // ---------- main results ----------

  /** The rounded pattern is a value of the short format, at most the input, and no other value of
      the short format (infinities and both zeros included) lies between them. */
  lemma GreatestNotAbove(fmt: Format, k: nat, bits: nat)
    requires k <= fmt.mantissa && fmt.topExp > 0 && fmt.IsBits(bits) && !fmt.IsNaN(bits)
    ensures var short, r, u := fmt.Shorten(k), Round(fmt, k, bits), Pow2(k);
            && short.IsBits(r) && !short.IsNaN(r)
            && ValueOf(short, r, u).AtMost(ValueOf(fmt, bits, 1))
            && forall c: nat :: short.IsBits(c) && !short.IsNaN(c)
                 && ValueOf(short, c, u).AtMost(ValueOf(fmt, bits, 1))
                 ==> ValueOf(short, c, u).AtMost(ValueOf(short, r, u))
  {
    hide ValueOf, ValueAt, Format.Infinity, Format.SignBit, FiniteMagnitude, Round, Key;
    var short, r, u := fmt.Shorten(k), Round(fmt, k, bits), Pow2(k);
    RoundFloorsKey(fmt, k, bits);
    ShortAgainstLong(fmt, k, r, bits);
    FloorBounds(Key(fmt, bits), u);
    forall c: nat | short.IsBits(c) && !short.IsNaN(c) && ValueOf(short, c, u).AtMost(ValueOf(fmt, bits, 1))
      ensures ValueOf(short, c, u).AtMost(ValueOf(short, r, u))
    {
      ShortAgainstLong(fmt, k, c, bits);
      ShortAgainstShort(fmt, k, c, r);
      FloorGreatest(Key(fmt, bits), u, Key(short, c));
    }
  }

  lemma FloorBounds(n: int, u: nat)
    requires u >= 1
    ensures (n / u) * u <= n
  {
  }

  lemma FloorGreatest(n: int, u: nat, c: int)
    requires u >= 1 && c * u <= n
    ensures c <= n / u
  {
    var q := n / u;
    assert n < (q + 1) * u by { assert n == q * u + n % u; }
    ScaleOrder(q + 1, c, u);
  }

  lemma ShortAgainstLong(fmt: Format, k: nat, c: nat, bits: nat)
    requires k <= fmt.mantissa && fmt.topExp > 0 && fmt.IsBits(bits) && !fmt.IsNaN(bits)
    requires fmt.Shorten(k).IsBits(c) && !fmt.Shorten(k).IsNaN(c)
    ensures ValueOf(fmt.Shorten(k), c, Pow2(k)).AtMost(ValueOf(fmt, bits, 1))
            <==> Key(fmt.Shorten(k), c) * Pow2(k) <= Key(fmt, bits)
  {
    hide ValueOf, ValueAt, Format.Infinity, Format.SignBit, FiniteMagnitude, Key;
    ValueOfKey(fmt.Shorten(k), c, Pow2(k));
    ValueOfKey(fmt, bits, 1);
    ShortValue(fmt, k, Key(fmt.Shorten(k), c));
    ValueOrder(fmt, Key(fmt.Shorten(k), c) * Pow2(k), Key(fmt, bits));
  }

  lemma ShortAgainstShort(fmt: Format, k: nat, c: nat, r: nat)
    requires k <= fmt.mantissa && fmt.topExp > 0
    requires fmt.Shorten(k).IsBits(c) && !fmt.Shorten(k).IsNaN(c)
    requires fmt.Shorten(k).IsBits(r) && !fmt.Shorten(k).IsNaN(r)
    ensures ValueOf(fmt.Shorten(k), c, Pow2(k)).AtMost(ValueOf(fmt.Shorten(k), r, Pow2(k)))
            <==> Key(fmt.Shorten(k), c) <= Key(fmt.Shorten(k), r)
  {
    hide ValueOf, ValueAt, Format.Infinity, Format.SignBit, FiniteMagnitude, Key;
    var short, u := fmt.Shorten(k), Pow2(k);
    ValueOfKey(short, c, u);
    ValueOfKey(short, r, u);
    ShortValue(fmt, k, Key(short, c));
    ShortValue(fmt, k, Key(short, r));
    ScaleOrder(Key(short, c), Key(short, r), u);
    ValueOrder(fmt, Key(short, c) * u, Key(short, r) * u);
  }

  /** Rounding never reverses an order. */
  lemma RoundMonotone(fmt: Format, k: nat, x: nat, y: nat)
    requires k <= fmt.mantissa && fmt.topExp > 0
    requires fmt.IsBits(x) && !fmt.IsNaN(x) && fmt.IsBits(y) && !fmt.IsNaN(y)
    requires ValueOf(fmt, x, 1).AtMost(ValueOf(fmt, y, 1))
    ensures var short, u := fmt.Shorten(k), Pow2(k);
            && short.IsBits(Round(fmt, k, x)) && !short.IsNaN(Round(fmt, k, x))
            && short.IsBits(Round(fmt, k, y)) && !short.IsNaN(Round(fmt, k, y))
            && ValueOf(short, Round(fmt, k, x), u).AtMost(ValueOf(short, Round(fmt, k, y), u))
  {
    hide ValueOf, Format.Infinity, Format.SignBit, FiniteMagnitude, Round, Pow2;
    GreatestNotAbove(fmt, k, x);
    GreatestNotAbove(fmt, k, y);
    var short, u := fmt.Shorten(k), Pow2(k);
    AtMostTransitive(ValueOf(short, Round(fmt, k, x), u), ValueOf(fmt, x, 1), ValueOf(fmt, y, 1));
  }

  lemma AtMostTransitive(x: Value, y: Value, z: Value)
    requires x.AtMost(y) && y.AtMost(z)
    ensures x.AtMost(z)
  {
  }

  // ---------- fp32 sums to bf16 ----------

  const FP32 := Format(255, 23)

  /** The measured rule on the bit pattern of the fp32 sum, with the 16-bit cast of the result. */
  function Bf16Rule(sum: nat): nat
    requires sum < 0x1_0000_0000
  {
    var frac := sum % 0x10000;
    var up := if frac != 0 && (sum / 0x8000_0000) % 2 == 1 then 1 else 0;
    (sum / 0x10000 + up) % 0x10000
  }

  /** The full hardware model: NaN sums give one pattern, zero sums lose their sign. */
  function Bf16Hardware(sum: nat): nat
    requires sum < 0x1_0000_0000
  {
    if FP32.IsNaN(sum) then 0x7f81
    else if FP32.Magnitude(sum) == 0 then 0
    else Bf16Rule(sum)
  }

  lemma Pow2Constants()
    ensures Pow2(16) == 0x10000 && Pow2(23) == 0x80_0000 && Pow2(7) == 0x80
  {
    assert Pow2(4) == 16;
    Pow2Add(4, 3);
    Pow2Add(4, 4);
    Pow2Add(8, 8);
    Pow2Add(16, 7);
    assert Pow2(3) == 8;
  }

  /** On every sum that is not a NaN the rule is the parametric rounding, and the cast loses nothing. */
  lemma Bf16RuleIsRound(sum: nat)
    requires sum < 0x1_0000_0000 && !FP32.IsNaN(sum)
    ensures FP32.IsBits(sum)
    ensures Bf16Rule(sum) == Round(FP32, 16, sum)
  {
    Pow2Constants();
  }

  /** On arbitrary 32-bit patterns the 16-bit cast changes the rounded pattern exactly for the NaNs whose
      upper half is all ones and whose lower half is not zero. */
  lemma Bf16CastWraps(sum: nat)
    requires sum < 0x1_0000_0000
    ensures Bf16Rule(sum) != Round(FP32, 16, sum) <==> sum > 0xFFFF_0000
    ensures sum > 0xFFFF_0000 ==> FP32.IsNaN(sum) && Bf16Rule(sum) == 0
  {
    Pow2Constants();
  }

  /** A bf16 pattern as the fp32 pattern of the same value. */
  function Widened(b: nat): nat { b * 0x10000 }

  /** A pattern a NaN sum may have: an operand's, with the quiet bit set, or a default one of either sign. */
  predicate NanSum(a: nat, b: nat, sum: nat) {
    || (exists x | x in [a, b] :: FP32.IsNaN(Widened(x)) && (sum == Widened(x) || sum == Widened(x) + 0x40_0000))
    || sum == 0x7FC0_0000 || sum == 0xFFC0_0000
  }

  /** Sums of two bf16 values are no such patterns: a NaN takes an operand's payload or the default one,
      so its low half is zero and the rule only drops it. */
  lemma NanSumKept(a: nat, b: nat, sum: nat)
    requires a < 0x1_0000 && b < 0x1_0000 && sum < 0x1_0000_0000 && FP32.IsNaN(sum) && NanSum(a, b, sum)
    ensures Bf16Rule(sum) == Round(FP32, 16, sum) && Widened(Bf16Rule(sum)) == sum
  {
    Pow2Constants();
    assert sum % 0x10000 == 0;
  }

  /** roundTowardNegative for the hardware model, on every sum that is not a NaN. */
  lemma Bf16RoundsTowardNegative(sum: nat)
    requires sum < 0x1_0000_0000 && !FP32.IsNaN(sum)
    ensures FP32.IsBits(sum)
    ensures var bf16, r := FP32.Shorten(16), Bf16Hardware(sum);
            && bf16.IsBits(r) && !bf16.IsNaN(r)
            && ValueOf(bf16, r, Pow2(16)).AtMost(ValueOf(FP32, sum, 1))
            && forall c: nat :: bf16.IsBits(c) && !bf16.IsNaN(c)
                 && ValueOf(bf16, c, Pow2(16)).AtMost(ValueOf(FP32, sum, 1))
                 ==> ValueOf(bf16, c, Pow2(16)).AtMost(ValueOf(bf16, r, Pow2(16)))
  {
    hide ValueOf;
    Bf16RuleIsRound(sum);
    GreatestNotAbove(FP32, 16, sum);
    if FP32.Magnitude(sum) == 0 { ZeroSum(sum); }
  }

  lemma ZeroSum(sum: nat)
    requires sum < 0x1_0000_0000 && FP32.Magnitude(sum) == 0
    ensures var bf16, r := FP32.Shorten(16), Round(FP32, 16, sum);
            && bf16.IsBits(r) && !bf16.IsNaN(r) && bf16.IsBits(0) && !bf16.IsNaN(0)
            && ValueOf(bf16, r, Pow2(16)) == ValueOf(bf16, 0, Pow2(16))
  {
    Pow2Constants();
  }

  /** The finite rule and the hardware model differ on NaNs and on minus zero, nowhere else. */
  lemma HardwareDiffersFromRule(sum: nat)
    requires sum < 0x1_0000_0000
    ensures !FP32.IsNaN(sum) ==> (Bf16Hardware(sum) != Bf16Rule(sum) <==> sum == 0x8000_0000)
    ensures FP32.IsNaN(sum) ==> Bf16Hardware(sum) == 0x7f81 && FP32.Shorten(16).IsNaN(0x7f81)
  {
    Pow2Constants();
  }
}
