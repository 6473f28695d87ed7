/**
 The int8 matrix path over the reals: weights packed with one symmetric scale, activations
 quantised with a given scale and saturated, an exact integer product over the padded depth, and
 the result scaled back; with the error of every output bounded.
 */
module Int8Gemm {
  import opened Reals

  /** A float as the packing code sees it. */
  datatype Num = Finite(r: real) | NotFinite

  function Abs(x: real): real { if x >= 0.0 then x else -x }

  /** Round half away from zero. */
  function Round(x: real): int { if x >= 0.0 then (x + 0.5).Floor else -((-x + 0.5).Floor) }

  function Clamp(x: int): int { if x > 127 then 127 else if x < -127 then -127 else x }

  function ValueOf(v: Num): real { if v.Finite? then v.r else 0.0 }

  // ---------- weights ----------

  /** The largest finite magnitude, at least `low`. */
  ghost predicate IsLargest(w: seq<Num>, m: real, low: real) {
    && m >= low
    && (forall i | 0 <= i < |w| && w[i].Finite? :: Abs(w[i].r) <= m)
    && (m == low || exists i :: 0 <= i < |w| && w[i].Finite? && Abs(w[i].r) == m)
  }

  const TINY: real := 0.000000000001

  /** A grid point as a real. */
  function Grid(q: int, scale: real): real { q as real * scale }

  /** `q` is within half a step of `v`. */
  predicate Near(v: real, q: int, scale: real) { Abs(v - Grid(q, scale)) <= scale / 2.0 }

  /** What packing promises of one weight: the rounded quotient, unclamped, within half a step. */
  predicate Packed(v: real, q: int, scale: real) {
    scale > 0.0 && q == Round(v / scale) && -127 <= q <= 127 && Near(v, q, scale)
  }

  /** Packs the weights and returns their common scale. The clamp is part of the code; the contract
      shows that it never changes anything and that each weight is within half a step. */
  method PackB(w: seq<Num>, b: array<int>) returns (scale: real)
    requires b.Length >= |w|
    modifies b
    ensures scale > 0.0
    ensures exists amax :: IsLargest(w, amax, 0.0) && scale == (if amax < 0.000000000001 then 1.0 else amax) / 127.0
    ensures forall i | 0 <= i < |w| :: Packed(if w[i].Finite? then w[i].r else 0.0, b[i], scale)
  {
    hide Round, Packed, IsLargest, Clamp;
    var amax := 0.0;
    NothingLargest(w[..0]);
    for i := 0 to |w|
      invariant IsLargest(w[..i], amax, 0.0)
    {
      LargestStep(w, i, amax);
      if w[i].Finite? && Abs(w[i].r) > amax { amax := Abs(w[i].r); }
    }
    assert w[..|w|] == w;
    ghost var largest := amax;
    LargestBounds(w, largest);
    if amax < TINY { amax := 1.0; }
    scale := amax / 127.0;
    var inverse := 127.0 / amax;
    for i := 0 to |w|
      invariant forall j | 0 <= j < i :: Packed(ValueOf(w[j]), b[j], scale)
    {
      var v := ValueOf(w[i]);
      var x := v * inverse;
      var q := Clamp(Round(x));
      WeightStep(v, amax, scale, inverse, x, q);
      b[i] := q;
    }
  }

  lemma NothingLargest(w: seq<Num>)
    requires w == []
    ensures IsLargest(w, 0.0, 0.0)
  {
  }

  lemma LargestBounds(w: seq<Num>, m: real)
    requires IsLargest(w, m, 0.0)
    ensures m >= 0.0 && forall i | 0 <= i < |w| :: Abs(ValueOf(w[i])) <= m
  {
  }

  lemma LargestStep(w: seq<Num>, i: nat, m: real)
    requires i < |w| && IsLargest(w[..i], m, 0.0)
    ensures var a := if w[i].Finite? then Abs(w[i].r) else 0.0;
            IsLargest(w[..i + 1], if w[i].Finite? && a > m then a else m, 0.0)
  {
    var a := if w[i].Finite? then Abs(w[i].r) else 0.0;
    var front, all := w[..i], w[..i + 1];
    assert forall j | 0 <= j < i :: all[j] == front[j];
    assert all[i] == w[i];
    if !(w[i].Finite? && a > m) && m != 0.0 {
      var j :| 0 <= j < |front| && front[j].Finite? && Abs(front[j].r) == m;
      assert all[j].Finite? && Abs(all[j].r) == m;
    }
  }

  /** What one weight becomes. */
  lemma WeightStep(v: real, amax: real, scale: real, inverse: real, x: real, q: int)
    requires amax > 0.0 && Abs(v) <= amax && scale == amax / 127.0 && inverse == 127.0 / amax
    requires x == v * inverse && q == Clamp(Round(x))
    ensures Packed(v, q, scale)
  {
    hide Round, Near;
    Inverse(v, amax, scale, inverse);
    Within127(v, scale);
    RoundBounded(v / scale);
    HalfStep(v, scale);
  }

  lemma Inverse(v: real, amax: real, scale: real, inverse: real)
    requires amax > 0.0 && scale == amax / 127.0 && inverse == 127.0 / amax
    ensures scale > 0.0 && v * inverse == v / scale && amax == 127.0 * scale
  {
    assert amax == 127.0 * scale;
    assert inverse * amax == 127.0;
    var q := v * inverse;
    assert q * scale == v by {
      assert q * amax == v * (inverse * amax);
      assert q * amax == 127.0 * (q * scale);
    }
    QuotientIs(v, scale, q);
  }

  lemma QuotientIs(x: real, d: real, q: real)
    requires d != 0.0 && q * d == x
    ensures x / d == q
  {
  }

  lemma Within127(v: real, scale: real)
    requires scale > 0.0 && Abs(v) <= 127.0 * scale
    ensures -127.0 <= v / scale <= 127.0
  {
    var q := v / scale;
    assert q * scale == v;
    if q > 127.0 {
      Grow(127.0, q, scale);
      assert false;
    }
    if q < -127.0 {
      Grow(q, -127.0, scale);
      assert false;
    }
  }

  lemma Grow(x: real, y: real, s: real)
    requires x < y && s > 0.0
    ensures x * s < y * s
  {
    assert (y - x) * s > 0.0;
  }

  /** Rounding takes the nearest integer, and of two equally near ones the one further from zero. */
  lemma RoundIsNearest(x: real, n: int)
    ensures Abs(x - Round(x) as real) <= Abs(x - n as real)
    ensures Abs(x - Round(x) as real) == Abs(x - n as real) && n != Round(x) ==> Abs(n as real) < Abs(Round(x) as real)
  {
    var r := Round(x);
    if x >= 0.0 {
      assert r as real <= x + 0.5 < r as real + 1.0;
    } else {
      assert (-r) as real <= -x + 0.5 < (-r) as real + 1.0;
      assert (-r) as real == -(r as real);
    }
    if n < r { assert n as real <= r as real - 1.0; }
    if n > r { assert n as real >= r as real + 1.0; }
  }

  lemma RoundNear(x: real)
    ensures Abs(x - Round(x) as real) <= 0.5
  {
  }

  lemma RoundBounded(x: real)
    requires -127.0 <= x <= 127.0
    ensures -127 <= Round(x) <= 127
  {
  }

  /** Rounding to the grid of `scale` moves a value by at most half a step. */
  lemma HalfStep(v: real, scale: real)
    requires scale > 0.0
    ensures Near(v, Round(v / scale), scale)
  {
    hide Round;
    var q, r := v / scale, Round(v / scale) as real;
    RoundNear(q);
    assert q * scale == v;
    ScaleGap(q - r, scale);
    assert (q - r) * scale == v - r * scale;
  }

  lemma ScaleGap(d: real, s: real)
    requires Abs(d) <= 0.5 && s > 0.0
    ensures Abs(d * s) <= s / 2.0
  {
    if d >= 0.0 {
      ProductNonNegative(0.5 - d, s);
      ProductNonNegative(d, s);
    } else {
      ProductNonNegative(0.5 + d, s);
      ProductNonNegative(-d, s);
    }
  }

  // ---------- activations ----------

  function Quantised(v: Num, scale: real): int
    requires scale > 0.0
  {
    Clamp(Round(Times(ValueOf(v), 1.0 / scale)))
  }

  function Times(x: real, y: real): real { x * y }

  /** Fills the padded activation buffer, row by row: quantised values in the first `ak` columns, zeros after. */
  method Quantise(a: seq<seq<Num>>, ak: nat, depth: nat, scale: real, buffer: array2<int>)
    requires ak <= depth && scale > 0.0 && forall m | 0 <= m < |a| :: |a[m]| == ak
    requires buffer.Length0 >= |a| && buffer.Length1 == depth
    modifies buffer
    ensures forall m, k | 0 <= m < |a| && 0 <= k < ak :: buffer[m, k] == Quantised(a[m][k], scale)
    ensures forall m, k | 0 <= m < |a| && ak <= k < depth :: buffer[m, k] == 0
  {
    hide Quantised;
    Clear(buffer, |a|);
    for m := 0 to |a|
      invariant forall i, k | 0 <= i < m && 0 <= k < ak :: buffer[i, k] == Quantised(a[i][k], scale)
      invariant forall i, k | 0 <= i < |a| && ak <= k < depth :: buffer[i, k] == 0
    {
      for k := 0 to ak
        invariant forall i, j | 0 <= i < m && 0 <= j < ak :: buffer[i, j] == Quantised(a[i][j], scale)
        invariant forall j | 0 <= j < k :: buffer[m, j] == Quantised(a[m][j], scale)
        invariant forall i, j | 0 <= i < |a| && ak <= j < depth :: buffer[i, j] == 0
      {
        buffer[m, k] := Quantised(a[m][k], scale);
      }
    }
  }

  method Clear(buffer: array2<int>, rows: nat)
    requires rows <= buffer.Length0
    modifies buffer
    ensures forall m, k | 0 <= m < rows && 0 <= k < buffer.Length1 :: buffer[m, k] == 0
  {
    for m := 0 to rows
      invariant forall i, k | 0 <= i < m && 0 <= k < buffer.Length1 :: buffer[i, k] == 0
    {
      for k := 0 to buffer.Length1
        invariant forall i, j | 0 <= i < m && 0 <= j < buffer.Length1 :: buffer[i, j] == 0
        invariant forall j | 0 <= j < k :: buffer[m, j] == 0
      {
        buffer[m, k] := 0;
      }
    }
  }

  /** Inside the range the scale was made for, quantising loses at most half a step. */
  lemma QuantisedNear(v: Num, scale: real)
    requires scale > 0.0 && Abs(ValueOf(v)) <= 127.0 * scale
    ensures Near(ValueOf(v), Quantised(v, scale), scale)
  {
    hide Round, Near, Quantised, ValueOf;
    var x := ValueOf(v);
    QuantisedIs(v, scale);
    Within127(x, scale);
    RoundBounded(x / scale);
    HalfStep(x, scale);
  }

  lemma QuantisedIs(v: Num, scale: real)
    requires scale > 0.0
    ensures Quantised(v, scale) == Clamp(Round(ValueOf(v) / scale))
  {
    hide Round, ValueOf, Times;
    Reciprocal(ValueOf(v), scale);
  }

  lemma Reciprocal(x: real, scale: real)
    requires scale > 0.0
    ensures Times(x, 1.0 / scale) == x / scale && Times(x, 1.0 / scale) * scale == x
  {
    var inverse := 1.0 / scale;
    assert inverse * scale == 1.0;
    assert (x * inverse) * scale == x * (inverse * scale);
    QuotientIs(x, scale, x * inverse);
  }

  /** Outside that range values saturate to the end of the grid on their own side. */
  lemma QuantisedSaturates(v: Num, scale: real)
    requires scale > 0.0
    ensures ValueOf(v) >= 127.0 * scale ==> Quantised(v, scale) == 127
    ensures ValueOf(v) <= -127.0 * scale ==> Quantised(v, scale) == -127
  {
    var x := ValueOf(v);
    var q := Times(x, 1.0 / scale);
    Reciprocal(x, scale);
    if x >= 127.0 * scale && q < 127.0 {
      Grow(q, 127.0, scale);
      assert false;
    }
    if x <= -127.0 * scale && q > -127.0 {
      Grow(-127.0, q, scale);
      assert false;
    }
    if x >= 127.0 * scale { RoundAtLeast(q); }
    if x <= -127.0 * scale { RoundAtMost(q); }
  }

  lemma RoundAtLeast(q: real)
    requires q >= 127.0
    ensures Round(q) >= 127
  {
  }

  lemma RoundAtMost(q: real)
    requires q <= -127.0
    ensures Round(q) <= -127
  {
  }

  // ---------- one output ----------

  function IntColumn(x: seq<int>, y: seq<int>, k: nat): int
    requires k < |x| && k < |y|
  {
    x[k] * y[k]
  }

  function Column(x: seq<real>, y: seq<real>, k: nat): real
    requires k < |x| && k < |y|
  {
    x[k] * y[k]
  }

  predicate Close(x: real, y: real, bound: real) { Abs(x - y) <= bound }

  /** The exact integer product of two rows over the first `n` columns. */
  function IntDot(x: seq<int>, y: seq<int>, n: nat): int
    requires n <= |x| && n <= |y|
  {
    if n == 0 then 0 else IntDot(x, y, n - 1) + IntColumn(x, y, n - 1)
  }

  /** The error one column can contribute. */
  function ColumnBound(x: real, y: real, sa: real, sb: real): real {
    Abs(x) * sb / 2.0 + Abs(y) * sa / 2.0 + sa * sb / 4.0
  }

  function ErrorBound(x: seq<real>, y: seq<real>, sa: real, sb: real, n: nat): real
    requires n <= |x| && n <= |y|
  {
    if n == 0 then 0.0 else ErrorBound(x, y, sa, sb, n - 1) + ColumnBound(x[n - 1], y[n - 1], sa, sb)
  }

  /** Columns where the activations are padded with zeros contribute nothing, whatever the other side holds there. */
  lemma {:induction false} PaddingIsNeutral(x: seq<int>, y: seq<int>, n: nat, depth: nat)
    requires n <= depth <= |x| && depth <= |y| && forall k | n <= k < depth :: x[k] == 0
    ensures IntDot(x, y, depth) == IntDot(x, y, n)
    decreases depth
  {
    if n < depth { PaddingIsNeutral(x, y, n, depth - 1); }
  }

  /** The error of a product of two approximations. */
  lemma ProductError(x: real, y: real, u: real, v: real, sa: real, sb: real)
    requires sa >= 0.0 && sb >= 0.0 && Abs(x - u) <= sa / 2.0 && Abs(y - v) <= sb / 2.0
    ensures Abs(x * y - u * v) <= ColumnBound(x, y, sa, sb)
  {
    hide Abs;
    var dx, dy := x - u, y - v;
    var a, b, c := x * dy, y * dx, dx * dy;
    AbsProduct(x, dy, sb / 2.0, a, Abs(x) * (sb / 2.0));
    AbsProduct(y, dx, sa / 2.0, b, Abs(y) * (sa / 2.0));
    AbsProduct2(dx, dy, sa / 2.0, sb / 2.0, c, (sa / 2.0) * (sb / 2.0));
    Expand(x, y, u, v, dx, dy);
    ThreeTerms(x * y - u * v, a, b, c, Abs(x) * (sb / 2.0), Abs(y) * (sa / 2.0), (sa / 2.0) * (sb / 2.0));
    Halves(Abs(x), Abs(y), sa, sb);
  }

  lemma Expand(x: real, y: real, u: real, v: real, dx: real, dy: real)
    requires dx == x - u && dy == y - v
    ensures x * y - u * v == x * dy + y * dx - dx * dy
  {
  }

  lemma Halves(x: real, y: real, sa: real, sb: real)
    ensures x * (sb / 2.0) + y * (sa / 2.0) + (sa / 2.0) * (sb / 2.0) == x * sb / 2.0 + y * sa / 2.0 + sa * sb / 4.0
  {
  }

  lemma ThreeTerms(e: real, a: real, b: real, c: real, x: real, y: real, z: real)
    requires e == a + b - c && Abs(a) <= x && Abs(b) <= y && Abs(c) <= z
    ensures Abs(e) <= x + y + z
  {
  }

  lemma AbsProduct(x: real, d: real, bound: real, p: real, b: real)
    requires Abs(d) <= bound && p == x * d && b == Abs(x) * bound
    ensures Abs(p) <= b
  {
    AbsTimes(x, d);
    ProductNonNegative(Abs(x), bound - Abs(d));
  }

  lemma AbsTimes(x: real, y: real)
    ensures Abs(x * y) == Abs(x) * Abs(y)
  {
    if x >= 0.0 && y >= 0.0 { ProductNonNegative(x, y); }
    else if x >= 0.0 { ProductNonNegative(x, -y); }
    else if y >= 0.0 { ProductNonNegative(-x, y); }
    else { ProductNonNegative(-x, -y); }
  }

  lemma AbsProduct2(x: real, y: real, a: real, b: real, p: real, ab: real)
    requires Abs(x) <= a && Abs(y) <= b && p == x * y && ab == a * b
    ensures Abs(p) <= ab
  {
    AbsTimes(x, y);
    ProductNonNegative(a - Abs(x), b);
    ProductNonNegative(Abs(x), b - Abs(y));
  }

  lemma ScaledProduct(qx: int, qy: int, sa: real, sb: real)
    ensures Grid(qx, sa) * Grid(qy, sb) == Grid(qx * qy, sa * sb)
  {
    assert (qx * qy) as real == qx as real * qy as real;
    FourFactors(qx as real, qy as real, sa, sb);
  }

  lemma FourFactors(p: real, q: real, a: real, b: real)
    ensures (p * a) * (q * b) == (p * q) * (a * b)
  {
  }

  lemma GridAdd(x: int, y: int, s: real)
    ensures Grid(x + y, s) == Grid(x, s) + Grid(y, s) && Grid(0, s) == 0.0
  {
    assert (x + y) as real == x as real + y as real;
  }

  /** Every output of the scaled integer product is within the summed column bounds of the true one. */
  lemma {:induction false} GemmError(x: seq<real>, y: seq<real>, qx: seq<int>, qy: seq<int>, sa: real, sb: real, n: nat)
    requires n <= |x| && n <= |y| && n <= |qx| && n <= |qy| && sa >= 0.0 && sb >= 0.0
    requires forall k | 0 <= k < n :: Near(x[k], qx[k], sa)
    requires forall k | 0 <= k < n :: Near(y[k], qy[k], sb)
    ensures Close(DotTo(x, y, n), Grid(IntDot(qx, qy, n), sa * sb), ErrorBound(x, y, sa, sb, n))
  {
    hide ColumnBound, Near, Grid, Close, Column, IntColumn;
    var s := sa * sb;
    if n == 0 {
      CloseZero(s);
    } else {
      var k := n - 1;
      GemmError(x, y, qx, qy, sa, sb, k);
      assert DotTo(x, y, n) == DotTo(x, y, k) + Column(x, y, k) by { ColumnIs(x, y, k); }
      ColumnError(x, y, qx, qy, k, sa, sb);
      GridAdd(IntDot(qx, qy, k), IntColumn(qx, qy, k), s);
      AddClose(DotTo(x, y, k), Column(x, y, k), Grid(IntDot(qx, qy, k), s), Grid(IntColumn(qx, qy, k), s),
               ErrorBound(x, y, sa, sb, k), ColumnBound(x[k], y[k], sa, sb));
    }
  }

  lemma ColumnIs(x: seq<real>, y: seq<real>, k: nat)
    requires k < |x| && k < |y|
    ensures DotTo(x, y, k + 1) == DotTo(x, y, k) + Column(x, y, k)
  {
  }

  lemma CloseZero(s: real)
    ensures Close(0.0, Grid(0, s), 0.0)
  {
    GridAdd(0, 0, s);
  }

  lemma AddClose(r: real, p: real, g: real, h: real, e: real, f: real)
    requires Close(r, g, e) && Close(p, h, f)
    ensures Close(r + p, g + h, e + f)
  {
  }

  lemma ColumnError(x: seq<real>, y: seq<real>, qx: seq<int>, qy: seq<int>, k: nat, sa: real, sb: real)
    requires k < |x| && k < |y| && k < |qx| && k < |qy| && sa >= 0.0 && sb >= 0.0
    requires Near(x[k], qx[k], sa) && Near(y[k], qy[k], sb)
    ensures Close(Column(x, y, k), Grid(IntColumn(qx, qy, k), sa * sb), ColumnBound(x[k], y[k], sa, sb))
  {
    hide ColumnBound, Grid;
    ProductError(x[k], y[k], Grid(qx[k], sa), Grid(qy[k], sb), sa, sb);
    ScaledProduct(qx[k], qy[k], sa, sb);
  }

  /** From activations and weights to one output: quantised in range, packed, multiplied exactly over
      the padded depth, and scaled back, the output is within the bound of the true dot product. */
  lemma OutputError(a: seq<Num>, w: seq<Num>, qa: seq<int>, qb: seq<int>, sa: real, sb: real, depth: nat)
    requires |a| == |w| <= depth == |qa| == |qb| && sa > 0.0
    requires forall k | 0 <= k < |a| :: Abs(ValueOf(a[k])) <= 127.0 * sa && qa[k] == Quantised(a[k], sa)
    requires forall k | |a| <= k < depth :: qa[k] == 0
    requires sb > 0.0 && forall k | 0 <= k < |w| :: Packed(ValueOf(w[k]), qb[k], sb)
    ensures var x, y := Values(a), Values(w);
            Close(DotTo(x, y, |a|), Grid(IntDot(qa, qb, depth), sa * sb), ErrorBound(x, y, sa, sb, |a|))
  {
    hide Quantised, Near, ValueOf, Round, Close, Grid;
    forall k | 0 <= k < |a| ensures Near(ValueOf(a[k]), qa[k], sa) { QuantisedNear(a[k], sa); }
    PaddingIsNeutral(qa, qb, |a|, depth);
    GemmError(Values(a), Values(w), qa, qb, sa, sb, |a|);
  }

  function Values(v: seq<Num>): (r: seq<real>)
    ensures |r| == |v| && forall i | 0 <= i < |v| :: r[i] == if v[i].Finite? then v[i].r else 0.0
  {
    seq(|v|, i requires 0 <= i < |v| => ValueOf(v[i]))
  }

  /** Scales the integer products back: `an` columns of each row, none of the padding. */
  method Dequantise(c: array2<int>, am: nat, an: nat, sa: real, sb: real) returns (out: array2<real>)
    requires am <= c.Length0 && an <= c.Length1
    ensures out.Length0 == am && out.Length1 == an
    ensures forall m, n | 0 <= m < am && 0 <= n < an :: out[m, n] == Grid(c[m, n], sa * sb)
  {
    hide Grid;
    var scale := sa * sb;
    out := new real[am, an];
    for m := 0 to am
      invariant forall i, n | 0 <= i < m && 0 <= n < an :: out[i, n] == Grid(c[i, n], scale)
    {
      for n := 0 to an
        invariant forall i, j | 0 <= i < m && 0 <= j < an :: out[i, j] == Grid(c[i, j], scale)
        invariant forall j | 0 <= j < n :: out[m, j] == Grid(c[m, j], scale)
      {
        out[m, n] := Grid(c[m, n], scale);
      }
    }
  }

  // ---------- the whole path ----------

  lemma CellInside(k: nat, n: nat, width: nat, rows: nat)
    requires k < rows && n < width
    ensures 0 <= k * width + n < rows * width
  {
    assert (rows - k - 1) * width >= 0;
    assert rows * width == k * width + width + (rows - k - 1) * width;
  }

  /** Column `n` of the first `rows` rows of a matrix laid out row by row. */
  function ColumnOf<T>(s: seq<T>, width: nat, n: nat, rows: nat): (r: seq<T>)
    requires n < width && rows * width <= |s|
    ensures |r| == rows
  {
    seq(rows, k requires 0 <= k < rows => CellInside(k, n, width, rows); s[k * width + n])
  }

  function RowOf(c: array2<int>, m: nat): (r: seq<int>)
    requires m < c.Length0
    reads c
    ensures |r| == c.Length1
  {
    seq(c.Length1, k requires 0 <= k < c.Length1 reads c => c[m, k])
  }

  /** A quantised context: `md` rows of activations, `kd` deep, against weights `nd` wide. */
  class Context {
    const md: nat
    const kd: nat
    const nd: nat
    const activations: array2<int>
    const weights: array<int>

    constructor (md: nat, kd: nat, nd: nat)
      ensures this.md == md && this.kd == kd && this.nd == nd && Valid() && fresh(activations) && fresh(weights)
    {
      this.md, this.kd, this.nd := md, kd, nd;
      activations := new int[md, kd];
      weights := new int[kd * nd];
    }

    predicate Valid() {
      activations.Length0 == md && activations.Length1 == kd && weights.Length == kd * nd
    }

    /** Weights of `k` rows as wide as the context; what lies below them is left as it is. */
    method Pack(w: seq<Num>, k: nat) returns (scale: real)
      requires Valid() && k <= kd && |w| == k * nd && |w| <= weights.Length
      modifies weights
      ensures scale > 0.0 && Holds(w, k, scale)
    {
      scale := PackB(w, weights);
    }

    ghost predicate Holds(w: seq<Num>, k: nat, scale: real)
      reads weights
    {
      && k * nd == |w| <= weights.Length && scale > 0.0
      && forall i | 0 <= i < |w| :: Packed(ValueOf(w[i]), weights[i], scale)
    }

    /** What the accelerator is taken to compute: the exact product over the whole depth. */
    method Launch() returns (c: array2<int>)
      requires Valid()
      ensures fresh(c) && c.Length0 == md && c.Length1 == nd
      ensures forall m, n | 0 <= m < md && 0 <= n < nd ::
                c[m, n] == IntDot(RowOf(activations, m), ColumnOf(weights[..], nd, n, kd), kd)
    {
      hide IntDot, RowOf, ColumnOf;
      c := new int[md, nd];
      for m := 0 to md
        invariant forall i, n | 0 <= i < m && 0 <= n < nd ::
            c[i, n] == IntDot(RowOf(activations, i), ColumnOf(weights[..], nd, n, kd), kd)
      {
        for n := 0 to nd
          invariant forall i, j | 0 <= i < m && 0 <= j < nd ::
              c[i, j] == IntDot(RowOf(activations, i), ColumnOf(weights[..], nd, j, kd), kd)
          invariant forall j | 0 <= j < n ::
              c[m, j] == IntDot(RowOf(activations, m), ColumnOf(weights[..], nd, j, kd), kd)
        {
          c[m, n] := IntDot(RowOf(activations, m), ColumnOf(weights[..], nd, n, kd), kd);
        }
      }
    }

    /** Quantise, launch, scale back: every output of a row whose activations are in range is within the
        summed column bounds of the true dot product with its column of weights. */
    method Go(a: seq<seq<Num>>, ak: nat, sa: real, sb: real, ghost w: seq<Num>, an: nat) returns (out: array2<real>)
      requires Valid() && |a| <= md && ak <= kd && an <= nd && sa > 0.0
      requires forall m | 0 <= m < |a| :: |a[m]| == ak
      requires Holds(w, ak, sb)
      modifies activations
      ensures out.Length0 == |a| && out.Length1 == an
      ensures forall m, n | 0 <= m < |a| && 0 <= n < an && InRange(a[m], sa) ::
                Accurate(a[m], ColumnOf(w, nd, n, ak), sa, sb, out[m, n])
    {
      hide Quantised, Packed, InRange, Accurate, IntDot, RowOf, ColumnOf, Grid;
      ghost var packed := weights[..];
      Quantise(a, ak, kd, sa, activations);
      assert weights[..] == packed;
      var c := Launch();
      out := Dequantise(c, |a|, an, sa, sb);
      forall m, n | 0 <= m < |a| && 0 <= n < an && InRange(a[m], sa)
        ensures Accurate(a[m], ColumnOf(w, nd, n, ak), sa, sb, out[m, n])
      {
        OutputOf(a[m], w, RowOf(activations, m), weights[..], n, ak, sa, sb, m);
      }
    }

    lemma OutputOf(row: seq<Num>, w: seq<Num>, qa: seq<int>, packed: seq<int>, n: nat, ak: nat, sa: real, sb: real, m: nat)
      requires Valid() && m < md && n < nd && ak <= kd && |row| == ak && sa > 0.0 && InRange(row, sa)
      requires Holds(w, ak, sb) && packed == weights[..] && qa == RowOf(activations, m)
      requires forall k | 0 <= k < ak :: activations[m, k] == Quantised(row[k], sa)
      requires forall k | ak <= k < kd :: activations[m, k] == 0
      ensures Accurate(row, ColumnOf(w, nd, n, ak), sa, sb, Grid(IntDot(qa, ColumnOf(packed, nd, n, kd), kd), sa * sb))
    {
      hide Quantised, Packed, IntDot, Grid, ErrorBound, DotTo, Close;
      var column, qb := ColumnOf(w, nd, n, ak), ColumnOf(packed, nd, n, kd);
      forall k | 0 <= k < ak ensures Packed(ValueOf(column[k]), qb[k], sb) {
        CellInside(k, n, nd, ak);
        CellInside(k, n, nd, kd);
        assert column[k] == w[k * nd + n] && qb[k] == weights[k * nd + n];
      }
      OutputError(row, column, qa, qb, sa, sb, kd);
    }
  }

  predicate InRange(a: seq<Num>, sa: real) { forall k | 0 <= k < |a| :: Abs(ValueOf(a[k])) <= 127.0 * sa }

  /** An output within the bound of the dot product it stands for. */
  predicate Accurate(a: seq<Num>, w: seq<Num>, sa: real, sb: real, out: real)
    requires |a| == |w|
  {
    Close(DotTo(Values(a), Values(w), |a|), out, ErrorBound(Values(a), Values(w), sa, sb, |a|))
  }
}
