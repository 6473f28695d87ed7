/**
 Rotary position embedding in its two layouts: adjacent pairs (2i, 2i+1) and half split (i, i+h).

 The rotation at position `n` of frequency `i` is the `n`-th power of a unit rotation, so the
 angle-addition laws are proved, not assumed, and no trigonometric function appears.
 */
module Rope {
  import opened Reals

  /** A plane rotation given by its cosine and sine. */
  datatype Rotor = Rotor(c: real, s: real) {
    predicate Unit() { c * c + s * s == 1.0 }

    function Times(r: Rotor): Rotor { Rotor(c * r.c - s * r.s, s * r.c + c * r.s) }

    /** This rotation with `r` undone, when `r` is a unit. */
    function Less(r: Rotor): Rotor { Rotor(c * r.c + s * r.s, s * r.c - c * r.s) }

    /** The coordinates of the point (a, b) after the rotation. */
    function First(a: real, b: real): real { a * c - b * s }
    function Second(a: real, b: real): real { a * s + b * c }
  }

  function Power(r: Rotor, n: nat): Rotor {
    if n == 0 then Rotor(1.0, 0.0) else Power(r, n - 1).Times(r)
  }

  ghost predicate Units(freqs: seq<Rotor>) {
    forall i | 0 <= i < |freqs| :: freqs[i].Unit()
  }

  // ---------- the two layouts ----------

  /** First halves and second halves are the two coordinates of the planes. */
  function HalfSplit(x: Vec, freqs: seq<Rotor>, pos: nat): (y: Vec)
    requires |x| == 2 * |freqs|
    ensures |y| == |x|
  {
    var h := |freqs|;
    seq(h, i requires 0 <= i < h => var r := Power(freqs[i], pos); x[i] * r.c - x[h + i] * r.s)
    + seq(h, i requires 0 <= i < h => var r := Power(freqs[i], pos); x[i] * r.s + x[h + i] * r.c)
  }

  function RotateHalfAdjacent(x: Vec): (y: Vec)
    requires |x| % 2 == 0
    ensures |y| == |x|
  {
    seq(|x|, i requires 0 <= i < |x| => if i % 2 == 0 then -x[i + 1] else x[i - 1])
  }

  /** Neighbours are the two coordinates; every angle is repeated for both. */
  function Adjacent(x: Vec, freqs: seq<Rotor>, pos: nat): (y: Vec)
    requires |x| == 2 * |freqs|
    ensures |y| == |x|
  {
    var rotated := RotateHalfAdjacent(x);
    seq(|x|, i requires 0 <= i < |x| =>
      var r := Power(freqs[i / 2], pos); x[i] * r.c + rotated[i] * r.s)
  }

  /** Row `t` of every head is rotated in place by position `t`. */
  method ApplyRope(q: array2<Vec>, k: array2<Vec>, freqs: seq<Rotor>)
    requires q != k && q.Length0 == k.Length0
    requires forall t, h | 0 <= t < q.Length0 && 0 <= h < q.Length1 :: |q[t, h]| == 2 * |freqs|
    requires forall t, h | 0 <= t < k.Length0 && 0 <= h < k.Length1 :: |k[t, h]| == 2 * |freqs|
    modifies q, k
    ensures forall t, h | 0 <= t < q.Length0 && 0 <= h < q.Length1 :: q[t, h] == Adjacent(old(q[t, h]), freqs, t)
    ensures forall t, h | 0 <= t < k.Length0 && 0 <= h < k.Length1 :: k[t, h] == Adjacent(old(k[t, h]), freqs, t)
  {
    hide Adjacent;
    for t := 0 to q.Length0
      invariant forall u, h | 0 <= u < t && 0 <= h < q.Length1 :: q[u, h] == Adjacent(old(q[u, h]), freqs, u)
      invariant forall u, h | 0 <= u < t && 0 <= h < k.Length1 :: k[u, h] == Adjacent(old(k[u, h]), freqs, u)
      invariant forall u, h | t <= u < q.Length0 && 0 <= h < q.Length1 :: q[u, h] == old(q[u, h])
      invariant forall u, h | t <= u < k.Length0 && 0 <= h < k.Length1 :: k[u, h] == old(k[u, h])
    {
      RotateRow(q, freqs, t);
      RotateRow(k, freqs, t);
    }
  }

  /** The inner loop over the heads of one row. */
  method RotateRow(x: array2<Vec>, freqs: seq<Rotor>, t: nat)
    requires t < x.Length0
    requires forall h | 0 <= h < x.Length1 :: |x[t, h]| == 2 * |freqs|
    modifies x
    ensures forall h | 0 <= h < x.Length1 :: x[t, h] == Adjacent(old(x[t, h]), freqs, t)
    ensures forall u, h | 0 <= u < x.Length0 && 0 <= h < x.Length1 && u != t :: x[u, h] == old(x[u, h])
  {
    hide Adjacent;
    for h := 0 to x.Length1
      invariant forall g | 0 <= g < h :: x[t, g] == Adjacent(old(x[t, g]), freqs, t)
      invariant forall g | h <= g < x.Length1 :: x[t, g] == old(x[t, g])
      invariant forall u, g | 0 <= u < x.Length0 && 0 <= g < x.Length1 && u != t :: x[u, g] == old(x[u, g])
    {
      x[t, h] := Adjacent(x[t, h], freqs, t);
    }
  }

  // ---------- rotation algebra ----------

  lemma TimesUnit(a: Rotor, b: Rotor)
    requires a.Unit() && b.Unit()
    ensures a.Times(b).Unit()
  {
    var x, y := a.c * b.c, a.s * b.s;
    var u, v := a.s * b.c, a.c * b.s;
    assert (x - y) * (x - y) + (u + v) * (u + v) == x * x + y * y + u * u + v * v + 2.0 * (u * v - x * y);
    assert u * v == x * y;
    SquareProduct(a.c, b.c);
    SquareProduct(a.s, b.s);
    SquareProduct(a.s, b.c);
    SquareProduct(a.c, b.s);
    UnitSquares(a.c * a.c, a.s * a.s, b.c * b.c, b.s * b.s);
  }

  lemma SquareProduct(x: real, y: real)
    ensures (x * y) * (x * y) == (x * x) * (y * y)
  {
  }

  lemma UnitSquares(a: real, b: real, c: real, d: real)
    requires a + b == 1.0 && c + d == 1.0
    ensures a * c + b * d + b * c + a * d == 1.0
  {
    assert (a + b) * (c + d) == a * c + b * d + b * c + a * d;
  }

  lemma {:induction false} PowerUnit(r: Rotor, n: nat)
    requires r.Unit()
    ensures Power(r, n).Unit()
  {
    if n != 0 {
      PowerUnit(r, n - 1);
      TimesUnit(Power(r, n - 1), r);
    }
  }

  lemma TimesAssociative(a: Rotor, b: Rotor, c: Rotor)
    ensures a.Times(b).Times(c) == a.Times(b.Times(c))
  {
  }

  lemma {:induction false} PowerAdd(r: Rotor, m: nat, n: nat)
    ensures Power(r, m + n) == Power(r, m).Times(Power(r, n))
  {
    if n != 0 {
      PowerAdd(r, m, n - 1);
      TimesAssociative(Power(r, m), Power(r, n - 1), r);
    }
  }

  /** Undoing `b` after `a * b` leaves `a`: the cosine and sine of a difference of angles. */
  lemma AngleDifference(a: Rotor, b: Rotor, ab: Rotor)
    requires b.Unit() && ab == a.Times(b)
    ensures ab.Less(b) == a
  {
    var cc, ss, cs := b.c * b.c, b.s * b.s, b.c * b.s;
    assert ab.c * b.c == a.c * cc - a.s * cs;
    assert ab.s * b.s == a.s * cs + a.c * ss;
    assert ab.s * b.c == a.s * cc + a.c * cs;
    assert ab.c * b.s == a.c * cs - a.s * ss;
    assert a.c * cc + a.c * ss == a.c * (cc + ss);
    assert a.s * cc + a.s * ss == a.s * (cc + ss);
  }

  function PairDot(a: real, b: real, p: real, r: real): real { a * p + b * r }

  /** One plane's contribution to a dot product of rotated vectors. */
  lemma RotatedPair(a: real, b: real, p: real, r: real, m: Rotor, n: Rotor, d: Rotor)
    requires m.Less(n) == d
    ensures PairDot(m.First(a, b), m.Second(a, b), n.First(p, r), n.Second(p, r))
            == PairDot(d.First(a, b), d.Second(a, b), p, r)
  {
    LessParts(m, n);
    PlaneDot(a, b, p, r, m.c, m.s, n.c, n.s, d.c, d.s);
  }

  lemma LessParts(m: Rotor, n: Rotor)
    ensures m.Less(n).c == m.c * n.c + m.s * n.s && m.Less(n).s == m.s * n.c - m.c * n.s
  {
  }

  lemma PlaneDot(a: real, b: real, p: real, r: real, mc: real, ms: real, nc: real, ns: real, dc: real, ds: real)
    requires dc == mc * nc + ms * ns && ds == ms * nc - mc * ns
    ensures (a * mc - b * ms) * (p * nc - r * ns) + (a * ms + b * mc) * (p * ns + r * nc)
            == (a * dc - b * ds) * p + (a * ds + b * dc) * r
  {
    Bilinear(a, b, p, r, mc, ms, nc, ns);
    Collect(a, b, p, r, dc, ds);
    ScaleEqual(mc * nc + ms * ns, dc, a * p + b * r);
    ScaleEqual(ms * nc - mc * ns, ds, a * r - b * p);
  }

  lemma Collect(a: real, b: real, p: real, r: real, c: real, s: real)
    ensures (a * p + b * r) * c + (a * r - b * p) * s == (a * c - b * s) * p + (a * s + b * c) * r
  {
  }

  lemma Bilinear(a: real, b: real, p: real, r: real, mc: real, ms: real, nc: real, ns: real)
    ensures (a * mc - b * ms) * (p * nc - r * ns) + (a * ms + b * mc) * (p * ns + r * nc)
            == (a * p + b * r) * (mc * nc + ms * ns) + (a * r - b * p) * (ms * nc - mc * ns)
  {
  }

  // ---------- dot products ----------

  /** The same sum plane by plane, coordinates `i` and `h + i` together. */
  function PlaneSum(x: Vec, y: Vec, h: nat, n: nat): real
    requires n <= h && |x| == |y| == 2 * h
  {
    if n == 0 then 0.0 else PlaneSum(x, y, h, n - 1) + Plane(x, y, h, n - 1)
  }

  lemma {:induction false} DotByPlanes(x: Vec, y: Vec, h: nat, n: nat)
    requires n <= h && |x| == |y| == 2 * h
    ensures DotTo(x, y, n) + DotTo(x, y, h + n) - DotTo(x, y, h) == PlaneSum(x, y, h, n)
  {
    if n != 0 { DotByPlanes(x, y, h, n - 1); }
  }

  /** One plane's contribution to a dot product. */
  function Plane(x: Vec, y: Vec, h: nat, i: nat): real
    requires i < h && |x| == |y| == 2 * h
  {
    PairDot(x[i], x[h + i], y[i], y[h + i])
  }

  lemma HalfSplitAt(x: Vec, freqs: seq<Rotor>, pos: nat, i: nat)
    requires |x| == 2 * |freqs| && i < |freqs|
    ensures var r, h := Power(freqs[i], pos), |freqs|;
            && HalfSplit(x, freqs, pos)[i] == r.First(x[i], x[h + i])
            && HalfSplit(x, freqs, pos)[h + i] == r.Second(x[i], x[h + i])
  {
    hide Power;
  }

  lemma {:induction false} HalfSplitPlanes(q: Vec, k: Vec, freqs: seq<Rotor>, d: nat, m: nat, n: nat)
    requires Units(freqs) && |q| == |k| == 2 * |freqs| && n <= |freqs|
    ensures PlaneSum(HalfSplit(q, freqs, d + m), HalfSplit(k, freqs, m), |freqs|, n)
            == PlaneSum(HalfSplit(q, freqs, d), k, |freqs|, n)
  {
    hide HalfSplit, Plane, Units;
    if n != 0 {
      HalfSplitPlanes(q, k, freqs, d, m, n - 1);
      OnePlane(q, k, freqs, d, m, n - 1);
    }
  }

  lemma OnePlane(q: Vec, k: Vec, freqs: seq<Rotor>, d: nat, m: nat, i: nat)
    requires Units(freqs) && |q| == |k| == 2 * |freqs| && i < |freqs|
    ensures Plane(HalfSplit(q, freqs, d + m), HalfSplit(k, freqs, m), |freqs|, i)
            == Plane(HalfSplit(q, freqs, d), k, |freqs|, i)
  {
    hide HalfSplit, Power, Rotor.Times, Rotor.Less, Rotor.First, Rotor.Second, PairDot;
    var r, h := freqs[i], |freqs|;
    HalfSplitAt(q, freqs, d + m, i);
    HalfSplitAt(k, freqs, m, i);
    HalfSplitAt(q, freqs, d, i);
    PowerAdd(r, d, m);
    PowerUnit(r, m);
    AngleDifference(Power(r, d), Power(r, m), Power(r, d + m));
    RotatedPair(q[i], q[h + i], k[i], k[h + i], Power(r, d + m), Power(r, m), Power(r, d));
  }

  // ---------- half split: relative positions and norms ----------

  /** A query `d` positions after a key sees it exactly as if the key were at position 0. */
  lemma HalfSplitRelative(q: Vec, k: Vec, freqs: seq<Rotor>, d: nat, m: nat)
    requires Units(freqs) && |q| == |k| == 2 * |freqs|
    ensures Dot(HalfSplit(q, freqs, d + m), HalfSplit(k, freqs, m)) == Dot(HalfSplit(q, freqs, d), k)
  {
    hide HalfSplit;
    var h := |freqs|;
    HalfSplitPlanes(q, k, freqs, d, m, h);
    DotByPlanes(HalfSplit(q, freqs, d + m), HalfSplit(k, freqs, m), h, h);
    DotByPlanes(HalfSplit(q, freqs, d), k, h, h);
  }

  lemma {:induction false} DotSymmetric(x: Vec, y: Vec, n: nat)
    requires n <= |x| && n <= |y|
    ensures DotTo(x, y, n) == DotTo(y, x, n)
  {
    if n != 0 { DotSymmetric(x, y, n - 1); }
  }

  /** Attention scores depend only on the difference of positions, whichever comes first. */
  lemma HalfSplitShiftInvariant(q: Vec, k: Vec, freqs: seq<Rotor>, m: nat, n: nat, shift: nat)
    requires Units(freqs) && |q| == |k| == 2 * |freqs|
    ensures Dot(HalfSplit(q, freqs, m + shift), HalfSplit(k, freqs, n + shift))
            == Dot(HalfSplit(q, freqs, m), HalfSplit(k, freqs, n))
  {
    hide HalfSplit;
    if m >= n {
      var d := m - n;
      assert d + n == m && d + (n + shift) == m + shift;
      HalfSplitRelative(q, k, freqs, d, n);
      HalfSplitRelative(q, k, freqs, d, n + shift);
    } else {
      var d := n - m;
      assert d + m == n && d + (m + shift) == n + shift;
      HalfSplitRelative(k, q, freqs, d, m);
      HalfSplitRelative(k, q, freqs, d, m + shift);
      DotSymmetric(HalfSplit(q, freqs, m), HalfSplit(k, freqs, n), |q|);
      DotSymmetric(HalfSplit(q, freqs, m + shift), HalfSplit(k, freqs, n + shift), |q|);
    }
  }

  lemma HalfSplitAtZero(x: Vec, freqs: seq<Rotor>)
    requires |x| == 2 * |freqs|
    ensures HalfSplit(x, freqs, 0) == x
  {
    forall j | 0 <= j < |x| ensures HalfSplit(x, freqs, 0)[j] == x[j] {
      HalfSplitAt(x, freqs, 0, if j < |freqs| then j else j - |freqs|);
    }
  }

  lemma HalfSplitKeepsNorm(x: Vec, freqs: seq<Rotor>, pos: nat)
    requires Units(freqs) && |x| == 2 * |freqs|
    ensures Dot(HalfSplit(x, freqs, pos), HalfSplit(x, freqs, pos)) == Dot(x, x)
  {
    hide HalfSplit;
    HalfSplitRelative(x, x, freqs, 0, pos);
    HalfSplitAtZero(x, freqs);
  }

  // ---------- the layouts are conjugate ----------

  /** Even coordinates first, then odd ones. */
  function Deinterleave(x: Vec): (y: Vec)
    requires |x| % 2 == 0
    ensures |y| == |x|
  {
    var h := |x| / 2;
    seq(|x|, i requires 0 <= i < |x| => if i < h then x[2 * i] else x[2 * (i - h) + 1])
  }

  /** The first half on the even places, the second on the odd ones. */
  function Interleave(x: Vec): (y: Vec)
    requires |x| % 2 == 0
    ensures |y| == |x|
  {
    var h := |x| / 2;
    seq(|x|, i requires 0 <= i < |x| => if i % 2 == 0 then x[i / 2] else x[h + i / 2])
  }

  lemma DeinterleaveAt(x: Vec, h: nat, i: nat)
    requires |x| == 2 * h && i < h
    ensures Deinterleave(x)[i] == x[2 * i] && Deinterleave(x)[h + i] == x[2 * i + 1]
    ensures Interleave(x)[2 * i] == x[i] && Interleave(x)[2 * i + 1] == x[h + i]
  {
    assert (2 * i) / 2 == i && (2 * i + 1) / 2 == i;
  }

  /** Each of the two undoes the other, so they only permute the coordinates. */
  lemma DeinterleaveUndone(x: Vec)
    requires |x| % 2 == 0
    ensures Interleave(Deinterleave(x)) == x && Deinterleave(Interleave(x)) == x
  {
    hide Interleave, Deinterleave;
    var h := |x| / 2;
    forall j | 0 <= j < |x| ensures Interleave(Deinterleave(x))[j] == x[j] {
      DeinterleaveAt(x, h, j / 2);
      DeinterleaveAt(Deinterleave(x), h, j / 2);
      assert j == 2 * (j / 2) || j == 2 * (j / 2) + 1;
    }
    forall j | 0 <= j < |x| ensures Deinterleave(Interleave(x))[j] == x[j] {
      var i := if j < h then j else j - h;
      DeinterleaveAt(Interleave(x), h, i);
      DeinterleaveAt(x, h, i);
    }
  }

  /** Each pair of neighbours is turned by the rotation of its frequency at the position. */
  lemma AdjacentTurnsPairs(x: Vec, freqs: seq<Rotor>, pos: nat, i: nat)
    requires |x| == 2 * |freqs| && i < |freqs|
    ensures var y, r := Adjacent(x, freqs, pos), Power(freqs[i], pos);
            y[2 * i] == r.First(x[2 * i], x[2 * i + 1]) && y[2 * i + 1] == r.Second(x[2 * i], x[2 * i + 1])
  {
    hide Power;
    assert (2 * i) / 2 == i && (2 * i + 1) / 2 == i;
  }

  lemma AfterTimes(a: real, b: real, p: Rotor, r: Rotor)
    ensures p.Times(r).First(a, b) == p.First(a, b) * r.c - p.Second(a, b) * r.s
    ensures p.Times(r).Second(a, b) == p.First(a, b) * r.s + p.Second(a, b) * r.c
  {
    var ac, as_, bc, bs := a * p.c, a * p.s, b * p.c, b * p.s;
    assert a * (p.c * r.c - p.s * r.s) == ac * r.c - as_ * r.s;
    assert b * (p.s * r.c + p.c * r.s) == bs * r.c + bc * r.s;
    assert a * (p.s * r.c + p.c * r.s) == as_ * r.c + ac * r.s;
    assert b * (p.c * r.c - p.s * r.s) == bc * r.c - bs * r.s;
  }

  /** Position 0 leaves a vector as it is, and one position further every pair of neighbours is turned
      once more by its frequency. */
  lemma AdjacentStep(x: Vec, freqs: seq<Rotor>, n: nat, i: nat)
    requires |x| == 2 * |freqs| && i < |freqs|
    ensures Adjacent(x, freqs, 0) == x
    ensures var y, z := Adjacent(x, freqs, n), Adjacent(x, freqs, n + 1);
            && z[2 * i] == y[2 * i] * freqs[i].c - y[2 * i + 1] * freqs[i].s
            && z[2 * i + 1] == y[2 * i] * freqs[i].s + y[2 * i + 1] * freqs[i].c
  {
    hide Adjacent, Rotor.Times, Rotor.First, Rotor.Second;
    AdjacentAtZero(x, freqs);
    AdjacentTurnsPairs(x, freqs, n, i);
    AdjacentTurnsPairs(x, freqs, n + 1, i);
    AfterTimes(x[2 * i], x[2 * i + 1], Power(freqs[i], n), freqs[i]);
  }

  lemma AdjacentAtZero(x: Vec, freqs: seq<Rotor>)
    requires |x| == 2 * |freqs|
    ensures Adjacent(x, freqs, 0) == x
  {
    hide Adjacent;
    var y := Adjacent(x, freqs, 0);
    forall j | 0 <= j < |x| ensures y[j] == x[j] {
      AdjacentTurnsPairs(x, freqs, 0, j / 2);
      assert j == 2 * (j / 2) || j == 2 * (j / 2) + 1;
    }
  }

  /** The same in the half-split layout, where coordinates i and h + i belong together. */
  lemma HalfSplitStep(x: Vec, freqs: seq<Rotor>, n: nat, i: nat)
    requires |x| == 2 * |freqs| && i < |freqs|
    ensures HalfSplit(x, freqs, 0) == x
    ensures var y, z, h := HalfSplit(x, freqs, n), HalfSplit(x, freqs, n + 1), |freqs|;
            && z[i] == y[i] * freqs[i].c - y[h + i] * freqs[i].s
            && z[h + i] == y[i] * freqs[i].s + y[h + i] * freqs[i].c
  {
    hide HalfSplit, Rotor.Times, Rotor.First, Rotor.Second;
    var h := |freqs|;
    HalfSplitAtZero(x, freqs);
    HalfSplitAt(x, freqs, n, i);
    HalfSplitAt(x, freqs, n + 1, i);
    AfterTimes(x[i], x[h + i], Power(freqs[i], n), freqs[i]);
  }

  /** The adjacent layout is the half-split one between one permutation of the coordinates and its
      inverse, at every position. */
  lemma LayoutsConjugate(x: Vec, freqs: seq<Rotor>, pos: nat)
    requires |x| == 2 * |freqs|
    ensures Deinterleave(Adjacent(x, freqs, pos)) == HalfSplit(Deinterleave(x), freqs, pos)
    ensures Adjacent(x, freqs, pos) == Interleave(HalfSplit(Deinterleave(x), freqs, pos))
  {
    hide Power, Deinterleave, Interleave, Adjacent, HalfSplit;
    var h := |freqs|;
    var left, right := Deinterleave(Adjacent(x, freqs, pos)), HalfSplit(Deinterleave(x), freqs, pos);
    forall j | 0 <= j < |x| ensures left[j] == right[j] {
      var i := if j < h then j else j - h;
      DeinterleaveAt(Adjacent(x, freqs, pos), h, i);
      DeinterleaveAt(x, h, i);
      AdjacentTurnsPairs(x, freqs, pos, i);
      HalfSplitAt(Deinterleave(x), freqs, pos, i);
    }
    DeinterleaveUndone(Adjacent(x, freqs, pos));
  }

  lemma {:induction false} DeinterleavePlanes(x: Vec, y: Vec, h: nat, n: nat)
    requires |x| == |y| == 2 * h && n <= h
    ensures DotTo(x, y, 2 * n) == PlaneSum(Deinterleave(x), Deinterleave(y), h, n)
  {
    hide Deinterleave;
    if n != 0 {
      var i := n - 1;
      DeinterleavePlanes(x, y, h, i);
      DotTwoMore(x, y, i);
      DeinterleaveAt(x, h, i);
      DeinterleaveAt(y, h, i);
    }
  }

  lemma DotTwoMore(x: Vec, y: Vec, i: nat)
    requires |x| == |y| && 2 * i + 2 <= |x|
    ensures DotTo(x, y, 2 * (i + 1)) == DotTo(x, y, 2 * i) + x[2 * i] * y[2 * i] + x[2 * i + 1] * y[2 * i + 1]
  {
    assert DotTo(x, y, 2 * i + 2) == DotTo(x, y, 2 * i + 1) + x[2 * i + 1] * y[2 * i + 1];
    assert DotTo(x, y, 2 * i + 1) == DotTo(x, y, 2 * i) + x[2 * i] * y[2 * i];
  }

  lemma DeinterleaveKeepsDot(x: Vec, y: Vec)
    requires |x| == |y| && |x| % 2 == 0
    ensures Dot(Deinterleave(x), Deinterleave(y)) == Dot(x, y)
  {
    hide Deinterleave;
    var h := |x| / 2;
    DeinterleavePlanes(x, y, h, h);
    DotByPlanes(Deinterleave(x), Deinterleave(y), h, h);
  }

  /** Scores computed in either layout agree once query and key are both deinterleaved. */
  lemma LayoutsGiveSameScores(q: Vec, k: Vec, freqs: seq<Rotor>, m: nat, n: nat)
    requires |q| == |k| == 2 * |freqs|
    ensures Dot(Adjacent(q, freqs, m), Adjacent(k, freqs, n))
            == Dot(HalfSplit(Deinterleave(q), freqs, m), HalfSplit(Deinterleave(k), freqs, n))
  {
    hide Adjacent, HalfSplit, Deinterleave;
    LayoutsConjugate(q, freqs, m);
    LayoutsConjugate(k, freqs, n);
    DeinterleaveKeepsDot(Adjacent(q, freqs, m), Adjacent(k, freqs, n));
  }

  /** The adjacent layout inherits both laws. */
  lemma AdjacentIsRotary(q: Vec, k: Vec, freqs: seq<Rotor>, m: nat, n: nat, shift: nat)
    requires Units(freqs) && |q| == |k| == 2 * |freqs|
    ensures Dot(Adjacent(q, freqs, m), Adjacent(q, freqs, m)) == Dot(q, q)
    ensures Dot(Adjacent(q, freqs, m + shift), Adjacent(k, freqs, n + shift))
            == Dot(Adjacent(q, freqs, m), Adjacent(k, freqs, n))
  {
    hide Adjacent, HalfSplit, Deinterleave;
    LayoutsGiveSameScores(q, q, freqs, m, m);
    HalfSplitKeepsNorm(Deinterleave(q), freqs, m);
    DeinterleaveKeepsDot(q, q);
    LayoutsGiveSameScores(q, k, freqs, m, n);
    LayoutsGiveSameScores(q, k, freqs, m + shift, n + shift);
    HalfSplitShiftInvariant(Deinterleave(q), Deinterleave(k), freqs, m, n, shift);
  }
}
