/**
 The RWKV token update with a running maximum, over the reals, for one channel (every operation
 of the update is elementwise).

 `exp` is a parameter with the laws of the exponential; no value of it is ever computed.  The
 state keeps a numerator, a denominator and the largest exponent seen.  It is proved to be the
 plain exponentially decayed sums divided by `exp(mx)`, so the output is an explicit weighted
 average of all values seen, and the denominator is proved to stay in range.
 */
module Wkv {
  import opened Reals

  /** The three laws of the exponential the proofs rely on. */
  ghost predicate IsExp(exp: real -> real) {
    && (forall x :: exp(x) > 0.0)
    && (forall x, y :: exp(x + y) == exp(x) * exp(y))
    && (forall x, y :: x < y ==> exp(x) < exp(y))
  }

  datatype Params = Params(exp: real -> real, timeDecay: real, timeFirst: real, initialMax: real) {
    ghost predicate Valid() { IsExp(exp) }

    /** What is added to every stored exponent at each token. */
    function Decay(): real { -exp(timeDecay) }
  }

  datatype State = State(num: real, den: real, mx: real)

  datatype Token = Token(key: real, value: real)

  function Max(x: real, y: real): real { if x >= y then x else y }

  /** `ea * x + eb * y`, the shape of both numerators and (with `y` 1) both denominators. */
  function Blend(ea: real, x: real, eb: real, y: real): real { ea * x + eb * y }

  function Output(p: Params, s: State, t: Token): (out: real)
    requires p.Valid() && s.den >= 0.0
  {
    var m := Max(s.mx, t.key + p.timeFirst);
    var e1 := p.exp(s.mx - m);
    var e2 := p.exp(t.key + p.timeFirst - m);
    ExpPositive(p, s.mx - m);
    ExpPositive(p, t.key + p.timeFirst - m);
    BlendPositive(e1, s.den, e2);
    Blend(e1, s.num, e2, t.value) / Blend(e1, s.den, e2, 1.0)
  }

  lemma BlendPositive(ea: real, den: real, eb: real)
    requires ea > 0.0 && den >= 0.0 && eb > 0.0
    ensures Blend(ea, den, eb, 1.0) > 0.0
  {
  }

  function Advance(p: Params, s: State, t: Token): State {
    var m := Max(s.mx + p.Decay(), t.key);
    var e1 := p.exp(s.mx + p.Decay() - m);
    var e2 := p.exp(t.key - m);
    State(Blend(e1, s.num, e2, t.value), Blend(e1, s.den, e2, 1.0), m)
  }

  function Initial(p: Params): State { State(0.0, 0.0, p.initialMax) }

  function Run(p: Params, hist: seq<Token>): State {
    if hist == [] then Initial(p)
    else Advance(p, Run(p, hist[..|hist| - 1]), hist[|hist| - 1])
  }

  // ---------- the unshifted specification ----------

  /** The exponent of a key after `steps` decays. */
  function Aged(p: Params, key: real, steps: int): real { steps as real * -p.exp(p.timeDecay) + key }

  /** The weight at time `now` of the token seen at time `i`. */
  function Weight(p: Params, hist: seq<Token>, i: nat, now: int): real
    requires i < |hist|
  {
    p.exp(Aged(p, hist[i].key, now - i))
  }

  function WeightSum(p: Params, hist: seq<Token>, n: nat, now: int): real
    requires n <= |hist|
  {
    if n == 0 then 0.0 else WeightSum(p, hist, n - 1, now) + Weight(p, hist, n - 1, now)
  }

  function WeightedSum(p: Params, hist: seq<Token>, n: nat, now: int): real
    requires n <= |hist|
  {
    if n == 0 then 0.0
    else WeightedSum(p, hist, n - 1, now) + Weight(p, hist, n - 1, now) * hist[n - 1].value
  }

  /** The average of all past values under their decayed weights, the current one under its bonus. */
  function AverageNum(p: Params, hist: seq<Token>, t: Token): real {
    WeightedSum(p, hist, |hist|, |hist| - 1) + p.exp(t.key + p.timeFirst) * t.value
  }

  function AverageDen(p: Params, hist: seq<Token>, t: Token): real {
    WeightSum(p, hist, |hist|, |hist| - 1) + p.exp(t.key + p.timeFirst)
  }

  // ---------- exponential and real-arithmetic bookkeeping ----------

  lemma ExpPositive(p: Params, x: real)
    requires p.Valid()
    ensures p.exp(x) > 0.0
  {
  }

  lemma ExpSum(p: Params, x: real, y: real, z: real)
    requires p.Valid() && z == x + y
    ensures p.exp(z) == p.exp(x) * p.exp(y)
  {
  }

  lemma ExpZero(p: Params)
    requires p.Valid()
    ensures p.exp(0.0) == 1.0
  {
    var one := p.exp(0.0);
    assert p.exp(0.0 + 0.0) == one * one;
    assert one * (one - 1.0) == 0.0;
  }

  lemma ExpAtMostOne(p: Params, x: real)
    requires p.Valid()
    ensures 0.0 < p.exp(x)
    ensures p.exp(x) <= 1.0 <==> x <= 0.0
    ensures p.exp(x) >= 1.0 <==> x >= 0.0
  {
    ExpZero(p);
  }

  lemma AgedOnce(p: Params, key: real, steps: int)
    ensures Aged(p, key, 0) == key
    ensures Aged(p, key, steps + 1) == p.Decay() + Aged(p, key, steps)
  {
    var d, x := p.Decay(), steps as real;
    assert (steps + 1) as real == x + 1.0;
    assert (x + 1.0) * d == x * d + d;
  }

  lemma Distribute(c: real, s: real, w: real, v: real)
    ensures c * (s + w * v) == c * s + (c * w) * v
  {
    assert c * (w * v) == (c * w) * v;
  }

  /** Multiplying a shifted pair of terms by the factor that was taken out of both. */
  lemma Unshift(ea: real, eb: real, em: real, es: real, ec: real, ek: real, x: real, y: real, sum: real)
    requires ea * em == es * ec && eb * em == ek && x * es == sum
    ensures Blend(ea, x, eb, y) * em == ec * sum + ek * y
  {
    ScaleEqual(ea * em, es * ec, x);
    ScaleEqual(eb * em, ek, y);
    ScaleEqual(x * es, sum, ec);
  }

  /** A weighted sum kept between two multiples of its weights, and the quotient it gives. */
  lemma WeightedBounds(sum: real, weights: real, w: real, v: real, lo: real, hi: real)
    requires lo * weights <= sum <= hi * weights && lo <= v <= hi && w > 0.0
    ensures lo * (weights + w) <= sum + w * v <= hi * (weights + w)
  {
    ProductNonNegative(v - lo, w);
    ProductNonNegative(hi - v, w);
  }

  lemma QuotientBounds(n: real, d: real, lo: real, hi: real)
    requires d > 0.0 && lo * d <= n <= hi * d
    ensures lo <= n / d <= hi
  {
    var q := n / d;
    assert q * d == n;
    if q < lo {
      ProductPositive(lo - q, d);
      assert false;
    }
    if q > hi {
      ProductPositive(q - hi, d);
      assert false;
    }
  }

  lemma ProductPositive(x: real, y: real)
    requires x > 0.0 && y > 0.0
    ensures x * y > 0.0
  {
  }

  lemma CancelFactor(n: real, d: real, c: real, nc: real, dc: real)
    requires d > 0.0 && c > 0.0 && n * c == nc && d * c == dc
    ensures dc > 0.0
    ensures n / d == nc / dc
  {
    var q := n / d;
    ProductPositive(d, c);
    assert q * d == n;
    ScaleEqual(q * d, n, c);
    ScaleEqual(d * c, dc, q);
    assert q * dc == nc;
  }

  lemma BlendBounds(ea: real, x: real, eb: real)
    requires 0.0 < ea <= 1.0 && 0.0 < eb <= 1.0 && x >= 0.0
    ensures 0.0 <= Blend(ea, x, eb, 1.0) <= x + 1.0
    ensures eb == 1.0 ==> Blend(ea, x, eb, 1.0) >= 1.0
    ensures ea == 1.0 ==> Blend(ea, x, eb, 1.0) >= x
    ensures x == 0.0 ==> Blend(ea, x, eb, 1.0) == eb
  {
    ProductNonNegative(ea, x);
    ProductNonNegative(1.0 - ea, x);
  }

  // ---------- the plain sums obey the plain recurrence ----------

  lemma {:induction false} DecayOnce(p: Params, hist: seq<Token>, n: nat, now: int)
    requires p.Valid() && n <= |hist|
    ensures WeightSum(p, hist, n, now + 1) == p.exp(p.Decay()) * WeightSum(p, hist, n, now)
    ensures WeightedSum(p, hist, n, now + 1) == p.exp(p.Decay()) * WeightedSum(p, hist, n, now)
  {
    hide IsExp, Aged, Params.Decay;
    if n != 0 {
      var i := n - 1;
      DecayOnce(p, hist, i, now);
      var d, key := p.Decay(), hist[i].key;
      AgedOnce(p, key, now - i);
      assert now + 1 - i == now - i + 1;
      ExpSum(p, d, Aged(p, key, now - i), Aged(p, key, now + 1 - i));
      Distribute(p.exp(d), WeightSum(p, hist, i, now), Weight(p, hist, i, now), 1.0);
      Distribute(p.exp(d), WeightedSum(p, hist, i, now), Weight(p, hist, i, now), hist[i].value);
    }
  }

  lemma {:induction false} SumsIgnoreLater(p: Params, hist: seq<Token>, t: Token, n: nat, now: int)
    requires n <= |hist|
    ensures WeightSum(p, hist + [t], n, now) == WeightSum(p, hist, n, now)
    ensures WeightedSum(p, hist + [t], n, now) == WeightedSum(p, hist, n, now)
  {
    hide Aged;
    if n != 0 { SumsIgnoreLater(p, hist, t, n - 1, now); }
  }

  /** The unshifted recurrence: decay what is there, add the new token at weight `exp(key)`. */
  lemma PlainRecurrence(p: Params, hist: seq<Token>, t: Token)
    requires p.Valid()
    ensures var h := hist + [t];
            && WeightSum(p, h, |h|, |h| - 1)
               == p.exp(p.Decay()) * WeightSum(p, hist, |hist|, |hist| - 1) + p.exp(t.key)
            && WeightedSum(p, h, |h|, |h| - 1)
               == p.exp(p.Decay()) * WeightedSum(p, hist, |hist|, |hist| - 1) + p.exp(t.key) * t.value
  {
    hide IsExp, Aged, Params.Decay;
    var h, n := hist + [t], |hist|;
    SumsIgnoreLater(p, hist, t, n, n);
    DecayOnce(p, hist, n, n - 1);
    AgedOnce(p, t.key, 0);
    assert Weight(p, h, n, n) == p.exp(t.key);
  }

  // ---------- the shifted state is the plain sums ----------

  lemma RunAppend(p: Params, hist: seq<Token>, t: Token)
    ensures Run(p, hist + [t]) == Advance(p, Run(p, hist), t)
  {
    assert (hist + [t])[..|hist|] == hist;
  }

  lemma AdvanceUnshifted(p: Params, s: State, t: Token, num: real, den: real)
    requires p.Valid() && s.den >= 0.0
    requires s.num * p.exp(s.mx) == num && s.den * p.exp(s.mx) == den
    ensures var s' := Advance(p, s, t); var c := p.exp(p.Decay());
            && s'.num * p.exp(s'.mx) == c * num + p.exp(t.key) * t.value
            && s'.den * p.exp(s'.mx) == c * den + p.exp(t.key)
            && s'.den > 0.0
  {
    hide IsExp, Params.Decay, Blend;
    var d := p.Decay();
    var m := Max(s.mx + d, t.key);
    var a, b := s.mx + d - m, t.key - m;
    var ea, eb, em := p.exp(a), p.exp(b), p.exp(m);
    ExpSum(p, a, m, s.mx + d);
    ExpSum(p, s.mx, d, s.mx + d);
    ExpSum(p, b, m, t.key);
    Unshift(ea, eb, em, p.exp(s.mx), p.exp(d), p.exp(t.key), s.num, t.value, num);
    Unshift(ea, eb, em, p.exp(s.mx), p.exp(d), p.exp(t.key), s.den, 1.0, den);
    ExpPositive(p, a);
    ExpPositive(p, b);
    BlendPositive(ea, s.den, eb);
  }

  /** `exp(mx)` times the shifted state is the plain decayed sums, on every token sequence. */
  lemma {:induction false} StateIsDecayedSums(p: Params, hist: seq<Token>)
    requires p.Valid()
    ensures var s := Run(p, hist);
            && s.num * p.exp(s.mx) == WeightedSum(p, hist, |hist|, |hist| - 1)
            && s.den * p.exp(s.mx) == WeightSum(p, hist, |hist|, |hist| - 1)
            && s.den >= 0.0
  {
    hide IsExp, Aged, Advance, Params.Decay;
    if hist != [] {
      var n := |hist| - 1;
      var front, t := hist[..n], hist[n];
      assert hist == front + [t];
      StateIsDecayedSums(p, front);
      PlainRecurrence(p, front, t);
      AdvanceUnshifted(p, Run(p, front), t, WeightedSum(p, front, n, n - 1), WeightSum(p, front, n, n - 1));
    }
  }

  /** The output of the update is the explicit weighted average over the whole history. */
  lemma OutputIsWeightedAverage(p: Params, hist: seq<Token>, t: Token)
    requires p.Valid()
    ensures AverageDen(p, hist, t) > 0.0
    ensures Run(p, hist).den >= 0.0
    ensures Output(p, Run(p, hist), t) == AverageNum(p, hist, t) / AverageDen(p, hist, t)
  {
    hide IsExp, Run, Aged, WeightSum, WeightedSum;
    StateIsDecayedSums(p, hist);
    var s, n := Run(p, hist), |hist|;
    OutputUnshifted(p, s, t, WeightedSum(p, hist, n, n - 1), WeightSum(p, hist, n, n - 1));
  }

  lemma OutputUnshifted(p: Params, s: State, t: Token, num: real, den: real)
    requires p.Valid() && s.den >= 0.0
    requires s.num * p.exp(s.mx) == num && s.den * p.exp(s.mx) == den
    ensures var w := p.exp(t.key + p.timeFirst);
            && den + w > 0.0
            && Output(p, s, t) == (num + w * t.value) / (den + w)
  {
    hide IsExp, Blend;
    var x := t.key + p.timeFirst;
    var m := Max(s.mx, x);
    var e1, e2, em := p.exp(s.mx - m), p.exp(x - m), p.exp(m);
    ExpSum(p, s.mx - m, m, s.mx);
    ExpSum(p, x - m, m, x);
    ExpPositive(p, s.mx - m);
    ExpPositive(p, x - m);
    ExpPositive(p, m);
    QuotientUnshifted(e1, e2, em, p.exp(s.mx), p.exp(x), s.num, s.den, t.value, num, den);
  }

  /** The factor taken out of both exponentials cancels in the quotient. */
  lemma QuotientUnshifted(e1: real, e2: real, em: real, es: real, w: real, sn: real, sd: real, v: real, num: real, den: real)
    requires e1 > 0.0 && e2 > 0.0 && em > 0.0 && sd >= 0.0
    requires es == e1 * em && w == e2 * em && sn * es == num && sd * es == den
    ensures den + w > 0.0 && Blend(e1, sd, e2, 1.0) > 0.0
    ensures Blend(e1, sn, e2, v) / Blend(e1, sd, e2, 1.0) == (num + w * v) / (den + w)
  {
    hide Blend;
    Unshift(e1, e2, em, es, 1.0, w, sn, v, num);
    Unshift(e1, e2, em, es, 1.0, w, sd, 1.0, den);
    BlendPositive(e1, sd, e2);
    CancelFactor(Blend(e1, sn, e2, v), Blend(e1, sd, e2, 1.0), em, num + w * v, den + w);
  }

  /** The output never leaves the range of the values seen so far. */
  lemma OutputWithinValues(p: Params, hist: seq<Token>, t: Token, lo: real, hi: real)
    requires p.Valid()
    requires forall i | 0 <= i < |hist| :: lo <= hist[i].value <= hi
    requires lo <= t.value <= hi
    ensures Run(p, hist).den >= 0.0
    ensures lo <= Output(p, Run(p, hist), t) <= hi
  {
    hide IsExp, Aged, Run, Output, WeightSum, WeightedSum;
    var n := |hist|;
    var w := p.exp(t.key + p.timeFirst);
    OutputIsWeightedAverage(p, hist, t);
    WeightedSumBounds(p, hist, n, n - 1, lo, hi);
    ExpPositive(p, t.key + p.timeFirst);
    WeightedBounds(WeightedSum(p, hist, n, n - 1), WeightSum(p, hist, n, n - 1), w, t.value, lo, hi);
    QuotientBounds(AverageNum(p, hist, t), AverageDen(p, hist, t), lo, hi);
  }

  lemma {:induction false} WeightedSumBounds(p: Params, hist: seq<Token>, n: nat, now: int, lo: real, hi: real)
    requires p.Valid() && n <= |hist|
    requires forall i | 0 <= i < |hist| :: lo <= hist[i].value <= hi
    ensures lo * WeightSum(p, hist, n, now) <= WeightedSum(p, hist, n, now) <= hi * WeightSum(p, hist, n, now)
  {
    hide IsExp, Aged, WeightSum, WeightedSum;
    SumsStep(p, hist, n, now);
    if n != 0 {
      var i := n - 1;
      WeightedSumBounds(p, hist, i, now, lo, hi);
      ExpPositive(p, Aged(p, hist[i].key, now - i));
      WeightedBounds(WeightedSum(p, hist, i, now), WeightSum(p, hist, i, now), Weight(p, hist, i, now),
                     hist[i].value, lo, hi);
    }
  }

  lemma SumsStep(p: Params, hist: seq<Token>, n: nat, now: int)
    requires n <= |hist|
    ensures n == 0 ==> WeightSum(p, hist, n, now) == 0.0 && WeightedSum(p, hist, n, now) == 0.0
    ensures n > 0 ==>
              && WeightSum(p, hist, n, now) == WeightSum(p, hist, n - 1, now) + Weight(p, hist, n - 1, now)
              && WeightedSum(p, hist, n, now) ==
                 WeightedSum(p, hist, n - 1, now) + Weight(p, hist, n - 1, now) * hist[n - 1].value
  {
  }

  // ---------- numerical stability ----------

  /** Every exponent either update passes to `exp` is at most 0, and one of each pair is 0. */
  lemma ExponentsNeverPositive(p: Params, s: State, t: Token)
    requires p.Valid()
    ensures var m := Max(s.mx, t.key + p.timeFirst);
            && 0.0 < p.exp(s.mx - m) <= 1.0 && 0.0 < p.exp(t.key + p.timeFirst - m) <= 1.0
            && (p.exp(s.mx - m) == 1.0 || p.exp(t.key + p.timeFirst - m) == 1.0)
    ensures var m := Max(s.mx + p.Decay(), t.key);
            && 0.0 < p.exp(s.mx + p.Decay() - m) <= 1.0 && 0.0 < p.exp(t.key - m) <= 1.0
            && (p.exp(s.mx + p.Decay() - m) == 1.0 || p.exp(t.key - m) == 1.0)
  {
    hide IsExp;
    var m, m' := Max(s.mx, t.key + p.timeFirst), Max(s.mx + p.Decay(), t.key);
    ExpAtMostOne(p, s.mx - m);
    ExpAtMostOne(p, t.key + p.timeFirst - m);
    ExpAtMostOne(p, s.mx + p.Decay() - m');
    ExpAtMostOne(p, t.key - m');
  }

  /** One update adds at most 1 to the denominator, keeps it at least 1, and brings it to
      at least 1 from an empty state exactly when the key reaches the decayed maximum. */
  lemma DenominatorStep(p: Params, s: State, t: Token)
    requires p.Valid() && s.den >= 0.0
    ensures 0.0 <= Advance(p, s, t).den <= s.den + 1.0
    ensures s.den >= 1.0 ==> Advance(p, s, t).den >= 1.0
    ensures s.den == 0.0 ==> (Advance(p, s, t).den >= 1.0 <==> t.key >= s.mx + p.Decay())
  {
    hide IsExp, Params.Decay, Blend;
    ExponentsNeverPositive(p, s, t);
    var m := Max(s.mx + p.Decay(), t.key);
    var e1, e2 := p.exp(s.mx + p.Decay() - m), p.exp(t.key - m);
    BlendBounds(e1, s.den, e2);
    ExpAtMostOne(p, t.key - m);
  }

  lemma {:induction false} DenominatorAtMostCount(p: Params, hist: seq<Token>)
    requires p.Valid()
    ensures 0.0 <= Run(p, hist).den <= |hist| as real
  {
    hide IsExp;
    if hist != [] {
      var front := hist[..|hist| - 1];
      DenominatorAtMostCount(p, front);
      DenominatorStep(p, Run(p, front), hist[|hist| - 1]);
    }
  }

  lemma {:induction false} DenominatorStaysAtLeastOne(p: Params, hist: seq<Token>)
    requires p.Valid() && hist != []
    requires hist[0].key >= p.initialMax + p.Decay()
    ensures 1.0 <= Run(p, hist).den <= |hist| as real
  {
    hide IsExp;
    var front, t := hist[..|hist| - 1], hist[|hist| - 1];
    DenominatorAtMostCount(p, hist);
    DenominatorAtMostCount(p, front);
    if front != [] { DenominatorStaysAtLeastOne(p, front); }
    DenominatorStep(p, Run(p, front), t);
  }

  /** The denominator is at least 1 after every token exactly when the first key reaches the
      initial maximum after one decay; a key above the initial maximum always does. */
  lemma DenominatorInRange(p: Params, hist: seq<Token>)
    requires p.Valid() && hist != []
    ensures (forall n | 1 <= n <= |hist| :: 1.0 <= Run(p, hist[..n]).den <= n as real)
            <==> hist[0].key >= p.initialMax + p.Decay()
    ensures hist[0].key > p.initialMax ==> hist[0].key >= p.initialMax + p.Decay()
  {
    hide IsExp;
    if hist[0].key >= p.initialMax + p.Decay() {
      forall n | 1 <= n <= |hist| ensures 1.0 <= Run(p, hist[..n]).den <= n as real {
        DenominatorStaysAtLeastOne(p, hist[..n]);
      }
    }
    ExpPositive(p, p.timeDecay);
    var first := hist[..1];
    assert first[..0] == [];
    DenominatorStep(p, Initial(p), hist[0]);
    assert Run(p, first) == Advance(p, Initial(p), hist[0]);
  }

  // ---------- the state the attention layer keeps ----------

  class Channel {
    const p: Params
    var num: real
    var den: real
    var mx: real
    /** Every token this channel has seen. */
    ghost var seen: seq<Token>

    constructor (p: Params)
      ensures this.p == p && Valid() && seen == []
    {
      this.p := p;
      num, den, mx, seen := 0.0, 0.0, p.initialMax, [];
    }

    ghost predicate Valid()
      reads this
    {
      State(num, den, mx) == Run(p, seen)
    }

    /** Reads the average before storing the token. */
    method Attend(t: Token) returns (out: real)
      requires p.Valid() && Valid()
      modifies this
      ensures Valid() && seen == old(seen) + [t]
      ensures AverageDen(p, old(seen), t) > 0.0
      ensures out == AverageNum(p, old(seen), t) / AverageDen(p, old(seen), t)
    {
      hide IsExp;
      OutputIsWeightedAverage(p, seen, t);
      RunAppend(p, seen, t);
      var s := State(num, den, mx);
      out := Output(p, s, t);
      var s' := Advance(p, s, t);
      num, den, mx := s'.num, s'.den, s'.mx;
      seen := seen + [t];
    }
  }
}
