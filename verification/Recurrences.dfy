/**
 Streaming token mixers whose small state stands for the whole history: lightning attention, the
 selective scan, the gated delta rule and the rolling depthwise convolution, over the reals.

 A head keeps a matrix.  A token scales the whole matrix by its decay and adds an outer product;
 a read multiplies by a query.  The read is proved equal to an explicit sum over every token seen.
 */
module Recurrences {
  import opened Reals

  type Mat = seq<seq<real>>

  ghost predicate Shape(s: Mat, rows: nat, cols: nat) {
    |s| == rows && forall o | 0 <= o < rows :: |s[o]| == cols
  }

  /** What one token contributes: its decay and the two sides of its outer product. */
  datatype Step = Step(decay: real, row: Vec, col: Vec)

  ghost predicate Fits(hist: seq<Step>, rows: nat, cols: nat) {
    forall i | 0 <= i < |hist| :: |hist[i].row| == rows && |hist[i].col| == cols
  }

  function Zeros(rows: nat, cols: nat): Mat { seq(rows, _ => seq(cols, _ => 0.0)) }

  /** `decay * state + outer(row, col)`. */
  function Update(s: Mat, t: Step, rows: nat, cols: nat): (s': Mat)
    requires Shape(s, rows, cols) && |t.row| == rows && |t.col| == cols
    ensures Shape(s', rows, cols)
  {
    seq(rows, o requires 0 <= o < rows =>
      seq(cols, d requires 0 <= d < cols => t.decay * s[o][d] + t.row[o] * t.col[d]))
  }

  function Run(hist: seq<Step>, rows: nat, cols: nat): (s: Mat)
    requires Fits(hist, rows, cols)
    ensures Shape(s, rows, cols)
  {
    if hist == [] then Zeros(rows, cols)
    else Update(Run(hist[..|hist| - 1], rows, cols), hist[|hist| - 1], rows, cols)
  }

  // ---------- reads ----------

  /** Column `d` of `query @ state`, first `n` rows. */
  function ReadColTo(q: Vec, s: Mat, d: nat, n: nat): real
    requires n <= |q| && n <= |s| && forall o | 0 <= o < n :: d < |s[o]|
  {
    if n == 0 then 0.0 else ReadColTo(q, s, d, n - 1) + q[n - 1] * s[n - 1][d]
  }

  /** `query @ state`. */
  function ReadCols(q: Vec, s: Mat, rows: nat, cols: nat): Vec
    requires Shape(s, rows, cols) && |q| == rows
  {
    seq(cols, d requires 0 <= d < cols => ReadColTo(q, s, d, rows))
  }

  /** `state @ query + skip * x`. */
  function ReadRows(s: Mat, q: Vec, skip: real, x: Vec, rows: nat, cols: nat): Vec
    requires Shape(s, rows, cols) && |q| == cols && |x| == rows
  {
    seq(rows, p requires 0 <= p < rows => Dot(s[p], q) + skip * x[p])
  }

  // ---------- the explicit sum over the history ----------

  /** The product of the decays of tokens `from .. to`. */
  function DecayProduct(hist: seq<Step>, from: nat, to: nat): real
    requires from <= to <= |hist|
  {
    if from == to then 1.0 else DecayProduct(hist, from, to - 1) * hist[to - 1].decay
  }

  /** Sum over the first `n` tokens of (later decays) * (query . row_i) * col_i[d]. */
  function ByRowSum(q: Vec, hist: seq<Step>, d: nat, n: nat): real
    requires n <= |hist|
    requires forall i | 0 <= i < |hist| :: |hist[i].row| == |q| && d < |hist[i].col|
  {
    if n == 0 then 0.0
    else ByRowSum(q, hist, d, n - 1)
         + DecayProduct(hist, n, |hist|) * (Dot(q, hist[n - 1].row) * hist[n - 1].col[d])
  }

  /** Sum over the first `n` tokens of (later decays) * (col_i . query) * row_i[p]. */
  function ByColSum(q: Vec, hist: seq<Step>, p: nat, n: nat): real
    requires n <= |hist|
    requires forall i | 0 <= i < |hist| :: p < |hist[i].row| && |hist[i].col| == |q|
  {
    if n == 0 then 0.0
    else ByColSum(q, hist, p, n - 1)
         + DecayProduct(hist, n, |hist|) * (Dot(hist[n - 1].col, q) * hist[n - 1].row[p])
  }

  function Pow(x: real, n: nat): real { if n == 0 then 1.0 else Pow(x, n - 1) * x }

  /** With one fixed ratio the decays are its powers, as in lightning attention. */
  lemma {:induction false} FixedRatioDecays(hist: seq<Step>, ratio: real, from: nat, to: nat)
    requires from <= to <= |hist|
    requires forall i | 0 <= i < |hist| :: hist[i].decay == ratio
    ensures DecayProduct(hist, from, to) == Pow(ratio, to - from)
  {
    if from != to { FixedRatioDecays(hist, ratio, from, to - 1); }
  }

  // ---------- linearity of reads ----------

  lemma Spread(a: real, r: real, q: real, s: real, k: real, dot: real, v: real)
    ensures a * r + dot * v + q * (a * s + k * v) == a * (r + q * s) + (dot + q * k) * v
  {
    assert q * (a * s + k * v) == q * (a * s) + q * (k * v);
    assert q * (a * s) == a * (q * s);
    assert q * (k * v) == (q * k) * v;
  }

  lemma {:induction false} ReadColUpdate(q: Vec, s: Mat, t: Step, rows: nat, cols: nat, d: nat, n: nat)
    requires Shape(s, rows, cols) && |t.row| == rows && |t.col| == cols && |q| == rows && d < cols && n <= rows
    ensures ReadColTo(q, Update(s, t, rows, cols), d, n)
            == t.decay * ReadColTo(q, s, d, n) + DotTo(q, t.row, n) * t.col[d]
  {
    if n != 0 {
      ReadColUpdate(q, s, t, rows, cols, d, n - 1);
      Spread(t.decay, ReadColTo(q, s, d, n - 1), q[n - 1], s[n - 1][d], t.row[n - 1],
             DotTo(q, t.row, n - 1), t.col[d]);
    }
  }

  lemma {:induction false} ReadRowUpdate(s: Mat, q: Vec, t: Step, rows: nat, cols: nat, p: nat, n: nat)
    requires Shape(s, rows, cols) && |t.row| == rows && |t.col| == cols && |q| == cols && p < rows && n <= cols
    ensures DotTo(Update(s, t, rows, cols)[p], q, n)
            == t.decay * DotTo(s[p], q, n) + DotTo(t.col, q, n) * t.row[p]
  {
    if n != 0 {
      ReadRowUpdate(s, q, t, rows, cols, p, n - 1);
      Spread(t.decay, DotTo(s[p], q, n - 1), q[n - 1], s[p][n - 1], t.col[n - 1],
             DotTo(t.col, q, n - 1), t.row[p]);
    }
  }

  // ---------- the sums satisfy the same recurrence ----------

  lemma {:induction false} DecayProductIgnoresLater(hist: seq<Step>, t: Step, from: nat, to: nat)
    requires from <= to <= |hist|
    ensures DecayProduct(hist + [t], from, to) == DecayProduct(hist, from, to)
  {
    if from != to { DecayProductIgnoresLater(hist, t, from, to - 1); }
  }

  lemma ScaleTerm(a: real, s: real, p: real, x: real)
    ensures a * (s + p * x) == a * s + (p * a) * x
  {
    assert a * (p * x) == (p * a) * x;
  }

  lemma {:induction false} ByRowSumStep(q: Vec, hist: seq<Step>, t: Step, cols: nat, d: nat, n: nat)
    requires n <= |hist| && Fits(hist + [t], |q|, cols) && d < cols
    requires Fits(hist, |q|, cols)
    ensures ByRowSum(q, hist + [t], d, n) == t.decay * ByRowSum(q, hist, d, n)
  {
    if n != 0 {
      var i := n - 1;
      ByRowSumStep(q, hist, t, cols, d, i);
      DecayProductIgnoresLater(hist, t, n, |hist|);
      ScaleTerm(t.decay, ByRowSum(q, hist, d, i), DecayProduct(hist, n, |hist|), Dot(q, hist[i].row) * hist[i].col[d]);
      assert (hist + [t])[i] == hist[i];
    }
  }

  lemma {:induction false} ByColSumStep(q: Vec, hist: seq<Step>, t: Step, rows: nat, p: nat, n: nat)
    requires n <= |hist| && Fits(hist + [t], rows, |q|) && p < rows
    requires Fits(hist, rows, |q|)
    ensures ByColSum(q, hist + [t], p, n) == t.decay * ByColSum(q, hist, p, n)
  {
    if n != 0 {
      var i := n - 1;
      ByColSumStep(q, hist, t, rows, p, i);
      DecayProductIgnoresLater(hist, t, n, |hist|);
      ScaleTerm(t.decay, ByColSum(q, hist, p, i), DecayProduct(hist, n, |hist|), Dot(hist[i].col, q) * hist[i].row[p]);
      assert (hist + [t])[i] == hist[i];
    }
  }

  lemma {:induction false} ReadOfZeros(q: Vec, cols: nat, d: nat, n: nat)
    requires n <= |q| && d < cols
    ensures ReadColTo(q, Zeros(|q|, cols), d, n) == 0.0
  {
    if n != 0 { ReadOfZeros(q, cols, d, n - 1); }
  }

  lemma {:induction false} DotOfZeros(q: Vec, n: nat)
    requires n <= |q|
    ensures DotTo(seq(|q|, _ => 0.0), q, n) == 0.0
  {
    if n != 0 { DotOfZeros(q, n - 1); }
  }

  /** `query @ state` is the decayed sum over all tokens, for every history and every column. */
  lemma {:induction false} ReadIsDecayedSum(q: Vec, hist: seq<Step>, cols: nat, d: nat)
    requires Fits(hist, |q|, cols) && d < cols
    ensures ReadColTo(q, Run(hist, |q|, cols), d, |q|) == ByRowSum(q, hist, d, |hist|)
  {
    hide ReadColTo, Update, DotTo;
    if hist == [] {
      ReadOfZeros(q, cols, d, |q|);
    } else {
      var n := |hist| - 1;
      var front, t := hist[..n], hist[n];
      assert hist == front + [t];
      ReadIsDecayedSum(q, front, cols, d);
      ScaleEqual(ReadColTo(q, Run(front, |q|, cols), d, |q|), ByRowSum(q, front, d, n), t.decay);
      ReadColUpdate(q, Run(front, |q|, cols), t, |q|, cols, d, |q|);
      ByRowSumStep(q, front, t, cols, d, n);
      assert DecayProduct(hist, |hist|, |hist|) == 1.0;
    }
  }

  /** `state @ query` likewise, as the selective scan reads it. */
  lemma {:induction false} ScanIsDecayedSum(q: Vec, hist: seq<Step>, rows: nat, p: nat)
    requires Fits(hist, rows, |q|) && p < rows
    ensures Dot(Run(hist, rows, |q|)[p], q) == ByColSum(q, hist, p, |hist|)
  {
    hide Update, DotTo;
    if hist == [] {
      DotOfZeros(q, |q|);
    } else {
      var n := |hist| - 1;
      var front, t := hist[..n], hist[n];
      assert hist == front + [t];
      ScanIsDecayedSum(q, front, rows, p);
      ScaleEqual(Dot(Run(front, rows, |q|)[p], q), ByColSum(q, front, p, n), t.decay);
      ReadRowUpdate(Run(front, rows, |q|), q, t, rows, |q|, p, |q|);
      ByColSumStep(q, front, t, rows, p, n);
      assert DecayProduct(hist, |hist|, |hist|) == 1.0;
    }
  }

  lemma RunAppend(hist: seq<Step>, t: Step, rows: nat, cols: nat)
    requires Fits(hist, rows, cols) && |t.row| == rows && |t.col| == cols
    ensures Run(hist + [t], rows, cols) == Update(Run(hist, rows, cols), t, rows, cols)
  {
    assert (hist + [t])[..|hist|] == hist;
  }

  // ---------- lightning attention ----------

  /** Sum over the first `n` tokens of ratio to the age, times query . key, times value. */
  function AgedSum(q: Vec, ratio: real, hist: seq<Step>, d: nat, n: nat): real
    requires n <= |hist|
    requires forall i | 0 <= i < |hist| :: |hist[i].row| == |q| && d < |hist[i].col|
  {
    if n == 0 then 0.0
    else AgedSum(q, ratio, hist, d, n - 1) + Pow(ratio, |hist| - n) * (Dot(q, hist[n - 1].row) * hist[n - 1].col[d])
  }

  lemma {:induction false} AgedSumIs(q: Vec, ratio: real, hist: seq<Step>, cols: nat, d: nat, n: nat)
    requires Fits(hist, |q|, cols) && d < cols && n <= |hist|
    requires forall i | 0 <= i < |hist| :: hist[i].decay == ratio
    ensures ByRowSum(q, hist, d, n) == AgedSum(q, ratio, hist, d, n)
  {
    hide Pow, Dot, DecayProduct;
    if n != 0 {
      AgedSumIs(q, ratio, hist, cols, d, n - 1);
      FixedRatioDecays(hist, ratio, n, |hist|);
      ScaleEqual(DecayProduct(hist, n, |hist|), Pow(ratio, |hist| - n), Dot(q, hist[n - 1].row) * hist[n - 1].col[d]);
    }
  }

  class LightningHead {
    const dim: nat
    const ratio: real
    var state: Mat
    /** One step per token, all with this head's ratio. */
    ghost var seen: seq<Step>

    constructor (dim: nat, ratio: real)
      ensures this.dim == dim && this.ratio == ratio && Valid() && seen == []
    {
      this.dim, this.ratio := dim, ratio;
      state, seen := Zeros(dim, dim), [];
    }

    ghost predicate Valid()
      reads this
    {
      && Fits(seen, dim, dim)
      && (forall i | 0 <= i < |seen| :: seen[i].decay == ratio)
      && state == Run(seen, dim, dim)
    }

    /** The new token is stored before the read, so it takes part with weight `ratio^0`. */
    method Attend(q: Vec, k: Vec, v: Vec) returns (out: Vec)
      requires Valid() && |q| == dim && |k| == dim && |v| == dim
      modifies this
      ensures Valid() && seen == old(seen) + [Step(ratio, k, v)]
      ensures |out| == dim && forall d | 0 <= d < dim :: out[d] == AgedSum(q, ratio, seen, d, |seen|)
    {
      hide Run, Update, ByRowSum, AgedSum, ReadColTo;
      var t := Step(ratio, k, v);
      RunAppend(seen, t, dim, dim);
      state := Update(state, t, dim, dim);
      seen := seen + [t];
      out := ReadCols(q, state, dim, dim);
      forall d | 0 <= d < dim ensures out[d] == AgedSum(q, ratio, seen, d, |seen|) {
        ReadIsDecayedSum(q, seen, dim, d);
        AgedSumIs(q, ratio, seen, dim, d, |seen|);
      }
    }
  }

  // ---------- selective scan ----------

  class ScanHead {
    const rows: nat
    const cols: nat
    var state: Mat
    ghost var seen: seq<Step>

    constructor (rows: nat, cols: nat)
      ensures this.rows == rows && this.cols == cols && Valid() && seen == []
    {
      this.rows, this.cols := rows, cols;
      state, seen := Zeros(rows, cols), [];
    }

    ghost predicate Valid()
      reads this
    {
      Fits(seen, rows, cols) && state == Run(seen, rows, cols)
    }

    /** `decay` changes from token to token; `skip * x` bypasses the state. */
    method Scan(decay: real, x: Vec, db: Vec, c: Vec, skip: real) returns (y: Vec)
      requires Valid() && |x| == rows && |db| == cols && |c| == cols
      modifies this
      ensures Valid() && seen == old(seen) + [Step(decay, x, db)]
      ensures |y| == rows && forall p | 0 <= p < rows :: y[p] == ByColSum(c, seen, p, |seen|) + skip * x[p]
    {
      hide Run, Update, ByColSum, Dot;
      var t := Step(decay, x, db);
      RunAppend(seen, t, rows, cols);
      state := Update(state, t, rows, cols);
      seen := seen + [t];
      y := ReadRows(state, c, skip, x, rows, cols);
      forall p | 0 <= p < rows ensures y[p] == ByColSum(c, seen, p, |seen|) + skip * x[p] {
        ScanIsDecayedSum(c, seen, rows, p);
      }
    }
  }

  // ---------- gated delta rule ----------

  /** The gated difference between the target and what `k` retrieves from the decayed state, per column. */
  function Delta(s: Mat, decay: real, beta: real, k: Vec, v: Vec, rows: nat, cols: nat): (delta: Vec)
    requires Shape(s, rows, cols) && |k| == rows && |v| == cols
    ensures |delta| == cols
  {
    seq(cols, d requires 0 <= d < cols => (v[d] - decay * ReadColTo(k, s, d, rows)) * beta)
  }

  /** Decay, retrieve, and write the difference back under the same key. */
  function DeltaUpdate(s: Mat, decay: real, beta: real, k: Vec, v: Vec, rows: nat, cols: nat): (s': Mat)
    requires Shape(s, rows, cols) && |k| == rows && |v| == cols
    ensures Shape(s', rows, cols)
  {
    Update(s, Step(decay, k, Delta(s, decay, beta, k, v, rows, cols)), rows, cols)
  }

  /** A delta write moves what its own key retrieves from the decayed state (`kept`) towards the
      target by `beta * |k|^2`; when that product is 1 the key retrieves the target itself. */
  lemma DeltaWriteReadback(s: Mat, decay: real, beta: real, k: Vec, v: Vec, rows: nat, cols: nat, d: nat, kept: real)
    requires Shape(s, rows, cols) && |k| == rows && |v| == cols && d < cols
    requires kept == decay * ReadColTo(k, s, d, rows)
    ensures ReadColTo(k, DeltaUpdate(s, decay, beta, k, v, rows, cols), d, rows)
            == Towards(kept, v[d], beta, Dot(k, k))
    ensures beta * Dot(k, k) == 1.0 ==>
              ReadColTo(k, DeltaUpdate(s, decay, beta, k, v, rows, cols), d, rows) == v[d]
  {
    hide ReadColTo, Update, Dot, DotTo, Delta, DeltaUpdate, Towards;
    var dot, delta := QueryRead(s, decay, beta, k, v, k, rows, cols, d, kept, kept);
    MoveTowards(ReadColTo(k, DeltaUpdate(s, decay, beta, k, v, rows, cols), d, rows), kept, dot, beta, v[d], delta);
  }

  /** What any query reads after a write: what it read before, decayed, plus its share of the difference. */
  lemma QueryRead(s: Mat, decay: real, beta: real, k: Vec, v: Vec, q: Vec, rows: nat, cols: nat, d: nat, kept: real, was: real)
    returns (dot: real, delta: real)
    requires Shape(s, rows, cols) && |k| == |q| == rows && |v| == cols && d < cols
    requires kept == decay * ReadColTo(k, s, d, rows) && was == decay * ReadColTo(q, s, d, rows)
    ensures dot == Dot(q, k) && delta == (v[d] - kept) * beta
    ensures ReadColTo(q, DeltaUpdate(s, decay, beta, k, v, rows, cols), d, rows) == was + dot * delta
  {
    hide ReadColTo, Update, DotTo;
    var written := Delta(s, decay, beta, k, v, rows, cols);
    ReadColUpdate(q, s, Step(decay, k, written), rows, cols, d, rows);
    dot, delta := Dot(q, k), written[d];
  }

  /** From `kept` towards `target`, by the gate times the squared norm of the key. */
  function Towards(kept: real, target: real, beta: real, norm2: real): real {
    kept + (beta * norm2) * (target - kept)
  }

  /** What a query orthogonal to the written key retrieves only decays. */
  lemma DeltaLeavesOrthogonal(s: Mat, decay: real, beta: real, k: Vec, v: Vec, q: Vec, rows: nat, cols: nat, d: nat)
    requires Shape(s, rows, cols) && |k| == rows && |v| == cols && |q| == rows && d < cols
    requires Dot(q, k) == 0.0
    ensures ReadColTo(q, DeltaUpdate(s, decay, beta, k, v, rows, cols), d, rows) == decay * ReadColTo(q, s, d, rows)
  {
    hide ReadColTo, Update, Dot, Delta;
    var delta := Delta(s, decay, beta, k, v, rows, cols);
    ReadColUpdate(q, s, Step(decay, k, delta), rows, cols, d, rows);
    DotAll(q, k);
    VanishingTerm(Dot(q, k), delta[d]);
  }

  /** One token of a delta head: its decay, its gate, and what it writes under which key. */
  datatype Write = Write(decay: real, beta: real, key: Vec, value: Vec)

  ghost predicate WritesFit(hist: seq<Write>, rows: nat, cols: nat) {
    forall i | 0 <= i < |hist| :: |hist[i].key| == rows && |hist[i].value| == cols
  }

  function DeltaRun(hist: seq<Write>, rows: nat, cols: nat): (s: Mat)
    requires WritesFit(hist, rows, cols)
    ensures Shape(s, rows, cols)
  {
    if hist == [] then Zeros(rows, cols)
    else
      var w := hist[|hist| - 1];
      DeltaUpdate(DeltaRun(hist[..|hist| - 1], rows, cols), w.decay, w.beta, w.key, w.value, rows, cols)
  }

  /** A query as the state before a write sees it: without the gated part of it along the key. */
  function Before(q: Vec, w: Write): (r: Vec)
    requires |q| == |w.key|
    ensures |r| == |q|
  {
    seq(|q|, o requires 0 <= o < |q| => q[o] - Gate(q, w) * w.key[o])
  }

  /** How much of a written value a query meets. */
  function Gate(q: Vec, w: Write): real
    requires |q| == |w.key|
  {
    w.beta * Dot(q, w.key)
  }

  /** The query as it was right after token `n - 1`, taken back through the later writes. */
  function BeforeAll(q: Vec, hist: seq<Write>, n: nat): (r: Vec)
    requires n <= |hist| && forall i | 0 <= i < |hist| :: |hist[i].key| == |q|
    ensures |r| == |q|
    decreases |hist| - n
  {
    if n == |hist| then q else Before(BeforeAll(q, hist, n + 1), hist[n])
  }

  function LaterDecays(hist: seq<Write>, n: nat): real
    requires n <= |hist|
    decreases |hist| - n
  {
    if n == |hist| then 1.0 else hist[n].decay * LaterDecays(hist, n + 1)
  }

  /** Sum over the first `n` tokens of (later decays) * (gate of the query at that time) * value[d]. */
  function WriteSum(q: Vec, hist: seq<Write>, d: nat, n: nat): real
    requires n <= |hist|
    requires forall i | 0 <= i < |hist| :: |hist[i].key| == |q| && d < |hist[i].value|
  {
    if n == 0 then 0.0
    else WriteSum(q, hist, d, n - 1)
         + LaterDecays(hist, n) * (Gate(BeforeAll(q, hist, n), hist[n - 1]) * hist[n - 1].value[d])
  }

  /** Reads are linear in the query. */
  lemma {:induction false} ReadLess(q: Vec, w: Write, s: Mat, d: nat, n: nat)
    requires |q| == |w.key| && n <= |q| && n <= |s| && forall o | 0 <= o < n :: d < |s[o]|
    ensures ReadColTo(Before(q, w), s, d, n) == ReadColTo(q, s, d, n) - Gate(q, w) * ReadColTo(w.key, s, d, n)
  {
    hide Gate;
    if n != 0 {
      ReadLess(q, w, s, d, n - 1);
      LessTerm(Gate(q, w), q[n - 1], w.key[n - 1], s[n - 1][d], ReadColTo(w.key, s, d, n - 1));
    }
  }

  lemma LessTerm(g: real, q: real, k: real, x: real, sum: real)
    ensures (q - g * k) * x == q * x - g * (k * x)
    ensures g * (sum + k * x) == g * sum + g * (k * x)
  {
    assert (g * k) * x == g * (k * x);
  }

  /** A write moves into the query: what is read after it is read before it by the moved query, plus
      the gated value. */
  lemma WriteMovesIntoQuery(q: Vec, w: Write, s: Mat, rows: nat, cols: nat, d: nat)
    requires Shape(s, rows, cols) && |q| == |w.key| == rows && |w.value| == cols && d < cols
    ensures ReadColTo(q, DeltaUpdate(s, w.decay, w.beta, w.key, w.value, rows, cols), d, rows) ==
            w.decay * ReadColTo(Before(q, w), s, d, rows) + Gate(q, w) * w.value[d]
  {
    hide ReadColTo, DotTo, Dot, Before, DeltaUpdate, Gate;
    var a, v, g, rq, rk := w.decay, w.value[d], Gate(q, w), ReadColTo(q, s, d, rows), ReadColTo(w.key, s, d, rows);
    var kept, was, moved := a * rk, a * rq, ReadColTo(Before(q, w), s, d, rows);
    var dot, delta := QueryRead(s, a, w.beta, w.key, w.value, q, rows, cols, d, kept, was);
    ReadLess(q, w, s, d, rows);
    GateIs(q, w);
    GatedRead(a, w.beta, dot, v, rq, rk, kept, was, delta, g, moved);
  }

  lemma GateIs(q: Vec, w: Write)
    requires |q| == |w.key|
    ensures Gate(q, w) == w.beta * Dot(q, w.key)
  {
  }

  lemma GatedRead(a: real, beta: real, dot: real, v: real, rq: real, rk: real, kept: real, was: real, delta: real, g: real, moved: real)
    requires kept == a * rk && was == a * rq && delta == (v - kept) * beta && g == beta * dot && moved == rq - g * rk
    ensures was + dot * delta == a * moved + g * v
  {
    assert dot * ((v - kept) * beta) == g * (v - kept);
    assert g * kept == a * (g * rk) by { assert g * (a * rk) == a * (g * rk); ScaleEqual(kept, a * rk, g); }
    assert a * (rq - g * rk) == a * rq - a * (g * rk);
    ScaleEqual(moved, rq - g * rk, a);
    ScaleEqual(delta, (v - kept) * beta, dot);
  }

  lemma {:induction false} BeforeAllStep(q: Vec, hist: seq<Write>, w: Write, n: nat)
    requires n <= |hist| && |w.key| == |q| && forall i | 0 <= i < |hist| :: |hist[i].key| == |q|
    ensures BeforeAll(q, hist + [w], n) == BeforeAll(Before(q, w), hist, n)
    ensures LaterDecays(hist + [w], n) == LaterDecays(hist, n) * w.decay
    decreases |hist| - n
  {
    hide Before;
    var all := hist + [w];
    if n == |hist| {
      assert BeforeAll(q, all, n + 1) == q && LaterDecays(all, n + 1) == 1.0;
    } else {
      BeforeAllStep(q, hist, w, n + 1);
      assert all[n] == hist[n];
      assert hist[n].decay * (LaterDecays(hist, n + 1) * w.decay) == (hist[n].decay * LaterDecays(hist, n + 1)) * w.decay;
    }
  }

  lemma {:induction false} WriteSumStep(q: Vec, hist: seq<Write>, w: Write, cols: nat, d: nat, n: nat)
    requires WritesFit(hist, |q|, cols) && |w.key| == |q| && |w.value| == cols && d < cols && n <= |hist|
    ensures WriteSum(q, hist + [w], d, n) == w.decay * WriteSum(Before(q, w), hist, d, n)
  {
    hide Before, Gate, BeforeAll, LaterDecays;
    if n != 0 {
      WriteSumStep(q, hist, w, cols, d, n - 1);
      BeforeAllStep(q, hist, w, n);
      assert (hist + [w])[n - 1] == hist[n - 1];
      DecayTerm(w.decay, WriteSum(Before(q, w), hist, d, n - 1), LaterDecays(hist, n),
                Gate(BeforeAll(Before(q, w), hist, n), hist[n - 1]) * hist[n - 1].value[d]);
    }
  }

  lemma DecayTerm(a: real, sum: real, later: real, x: real)
    ensures a * sum + (later * a) * x == a * (sum + later * x)
  {
    assert (later * a) * x == a * (later * x);
  }

  /** Reading a delta state is the sum over all tokens of the values written, each met by the query
      taken back through all later writes, under the later decays. */
  lemma {:induction false} DeltaIsWriteSum(q: Vec, hist: seq<Write>, cols: nat, d: nat)
    requires WritesFit(hist, |q|, cols) && d < cols
    ensures ReadColTo(q, DeltaRun(hist, |q|, cols), d, |q|) == WriteSum(q, hist, d, |hist|)
    decreases |hist|
  {
    hide ReadColTo, DeltaUpdate, Before, Gate;
    if hist == [] {
      ReadOfZeros(q, cols, d, |q|);
    } else {
      var n := |hist| - 1;
      var front, w := hist[..n], hist[n];
      assert hist == front + [w];
      DeltaIsWriteSum(Before(q, w), front, cols, d);
      WriteMovesIntoQuery(q, w, DeltaRun(front, |q|, cols), |q|, cols, d);
      WriteSumStep(q, front, w, cols, d, n);
      ScaleEqual(ReadColTo(Before(q, w), DeltaRun(front, |q|, cols), d, |q|), WriteSum(Before(q, w), front, d, n), w.decay);
      assert BeforeAll(q, hist, |hist|) == q && LaterDecays(hist, |hist|) == 1.0;
    }
  }

  class DeltaHead {
    const rows: nat
    const cols: nat
    var state: Mat
    ghost var seen: seq<Write>

    constructor (rows: nat, cols: nat)
      ensures this.rows == rows && this.cols == cols && Valid() && seen == []
    {
      this.rows, this.cols := rows, cols;
      state, seen := Zeros(rows, cols), [];
    }

    ghost predicate Valid()
      reads this
    {
      WritesFit(seen, rows, cols) && state == DeltaRun(seen, rows, cols)
    }

    /** Decay, write the gated difference, read. */
    method Attend(q: Vec, w: Write) returns (out: Vec)
      requires Valid() && |q| == |w.key| == rows && |w.value| == cols
      modifies this
      ensures Valid() && seen == old(seen) + [w]
      ensures |out| == cols && forall d | 0 <= d < cols :: out[d] == WriteSum(q, seen, d, |seen|)
    {
      hide DeltaUpdate, WriteSum, ReadColTo;
      assert (seen + [w])[..|seen|] == seen;
      state := DeltaUpdate(state, w.decay, w.beta, w.key, w.value, rows, cols);
      seen := seen + [w];
      out := ReadCols(q, state, rows, cols);
      forall d | 0 <= d < cols ensures out[d] == WriteSum(q, seen, d, |seen|) {
        DeltaIsWriteSum(q, seen, cols, d);
      }
    }
  }

  lemma DotAll(x: Vec, y: Vec)
    requires |x| == |y|
    ensures Dot(x, y) == DotTo(x, y, |x|)
  {
  }

  lemma MoveTowards(after: real, kept: real, dot: real, beta: real, target: real, delta: real)
    requires delta == (target - kept) * beta && after == kept + dot * delta
    ensures after == Towards(kept, target, beta, dot)
    ensures beta * dot == 1.0 ==> after == target
  {
    assert dot * ((target - kept) * beta) == (beta * dot) * (target - kept);
  }

  lemma VanishingTerm(x: real, y: real)
    requires x == 0.0
    ensures x * y == 0.0
  {
  }

  // ---------- rolling depthwise convolution ----------

  /** Input `i` of a channel, zero before the first one. */
  function At(xs: Vec, i: int): real { if 0 <= i < |xs| then xs[i] else 0.0 }

  /** The first `n` terms of the zero-padded causal convolution at the newest input: tap `K - 1 - j` meets the input
      `j` tokens ago. */
  function CausalSum(w: Vec, xs: Vec, n: nat): real
    requires n <= |w|
  {
    if n == 0 then 0.0
    else CausalSum(w, xs, n - 1) + w[|w| - n] * At(xs, |xs| - n)
  }

  /** The last `n` terms of the same sum, oldest input first. */
  function OldestSum(w: Vec, xs: Vec, n: nat): real
    requires n <= |w|
  {
    if n == 0 then 0.0
    else OldestSum(w, xs, n - 1) + w[n - 1] * At(xs, |xs| - |w| + n - 1)
  }

  lemma {:induction false} SumsMeet(w: Vec, xs: Vec, n: nat)
    requires n <= |w|
    ensures CausalSum(w, xs, |w| - n) + OldestSum(w, xs, n) == CausalSum(w, xs, |w|)
  {
    if n != 0 { SumsMeet(w, xs, n - 1); }
  }

  /** Oldest first, the newest input comes last. */
  lemma AllFromOldest(w: Vec, xs: Vec, x: real)
    requires w != [] && xs != [] && xs[|xs| - 1] == x
    ensures CausalSum(w, xs, |w|) == w[|w| - 1] * x + OldestSum(w, xs, |w| - 1)
  {
    hide CausalSum;
    SumsMeet(w, xs, |w|);
    assert CausalSum(w, xs, 0) == 0.0 by { NoTerms(w, xs); }
  }

  lemma NoTerms(w: Vec, xs: Vec)
    ensures CausalSum(w, xs, 0) == 0.0
  {
  }

  class RollingConv {
    const w: Vec
    const bias: real
    /** The last `K - 1` inputs, oldest first. */
    var window: Vec
    ghost var seen: Vec

    constructor (w: Vec, bias: real)
      requires w != []
      ensures this.w == w && this.bias == bias && Valid() && seen == []
    {
      this.w, this.bias := w, bias;
      window, seen := seq(|w| - 1, _ => 0.0), [];
    }

    ghost predicate Valid()
      reads this
    {
      && |w| == |window| + 1
      && forall i | 0 <= i < |window| :: window[i] == At(seen, |seen| - |window| + i)
    }

    /** Shift left and append; a kernel of one tap keeps no history. */
    method Roll(x: real)
      requires Valid()
      modifies this
      ensures Valid() && seen == old(seen) + [x]
      ensures |w| > 1 ==> window == old(window)[1..] + [x]
    {
      if |w| > 1 {
        window := window[1..] + [x];
      }
      seen := seen + [x];
    }

    /** History read from the newest end with negative indices. */
    method StepNewestLast(x: real) returns (y: real)
      requires Valid()
      modifies this
      ensures Valid() && seen == old(seen) + [x]
      ensures y == bias + CausalSum(w, seen, |w|)
    {
      var k := |w|;
      ghost var xs := seen + [x];
      var acc := bias;
      acc := acc + w[k - 1] * x;
      assert CausalSum(w, xs, 0) == 0.0;
      for j := 1 to k
        invariant acc == bias + CausalSum(w, xs, j)
      {
        assert window[|window| - j] == At(xs, |xs| - (j + 1));
        acc := acc + w[k - 1 - j] * window[|window| - j];
      }
      Roll(x);
      y := acc;
    }

    /** History read from the oldest end. */
    method StepOldestFirst(x: real) returns (y: real)
      requires Valid()
      modifies this
      ensures Valid() && seen == old(seen) + [x]
      ensures y == CausalSum(w, seen, |w|)
    {
      hide CausalSum;
      var k := |w|;
      ghost var xs := seen + [x];
      var acc := w[k - 1] * x;
      for j := 0 to k - 1
        invariant acc == w[k - 1] * x + OldestSum(w, xs, j)
      {
        assert window[j] == At(xs, |xs| - k + j);
        acc := acc + w[j] * window[j];
      }
      AllFromOldest(w, xs, x);
      Roll(x);
      y := acc;
    }
  }
}
