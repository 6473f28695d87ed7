/**
 Greedy decoding with per-layer key/value lists (one token fed at a time) against greedy decoding
 that recomputes every position of the whole prefix under a causal mask.

 A transformer is any embedding, per-layer projection, per-layer mixing function and readout:
 `project` makes the key/value entry of one position, `mix` turns a position's hidden value and
 the entries it may see into its next hidden value.  Rotary embedding, softmax, experts and norms
 are all inside these functions, which receive the layer and the position.
 */
module CachedDecoding {
  import opened Basics

  datatype Model<!T, !H, !KV> = Model(
    layers: nat,
    embed: T -> H,
    project: (nat, nat, H) -> KV,
    mix: (nat, nat, H, seq<KV>) -> H,
    readout: H -> T)

  datatype Error = NoPrediction | EmptyPrompt

  // ---------- what a causal model computes, position by position ----------

  /** The input of layer `l` (the output of layer `l - 1`) at position `t`. */
  function Hidden<T, H, KV>(m: Model<T, H, KV>, toks: seq<T>, l: nat, t: nat): H
    requires t < |toks|
    decreases l, 0
  {
    if l == 0 then m.embed(toks[t])
    else m.mix(l - 1, t, Hidden(m, toks, l - 1, t), Entries(m, toks, l - 1, t + 1))
  }

  /** The key/value entries of layer `l` at the first `n` positions. */
  function Entries<T, H, KV>(m: Model<T, H, KV>, toks: seq<T>, l: nat, n: nat): seq<KV>
    requires n <= |toks|
    decreases l, 1
  {
    seq(n, j requires 0 <= j < n => m.project(l, j, Hidden(m, toks, l, j)))
  }

  function Next<T, H, KV>(m: Model<T, H, KV>, toks: seq<T>): T
    requires toks != []
  {
    m.readout(Hidden(m, toks, m.layers, |toks| - 1))
  }

  /** `h` holds the hidden values of a causal run: embeddings first, then at each layer and position the
      mix of what stands there with the entries of that layer up to it. */
  ghost predicate CausalRun<T, H, KV>(m: Model<T, H, KV>, toks: seq<T>, h: (nat, nat) -> H) {
    && (forall t: nat | t < |toks| :: h(0, t) == m.embed(toks[t]))
    && forall l: nat, t: nat | l < m.layers && t < |toks| ::
         h(l + 1, t) == m.mix(l, t, h(l, t), seq(t + 1, j requires 0 <= j <= t => m.project(l, j, h(l, j))))
  }

  /** The next token is what the readout makes of the last position behind the last of all layers. */
  lemma NextIsLastLayer<T, H, KV>(m: Model<T, H, KV>, toks: seq<T>, h: (nat, nat) -> H)
    requires toks != [] && CausalRun(m, toks, h)
    ensures Next(m, toks) == m.readout(h(m.layers, |toks| - 1))
  {
    RunIsHidden(m, toks, h, m.layers);
  }

  lemma {:induction false} RunIsHidden<T, H, KV>(m: Model<T, H, KV>, toks: seq<T>, h: (nat, nat) -> H, l: nat)
    requires CausalRun(m, toks, h) && l <= m.layers
    ensures forall t: nat | t < |toks| :: Hidden(m, toks, l, t) == h(l, t)
  {
    if l != 0 {
      RunIsHidden(m, toks, h, l - 1);
      forall t: nat | t < |toks| ensures Hidden(m, toks, l, t) == h(l, t) {
        assert Entries(m, toks, l - 1, t + 1) == seq(t + 1, j requires 0 <= j <= t => m.project(l - 1, j, h(l - 1, j)));
        assert h((l - 1) + 1, t) == m.mix(l - 1, t, h(l - 1, t), seq(t + 1, j requires 0 <= j <= t => m.project(l - 1, j, h(l - 1, j))));
      }
    }
  }

  /** `n` greedy tokens after `toks`. */
  function Greedy<T, H, KV>(m: Model<T, H, KV>, toks: seq<T>, n: nat): seq<T>
    requires toks != []
  {
    if n == 0 then []
    else
      var before := Greedy(m, toks, n - 1);
      before + [Next(m, toks + before)]
  }

  /** `Greedy` is the only list in which every token is the model's choice after all earlier ones. */
  lemma {:induction false} GreedyUnique<T, H, KV>(m: Model<T, H, KV>, toks: seq<T>, gen: seq<T>)
    requires toks != []
    ensures gen == Greedy(m, toks, |gen|) <==>
            forall i | 0 <= i < |gen| :: gen[i] == Next(m, toks + gen[..i])
  {
    if gen != [] {
      var n := |gen| - 1;
      var front := gen[..n];
      GreedyUnique(m, toks, front);
      assert gen == front + [gen[n]];
      assert forall i | 0 <= i < n :: front[..i] == gen[..i] && front[i] == gen[i];
      GreedyLength(m, toks, n);
      if forall i | 0 <= i < |gen| :: gen[i] == Next(m, toks + gen[..i]) {
        assert forall i | 0 <= i < n :: front[i] == Next(m, toks + front[..i]);
        assert gen[n] == Next(m, toks + gen[..n]);
      }
      if gen == Greedy(m, toks, |gen|) {
        assert Greedy(m, toks, n) == Greedy(m, toks, |gen|)[..n] == front;
        forall i | 0 <= i < |gen| ensures gen[i] == Next(m, toks + gen[..i]) {
          if i < n { assert front[i] == Next(m, toks + front[..i]); }
        }
      }
    }
  }

  lemma {:induction false} GreedyLength<T, H, KV>(m: Model<T, H, KV>, toks: seq<T>, n: nat)
    requires toks != []
    ensures |Greedy(m, toks, n)| == n
  {
    if n != 0 { GreedyLength(m, toks, n - 1); }
  }

  /** Causality: later tokens never change what an earlier position computed or cached. */
  lemma {:induction false} PrefixStable<T, H, KV>(m: Model<T, H, KV>, toks: seq<T>, more: seq<T>, l: nat, n: nat)
    requires n <= |toks|
    ensures forall t | 0 <= t < n :: Hidden(m, toks + more, l, t) == Hidden(m, toks, l, t)
    ensures Entries(m, toks + more, l, n) == Entries(m, toks, l, n)
    decreases l
  {
    forall t | 0 <= t < n ensures Hidden(m, toks + more, l, t) == Hidden(m, toks, l, t) {
      if l != 0 {
        PrefixStable(m, toks, more, l - 1, t + 1);
        assert Hidden(m, toks + more, l - 1, t) == Hidden(m, toks, l - 1, t);
      }
    }
  }

  // ---------- one token at a time, with caches ----------

  lemma NothingCached<T, H, KV>(m: Model<T, H, KV>)
    ensures forall l: nat :: Entries(m, [], l, 0) == []
  {
  }

  class Decoder<T, H, KV> {
    const m: Model<T, H, KV>
    /** `kv[l]` is the list layer `l` has appended to. */
    var kv: seq<seq<KV>>

    constructor (m: Model<T, H, KV>)
      ensures this.m == m
      ensures |kv| == m.layers && forall l | 0 <= l < |kv| :: kv[l] == []
    {
      this.m := m;
      this.kv := seq(m.layers, _ => []);
    }

    /** Layers below `done` hold one entry for each token of `toks + [t]`, the others one for each of `toks`;
        entry `i` of layer `l` is the one a full recomputation makes for position `i`. */
    ghost predicate Holds(toks: seq<T>, t: T, done: nat)
      reads this
    {
      && |kv| == m.layers
      && forall l | 0 <= l < |kv| :: kv[l] == Entries(m, toks + [t], l, if l < done then |toks| + 1 else |toks|)
    }

    ghost predicate HoldsAll(toks: seq<T>)
      reads this
    {
      && |kv| == m.layers
      && forall l | 0 <= l < |kv| :: kv[l] == Entries(m, toks, l, |toks|)
    }

    method Block(x: H, l: nat, pos: nat) returns (y: H)
      requires l < |kv|
      modifies this`kv
      ensures kv == old(kv)[l := old(kv)[l] + [m.project(l, pos, x)]]
      ensures y == m.mix(l, pos, x, kv[l])
    {
      kv := kv[l := kv[l] + [m.project(l, pos, x)]];
      y := m.mix(l, pos, x, kv[l]);
    }

    method Feed(ghost toks: seq<T>, t: T, pos: nat) returns (next: T)
      requires HoldsAll(toks) && pos == |toks|
      modifies this`kv
      ensures HoldsAll(toks + [t])
      ensures next == Next(m, toks + [t])
    {
      forall l | 0 <= l < |kv| ensures kv[l] == Entries(m, toks + [t], l, |toks|) {
        PrefixStable(m, toks, [t], l, |toks|);
      }
      var x := m.embed(t);
      for l := 0 to m.layers
        invariant Holds(toks, t, l)
        invariant x == Hidden(m, toks + [t], l, pos)
      {
        x := Block(x, l, pos);
        assert kv[l] == Entries(m, toks + [t], l, pos + 1);
      }
      next := m.readout(x);
    }

    /** Prompt first, then the predictions fed back. At least one token is emitted whatever `genLen` is. */
    method Forward(ids: seq<T>, genLen: int) returns (r: Result<seq<T>, Error>)
      requires |kv| == m.layers && forall l | 0 <= l < |kv| :: kv[l] == []
      modifies this`kv
      ensures r == CachedForward(m, ids, genLen)
      ensures ids == [] ==> r == Err(NoPrediction)
      ensures ids != [] ==>
                && r.Ok? && |r.value| == (if genLen >= 1 then genLen else 1)
                && forall i | 0 <= i < |r.value| :: r.value[i] == Next(m, ids + r.value[..i])
      ensures r.Ok? ==> HoldsAll((ids + r.value)[..|ids| + |r.value| - 1])
    {
      hide Next, Entries;
      if ids == [] { return Err(NoPrediction); }
      assert HoldsAll([]) by { NothingCached(m); }
      var next := Feed([], ids[0], 0);
      assert [] + [ids[0]] == ids[..1];
      for i := 1 to |ids|
        invariant HoldsAll(ids[..i])
        invariant next == Next(m, ids[..i])
      {
        next := Feed(ids[..i], ids[i], i);
        assert ids[..i] + [ids[i]] == ids[..i + 1];
      }
      assert ids[..|ids|] == ids;
      var gen := [next];
      var tok := ids + [next];
      assert tok[..|tok| - 1] == ids && ids + [] == ids;
      assert Greedy(m, ids, 0) == [];
      for g := 1 to if genLen < 1 then 1 else genLen
        invariant |gen| == g && tok == ids + gen
        invariant gen == Greedy(m, ids, g)
        invariant HoldsAll(tok[..|tok| - 1])
      {
        var last := tok[|tok| - 1];
        next := Feed(tok[..|tok| - 1], last, |tok| - 1);
        assert tok[..|tok| - 1] + [last] == tok;
        gen := gen + [next];
        tok := tok + [next];
        assert tok[..|tok| - 1] == ids + gen[..g];
      }
      GreedyUnique(m, ids, gen);
      return Ok(gen);
    }
  }

  // ---------- the whole prefix every time, under a causal mask ----------

  /** Rows `0..n` of the input of layer `l`. */
  function Rows<T, H, KV>(m: Model<T, H, KV>, toks: seq<T>, l: nat, n: nat): seq<H>
    requires n <= |toks|
  {
    seq(n, t requires 0 <= t < n => Hidden(m, toks, l, t))
  }

  /** One layer over all rows: entries for every position, each row mixing those the mask leaves it. */
  method MaskedLayer<T, H, KV>(m: Model<T, H, KV>, x: seq<H>, l: nat) returns (y: seq<H>)
    ensures |y| == |x|
    ensures forall t | 0 <= t < |x| ::
              y[t] == m.mix(l, t, x[t], seq(t + 1, j requires 0 <= j <= t => m.project(l, j, x[j])))
  {
    var entries: seq<KV> := [];
    for j := 0 to |x|
      invariant |entries| == j && forall i | 0 <= i < j :: entries[i] == m.project(l, i, x[i])
    {
      entries := entries + [m.project(l, j, x[j])];
    }
    y := [];
    for t := 0 to |x|
      invariant |y| == t
      invariant forall i | 0 <= i < t ::
                  y[i] == m.mix(l, i, x[i], seq(i + 1, j requires 0 <= j <= i => m.project(l, j, x[j])))
    {
      assert entries[..t + 1] == seq(t + 1, j requires 0 <= j <= t => m.project(l, j, x[j]));
      y := y + [m.mix(l, t, x[t], entries[..t + 1])];
    }
  }

  /** One pass over the whole prefix. */
  method RecomputedNext<T, H, KV>(m: Model<T, H, KV>, tok: seq<T>) returns (next: T)
    requires tok != []
    ensures next == Next(m, tok)
  {
    var x := seq(|tok|, t requires 0 <= t < |tok| => m.embed(tok[t]));
    assert x == Rows(m, tok, 0, |tok|);
    for l := 0 to m.layers
      invariant x == Rows(m, tok, l, |tok|)
    {
      x := MaskedLayer(m, x, l);
      LayerRows(m, tok, l, x);
    }
    next := m.readout(x[|x| - 1]);
  }

  method RecomputedForward<T, H, KV>(m: Model<T, H, KV>, ids: seq<T>, genLen: int)
    returns (r: Result<seq<T>, Error>)
    ensures r == UncachedForward(m, ids, genLen)
    ensures ids == [] && genLen > 0 ==> r == Err(EmptyPrompt)
    ensures ids != [] || genLen <= 0 ==>
              && r.Ok? && |r.value| == (if genLen >= 0 then genLen else 0)
              && forall i | 0 <= i < |r.value| :: r.value[i] == Next(m, ids + r.value[..i])
  {
    hide Next;
    var tok := ids;
    var gen: seq<T> := [];
    for g := 0 to if genLen < 0 then 0 else genLen
      invariant |gen| == g && tok == ids + gen
      invariant ids == [] ==> g == 0
      invariant ids != [] ==> gen == Greedy(m, ids, g)
    {
      if tok == [] { return Err(EmptyPrompt); }
      var next := RecomputedNext(m, tok);
      gen := gen + [next];
      tok := tok + [next];
    }
    if ids != [] { GreedyUnique(m, ids, gen); }
    return Ok(gen);
  }

  lemma LayerRows<T, H, KV>(m: Model<T, H, KV>, toks: seq<T>, l: nat, y: seq<H>)
    requires |y| == |toks|
    requires var x := Rows(m, toks, l, |toks|);
             forall t | 0 <= t < |x| ::
               y[t] == m.mix(l, t, x[t], seq(t + 1, j requires 0 <= j <= t => m.project(l, j, x[j])))
    ensures y == Rows(m, toks, l + 1, |toks|)
  {
    var x := Rows(m, toks, l, |toks|);
    forall t | 0 <= t < |toks| ensures y[t] == Hidden(m, toks, l + 1, t) {
      assert seq(t + 1, j requires 0 <= j <= t => m.project(l, j, x[j])) == Entries(m, toks, l, t + 1);
    }
  }

  // ---------- the two decoders ----------

  /** What the cached loop returns: the prompt's last step always contributes a first token. */
  function CachedForward<T, H, KV>(m: Model<T, H, KV>, ids: seq<T>, genLen: int): Result<seq<T>, Error> {
    if ids == [] then Err(NoPrediction) else Ok(Greedy(m, ids, if genLen < 1 then 1 else genLen))
  }

  /** What the recomputing loop returns. */
  function UncachedForward<T, H, KV>(m: Model<T, H, KV>, ids: seq<T>, genLen: int): Result<seq<T>, Error> {
    if genLen <= 0 then Ok([])
    else if ids == [] then Err(EmptyPrompt)
    else Ok(Greedy(m, ids, genLen))
  }

  /** The cache is invisible exactly when a token is asked for: with `genLen <= 0` only the cached loop emits one. */
  lemma CacheIsInvisible<T, H, KV>(m: Model<T, H, KV>, ids: seq<T>, genLen: int)
    requires ids != []
    ensures CachedForward(m, ids, genLen) == UncachedForward(m, ids, genLen) <==> genLen >= 1
  {
    GreedyLength(m, ids, 1);
  }
}
