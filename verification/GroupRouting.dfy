/**
 Group-limited expert routing in its two codings: descending argsort with a head slice and
 minus infinity, and ascending argsort with a tail slice and a large negative sentinel.

 An argsort is any order of the indices that sorts the keys, so every way of breaking ties is covered.
 Experts come in groups of `per` consecutive indices.
 */
module GroupRouting {
  import opened Sorting

  // ---------- slices of an argsort ----------

  predicate Permutation(perm: seq<nat>, n: nat) { |perm| == n && Within(perm, n) && Distinct(perm) }

  predicate SortsDown(key: seq<real>, perm: seq<nat>) {
    Permutation(perm, |key|) && forall i, j | 0 <= i < j < |perm| :: key[perm[i]] >= key[perm[j]]
  }

  predicate SortsUp(key: seq<real>, perm: seq<nat>) {
    Permutation(perm, |key|) && forall i, j | 0 <= i < j < |perm| :: key[perm[i]] <= key[perm[j]]
  }

  /** `perm[:k]`. */
  function Head(perm: seq<nat>, k: nat): seq<nat> { if k <= |perm| then perm[..k] else perm }

  /** `perm[-k:]`, which is everything when `k` is 0. */
  function Tail(perm: seq<nat>, k: nat): seq<nat> {
    if k == 0 || k > |perm| then perm else perm[|perm| - k..]
  }

  function AtMost(k: nat, n: nat): nat { if k <= n then k else n }

  lemma PermutationCovers(perm: seq<nat>, n: nat, i: nat)
    requires Permutation(perm, n) && i < n
    ensures i in perm
  {
    ElementsSize(perm);
    if i !in perm {
      assert Elements(perm) <= Block(0, n) - {i};
      SubsetSize(Elements(perm), Block(0, n) - {i});
      assert false;
    }
  }

  /** `from`, `from + 1`, ... `n` of them. */
  function Block(from: nat, n: nat): (b: set<nat>)
    ensures forall e :: e in b <==> from <= e < from + n
    ensures |b| == n
  {
    if n == 0 then {} else Block(from, n - 1) + {from + n - 1}
  }

  /** The head of a descending argsort is a valid selection. */
  lemma HeadIsTop(key: seq<real>, perm: seq<nat>, k: nat)
    requires SortsDown(key, perm)
    ensures ValidTop(key, Head(perm, k)) && |Head(perm, k)| == AtMost(k, |key|)
  {
    var picks := Head(perm, k);
    forall i: nat, p | i < |key| && i !in picks && 0 <= p < |picks| ensures key[i] <= key[picks[p]] {
      PermutationCovers(perm, |key|, i);
      var q :| 0 <= q < |perm| && perm[q] == i;
      LaterIndex(perm, picks, q);
    }
  }

  lemma LaterIndex(perm: seq<nat>, picks: seq<nat>, q: nat)
    requires q < |perm| && picks <= perm && perm[q] !in picks
    ensures q >= |picks|
  {
    if q < |picks| {
      MemberAt(picks, q);
      assert false;
    }
  }

  lemma MemberAt(xs: seq<nat>, q: nat)
    requires q < |xs|
    ensures xs[q] in xs
  {
  }

  /** The nonempty tail of an ascending argsort is a valid selection too. */
  lemma TailIsTop(key: seq<real>, perm: seq<nat>, k: nat)
    requires SortsUp(key, perm) && k > 0
    ensures ValidTop(key, Tail(perm, k)) && |Tail(perm, k)| == AtMost(k, |key|)
  {
    var picks := Tail(perm, k);
    var from := |perm| - |picks|;
    forall i: nat, p | i < |key| && i !in picks && 0 <= p < |picks| ensures key[i] <= key[picks[p]] {
      PermutationCovers(perm, |key|, i);
      var q :| 0 <= q < |perm| && perm[q] == i;
      assert picks == perm[from..];
      EarlierIndex(perm, from, q);
    }
  }

  lemma EarlierIndex(perm: seq<nat>, from: nat, q: nat)
    requires from <= |perm| && q < |perm| && perm[q] !in perm[from..]
    ensures q < from
  {
    if q >= from {
      SuffixMember(perm, from, q);
      assert false;
    }
  }

  lemma SuffixMember(perm: seq<nat>, from: nat, q: nat)
    requires from <= q < |perm|
    ensures perm[q] in perm[from..]
  {
    assert perm[from..][q - from] == perm[q];
  }

  /** A tail slice has the number of entries asked for, unless that number is 0. */
  lemma TailTakesCount(perm: seq<nat>, k: nat)
    ensures |Tail(perm, k)| == AtMost(k, |perm|) <==> k > 0 || perm == []
  {
  }

  // ---------- groups ----------

  /** The two best scores of a group, added (the only one, when the group has one expert). */
  function GroupScore(sc: seq<real>, per: nat, g: nat): real
    requires per > 0 && (g + 1) * per <= |sc| && g * per >= 0
  {
    InGroup(g, per);
    var best := SortDescending(sc[g * per..(g + 1) * per]);
    if per == 1 then best[0] else best[0] + best[1]
  }

  lemma InGroup(g: nat, per: nat)
    ensures 0 <= g * per <= (g + 1) * per && (g + 1) * per == g * per + per
  {
  }

  lemma GroupFits(g: nat, groups: nat, per: nat)
    requires g < groups
    ensures 0 <= g * per && (g + 1) * per <= groups * per
  {
    var d := groups - (g + 1);
    assert groups * per == (g + 1) * per + d * per;
    assert d * per >= 0;
  }

  function GroupScores(sc: seq<real>, groups: nat, per: nat): (gs: seq<real>)
    requires per > 0 && |sc| == groups * per
    ensures |gs| == groups
  {
    seq(groups, g requires 0 <= g < groups =>
      GroupFits(g, groups, per);
      GroupScore(sc, per, g))
  }

  function Without(x: seq<real>, i: nat): (r: seq<real>)
    requires i < |x|
    ensures |r| == |x| - 1 && forall j | 0 <= j < |r| :: r[j] == x[if j < i then j else j + 1]
  {
    x[..i] + x[i + 1..]
  }

  lemma WithoutBag(x: seq<real>, i: nat)
    requires i < |x|
    ensures multiset(Without(x, i)) == multiset(x) - multiset{x[i]}
  {
    assert x == x[..i] + [x[i]] + x[i + 1..];
  }

  lemma SomePlace(x: real, y: seq<real>) returns (p: nat)
    requires x in multiset(y)
    ensures p < |y| && y[p] == x
  {
    p :| 0 <= p < |y| && y[p] == x;
  }

  /** Two places of one sequence have their counterparts in any rearrangement of it. */
  lemma TwoPlaces(x: seq<real>, y: seq<real>, i: nat, j: nat) returns (p: nat, q: nat)
    requires multiset(x) == multiset(y) && i < |x| && j < |x| && i != j
    ensures p < |y| && q < |y| && p != q && y[p] == x[i] && y[q] == x[j]
  {
    hide Without;
    p := SomePlace(x[i], y);
    WithoutBag(x, i);
    WithoutBag(y, p);
    assert x[j] == Without(x, i)[if j < i then j else j - 1];
    var r := SomePlace(x[j], Without(y, p));
    q := if r < p then r else r + 1;
  }

  lemma BestTwo(sc: seq<real>, per: nat, g: nat, block: seq<real>)
    requires per > 0 && (g + 1) * per <= |sc| && 0 <= g * per <= (g + 1) * per && |block| == per
    requires block == sc[g * per..(g + 1) * per]
    ensures per == 1 ==> GroupScore(sc, per, g) == block[0]
    ensures per > 1 ==> GroupScore(sc, per, g) == SortDescending(block)[0] + SortDescending(block)[1]
  {
    if per == 1 { assert SortDescending(block)[0] in multiset(block); }
  }

  /** The places of the two best entries. */
  lemma TwoOfBlock(block: seq<real>) returns (i: nat, j: nat)
    requires |block| > 1
    ensures i < |block| && j < |block| && i != j
    ensures block[i] + block[j] == SortDescending(block)[0] + SortDescending(block)[1]
  {
    hide SortDescending;
    i, j := TwoPlaces(SortDescending(block), block, 0, 1);
  }

  lemma PairAtMost(block: seq<real>, i: nat, j: nat)
    requires i < |block| && j < |block| && i != j
    ensures block[i] + block[j] <= SortDescending(block)[0] + SortDescending(block)[1]
  {
    hide SortDescending;
    var best := SortDescending(block);
    var p, q := TwoPlaces(block, best, i, j);
    assert best[if p < q then p else q] <= best[0] && best[if p < q then q else p] <= best[1];
  }

  /** A group's score is the sum of two different experts of it. */
  lemma SomePair(sc: seq<real>, per: nat, g: nat) returns (i: nat, j: nat)
    requires per > 1 && (g + 1) * per <= |sc| && g * per >= 0
    ensures i < |sc| && j < |sc| && i != j && i / per == g && j / per == g && GroupScore(sc, per, g) == sc[i] + sc[j]
  {
    hide GroupScore, SortDescending;
    InGroup(g, per);
    var from := g * per;
    var block := sc[from..(g + 1) * per];
    BestTwo(sc, per, g, block);
    var a, b := TwoOfBlock(block);
    i, j := from + a, from + b;
    GroupOf(i, g, per);
    GroupOf(j, g, per);
  }

  /** And no two different ones sum to more. */
  lemma NoBetterPair(sc: seq<real>, per: nat, g: nat, e: nat, f: nat)
    requires per > 0 && (g + 1) * per <= |sc| && g * per >= 0
    requires e < |sc| && f < |sc| && e != f && e / per == g && f / per == g
    ensures sc[e] + sc[f] <= GroupScore(sc, per, g)
  {
    hide GroupScore, SortDescending;
    InGroup(g, per);
    var from := g * per;
    var block := sc[from..(g + 1) * per];
    GroupOf(e, g, per);
    GroupOf(f, g, per);
    BestTwo(sc, per, g, block);
    PairAtMost(block, e - from, f - from);
  }

  lemma OnlyScore(sc: seq<real>, g: nat)
    requires g < |sc|
    ensures GroupScore(sc, 1, g) == sc[g]
  {
    hide GroupScore;
    BestTwo(sc, 1, g, sc[g..g + 1]);
  }

  /** A group's score is the largest sum of two different experts of it, or its only one. */
  lemma GroupScoreIsTopTwo(sc: seq<real>, per: nat, g: nat)
    requires per > 0 && (g + 1) * per <= |sc| && g * per >= 0
    ensures per == 1 ==> g < |sc| && GroupScore(sc, per, g) == sc[g]
    ensures per > 1 ==> exists i: nat, j: nat | i < |sc| && j < |sc| && i != j ::
              i / per == g && j / per == g && GroupScore(sc, per, g) == sc[i] + sc[j]
    ensures forall e: nat, f: nat | e < |sc| && f < |sc| && e != f && e / per == g && f / per == g ::
              sc[e] + sc[f] <= GroupScore(sc, per, g)
  {
    hide GroupScore;
    if per == 1 { OnlyScore(sc, g); } else { var i, j := SomePair(sc, per, g); }
    forall e: nat, f: nat | e < |sc| && f < |sc| && e != f && e / per == g && f / per == g
      ensures sc[e] + sc[f] <= GroupScore(sc, per, g)
    {
      NoBetterPair(sc, per, g, e, f);
    }
  }

  predicate Kept(kept: seq<nat>, per: nat, e: nat)
    requires per > 0
  {
    e / per in kept
  }

  /** Marks the experts of the chosen groups, a group at a time. */
  method MaskGroups(kept: seq<nat>, groups: nat, per: nat) returns (mask: array<bool>)
    requires per > 0 && Within(kept, groups)
    ensures fresh(mask) && mask.Length == groups * per
    ensures forall e | 0 <= e < mask.Length :: mask[e] <==> Kept(kept, per, e)
  {
    NonNegative(groups, per);
    mask := new bool[groups * per](_ => false);
    for n := 0 to |kept|
      invariant forall e | 0 <= e < mask.Length :: mask[e] <==> Kept(kept[..n], per, e)
    {
      var g := kept[n];
      GroupFits(g, groups, per);
      for e := g * per to (g + 1) * per
        invariant forall i | 0 <= i < mask.Length ::
                    mask[i] <==> Kept(kept[..n], per, i) || g * per <= i < e
      {
        mask[e] := true;
      }
      forall i | 0 <= i < mask.Length ensures Kept(kept[..n + 1], per, i) <==> Kept(kept[..n], per, i) || i / per == g {
        assert kept[..n + 1] == kept[..n] + [g];
      }
      forall i | 0 <= i < mask.Length ensures i / per == g <==> g * per <= i < (g + 1) * per { GroupOf(i, g, per); }
    }
    assert kept[..|kept|] == kept;
  }

  lemma NonNegative(x: nat, y: nat)
    ensures x * y >= 0
  {
  }

  lemma GroupOf(e: nat, g: nat, per: nat)
    requires per > 0
    ensures e / per == g <==> g * per <= e < (g + 1) * per
  {
    var q := e / per;
    assert q * per <= e < q * per + per;
    if q < g {
      Steps(q + 1, g, per);
    } else if g < q {
      Steps(g + 1, q, per);
    }
    assert (q + 1) * per == q * per + per && (g + 1) * per == g * per + per;
  }

  lemma Steps(a: nat, b: nat, per: nat)
    requires a <= b
    ensures a * per <= b * per
  {
    assert (b - a) * per >= 0;
  }

  // ---------- the specification ----------

  /** `top` picks: distinct, all in kept groups, none beaten by a kept expert left out. */
  ghost predicate Routed(sc: seq<real>, per: nat, kept: seq<nat>, picks: seq<nat>, top: nat)
    requires per > 0
  {
    && |picks| == top && Within(picks, |sc|) && Distinct(picks)
    && (forall p | 0 <= p < |picks| :: Kept(kept, per, picks[p]))
    && forall e: nat, p | e < |sc| && Kept(kept, per, e) && e !in picks && 0 <= p < |picks| :: sc[e] <= sc[picks[p]]
  }

  /** The experts of the kept groups. */
  function KeptExperts(n: nat, per: nat, kept: seq<nat>): set<nat>
    requires per > 0
  {
    set e: nat | e < n && Kept(kept, per, e)
  }

  lemma {:induction false} KeptCount(groups: nat, per: nat, kept: seq<nat>)
    requires per > 0 && Within(kept, groups) && Distinct(kept)
    ensures |KeptExperts(groups * per, per, kept)| == |kept| * per
  {
    hide Kept, KeptExperts;
    NonNegative(groups, per);
    if kept == [] {
      KeepNone(groups * per, per);
    } else {
      var n := |kept| - 1;
      var front, g := kept[..n], kept[n];
      KeptCount(groups, per, front);
      assert kept == front + [g] && g !in front;
      AddGroup(groups, per, front, g);
      Distribute(n, per);
    }
  }

  lemma KeepNone(n: nat, per: nat)
    requires per > 0
    ensures KeptExperts(n, per, []) == {}
  {
  }

  lemma Distribute(n: nat, per: nat)
    ensures (n + 1) * per == n * per + per
  {
  }

  lemma AddGroup(groups: nat, per: nat, front: seq<nat>, g: nat)
    requires per > 0 && g < groups && g !in front && groups * per >= 0
    ensures |KeptExperts(groups * per, per, front + [g])| == |KeptExperts(groups * per, per, front)| + per
  {
    InGroup(g, per);
    GroupFits(g, groups, per);
    var block := Block(g * per, per);
    var before, after := KeptExperts(groups * per, per, front), KeptExperts(groups * per, per, front + [g]);
    forall e: nat ensures e in block <==> e / per == g { GroupOf(e, g, per); }
    assert after == before + block;
    assert before !! block;
  }

  // ---------- first coding: minus infinity outside the kept groups ----------

  /** A descending argsort of the scores with minus infinity outside the kept groups. */
  ghost predicate SortsDownMasked(sc: seq<real>, per: nat, kept: seq<nat>, perm: seq<nat>)
    requires per > 0
  {
    && Permutation(perm, |sc|)
    && forall i, j | 0 <= i < j < |perm| ::
         && (Kept(kept, per, perm[j]) ==> Kept(kept, per, perm[i]))
         && (Kept(kept, per, perm[j]) && Kept(kept, per, perm[i]) ==> sc[perm[i]] >= sc[perm[j]])
  }

  /** With room in the kept groups the head slice is a routing; without it some pick lies outside them. */
  lemma HeadRoutes(sc: seq<real>, groups: nat, per: nat, kept: seq<nat>, perm: seq<nat>, top: nat)
    requires per > 0 && |sc| == groups * per && Within(kept, groups) && Distinct(kept) && top <= |sc|
    requires SortsDownMasked(sc, per, kept, perm)
    ensures Routed(sc, per, kept, Head(perm, top), top) <==> top <= |kept| * per
  {
    KeptCount(groups, per, kept);
    var picks := Head(perm, top);
    var pool := KeptExperts(|sc|, per, kept);
    if top <= |pool| {
      HeadKept(sc, per, kept, perm, top);
    }
    if Routed(sc, per, kept, picks, top) {
      ElementsSize(picks);
      SubsetSize(Elements(picks), pool);
    }
  }

  lemma HeadKept(sc: seq<real>, per: nat, kept: seq<nat>, perm: seq<nat>, top: nat)
    requires per > 0 && top <= |sc| && SortsDownMasked(sc, per, kept, perm)
    requires top <= |KeptExperts(|sc|, per, kept)|
    ensures Routed(sc, per, kept, Head(perm, top), top)
  {
    hide Kept;
    var picks := Head(perm, top);
    var pool := KeptExperts(|sc|, per, kept);
    forall p | 0 <= p < top ensures Kept(kept, per, picks[p]) {
      if !Kept(kept, per, picks[p]) {
        AllLaterDropped(sc, per, kept, perm, p);
        ElementsSize(perm[..p]);
        SubsetSize(pool, Elements(perm[..p]));
        assert false;
      }
    }
    forall e: nat, p | e < |sc| && Kept(kept, per, e) && e !in picks && 0 <= p < |picks|
      ensures sc[e] <= sc[picks[p]]
    {
      PermutationCovers(perm, |sc|, e);
      var q :| 0 <= q < |perm| && perm[q] == e;
      LaterIndex(perm, picks, q);
    }
  }

  /** After the first dropped expert there are no kept ones. */
  lemma AllLaterDropped(sc: seq<real>, per: nat, kept: seq<nat>, perm: seq<nat>, p: nat)
    requires per > 0 && SortsDownMasked(sc, per, kept, perm) && p < |perm| && !Kept(kept, per, perm[p])
    ensures KeptExperts(|sc|, per, kept) <= Elements(perm[..p])
  {
    hide Kept;
    forall e | e in KeptExperts(|sc|, per, kept) ensures e in perm[..p] {
      PermutationCovers(perm, |sc|, e);
      var q :| 0 <= q < |perm| && perm[q] == e;
      assert q < p;
      MemberAt(perm[..p], q);
    }
  }

  // ---------- second coding: a sentinel outside the kept groups ----------

  const SENTINEL: real := -1000000000000000000000000000000.0

  function Sentinelled(sc: seq<real>, per: nat, kept: seq<nat>): (r: seq<real>)
    requires per > 0
    ensures |r| == |sc|
  {
    seq(|sc|, e requires 0 <= e < |sc| => if Kept(kept, per, e) then sc[e] else SENTINEL)
  }

  /** Kept experts the sentinel cannot displace. */
  function LiveExperts(sc: seq<real>, per: nat, kept: seq<nat>): set<nat>
    requires per > 0
  {
    set e: nat | e < |sc| && Kept(kept, per, e) && sc[e] > SENTINEL
  }

  /** Enough kept scores above the sentinel make the tail slice a routing, however ties are broken. */
  lemma TailRoutes(sc: seq<real>, per: nat, kept: seq<nat>, perm: seq<nat>, top: nat)
    requires per > 0 && 0 < top <= |sc| && SortsUp(Sentinelled(sc, per, kept), perm)
    requires top <= |LiveExperts(sc, per, kept)|
    ensures Routed(sc, per, kept, Tail(perm, top), top)
  {
    hide Kept;
    var masked := Sentinelled(sc, per, kept);
    var picks := Tail(perm, top);
    TailIsTop(masked, perm, top);
    forall p | 0 <= p < top ensures picks[p] in LiveExperts(sc, per, kept) {
      if picks[p] !in LiveExperts(sc, per, kept) {
        var e := LiveLeftOut(sc, per, kept, picks, p);
        TopBelow(masked, picks, e, p);
        assert false;
      }
    }
    forall e: nat, p | e < |sc| && Kept(kept, per, e) && e !in picks && 0 <= p < |picks|
      ensures sc[e] <= sc[picks[p]]
    {
      assert masked[e] <= masked[picks[p]];
      assert picks[p] in LiveExperts(sc, per, kept);
    }
  }

  lemma TopBelow(key: seq<real>, picks: seq<nat>, e: nat, p: nat)
    requires ValidTop(key, picks) && e < |key| && e !in picks && p < |picks|
    ensures key[e] <= key[picks[p]]
  {
  }

  /** If one pick is not live, some live expert was left out. */
  lemma LiveLeftOut(sc: seq<real>, per: nat, kept: seq<nat>, picks: seq<nat>, p: nat) returns (e: nat)
    requires per > 0 && Within(picks, |sc|) && Distinct(picks) && p < |picks|
    requires |picks| <= |LiveExperts(sc, per, kept)| && picks[p] !in LiveExperts(sc, per, kept)
    ensures e in LiveExperts(sc, per, kept) && e !in picks
  {
    var live := LiveExperts(sc, per, kept);
    if live <= Elements(picks) {
      ElementsSize(picks);
      MemberAt(picks, p);
      SubsetSize(live, Elements(picks) - {picks[p]});
      assert false;
    }
    e :| e in live && e !in Elements(picks);
  }

  /** When a group is dropped and no kept score equals the sentinel, that many live experts are also necessary. */
  lemma SentinelIff(sc: seq<real>, per: nat, kept: seq<nat>, perm: seq<nat>, top: nat, out: nat)
    requires per > 0 && 0 < top <= |sc| && SortsUp(Sentinelled(sc, per, kept), perm)
    requires out < |sc| && !Kept(kept, per, out)
    requires forall e: nat | e < |sc| && Kept(kept, per, e) :: sc[e] != SENTINEL
    ensures Routed(sc, per, kept, Tail(perm, top), top) <==> top <= |LiveExperts(sc, per, kept)|
  {
    hide Kept;
    var masked := Sentinelled(sc, per, kept);
    var picks := Tail(perm, top);
    if top <= |LiveExperts(sc, per, kept)| { TailRoutes(sc, per, kept, perm, top); }
    if Routed(sc, per, kept, picks, top) {
      TailIsTop(masked, perm, top);
      assert out !in picks;
      forall e | e in picks ensures e in LiveExperts(sc, per, kept) {
        var p :| 0 <= p < |picks| && picks[p] == e;
        assert masked[out] <= masked[picks[p]];
      }
      ElementsSize(picks);
      SubsetSize(Elements(picks), LiveExperts(sc, per, kept));
    }
  }

  /** When every score is above the sentinel the two codings ask for the same room. */
  lemma AllLive(sc: seq<real>, groups: nat, per: nat, kept: seq<nat>)
    requires per > 0 && |sc| == groups * per && Within(kept, groups) && Distinct(kept)
    requires forall e | 0 <= e < |sc| :: sc[e] > SENTINEL
    ensures |LiveExperts(sc, per, kept)| == |kept| * per
  {
    KeptCount(groups, per, kept);
    assert LiveExperts(sc, per, kept) == KeptExperts(|sc|, per, kept);
  }

  // ---------- counts of zero ----------

  lemma GroupInRange(e: nat, groups: nat, per: nat)
    requires per > 0 && e < groups * per
    ensures e / per < groups
  {
    GroupOf(e, e / per, per);
    if e / per >= groups {
      Steps(groups, e / per, per);
      assert false;
    }
  }

  /** Asked for no groups, the first coding can route nothing, while the second chooses among all
      experts as if there were no groups. */
  lemma ZeroGroupsDiffer(sc: seq<real>, groups: nat, per: nat, top: nat,
                         downGroups: seq<nat>, upGroups: seq<nat>, downExperts: seq<nat>, upExperts: seq<nat>)
    requires per > 0 && |sc| == groups * per && 0 < top <= |sc|
    requires Permutation(upGroups, groups)
    requires SortsDownMasked(sc, per, Head(downGroups, 0), downExperts)
    requires SortsUp(Sentinelled(sc, per, Tail(upGroups, 0)), upExperts)
    ensures !Routed(sc, per, Head(downGroups, 0), Head(downExperts, top), top)
    ensures ValidTop(sc, Tail(upExperts, top)) && |Tail(upExperts, top)| == top
  {
    hide SortsUp, SortsDownMasked, Routed, ValidTop;
    HeadRoutes(sc, groups, per, Head(downGroups, 0), downExperts, top);
    forall e: nat | e < |sc| ensures Kept(upGroups, per, e) {
      GroupInRange(e, groups, per);
      PermutationCovers(upGroups, groups, e / per);
    }
    assert Sentinelled(sc, per, Tail(upGroups, 0)) == sc;
    TailIsTop(sc, upExperts, top);
  }

  /** Asked for no experts, the first coding picks none and the second picks all of them. */
  lemma ZeroPicksDiffer(sc: seq<real>, per: nat, kept: seq<nat>, downExperts: seq<nat>, upExperts: seq<nat>)
    requires per > 0 && SortsUp(Sentinelled(sc, per, kept), upExperts)
    ensures Routed(sc, per, kept, Head(downExperts, 0), 0)
    ensures Routed(sc, per, kept, Tail(upExperts, 0), 0) <==> sc == []
    ensures forall e: nat | e < |sc| :: e in Tail(upExperts, 0)
  {
    forall e: nat | e < |sc| ensures e in upExperts { PermutationCovers(upExperts, |sc|, e); }
  }

  // ---------- both codings, end to end ----------

  /** Group g is not beaten by group h: for any two experts of h there are two of g whose scores sum to
      at least as much (the only expert of each, when groups have one). */
  ghost predicate Unbeaten(sc: seq<real>, per: nat, g: nat, h: nat)
    requires per > 0
  {
    && (per == 1 ==> g < |sc| && h < |sc| && sc[h] <= sc[g])
    && forall e: nat, f: nat | e < |sc| && f < |sc| && e != f && e / per == h && f / per == h ::
         exists i: nat, j: nat | i < |sc| && j < |sc| && i != j :: i / per == g && j / per == g && sc[e] + sc[f] <= sc[i] + sc[j]
  }

  /** No dropped group beats a kept one. */
  ghost predicate KeepsBest(sc: seq<real>, groups: nat, per: nat, kept: seq<nat>)
    requires per > 0
  {
    forall g: nat, h: nat | g in kept && h < groups && h !in kept :: Unbeaten(sc, per, g, h)
  }

  lemma KeptGroupWins(sc: seq<real>, groups: nat, per: nat, kept: seq<nat>, g: nat, h: nat)
    requires per > 0 && |sc| == groups * per && ValidTop(GroupScores(sc, groups, per), kept)
    requires g in kept && h < groups && h !in kept
    ensures Unbeaten(sc, per, g, h)
  {
    hide GroupScore;
    var gs := GroupScores(sc, groups, per);
    var p :| 0 <= p < |kept| && kept[p] == g;
    assert gs[h] <= gs[g];
    GroupFits(g, groups, per);
    GroupFits(h, groups, per);
    GroupScoreIsTopTwo(sc, per, g);
    GroupScoreIsTopTwo(sc, per, h);
    if per == 1 {
      forall e: nat, f: nat | e / per == h && f / per == h ensures e == f { }
    }
  }

  lemma TopKeepsBest(sc: seq<real>, groups: nat, per: nat, kept: seq<nat>)
    requires per > 0 && |sc| == groups * per && ValidTop(GroupScores(sc, groups, per), kept)
    ensures KeepsBest(sc, groups, per, kept)
  {
    hide GroupScores, ValidTop, Unbeaten;
    forall g: nat, h: nat | g in kept && h < groups && h !in kept ensures Unbeaten(sc, per, g, h) {
      KeptGroupWins(sc, groups, per, kept, g, h);
    }
  }

  /** From scores to picks: both codings choose groups no dropped group beats, and route within them. */
  lemma BothCodingsRoute(sc: seq<real>, groups: nat, per: nat, topGroups: nat, top: nat,
                         downGroups: seq<nat>, upGroups: seq<nat>, downExperts: seq<nat>, upExperts: seq<nat>)
    requires per > 0 && |sc| == groups * per && topGroups > 0 && 0 < top <= |sc|
    requires forall e | 0 <= e < |sc| :: sc[e] > -1000000000000000000000000000000.0
    requires SortsDown(GroupScores(sc, groups, per), downGroups) && SortsUp(GroupScores(sc, groups, per), upGroups)
    requires SortsDownMasked(sc, per, Head(downGroups, topGroups), downExperts)
    requires SortsUp(Sentinelled(sc, per, Tail(upGroups, topGroups)), upExperts)
    requires top <= AtMost(topGroups, groups) * per
    ensures |Head(downGroups, topGroups)| == |Tail(upGroups, topGroups)| == AtMost(topGroups, groups)
    ensures KeepsBest(sc, groups, per, Head(downGroups, topGroups)) && KeepsBest(sc, groups, per, Tail(upGroups, topGroups))
    ensures Routed(sc, per, Head(downGroups, topGroups), Head(downExperts, top), top)
    ensures Routed(sc, per, Tail(upGroups, topGroups), Tail(upExperts, top), top)
  {
    hide GroupScores, Routed, SortsDownMasked, Sentinelled, SortsDown, SortsUp, KeepsBest;
    var gs := GroupScores(sc, groups, per);
    var a, b := Head(downGroups, topGroups), Tail(upGroups, topGroups);
    HeadIsTop(gs, downGroups, topGroups);
    TailIsTop(gs, upGroups, topGroups);
    TopKeepsBest(sc, groups, per, a);
    TopKeepsBest(sc, groups, per, b);
    HeadRoutes(sc, groups, per, a, downExperts, top);
    AllLive(sc, groups, per, b);
    TailRoutes(sc, per, b, upExperts, top);
  }

  /** Without ties the kept groups and the picked experts are the same sets in both codings. */
  lemma CodingsAgree(sc: seq<real>, per: nat, gs: seq<real>, a: seq<nat>, b: seq<nat>, x: seq<nat>, y: seq<nat>, top: nat)
    requires per > 0 && ValidTop(gs, a) && ValidTop(gs, b) && |a| == |b|
    requires Routed(sc, per, a, x, top) && Routed(sc, per, b, y, top)
    requires forall i: nat, j: nat | i < j < |gs| :: gs[i] != gs[j]
    requires forall i: nat, j: nat | i < j < |sc| :: sc[i] != sc[j]
    ensures forall g :: g in a <==> g in b
    ensures forall e :: e in x <==> e in y
  {
    ValidTopUnique(gs, a, b);
    forall e: nat ensures Kept(a, per, e) <==> Kept(b, per, e) { }
    RoutedUnique(sc, per, a, b, x, y, top);
  }

  lemma RoutedUnique(sc: seq<real>, per: nat, a: seq<nat>, b: seq<nat>, x: seq<nat>, y: seq<nat>, top: nat)
    requires per > 0 && Routed(sc, per, a, x, top) && Routed(sc, per, b, y, top)
    requires forall e: nat :: Kept(a, per, e) <==> Kept(b, per, e)
    requires forall i: nat, j: nat | i < j < |sc| :: sc[i] != sc[j]
    ensures forall e :: e in x <==> e in y
  {
    hide Kept, Distinct;
    if !(forall e :: e in x ==> e in y) {
      var e :| e in x && e !in y;
      LongerMissesOne(y, x, e);
    }
    if !(forall e :: e in y ==> e in x) {
      var e :| e in y && e !in x;
      LongerMissesOne(x, y, e);
    }
  }

  // ---------- weights ----------

  function Sum(s: seq<real>): real { if s == [] then 0.0 else Sum(s[..|s| - 1]) + s[|s| - 1] }

  /** The sum of any list, from the sums of its parts. */
  lemma {:induction false} SumConcat(a: seq<real>, b: seq<real>)
    ensures Sum(a + b) == Sum(a) + Sum(b) && (|a| == 1 ==> Sum(a) == a[0])
  {
    if b == [] {
      assert a + b == a;
    } else {
      var n := |b| - 1;
      SumConcat(a, b[..n]);
      assert (a + b)[..|a| + n] == a + b[..n];
    }
    if |a| == 1 { assert a[..0] == []; }
  }

  /** Each weight divided by `divisor` and scaled. */
  function Scaled(w: seq<real>, divisor: real, factor: real): (r: seq<real>)
    requires divisor != 0.0
    ensures |r| == |w|
  {
    seq(|w|, i requires 0 <= i < |w| => Share(w[i], divisor, factor))
  }

  function Share(x: real, divisor: real, factor: real): real
    requires divisor != 0.0
  {
    x / divisor * factor
  }

  lemma {:induction false} SumOfScaled(w: seq<real>, divisor: real, factor: real)
    requires divisor != 0.0
    ensures Sum(Scaled(w, divisor, factor)) == Share(Sum(w), divisor, factor)
  {
    hide Share;
    if w == [] {
      ShareSum(0.0, 0.0, divisor, factor);
    } else {
      var n := |w| - 1;
      SumOfScaled(w[..n], divisor, factor);
      assert Scaled(w, divisor, factor)[..n] == Scaled(w[..n], divisor, factor);
      ShareSum(Sum(w[..n]), w[n], divisor, factor);
    }
  }

  lemma ShareSum(x: real, y: real, d: real, f: real)
    requires d != 0.0
    ensures Share(x + y, d, f) == Share(x, d, f) + Share(y, d, f)
  {
    assert (x + y) / d == x / d + y / d;
  }

  lemma {:induction false} SumPositive(w: seq<real>)
    requires w != [] && forall i | 0 <= i < |w| :: w[i] > 0.0
    ensures Sum(w) > 0.0
  {
    if |w| > 1 { SumPositive(w[..|w| - 1]); }
  }

  /** First coding: positive router scores normalise to weights that add up to the scaling factor. */
  lemma NormalisedWeights(w: seq<real>, factor: real)
    requires w != [] && forall i | 0 <= i < |w| :: w[i] > 0.0
    ensures Sum(w) > 0.0
    ensures Sum(Scaled(w, Sum(w), factor)) == factor
  {
    SumPositive(w);
    SumOfScaled(w, Sum(w), factor);
    WholeShare(Sum(w), factor);
  }

  lemma WholeShare(d: real, f: real)
    requires d > 0.0
    ensures Share(d, d, f) == f
  {
    assert d / d == 1.0;
  }

  /** Second coding: the guard added to the divisor leaves the total of the weights short of a positive factor. */
  lemma GuardedWeights(w: seq<real>, factor: real)
    requires w != [] && (forall i | 0 <= i < |w| :: w[i] > 0.0) && factor > 0.0
    ensures Sum(w) + 0.00000000000000000001 > 0.0
    ensures 0.0 < Sum(Scaled(w, Sum(w) + 0.00000000000000000001, factor)) < factor
  {
    SumPositive(w);
    var s, d := Sum(w), Sum(w) + 0.00000000000000000001;
    SumOfScaled(w, d, factor);
    BelowOne(s, d);
    ShrinkFactor(s / d, factor);
  }

  lemma BelowOne(s: real, d: real)
    requires 0.0 < s < d
    ensures 0.0 < s / d < 1.0
  {
    var q := s / d;
    assert q * d == s;
    if q <= 0.0 {
      NonPositiveProduct(q, d);
      assert false;
    }
    if q >= 1.0 {
      AtLeastProduct(q, d);
      assert false;
    }
  }

  lemma NonPositiveProduct(q: real, d: real)
    requires q <= 0.0 && d > 0.0
    ensures q * d <= 0.0
  {
  }

  lemma AtLeastProduct(q: real, d: real)
    requires q >= 1.0 && d > 0.0
    ensures q * d >= d
  {
    assert (q - 1.0) * d >= 0.0;
  }

  lemma ShrinkFactor(q: real, f: real)
    requires 0.0 < q < 1.0 && f > 0.0
    ensures 0.0 < q * f < f
  {
  }
}
