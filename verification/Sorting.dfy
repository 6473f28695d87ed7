/** Sorting scores from best to worst, and what it means to hold the best `k` of them. */
module Sorting {
  predicate Descending(s: seq<real>) { forall i, j | 0 <= i < j < |s| :: s[i] >= s[j] }

  function InsertDescending(s: seq<real>, x: real): (r: seq<real>)
    requires Descending(s)
    ensures Descending(r) && multiset(r) == multiset(s) + multiset{x} && |r| == |s| + 1
  {
    if s == [] then [x]
    else if x >= s[0] then [x] + s
    else
      assert s == [s[0]] + s[1..];
      var r := InsertDescending(s[1..], x);
      HeadBounds(s[1..], x, r, s[0]);
      [s[0]] + r
  }

  lemma HeadBounds(s: seq<real>, x: real, r: seq<real>, top: real)
    requires multiset(r) == multiset(s) + multiset{x} && x <= top && forall i | 0 <= i < |s| :: s[i] <= top
    ensures forall i | 0 <= i < |r| :: r[i] <= top
  {
    forall i | 0 <= i < |r| ensures r[i] <= top {
      assert r[i] in multiset(r);
      assert r[i] in multiset(s) || r[i] == x;
    }
  }

  function SortDescending(s: seq<real>): (r: seq<real>)
    ensures Descending(r) && multiset(r) == multiset(s) && |r| == |s|
  {
    if s == [] then []
    else
      assert s == s[..|s| - 1] + [s[|s| - 1]];
      InsertDescending(SortDescending(s[..|s| - 1]), s[|s| - 1])
  }

  lemma HeadAtLeast(x: seq<real>, y: seq<real>)
    requires Descending(x) && x != [] && y != [] && multiset(x) == multiset(y)
    ensures x[0] >= y[0]
  {
    assert y[0] in multiset(x);
    var k :| 0 <= k < |x| && x[k] == y[0];
  }

  /** The sorted order of a collection is unique. */
  lemma {:induction false} DescendingUnique(x: seq<real>, y: seq<real>)
    requires Descending(x) && Descending(y) && multiset(x) == multiset(y)
    ensures x == y
  {
    if x == [] {
      assert |multiset(y)| == 0;
    } else {
      assert |multiset(x)| == |multiset(y)|;
      HeadAtLeast(x, y);
      HeadAtLeast(y, x);
      WithoutFirst(x);
      WithoutFirst(y);
      DescendingUnique(x[1..], y[1..]);
    }
  }

  lemma WithoutFirst(x: seq<real>)
    requires x != []
    ensures x == [x[0]] + x[1..] && multiset(x[1..]) == multiset(x) - multiset{x[0]}
  {
    assert x == [x[0]] + x[1..];
  }

  // ---------- index lists ----------

  predicate Distinct(xs: seq<nat>) { forall i, j | 0 <= i < j < |xs| :: xs[i] != xs[j] }

  predicate Within(xs: seq<nat>, n: nat) { forall i | 0 <= i < |xs| :: xs[i] < n }

  function ScoresOf(s: seq<real>, xs: seq<nat>): (r: seq<real>)
    requires Within(xs, |s|)
    ensures |r| == |xs|
  {
    seq(|xs|, i requires 0 <= i < |xs| => s[xs[i]])
  }

  /** `picks` are distinct indices and every index left out scores no more than each of them. */
  ghost predicate ValidTop(s: seq<real>, picks: seq<nat>) {
    && Within(picks, |s|) && Distinct(picks)
    && forall i: nat, p | i < |s| && i !in picks && 0 <= p < |picks| :: s[i] <= s[picks[p]]
  }

  /** The indices below `n` that are listed (or are not), in increasing order. */
  function Listed(picks: seq<nat>, n: nat, want: bool): (r: seq<nat>)
    ensures Within(r, n) && Distinct(r)
    ensures forall i: nat :: i in r <==> i < n && ((i in picks) == want)
  {
    if n == 0 then []
    else
      var r := Listed(picks, n - 1, want);
      if ((n - 1) in picks) == want then r + [n - 1] else r
  }

  lemma {:induction false} SplitScores(s: seq<real>, picks: seq<nat>, n: nat)
    requires n <= |s|
    ensures Within(Listed(picks, n, true), |s|) && Within(Listed(picks, n, false), |s|)
    ensures multiset(s[..n]) ==
            multiset(ScoresOf(s, Listed(picks, n, true))) + multiset(ScoresOf(s, Listed(picks, n, false)))
  {
    hide ScoresOf, Distinct;
    if n != 0 {
      var i := n - 1;
      SplitScores(s, picks, i);
      assert s[..n] == s[..i] + [s[i]];
      var r := Listed(picks, i, i in picks);
      assert Listed(picks, n, i in picks) == r + [i];
      ScoresConcat(s, r, [i]);
      OneScore(s, i);
    } else {
      NoScores(s);
    }
  }

  lemma OneScore(s: seq<real>, i: nat)
    requires i < |s|
    ensures Within([i], |s|) && ScoresOf(s, [i]) == [s[i]]
  {
  }

  lemma NoScores(s: seq<real>)
    ensures Within([], |s|) && ScoresOf(s, []) == []
  {
  }

  lemma {:induction false} SameScores(s: seq<real>, xs: seq<nat>, ys: seq<nat>)
    requires Within(xs, |s|) && Within(ys, |s|) && Distinct(xs) && Distinct(ys)
    requires forall i :: i in xs <==> i in ys
    ensures multiset(ScoresOf(s, xs)) == multiset(ScoresOf(s, ys))
  {
    hide ScoresOf;
    if xs == [] {
      if ys != [] {
        HasMember(ys);
        assert false;
      }
      assert xs == ys;
    } else {
      var x := xs[0];
      assert x in xs;
      var k :| 0 <= k < |ys| && ys[k] == x;
      var front, back := ys[..k], ys[k + 1..];
      assert ys == front + [x] + back && xs == [x] + xs[1..];
      RemoveOne(xs, ys, k);
      SameScores(s, xs[1..], front + back);
      ScoresConcat(s, [x], xs[1..]);
      ScoresConcat(s, front + [x], back);
      ScoresConcat(s, front, [x]);
      ScoresConcat(s, front, back);
    }
  }

  lemma HasMember(xs: seq<nat>)
    requires xs != []
    ensures exists i :: i in xs
  {
    assert xs[0] in xs;
  }

  lemma ScoresConcat(s: seq<real>, a: seq<nat>, b: seq<nat>)
    requires Within(a + b, |s|)
    ensures Within(a, |s|) && Within(b, |s|)
    ensures ScoresOf(s, a + b) == ScoresOf(s, a) + ScoresOf(s, b)
  {
    forall i | 0 <= i < |a| ensures a[i] < |s| { assert (a + b)[i] == a[i]; }
    forall i | 0 <= i < |b| ensures b[i] < |s| { assert (a + b)[|a| + i] == b[i]; }
  }

  lemma RemoveOne(xs: seq<nat>, ys: seq<nat>, k: nat)
    requires Distinct(xs) && Distinct(ys) && xs != [] && k < |ys| && ys[k] == xs[0]
    requires forall i :: i in xs <==> i in ys
    ensures Distinct(ys[..k] + ys[k + 1..])
    ensures forall i :: i in xs[1..] <==> i in ys[..k] + ys[k + 1..]
  {
    var x, ys' := xs[0], ys[..k] + ys[k + 1..];
    assert ys == ys[..k] + [x] + ys[k + 1..] && xs == [x] + xs[1..];
    forall i ensures i in xs[1..] <==> i in ys' {
      if i in xs[1..] {
        var m :| 0 <= m < |xs[1..]| && xs[1..][m] == i;
        assert xs[m + 1] == i && i != x;
        assert i in xs;
      }
      if i in ys' {
        assert i in ys && i != x;
        assert i in xs;
      }
    }
  }

  /** A valid selection holds exactly the best scores: sorted, they are the front of all scores sorted. */
  lemma ValidTopScores(s: seq<real>, picks: seq<nat>)
    requires ValidTop(s, picks)
    ensures |picks| <= |s|
    ensures SortDescending(ScoresOf(s, picks)) == SortDescending(s)[..|picks|]
  {
    var ins, outs := Listed(picks, |s|, true), Listed(picks, |s|, false);
    SplitScores(s, picks, |s|);
    assert s[..|s|] == s;
    SameScores(s, picks, ins);
    var best, rest := SortDescending(ScoresOf(s, picks)), SortDescending(ScoresOf(s, outs));
    AllAbove(s, picks, outs, best, rest);
    assert multiset(best + rest) == multiset(SortDescending(s));
    DescendingUnique(best + rest, SortDescending(s));
    assert (best + rest)[..|picks|] == best;
  }

  lemma AllAbove(s: seq<real>, picks: seq<nat>, outs: seq<nat>, best: seq<real>, rest: seq<real>)
    requires ValidTop(s, picks) && Within(outs, |s|) && forall i :: i in outs ==> i !in picks
    requires Descending(best) && multiset(best) == multiset(ScoresOf(s, picks))
    requires Descending(rest) && multiset(rest) == multiset(ScoresOf(s, outs))
    ensures Descending(best + rest)
  {
    forall i, j | 0 <= i < |best| && 0 <= j < |rest| ensures best[i] >= rest[j] {
      assert best[i] in multiset(ScoresOf(s, picks)) && rest[j] in multiset(ScoresOf(s, outs));
      var p :| 0 <= p < |picks| && ScoresOf(s, picks)[p] == best[i];
      var q :| 0 <= q < |outs| && ScoresOf(s, outs)[q] == rest[j];
      assert outs[q] !in picks;
    }
  }

  /** Any two valid selections of one size have equal sorted score lists: they can differ only among ties. */
  lemma ValidTopsAgree(s: seq<real>, xs: seq<nat>, ys: seq<nat>)
    requires ValidTop(s, xs) && ValidTop(s, ys) && |xs| == |ys|
    ensures SortDescending(ScoresOf(s, xs)) == SortDescending(ScoresOf(s, ys))
  {
    ValidTopScores(s, xs);
    ValidTopScores(s, ys);
  }

  /** Without equal scores a valid selection is one definite set. */
  lemma ValidTopUnique(s: seq<real>, xs: seq<nat>, ys: seq<nat>)
    requires ValidTop(s, xs) && ValidTop(s, ys) && |xs| == |ys|
    requires forall i: nat, j: nat | i < j < |s| :: s[i] != s[j]
    ensures forall i :: i in xs <==> i in ys
  {
    if !(forall i :: i in xs ==> i in ys) {
      var i :| i in xs && i !in ys;
      LongerMissesOne(ys, xs, i);
    }
    if !(forall i :: i in ys ==> i in xs) {
      var i :| i in ys && i !in xs;
      LongerMissesOne(xs, ys, i);
    }
  }

  /** With equally many distinct elements, one extra on one side means one extra on the other,
      and the two would have to tie. */
  lemma LongerMissesOne(xs: seq<nat>, ys: seq<nat>, extra: nat)
    requires Distinct(xs) && Distinct(ys) && |xs| == |ys| && extra in ys && extra !in xs
    ensures exists i :: i in xs && i !in ys
  {
    if forall i :: i in xs ==> i in ys {
      var a, b := Elements(xs), Elements(ys);
      ElementsSize(xs);
      ElementsSize(ys);
      assert a <= b - {extra};
      SubsetSize(a, b - {extra});
      assert false;
    }
  }

  function Elements(xs: seq<nat>): set<nat> { set i | i in xs }

  lemma {:induction false} ElementsSize(xs: seq<nat>)
    requires Distinct(xs)
    ensures |Elements(xs)| == |xs|
  {
    if xs != [] {
      var n := |xs| - 1;
      ElementsSize(xs[..n]);
      assert xs == xs[..n] + [xs[n]];
      assert Elements(xs) == Elements(xs[..n]) + {xs[n]};
    }
  }

  lemma {:induction false} SubsetSize(a: set<nat>, b: set<nat>)
    requires a <= b
    ensures |a| <= |b|
  {
    if a != {} {
      var x :| x in a;
      SubsetSize(a - {x}, b - {x});
    }
  }
}
