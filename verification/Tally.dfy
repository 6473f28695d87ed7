/** Maps used as counters, and sums over their keys. */
module Tally {
  type Counts = map<string, nat>

  function Get(m: Counts, k: string): nat { if k in m then m[k] else 0 }

  function Add(m: Counts, k: string, c: nat): Counts { m[k := Get(m, k) + c] }

  /** The sum of the counts of some keys. */
  ghost function SumOver(m: Counts, ks: set<string>): nat {
    if ks == {} then 0
    else
      var k :| k in ks;
      Get(m, k) + SumOver(m, ks - {k})
  }

  ghost function Total(m: Counts): nat { SumOver(m, m.Keys) }

  /** Any key may be taken out first. */
  lemma {:induction false} TakeOut(m: Counts, ks: set<string>, k: string)
    requires k in ks
    ensures SumOver(m, ks) == Get(m, k) + SumOver(m, ks - {k})
    decreases ks
  {
    var x :| x in ks && SumOver(m, ks) == Get(m, x) + SumOver(m, ks - {x});
    if x != k {
      TakeOut(m, ks - {x}, k);
      TakeOut(m, ks - {k}, x);
      assert ks - {x} - {k} == ks - {k} - {x};
    }
  }

  lemma PutIn(m: Counts, ks: set<string>, k: string)
    requires k !in ks
    ensures SumOver(m, ks + {k}) == SumOver(m, ks) + Get(m, k)
  {
    TakeOut(m, ks + {k}, k);
    assert ks + {k} - {k} == ks;
  }

  lemma {:induction false} SumAgrees(m: Counts, n: Counts, ks: set<string>)
    requires forall k | k in ks :: Get(m, k) == Get(n, k)
    ensures SumOver(m, ks) == SumOver(n, ks)
    decreases ks
  {
    if ks != {} {
      var k :| k in ks;
      TakeOut(m, ks, k);
      TakeOut(n, ks, k);
      SumAgrees(m, n, ks - {k});
    }
  }

  lemma {:induction false} SumSplit(m: Counts, a: set<string>, b: set<string>)
    requires a !! b
    ensures SumOver(m, a + b) == SumOver(m, a) + SumOver(m, b)
    decreases b
  {
    if b == {} {
      assert a + b == a;
    } else {
      var k :| k in b;
      SumSplit(m, a, b - {k});
      PutIn(m, a + (b - {k}), k);
      assert a + (b - {k}) + {k} == a + b;
      TakeOut(m, b, k);
    }
  }

  /** Counting something once more raises the total by as much. */
  lemma AddTotal(m: Counts, k: string, c: nat)
    ensures Total(Add(m, k, c)) == Total(m) + c
  {
    var n := Add(m, k, c);
    var rest := n.Keys - {k};
    TakeOut(n, n.Keys, k);
    SumAgrees(m, n, rest);
    if k in m {
      TakeOut(m, m.Keys, k);
      assert m.Keys - {k} == rest;
    } else {
      assert rest == m.Keys;
    }
  }
}
