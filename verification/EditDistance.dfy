/**
 The two-row Levenshtein computation of the census alias tool, proved to be the length of a
 shortest sequence of single-character edits, and a metric.

 An edit inserts, deletes or replaces one character at one position of a string; a script is a
 sequence of edits performed one after the other.  Nothing here mentions the table: a script
 may revisit the same position and may pass through any intermediate strings.
 */
module EditDistance {
  import opened Basics

  datatype Edit =
    | Insert(at: nat, c: char)
    | Delete(at: nat)
    | Replace(at: nat, c: char)

  /** The string after one edit, or None when the position does not exist. */
  function Perform(e: Edit, s: string): Option<string> {
    match e
    case Insert(at, c) => if at <= |s| then Some(s[..at] + [c] + s[at..]) else None
    case Delete(at) => if at < |s| then Some(s[..at] + s[at + 1..]) else None
    case Replace(at, c) => if at < |s| then Some(s[..at] + [c] + s[at + 1..]) else None
  }

  function Run(script: seq<Edit>, s: string): Option<string> {
    if script == [] then Some(s)
    else
      match Perform(script[0], s)
      case None => None
      case Some(next) => Run(script[1..], next)
  }

  /** `d` edits suffice to turn `a` into `b`, and no script with fewer edits does. */
  ghost predicate IsShortest(a: string, b: string, d: nat) {
    && (exists script :: |script| == d && Run(script, a) == Some(b))
    && (forall script :: Run(script, a) == Some(b) ==> d <= |script|)
  }

  function Min(x: nat, y: nat): nat { if x <= y then x else y }

  function Mismatch(x: char, y: char): nat { if x != y then 1 else 0 }

  /** The Levenshtein recurrence between the first `i` characters of `a` and the first `j` of `b`. */
  function LevAt(a: string, b: string, i: nat, j: nat): nat
    requires i <= |a| && j <= |b|
    decreases i + j
  {
    if i == 0 then j
    else if j == 0 then i
    else Min(Min(LevAt(a, b, i - 1, j) + 1, LevAt(a, b, i, j - 1) + 1),
             LevAt(a, b, i - 1, j - 1) + Mismatch(a[i - 1], b[j - 1]))
  }

  function Lev(a: string, b: string): nat { LevAt(a, b, |a|, |b|) }

  /** One unfolding of the recurrence; the proofs below work from it instead of the body. */
  lemma LevStep(a: string, b: string, i: nat, j: nat)
    requires i <= |a| && j <= |b|
    ensures i == 0 ==> LevAt(a, b, i, j) == j
    ensures j == 0 ==> LevAt(a, b, i, j) == i
    ensures i > 0 && j > 0 ==>
              LevAt(a, b, i, j) ==
              Min(Min(LevAt(a, b, i - 1, j) + 1, LevAt(a, b, i, j - 1) + 1),
                  LevAt(a, b, i - 1, j - 1) + Mismatch(a[i - 1], b[j - 1]))
  {
  }

  // ---------- the table computation ----------

  method Distance(a: string, b: string) returns (d: nat)
    ensures d == Lev(a, b)
    ensures IsShortest(a, b, d)
  {
    hide LevAt, IsShortest;
    ShortestScript(a, b);
    if a == b {
      LevDiagonal(a, b, |a|);
      return 0;
    }
    var prev: seq<nat> := seq(|b| + 1, j => j);
    forall j | 0 <= j <= |b| ensures LevAt(a, b, 0, j) == j { LevStep(a, b, 0, j); }
    for i := 0 to |a|
      invariant |prev| == |b| + 1
      invariant forall j | 0 <= j <= |b| :: prev[j] == LevAt(a, b, i, j)
    {
      var cur: seq<nat> := [i + 1];
      LevStep(a, b, i + 1, 0);
      for j := 0 to |b|
        invariant |cur| == j + 1
        invariant forall k | 0 <= k <= j :: cur[k] == LevAt(a, b, i + 1, k)
      {
        var best := Min(Min(prev[j + 1] + 1, cur[j] + 1), prev[j] + Mismatch(a[i], b[j]));
        assert best == LevAt(a, b, i + 1, j + 1) by { LevStep(a, b, i + 1, j + 1); }
        cur := cur + [best];
      }
      prev := cur;
    }
    return prev[|b|];
  }

  // ---------- metric laws of the recurrence ----------

  lemma {:induction false} LevDiagonal(a: string, b: string, n: nat)
    requires n <= |a| && n <= |b| && a[..n] == b[..n]
    ensures LevAt(a, b, n, n) == 0
  {
    if n != 0 {
      assert a[..n][n - 1] == b[..n][n - 1];
      assert a[..n - 1] == a[..n][..n - 1] == b[..n][..n - 1] == b[..n - 1];
      LevDiagonal(a, b, n - 1);
    }
  }

  lemma {:induction false} LevZero(a: string, b: string, i: nat, j: nat)
    requires i <= |a| && j <= |b| && LevAt(a, b, i, j) == 0
    ensures i == j && a[..i] == b[..j]
    decreases i
  {
    if i != 0 && j != 0 {
      LevZero(a, b, i - 1, j - 1);
      assert a[..i] == a[..i - 1] + [a[i - 1]];
      assert b[..j] == b[..j - 1] + [b[j - 1]];
    }
  }

  lemma {:induction false} LevSymmetric(a: string, b: string, i: nat, j: nat)
    requires i <= |a| && j <= |b|
    ensures LevAt(a, b, i, j) == LevAt(b, a, j, i)
    decreases i + j
  {
    hide LevAt;
    LevStep(a, b, i, j);
    LevStep(b, a, j, i);
    if i != 0 && j != 0 {
      LevSymmetric(a, b, i - 1, j);
      LevSymmetric(a, b, i, j - 1);
      LevSymmetric(a, b, i - 1, j - 1);
    }
  }

  lemma {:induction false} LevBounds(a: string, b: string, i: nat, j: nat)
    requires i <= |a| && j <= |b|
    ensures i - j <= LevAt(a, b, i, j)
    ensures j - i <= LevAt(a, b, i, j)
    ensures LevAt(a, b, i, j) <= if i <= j then j else i
    decreases i + j
  {
    hide LevAt;
    LevStep(a, b, i, j);
    if i != 0 && j != 0 {
      LevBounds(a, b, i - 1, j);
      LevBounds(a, b, i, j - 1);
      LevBounds(a, b, i - 1, j - 1);
    }
  }

  lemma {:induction false} LevTriangle(a: string, b: string, c: string, i: nat, j: nat, k: nat)
    requires i <= |a| && j <= |b| && k <= |c|
    ensures LevAt(a, c, i, k) <= LevAt(a, b, i, j) + LevAt(b, c, j, k)
    decreases i + j + k
  {
    hide LevAt, Min;
    LevBounds(a, b, i, j);
    LevBounds(b, c, j, k);
    LevBounds(a, c, i, k);
    LevStep(a, b, i, j);
    LevStep(b, c, j, k);
    LevStep(a, c, i, k);
    if i != 0 && j != 0 && k != 0 {
      LevTriangle(a, b, c, i - 1, j, k);
      LevTriangle(a, b, c, i, j, k - 1);
      LevTriangle(a, b, c, i, j - 1, k);
      LevTriangle(a, b, c, i - 1, j - 1, k);
      LevTriangle(a, b, c, i, j - 1, k - 1);
      LevTriangle(a, b, c, i - 1, j - 1, k - 1);
      TriangleStep(LevAt(a, b, i - 1, j), LevAt(a, b, i, j - 1), LevAt(a, b, i - 1, j - 1), Mismatch(a[i - 1], b[j - 1]),
                   LevAt(b, c, j - 1, k), LevAt(b, c, j, k - 1), LevAt(b, c, j - 1, k - 1), Mismatch(b[j - 1], c[k - 1]),
                   LevAt(a, c, i - 1, k), LevAt(a, c, i, k - 1), LevAt(a, c, i - 1, k - 1), Mismatch(a[i - 1], c[k - 1]),
                   LevAt(a, b, i, j), LevAt(b, c, j, k), LevAt(a, c, i, k));
    }
  }

  /** One cell of each table, with the law known for the cells before it. */
  lemma TriangleStep(p1: nat, p2: nat, p3: nat, pm: nat, q1: nat, q2: nat, q3: nat, qm: nat,
                     r1: nat, r2: nat, r3: nat, rm: nat, p: nat, q: nat, r: nat)
    requires p == Min(Min(p1 + 1, p2 + 1), p3 + pm) && q == Min(Min(q1 + 1, q2 + 1), q3 + qm)
    requires r == Min(Min(r1 + 1, r2 + 1), r3 + rm) && rm <= pm + qm
    requires r1 <= p1 + q && r2 <= p + q2 && r <= p2 + q1 && r1 <= p3 + q1 && r2 <= p2 + q3 && r3 <= p3 + q3
    ensures r <= p + q
  {
  }

  // ---------- the recurrence is a lower bound on every script ----------

  lemma {:induction false} LevCommonRun(a: string, b: string, i: nat, j: nat, n: nat)
    requires i + n <= |a| && j + n <= |b| && a[i..i + n] == b[j..j + n]
    ensures LevAt(a, b, i + n, j + n) <= LevAt(a, b, i, j)
    decreases n
  {
    if n != 0 {
      var m := n - 1;
      SliceShorter(a, i, n);
      SliceShorter(b, j, n);
      LevCommonRun(a, b, i, j, m);
    }
  }

  lemma SliceShorter(s: string, i: nat, n: nat)
    requires n > 0 && i + n <= |s|
    ensures s[i..i + n - 1] == s[i..i + n][..n - 1] && s[i + n - 1] == s[i..i + n][n - 1]
  {
  }

  /** A prefix that two strings share, one character more on either side or on both. */
  lemma LevNearDiagonal(a: string, b: string, n: nat)
    requires n <= |a| && n <= |b| && a[..n] == b[..n]
    ensures n < |a| ==> LevAt(a, b, n + 1, n) <= 1
    ensures n < |b| ==> LevAt(a, b, n, n + 1) <= 1
    ensures n < |a| && n < |b| ==> LevAt(a, b, n + 1, n + 1) <= 1
  {
    hide LevAt;
    LevDiagonal(a, b, n);
    if n < |a| { LevStep(a, b, n + 1, n); }
    if n < |b| { LevStep(a, b, n, n + 1); }
    if n < |a| && n < |b| { LevStep(a, b, n + 1, n + 1); }
  }

  lemma SplicedAt(p: string, x: string, tail: string)
    ensures var s := p + x + tail; s[..|p|] == p && s[|p| + |x|..|p| + |x| + |tail|] == tail
  {
    var s := p + x + tail;
    assert forall k | 0 <= k < |tail| :: s[|p| + |x| + k] == tail[k];
  }

  /** Exchanging at most one character for at most one character costs at most 1. */
  lemma LevSplice(p: string, x: string, y: string, tail: string)
    requires |x| <= 1 && |y| <= 1
    ensures Lev(p + x + tail, p + y + tail) <= 1
  {
    hide LevAt;
    var s, t, n := p + x + tail, p + y + tail, |p|;
    SplicedAt(p, x, tail);
    SplicedAt(p, y, tail);
    LevDiagonal(s, t, n);
    LevNearDiagonal(s, t, n);
    LevCommonRun(s, t, n + |x|, n + |y|, |tail|);
  }

  lemma LevOneEdit(e: Edit, s: string)
    requires Perform(e, s).Some?
    ensures Lev(s, Perform(e, s).value) <= 1
  {
    hide LevAt;
    var p := s[..e.at];
    match e {
      case Insert(at, c) =>
        LevSplice(p, "", [c], s[at..]);
        assert p + "" + s[at..] == s;
      case Delete(at) =>
        LevSplice(p, [s[at]], "", s[at + 1..]);
        assert p + [s[at]] + s[at + 1..] == s;
        assert p + "" + s[at + 1..] == p + s[at + 1..];
      case Replace(at, c) =>
        LevSplice(p, [s[at]], [c], s[at + 1..]);
        assert p + [s[at]] + s[at + 1..] == s;
    }
  }

  lemma {:induction false} LevLowerBound(script: seq<Edit>, a: string, b: string)
    requires Run(script, a) == Some(b)
    ensures Lev(a, b) <= |script|
  {
    if script == [] {
      LevDiagonal(a, b, |a|);
    } else {
      var next := Perform(script[0], a).value;
      LevOneEdit(script[0], a);
      LevLowerBound(script[1..], next, b);
      LevTriangle(a, next, b, |a|, |next|, |b|);
    }
  }

  // ---------- and some script reaches it ----------

  lemma PerformKeepsTail(e: Edit, s: string, t: string)
    requires Perform(e, s).Some?
    ensures Perform(e, s + t) == Some(Perform(e, s).value + t)
  {
    var at := e.at;
    assert (s + t)[..at] == s[..at];
    match e {
      case Insert(_, c) =>
        assert (s + t)[at..] == s[at..] + t;
        Reassociate(s[..at], [c], s[at..], t);
      case Delete(_) =>
        assert (s + t)[at + 1..] == s[at + 1..] + t;
        Reassociate(s[..at], [], s[at + 1..], t);
      case Replace(_, c) =>
        assert (s + t)[at + 1..] == s[at + 1..] + t;
        Reassociate(s[..at], [c], s[at + 1..], t);
    }
  }

  lemma Reassociate(a: string, b: string, c: string, t: string)
    ensures a + b + (c + t) == (a + b + c) + t
    ensures b == [] ==> a + (c + t) == (a + c) + t
  {
  }

  lemma {:induction false} RunKeepsTail(script: seq<Edit>, s: string, t: string)
    requires Run(script, s).Some?
    ensures Run(script, s + t) == Some(Run(script, s).value + t)
  {
    if script != [] {
      PerformKeepsTail(script[0], s, t);
      RunKeepsTail(script[1..], Perform(script[0], s).value, t);
    }
  }

  lemma {:induction false} RunAppend(script: seq<Edit>, e: Edit, s: string)
    requires Run(script, s).Some?
    ensures Run(script + [e], s) == Perform(e, Run(script, s).value)
  {
    if script == [] {
      assert script + [e] == [e];
      assert [e][1..] == [];
    } else {
      RunAppend(script[1..], e, Perform(script[0], s).value);
      assert (script + [e])[1..] == script[1..] + [e];
    }
  }

  /** One more edit after a script that rebuilds a prefix. */
  lemma ExtendScript(script: seq<Edit>, s: string, tail: string, mid: string, e: Edit, goal: string)
    requires Run(script, s) == Some(mid) && Perform(e, mid + tail) == Some(goal)
    ensures Run(script + [e], s + tail) == Some(goal)
  {
    RunKeepsTail(script, s, tail);
    RunAppend(script, e, s + tail);
  }

  lemma DeleteLast(script: seq<Edit>, a: string, b: string, i: nat, j: nat)
    requires 0 < i <= |a| && j <= |b| && Run(script, a[..i - 1]) == Some(b[..j])
    ensures Run(script + [Delete(j)], a[..i]) == Some(b[..j])
  {
    var mid, x := b[..j], a[i - 1];
    assert a[..i] == a[..i - 1] + [x];
    assert (mid + [x])[..j] + (mid + [x])[j + 1..] == mid;
    ExtendScript(script, a[..i - 1], [x], mid, Delete(j), mid);
  }

  lemma InsertLast(script: seq<Edit>, a: string, b: string, i: nat, j: nat)
    requires i <= |a| && 0 < j <= |b| && Run(script, a[..i]) == Some(b[..j - 1])
    ensures Run(script + [Insert(j - 1, b[j - 1])], a[..i]) == Some(b[..j])
  {
    var mid, y := b[..j - 1], b[j - 1];
    assert a[..i] + [] == a[..i] && mid + [] == mid;
    assert mid[..j - 1] + [y] + mid[j - 1..] == b[..j];
    ExtendScript(script, a[..i], [], mid, Insert(j - 1, y), b[..j]);
  }

  lemma ReplaceLast(script: seq<Edit>, a: string, b: string, i: nat, j: nat)
    requires 0 < i <= |a| && 0 < j <= |b| && Run(script, a[..i - 1]) == Some(b[..j - 1])
    ensures Run(script + [Replace(j - 1, b[j - 1])], a[..i]) == Some(b[..j])
    ensures a[i - 1] == b[j - 1] ==> Run(script, a[..i]) == Some(b[..j])
  {
    var mid, x, y := b[..j - 1], a[i - 1], b[j - 1];
    assert a[..i] == a[..i - 1] + [x] && b[..j] == mid + [y];
    RunKeepsTail(script, a[..i - 1], [x]);
    assert (mid + [x])[..j - 1] + [y] + (mid + [x])[j..] == b[..j];
    ExtendScript(script, a[..i - 1], [x], mid, Replace(j - 1, y), b[..j]);
  }

  lemma {:induction false} LevScript(a: string, b: string, i: nat, j: nat) returns (script: seq<Edit>)
    requires i <= |a| && j <= |b|
    ensures Run(script, a[..i]) == Some(b[..j]) && |script| == LevAt(a, b, i, j)
    decreases i + j
  {
    hide LevAt;
    LevStep(a, b, i, j);
    if i > 0 && j == 0 { LevStep(a, b, i - 1, j); }
    if i == 0 && j > 0 { LevStep(a, b, i, j - 1); }
    if i == 0 && j == 0 {
      script := [];
    } else if i > 0 && LevAt(a, b, i, j) == LevAt(a, b, i - 1, j) + 1 {
      script := LevScript(a, b, i - 1, j);
      DeleteLast(script, a, b, i, j);
      script := script + [Delete(j)];
    } else if j > 0 && LevAt(a, b, i, j) == LevAt(a, b, i, j - 1) + 1 {
      script := LevScript(a, b, i, j - 1);
      InsertLast(script, a, b, i, j);
      script := script + [Insert(j - 1, b[j - 1])];
    } else {
      script := LevScript(a, b, i - 1, j - 1);
      ReplaceLast(script, a, b, i, j);
      if a[i - 1] != b[j - 1] {
        script := script + [Replace(j - 1, b[j - 1])];
      }
    }
  }

  /** Optimality: the recurrence is exactly the length of a shortest script. */
  lemma ShortestScript(a: string, b: string)
    ensures IsShortest(a, b, Lev(a, b))
  {
    var script := LevScript(a, b, |a|, |b|);
    assert a[..|a|] == a && b[..|b|] == b;
    forall other | Run(other, a) == Some(b) ensures Lev(a, b) <= |other| {
      LevLowerBound(other, a, b);
    }
  }

  /** Any two shortest lengths agree, so `IsShortest` pins the distance down. */
  lemma ShortestIsLev(a: string, b: string, d: nat)
    requires IsShortest(a, b, d)
    ensures d == Lev(a, b)
  {
    ShortestScript(a, b);
  }

  /** The shortest-script length is a metric with the classical bounds. */
  lemma ShortestIsMetric(a: string, b: string, c: string, ab: nat, bc: nat, ac: nat)
    requires IsShortest(a, b, ab) && IsShortest(b, c, bc) && IsShortest(a, c, ac)
    ensures ab == 0 <==> a == b
    ensures IsShortest(b, a, ab)
    ensures ac <= ab + bc
    ensures |a| - |b| <= ab && |b| - |a| <= ab
    ensures ab <= if |a| <= |b| then |b| else |a|
  {
    ShortestIsLev(a, b, ab);
    ShortestIsLev(b, c, bc);
    ShortestIsLev(a, c, ac);
    assert a[..|a|] == a && b[..|b|] == b;
    if ab == 0 { LevZero(a, b, |a|, |b|); }
    if a == b { LevDiagonal(a, b, |a|); }
    LevSymmetric(a, b, |a|, |b|);
    ShortestScript(b, a);
    LevTriangle(a, b, c, |a|, |b|, |c|);
    LevBounds(a, b, |a|, |b|);
  }
}
