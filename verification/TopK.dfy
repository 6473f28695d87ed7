/**
 The comparison harnesses' top-N code: destructive argmax, overlap counting, sorted-set
 intersection, shifting insertion into eight slots, and the selection-validity check.
 A selection is judged against `Sorting.ValidTop`.
 */
module TopK {
  import opened Sorting

  /** What a taken score is overwritten with. */
  const FLOOR: real := -1000000000000000000000000000000.0

  // ---------- destructive argmax ----------

  /** The first index of a largest score. */
  function FirstMax(s: seq<real>): (m: nat)
    requires s != []
    ensures m < |s|
    ensures forall j | 0 <= j < |s| :: s[j] <= s[m]
    ensures forall j | 0 <= j < m :: s[j] < s[m]
  {
    if |s| == 1 then 0
    else
      var m := FirstMax(s[..|s| - 1]);
      if s[|s| - 1] > s[m] then |s| - 1 else m
  }

  lemma FirstMaxUnique(s: seq<real>, m: nat)
    requires m < |s|
    requires forall j | 0 <= j < |s| :: s[j] <= s[m]
    requires forall j | 0 <= j < m :: s[j] < s[m]
    ensures FirstMax(s) == m
  {
  }

  method MaxElement(a: array<real>) returns (m: nat)
    requires a.Length > 0
    ensures m == FirstMax(a[..])
  {
    m := 0;
    for j := 1 to a.Length
      invariant m < j
      invariant forall i | 0 <= i < j :: a[i] <= a[m]
      invariant forall i | 0 <= i < m :: a[i] < a[m]
    {
      if a[m] < a[j] { m := j; }
    }
    FirstMaxUnique(a[..], m);
  }

  function Picks(s: seq<real>, n: nat): (picks: seq<nat>)
    requires s != []
    ensures |picks| == n && Within(picks, |s|)
    decreases n
  {
    if n == 0 then []
    else
      var m := FirstMax(s);
      [m] + Picks(s[m := FLOOR], n - 1)
  }

  function Overwritten(s: seq<real>, n: nat): (r: seq<real>)
    requires s != []
    ensures |r| == |s|
    decreases n
  {
    if n == 0 then s else Overwritten(s[FirstMax(s) := FLOOR], n - 1)
  }

  /** Takes a largest score and overwrites it, `n` times. */
  method DestructiveTop(a: array<real>, n: nat) returns (top: seq<nat>)
    requires a.Length > 0
    modifies a
    ensures top == Picks(old(a[..]), n)
    ensures a[..] == Overwritten(old(a[..]), n)
  {
    hide Picks, Overwritten, FirstMax;
    top := [];
    ghost var all := a[..];
    for k := 0 to n
      invariant top + Picks(a[..], n - k) == Picks(all, n)
      invariant Overwritten(a[..], n - k) == Overwritten(all, n)
    {
      var m := MaxElement(a);
      ghost var s, before := a[..], top;
      TakeStep(s, n - k);
      a[m] := FLOOR;
      assert a[..] == s[m := FLOOR];
      top := top + [m];
      assert before + ([m] + Picks(a[..], n - k - 1)) == top + Picks(a[..], n - k - 1);
    }
    TakeNone(a[..]);
    assert top + [] == top;
  }

  lemma TakeStep(s: seq<real>, n: nat)
    requires s != [] && n > 0
    ensures Picks(s, n) == [FirstMax(s)] + Picks(s[FirstMax(s) := FLOOR], n - 1)
    ensures Overwritten(s, n) == Overwritten(s[FirstMax(s) := FLOOR], n - 1)
  {
  }

  lemma TakeNone(s: seq<real>)
    requires s != []
    ensures Picks(s, 0) == [] && Overwritten(s, 0) == s
  {
  }

  /** Exactly the scores picked are overwritten. */
  lemma {:induction false} OverwrittenAt(s: seq<real>, n: nat, i: nat)
    requires i < |s|
    ensures Overwritten(s, n)[i] == if i in Picks(s, n) then -1000000000000000000000000000000.0 else s[i]
    decreases n
  {
    if n != 0 {
      OverwrittenAt(s[FirstMax(s) := FLOOR], n - 1, i);
    }
  }

  /** The scores that can still be told from overwritten ones. */
  function Live(s: seq<real>): set<nat> { set i: nat | i < |s| && s[i] > FLOOR }

  lemma NoneLive(s: seq<real>)
    requires |Live(s)| == 0
    ensures Live(s) == {}
    ensures forall j: nat | j < |s| :: s[j] <= FLOOR
  {
    forall j: nat | j < |s| ensures s[j] <= FLOOR { assert j !in Live(s); }
  }

  lemma TakeOne(s: seq<real>, m: nat)
    requires m < |s| && m in Live(s)
    ensures Live(s[m := FLOOR]) == Live(s) - {m} && |Live(s[m := FLOOR])| == |Live(s)| - 1
  {
  }

  lemma MaxIsLive(s: seq<real>)
    requires s != [] && Live(s) != {}
    ensures FirstMax(s) in Live(s)
  {
    var i :| i in Live(s);
    assert s[i] <= s[FirstMax(s)];
  }

  /** Up to as many picks as there are live scores: all live, distinct, best first, nothing better left out. */
  lemma {:induction false} PicksAreTop(s: seq<real>, n: nat)
    requires s != [] && n <= |Live(s)|
    ensures var picks := Picks(s, n);
            && ValidTop(s, picks)
            && (forall i | 0 <= i < n :: picks[i] in Live(s))
            && forall i, j | 0 <= i < j < n :: s[picks[i]] >= s[picks[j]]
    decreases n
  {
    hide ValidTop, Live, FirstMax;
    if n != 0 {
      MaxIsLive(s);
      var m := FirstMax(s);
      var s' := s[m := FLOOR];
      TakeOne(s, m);
      PicksAreTop(s', n - 1);
      var rest := Picks(s', n - 1);
      assert Picks(s, n) == [m] + rest;
      ExtendTop(s, m, rest);
    } else {
      NoPicks(s);
    }
  }

  lemma NoPicks(s: seq<real>)
    ensures ValidTop(s, [])
  {
  }

  lemma ExtendTop(s: seq<real>, m: nat, rest: seq<nat>)
    requires m < |s| && m in Live(s) && forall j | 0 <= j < |s| :: s[j] <= s[m]
    requires ValidTop(s[m := FLOOR], rest)
    requires forall i | 0 <= i < |rest| :: rest[i] in Live(s[m := FLOOR])
    requires forall i, j | 0 <= i < j < |rest| :: s[m := FLOOR][rest[i]] >= s[m := FLOOR][rest[j]]
    ensures var picks := [m] + rest;
            && ValidTop(s, picks)
            && (forall i | 0 <= i < |picks| :: picks[i] in Live(s))
            && forall i, j | 0 <= i < j < |picks| :: s[picks[i]] >= s[picks[j]]
  {
    var picks := [m] + rest;
    RestLive(s, m, rest);
    assert forall i | 1 <= i < |picks| :: picks[i] == rest[i - 1];
    ExtendValid(s, m, rest);
  }

  /** The other picks are live before the largest is overwritten, with the scores they have after. */
  lemma RestLive(s: seq<real>, m: nat, rest: seq<nat>)
    requires m < |s| && m in Live(s)
    requires Within(rest, |s|) && forall i | 0 <= i < |rest| :: rest[i] in Live(s[m := FLOOR])
    ensures forall i | 0 <= i < |rest| :: rest[i] != m && rest[i] in Live(s) && s[m := FLOOR][rest[i]] == s[rest[i]]
  {
  }

  lemma ExtendValid(s: seq<real>, m: nat, rest: seq<nat>)
    requires m < |s| && forall j | 0 <= j < |s| :: s[j] <= s[m]
    requires ValidTop(s[m := FLOOR], rest)
    requires forall i | 0 <= i < |rest| :: rest[i] != m && s[m := FLOOR][rest[i]] == s[rest[i]]
    ensures ValidTop(s, [m] + rest)
  {
    var picks, s' := [m] + rest, s[m := FLOOR];
    assert forall i | 1 <= i < |picks| :: picks[i] == rest[i - 1];
    assert picks[0] == m && picks[1..] == rest;
    forall i: nat, p | i < |s| && i !in picks && 0 <= p < |picks| ensures s[i] <= s[picks[p]] {
      if p > 0 { assert s'[i] <= s'[rest[p - 1]]; }
    }
  }

  /** With every score above the floor, any number of picks up to the vocabulary is a valid selection. */
  lemma PicksAreTopOfAll(s: seq<real>, n: nat)
    requires s != [] && n <= |s| && forall i | 0 <= i < |s| :: s[i] > -1000000000000000000000000000000.0
    ensures ValidTop(s, Picks(s, n))
    ensures forall i, j | 0 <= i < j < n :: s[Picks(s, n)[i]] >= s[Picks(s, n)[j]]
  {
    AllLive(s);
    PicksAreTop(s, n);
  }

  lemma {:induction false} AllLive(s: seq<real>)
    requires forall i | 0 <= i < |s| :: s[i] > FLOOR
    ensures |Live(s)| == |s|
  {
    if s != [] {
      var n := |s| - 1;
      AllLive(s[..n]);
      assert Live(s) == Live(s[..n]) + {n};
    }
  }

  /** The first index at or above the floor is what remains once every live score is taken. */
  ghost predicate FirstAtFloor(s: seq<real>, f: nat) {
    f < |s| && s[f] >= FLOOR && forall j | 0 <= j < f :: s[j] < FLOOR
  }

  lemma {:induction false} PickAfterLive(s: seq<real>, f: nat)
    requires s != [] && FirstAtFloor(s, f)
    ensures Picks(s, |Live(s)| + 1)[|Live(s)|] == f
    ensures forall i :: i in Live(s) <==> i in Picks(s, |Live(s)| + 1)[..|Live(s)|]
    decreases |Live(s)|
  {
    var c := |Live(s)|;
    if c == 0 {
      NoneLive(s);
      FirstMaxUnique(s, f);
    } else {
      assert Live(s) != {};
      MaxIsLive(s);
      var m := FirstMax(s);
      var s' := s[m := FLOOR];
      TakeOne(s, m);
      PickAfterLive(s', f);
      var rest := Picks(s', c);
      assert Picks(s, c + 1) == [m] + rest;
      assert Picks(s, c + 1)[..c] == [m] + rest[..c - 1];
      forall i ensures i in Live(s) <==> i in Picks(s, c + 1)[..c] {
        assert i in Live(s) <==> i == m || i in Live(s');
      }
    }
  }

  lemma {:induction false} PicksPrefix(s: seq<real>, n: nat, k: nat)
    requires s != [] && k <= n
    ensures Picks(s, n)[..k] == Picks(s, k)
    decreases n
  {
    if k != 0 {
      var s' := s[FirstMax(s) := FLOOR];
      PicksPrefix(s', n - 1, k - 1);
      assert Picks(s, n)[..k] == [FirstMax(s)] + Picks(s', n - 1)[..k - 1];
    }
  }

  /** Beyond the live scores one and the same index is picked for ever. */
  lemma {:induction false} PicksRepeat(s: seq<real>)
    requires s != []
    ensures !Distinct(Picks(s, |Live(s)| + 2))
    decreases |Live(s)|
  {
    hide Picks, Live, Distinct;
    var c, m := |Live(s)|, FirstMax(s);
    if c == 0 {
      RepeatAtFloor(s);
    } else {
      assert Live(s) != {};
      MaxIsLive(s);
      TakeOne(s, m);
      PicksRepeat(s[m := FLOOR]);
      TakeStep(s, c + 2);
      DuplicateTail(m, Picks(s[m := FLOOR], c + 1));
    }
  }

  lemma RepeatAtFloor(s: seq<real>)
    requires s != [] && |Live(s)| == 0
    ensures !Distinct(Picks(s, 2))
  {
    hide Picks, Live;
    var m := FirstMax(s);
    NoneLive(s);
    FirstMaxUnique(s[m := FLOOR], m);
    TakeStep(s, 2);
    TakeStep(s[m := FLOOR], 1);
    assert Picks(s, 2)[0] == Picks(s, 2)[1];
  }

  lemma DuplicateTail(m: nat, rest: seq<nat>)
    requires !Distinct(rest)
    ensures !Distinct([m] + rest)
  {
    var i, j :| 0 <= i < j < |rest| && rest[i] == rest[j];
    assert ([m] + rest)[i + 1] == ([m] + rest)[j + 1];
  }

  /** Exactly when the picks are distinct: no more than the live scores, or one more and the first
      index at or above the floor is not a live one (nothing at or above it counts too). */
  lemma PicksDistinctIff(s: seq<real>, n: nat)
    requires s != []
    ensures Distinct(Picks(s, n)) <==>
            || n <= |Live(s)|
            || (n == |Live(s)| + 1 && forall f: nat | FirstAtFloor(s, f) :: s[f] == FLOOR)
  {
    hide Picks, Distinct, Live, FirstAtFloor;
    var c := |Live(s)|;
    if n <= c {
      TopIsDistinct(s, n);
    } else if n >= c + 2 {
      TooManyRepeat(s, n);
    } else if c == 0 {
      SinglePick(s);
    } else {
      OneMoreThanLive(s);
    }
  }

  lemma TooManyRepeat(s: seq<real>, n: nat)
    requires s != [] && n >= |Live(s)| + 2
    ensures !Distinct(Picks(s, n))
  {
    hide Live, Picks;
    var k := |Live(s)| + 2;
    PicksRepeat(s);
    PicksPrefix(s, n, k);
    var some, all := Picks(s, k), Picks(s, n);
    var i, j :| 0 <= i < j < k && some[i] == some[j];
    assert some == all[..k];
    assert all[i] == all[j];
  }

  lemma SinglePick(s: seq<real>)
    requires s != [] && |Live(s)| == 0
    ensures Distinct(Picks(s, 1)) && forall f: nat | FirstAtFloor(s, f) :: s[f] == FLOOR
  {
    NoneLive(s);
  }

  lemma OneMoreThanLive(s: seq<real>)
    requires s != [] && |Live(s)| != 0
    ensures Distinct(Picks(s, |Live(s)| + 1)) <==> forall f: nat | FirstAtFloor(s, f) :: s[f] == FLOOR
  {
    hide Picks, ValidTop;
    var c := |Live(s)|;
    assert Live(s) != {};
    var f := FindFloor(s);
    var picks := Picks(s, c + 1);
    PickAfterLive(s, f);
    PicksPrefix(s, c + 1, c);
    TopIsDistinct(s, c);
    assert picks == picks[..c] + [f];
    DistinctAppend(picks[..c], f);
    assert f in Live(s) <==> s[f] != FLOOR;
    forall g: nat | FirstAtFloor(s, g) ensures g == f { }
  }

  lemma TopIsDistinct(s: seq<real>, n: nat)
    requires s != [] && n <= |Live(s)|
    ensures Distinct(Picks(s, n))
  {
    PicksAreTop(s, n);
  }

  lemma DistinctAppend(xs: seq<nat>, x: nat)
    requires Distinct(xs)
    ensures Distinct(xs + [x]) <==> x !in xs
  {
    var ys := xs + [x];
    if x in xs {
      var i :| 0 <= i < |xs| && xs[i] == x;
      assert ys[i] == ys[|xs|];
    }
  }

  lemma FindFloor(s: seq<real>) returns (f: nat)
    requires s != [] && Live(s) != {}
    ensures FirstAtFloor(s, f)
  {
    var i :| i in Live(s);
    f := 0;
    while s[f] < FLOOR
      invariant f <= i && forall j | 0 <= j < f :: s[j] < FLOOR
      decreases i - f
    {
      f := f + 1;
    }
  }

  // ---------- overlap ----------

  /** The positions below `n` of the first list whose entry the second contains. */
  function Positions(x: seq<nat>, y: seq<nat>, n: nat): set<nat>
    requires n <= |x|
  {
    set a: nat | a < n && x[a] in y
  }

  lemma NextPosition(x: seq<nat>, y: seq<nat>, n: nat)
    requires n < |x|
    ensures Positions(x, y, 0) == {}
    ensures Positions(x, y, n + 1) == if x[n] in y then Positions(x, y, n) + {n} else Positions(x, y, n)
    ensures |Positions(x, y, n + 1)| == |Positions(x, y, n)| + if x[n] in y then 1 else 0
  {
    assert Positions(x, y, n + 1) == if x[n] in y then Positions(x, y, n) + {n} else Positions(x, y, n);
  }

  /** The double loop: one for every entry of the first list that the second contains. */
  method CountOverlap(x: seq<nat>, y: seq<nat>) returns (overlap: nat)
    ensures overlap == |Positions(x, y, |x|)|
    ensures Distinct(x) ==> overlap == |Elements(x) * Elements(y)|
  {
    hide Positions;
    overlap := 0;
    if x != [] { NextPosition(x, y, 0); } else { NoPositions(x, y); }
    for a := 0 to |x|
      invariant overlap == |Positions(x, y, a)|
    {
      var found := false;
      for b := 0 to |y|
        invariant !found && x[a] !in y[..b]
      {
        if x[a] == y[b] {
          found := true;
          break;
        }
      }
      assert found <==> x[a] in y by { assert y[..|y|] == y; }
      NextPosition(x, y, a);
      if found { overlap := overlap + 1; }
    }
    if Distinct(x) { PositionsAreElements(x, y); }
  }

  lemma NoPositions(x: seq<nat>, y: seq<nat>)
    requires x == []
    ensures Positions(x, y, 0) == {} && Elements(x) == {}
  {
  }

  lemma {:induction false} PositionsAreElements(x: seq<nat>, y: seq<nat>)
    requires Distinct(x)
    ensures |Positions(x, y, |x|)| == |Elements(x) * Elements(y)|
  {
    hide Positions, Elements;
    if x == [] {
      NoPositions(x, y);
    } else {
      var n := |x| - 1;
      var front := x[..n];
      PositionsAreElements(front, y);
      NextPosition(x, y, n);
      PositionsPrefix(x, y, n);
      assert x == front + [x[n]];
      NextElementCount(front, x[n], y);
    }
  }

  lemma PositionsPrefix(x: seq<nat>, y: seq<nat>, n: nat)
    requires n <= |x|
    ensures Positions(x, y, n) == Positions(x[..n], y, n)
  {
  }

  lemma NextElementCount(front: seq<nat>, e: nat, y: seq<nat>)
    requires e !in front
    ensures |Elements(front + [e]) * Elements(y)| == |Elements(front) * Elements(y)| + if e in y then 1 else 0
  {
    var both := Elements(front) * Elements(y);
    assert Elements(front + [e]) * Elements(y) == if e in y then both + {e} else both;
  }

  predicate Ascending(x: seq<nat>) { forall i, j | 0 <= i < j < |x| :: x[i] < x[j] }

  /** The two-pointer merge over two sorted lists of distinct indices. */
  method SortedIntersection(x: seq<nat>, y: seq<nat>) returns (inter: seq<nat>)
    requires Ascending(x) && Ascending(y)
    ensures Ascending(inter)
    ensures Elements(inter) == Elements(x) * Elements(y)
    ensures |inter| == |Elements(x) * Elements(y)|
  {
    inter := [];
    var i, j := 0, 0;
    while i < |x| && j < |y|
      invariant i <= |x| && j <= |y|
      invariant Ascending(inter)
      invariant forall e :: e in inter <==> e in x[..i] && e in y[..j]
      invariant i < |x| ==> forall e | e in y[..j] :: e < x[i]
      invariant j < |y| ==> forall e | e in x[..i] :: e < y[j]
      decreases |x| + |y| - i - j
    {
      NextElement(x, i);
      NextElement(y, j);
      if x[i] < y[j] {
        i := i + 1;
      } else if y[j] < x[i] {
        j := j + 1;
      } else {
        AppendLargest(inter, x[i]);
        inter := inter + [x[i]];
        i, j := i + 1, j + 1;
      }
    }
    AllCommon(x, y, inter, i, j);
  }

  lemma AppendLargest(xs: seq<nat>, x: nat)
    requires Ascending(xs) && forall e | e in xs :: e < x
    ensures Ascending(xs + [x])
  {
    assert forall k | 0 <= k < |xs| :: xs[k] in xs;
  }

  /** Once one list is used up nothing common is left in the other. */
  lemma AllCommon(x: seq<nat>, y: seq<nat>, inter: seq<nat>, i: nat, j: nat)
    requires Ascending(x) && Ascending(y) && Ascending(inter) && i <= |x| && j <= |y| && (i == |x| || j == |y|)
    requires forall e :: e in inter <==> e in x[..i] && e in y[..j]
    requires i < |x| ==> forall e | e in y[..j] :: e < x[i]
    requires j < |y| ==> forall e | e in x[..i] :: e < y[j]
    ensures Elements(inter) == Elements(x) * Elements(y)
    ensures |inter| == |Elements(x) * Elements(y)|
  {
    forall e ensures e in inter <==> e in x && e in y {
      if i == |x| {
        assert x[..i] == x;
        if e in x && e in y && e !in y[..j] { AfterPrefix(y, j, e); }
      } else {
        assert y[..j] == y;
        if e in x && e in y && e !in x[..i] { AfterPrefix(x, i, e); }
      }
    }
    ElementsSize(inter);
    assert Elements(inter) == Elements(x) * Elements(y);
  }

  lemma NextElement(x: seq<nat>, i: nat)
    requires Ascending(x) && i < |x|
    ensures x[..i + 1] == x[..i] + [x[i]]
    ensures forall e | e in x[..i] :: e < x[i]
    ensures i + 1 < |x| ==> x[i] < x[i + 1]
  {
  }

  lemma AfterPrefix(x: seq<nat>, i: nat, e: nat)
    requires Ascending(x) && i <= |x| && e in x && e !in x[..i]
    ensures i < |x| && x[i] <= e
  {
    var k :| 0 <= k < |x| && x[k] == e;
    forall m | 0 <= m < i ensures x[m] != e { assert x[m] == x[..i][m]; }
  }

  /** Both ways of counting agree on two selections, whatever order they were listed in. */
  lemma OverlapsAgree(x: seq<nat>, y: seq<nat>, sx: seq<nat>, sy: seq<nat>)
    requires Distinct(x) && Distinct(y) && Ascending(sx) && Ascending(sy)
    requires multiset(sx) == multiset(x) && multiset(sy) == multiset(y)
    ensures Elements(sx) * Elements(sy) == Elements(x) * Elements(y)
    ensures |Positions(x, y, |x|)| == |Elements(sx) * Elements(sy)|
  {
    assert forall e :: e in sx <==> e in multiset(sx);
    assert forall e :: e in x <==> e in multiset(x);
    assert forall e :: e in sy <==> e in multiset(sy);
    assert forall e :: e in y <==> e in multiset(y);
    assert Elements(sx) == Elements(x) && Elements(sy) == Elements(y);
    PositionsAreElements(x, y);
  }

  // ---------- insertion into eight slots ----------

  const SLOTS: nat := 8

  /** The first slot whose score the new one beats, or the number of slots. */
  function InsertAt(lg: seq<real>, top: seq<nat>, x: nat): (t: nat)
    requires Within(top, |lg|) && x < |lg|
    ensures t <= |top|
    ensures t < |top| ==> lg[x] > lg[top[t]]
    ensures forall u | 0 <= u < t :: lg[x] <= lg[top[u]]
  {
    if top == [] || lg[x] > lg[top[0]] then 0 else 1 + InsertAt(lg, top[1..], x)
  }

  /** The later slots move down, the last one falls off. */
  function Insert(lg: seq<real>, top: seq<nat>, x: nat): (r: seq<nat>)
    requires Within(top, |lg|) && x < |lg|
    ensures |r| == |top|
  {
    var t := InsertAt(lg, top, x);
    if t == |top| then top else top[..t] + [x] + top[t..|top| - 1]
  }

  lemma InsertAtUnique(lg: seq<real>, top: seq<nat>, x: nat, t: nat)
    requires Within(top, |lg|) && x < |lg| && t <= |top|
    requires t < |top| ==> lg[x] > lg[top[t]]
    requires forall u | 0 <= u < t :: lg[x] <= lg[top[u]]
    ensures InsertAt(lg, top, x) == t
  {
  }

  /** The slots after the first `n` tokens, starting from eight copies of token 0. */
  function TopAfter(lg: seq<real>, n: nat): (top: seq<nat>)
    requires 0 < |lg| && n <= |lg|
    ensures |top| == SLOTS && Within(top, |lg|)
  {
    if n == 0 then seq(SLOTS, _ => 0)
    else
      var before := TopAfter(lg, n - 1);
      InsertWithin(lg, before, n - 1);
      Insert(lg, before, n - 1)
  }

  lemma InsertWithin(lg: seq<real>, top: seq<nat>, x: nat)
    requires Within(top, |lg|) && x < |lg|
    ensures Within(Insert(lg, top, x), |lg|)
  {
  }

  /** The nested shifting loops, in place on the slot array. */
  method InsertionTop(lg: seq<real>) returns (top: array<nat>)
    requires 0 < |lg|
    ensures fresh(top) && top.Length == SLOTS && top[..] == TopAfter(lg, |lg|)
  {
    hide Insert, InsertAt;
    top := new nat[SLOTS](_ => 0);
    assert top[..] == TopAfter(lg, 0);
    for i := 0 to |lg|
      invariant fresh(top) && top[..] == TopAfter(lg, i)
    {
      InsertToken(lg, top, i);
    }
  }

  method InsertToken(lg: seq<real>, top: array<nat>, i: nat)
    requires top.Length == SLOTS && Within(top[..], |lg|) && i < |lg|
    modifies top
    ensures top[..] == Insert(lg, old(top[..]), i)
  {
    ghost var before := top[..];
    for t := 0 to SLOTS
      invariant top[..] == before
      invariant forall u | 0 <= u < t :: lg[i] <= lg[before[u]]
    {
      if lg[i] > lg[top[t]] {
        InsertAtUnique(lg, before, i, t);
        ShiftDown(top, t, i);
        return;
      }
    }
    InsertAtUnique(lg, before, i, SLOTS);
  }

  method ShiftDown(top: array<nat>, t: nat, x: nat)
    requires top.Length == SLOTS && t < SLOTS
    modifies top
    ensures top[..] == old(top[..t]) + [x] + old(top[t..SLOTS - 1])
  {
    var u := SLOTS - 1;
    while u > t
      invariant t <= u < SLOTS
      invariant forall v | 0 <= v <= u :: top[v] == old(top[v])
      invariant forall v | u < v < SLOTS :: top[v] == old(top[v - 1])
    {
      top[u] := top[u - 1];
      u := u - 1;
    }
    top[t] := x;
    assert top[..t] == old(top[..t]) && top[t + 1..] == old(top[t..SLOTS - 1]);
    assert top[..] == top[..t] + [top[t]] + top[t + 1..];
  }

  predicate BestFirst(lg: seq<real>, top: seq<nat>)
    requires Within(top, |lg|)
  {
    forall t, u | 0 <= t < u < |top| :: lg[top[t]] >= lg[top[u]]
  }

  /** The tokens below `n` that beat token 0. */
  function Better(lg: seq<real>, n: nat): set<nat>
    requires 0 < |lg| && n <= |lg|
  {
    set i: nat | i < n && lg[i] > lg[0]
  }

  /** The shape the loop keeps: best first, `m` distinct tokens that beat token 0, then copies of
      token 0; nothing unlisted above the last slot; all the better tokens while there is room. */
  ghost predicate SlotShape(lg: seq<real>, top: seq<nat>, n: nat, m: nat)
    requires 0 < |lg| && n <= |lg|
  {
    && |top| == SLOTS && Within(top, |lg|) && m <= SLOTS
    && BestFirst(lg, top)
    && Distinct(top[..m])
    && (forall t | 0 <= t < m :: top[t] in Better(lg, n))
    && (forall t | m <= t < SLOTS :: top[t] == 0)
    && (forall i: nat | i < n && i !in top :: lg[i] <= lg[top[SLOTS - 1]])
    && (m < SLOTS ==> Elements(top[..m]) == Better(lg, n))
  }

  lemma NewToken(lg: seq<real>, top: seq<nat>, n: nat, m: nat)
    requires n < |lg| && SlotShape(lg, top, n, m)
    ensures n !in top[..m]
    ensures lg[n] > lg[0] ==> Better(lg, n + 1) == Better(lg, n) + {n}
    ensures lg[n] <= lg[0] ==> Better(lg, n + 1) == Better(lg, n)
    ensures lg[n] <= lg[0] ==> InsertAt(lg, top, n) == SLOTS
    ensures lg[n] > lg[0] ==> InsertAt(lg, top, n) <= m
  {
    forall t | 0 <= t < m ensures top[..m][t] != n { assert top[t] in Better(lg, n); }
    if lg[n] <= lg[0] {
      forall t | 0 <= t < SLOTS ensures lg[n] <= lg[top[t]] {
        if t < m { assert top[t] in Better(lg, n); }
      }
      InsertAtUnique(lg, top, n, SLOTS);
    } else if m < SLOTS {
      assert top[m] == 0;
    }
  }

  /** A token that does not beat token 0, or finds no slot, changes nothing. */
  lemma KeepShape(lg: seq<real>, top: seq<nat>, n: nat, m: nat)
    requires n < |lg| && SlotShape(lg, top, n, m) && InsertAt(lg, top, n) == SLOTS
    ensures SlotShape(lg, top, n + 1, m)
  {
    hide InsertAt, Distinct;
    NewToken(lg, top, n, m);
  }

  lemma PlaceToken(lg: seq<real>, top: seq<nat>, n: nat, m: nat)
    requires n < |lg| && SlotShape(lg, top, n, m) && InsertAt(lg, top, n) < SLOTS
    ensures SlotShape(lg, Insert(lg, top, n), n + 1, if m < SLOTS then m + 1 else m)
  {
    hide InsertAt, Distinct, Better;
    NewToken(lg, top, n, m);
    var t := InsertAt(lg, top, n);
    var r := top[..t] + [n] + top[t..SLOTS - 1];
    var m' := if m < SLOTS then m + 1 else m;
    PlacedOrder(lg, top, n, t);
    PlacedFront(lg, top, n, m, t);
    forall i: nat | i < n + 1 && i !in r ensures lg[i] <= lg[r[SLOTS - 1]] {
      assert i != n by { assert r[t] == n; }
      LeftOut(lg, top, n, t, i);
    }
  }

  lemma PlacedOrder(lg: seq<real>, top: seq<nat>, n: nat, t: nat)
    requires |top| == SLOTS && Within(top, |lg|) && BestFirst(lg, top) && n < |lg|
    requires t == InsertAt(lg, top, n) && t < SLOTS
    ensures var r := top[..t] + [n] + top[t..SLOTS - 1]; Within(r, |lg|) && BestFirst(lg, r)
  {
    var r := top[..t] + [n] + top[t..SLOTS - 1];
    assert forall u | 0 <= u < t :: r[u] == top[u] && lg[top[u]] >= lg[n];
    assert forall u | t < u < SLOTS :: r[u] == top[u - 1] && lg[n] >= lg[top[u - 1]];
  }

  /** What is not listed any more was not listed before, or is the token that fell off. */
  lemma LeftOut(lg: seq<real>, top: seq<nat>, n: nat, t: nat, i: nat)
    requires |top| == SLOTS && Within(top, |lg|) && BestFirst(lg, top) && n < |lg|
    requires t == InsertAt(lg, top, n) && t < SLOTS && i < n
    requires forall j: nat | j < n && j !in top :: lg[j] <= lg[top[SLOTS - 1]]
    requires i !in top[..t] + [n] + top[t..SLOTS - 1]
    ensures lg[i] <= lg[(top[..t] + [n] + top[t..SLOTS - 1])[SLOTS - 1]]
  {
    var r := top[..t] + [n] + top[t..SLOTS - 1];
    if i in top {
      var u :| 0 <= u < SLOTS && top[u] == i;
      NotKept(top, n, t, u);
    }
  }

  lemma NotKept(top: seq<nat>, n: nat, t: nat, u: nat)
    requires |top| == SLOTS && t < SLOTS && u < SLOTS
    ensures u < SLOTS - 1 ==> top[u] in top[..t] + [n] + top[t..SLOTS - 1]
  {
    var r := top[..t] + [n] + top[t..SLOTS - 1];
    if u < t { assert r[u] == top[u]; } else if u < SLOTS - 1 { assert r[u + 1] == top[u]; }
  }

  lemma PlacedFront(lg: seq<real>, top: seq<nat>, n: nat, m: nat, t: nat)
    requires n < |lg| && SlotShape(lg, top, n, m) && t <= m && t < SLOTS
    requires n !in top[..m] && Better(lg, n + 1) == Better(lg, n) + {n}
    ensures var r := top[..t] + [n] + top[t..SLOTS - 1];
            var m' := if m < SLOTS then m + 1 else m;
            && Distinct(r[..m'])
            && (forall u | 0 <= u < m' :: r[u] in Better(lg, n + 1))
            && (forall u | m' <= u < SLOTS :: r[u] == 0)
            && (m' < SLOTS ==> Elements(r[..m']) == Better(lg, n + 1))
  {
    hide Better, BestFirst, Elements;
    var r := top[..t] + [n] + top[t..SLOTS - 1];
    var m' := if m < SLOTS then m + 1 else m;
    var k := m' - 1;
    assert r[..m'] == top[..t] + [n] + top[t..k];
    assert top[..k] == top[..t] + top[t..k];
    DistinctFront(top, m, k);
    assert n !in top[..k] by { PrefixMembers(top, k, m); }
    InsertDistinct(top[..t], n, top[t..k]);
    if m' < SLOTS {
      assert top[..k] == top[..m];
      InsertedElements(top[..t], n, top[t..k]);
    }
  }

  lemma DistinctFront(xs: seq<nat>, m: nat, k: nat)
    requires k <= m <= |xs| && Distinct(xs[..m])
    ensures Distinct(xs[..k])
  {
    forall i, j | 0 <= i < j < k ensures xs[..k][i] != xs[..k][j] { assert xs[..m][i] != xs[..m][j]; }
  }

  lemma PrefixMembers(xs: seq<nat>, k: nat, m: nat)
    requires k <= m <= |xs|
    ensures forall e | e in xs[..k] :: e in xs[..m]
  {
    assert xs[..k] == xs[..m][..k];
  }

  lemma InsertDistinct(a: seq<nat>, x: nat, b: seq<nat>)
    requires Distinct(a + b) && x !in a + b
    ensures Distinct(a + [x] + b)
  {
    var c, r := a + b, a + [x] + b;
    forall i, j | 0 <= i < j < |r| ensures r[i] != r[j] {
      var i', j' := if i <= |a| then i else i - 1, if j <= |a| then j else j - 1;
      if i != |a| { assert r[i] == c[i']; }
      if j != |a| { assert r[j] == c[j']; }
      if i != |a| && j != |a| { assert c[i'] != c[j']; }
    }
  }

  lemma InsertedElements(a: seq<nat>, x: nat, b: seq<nat>)
    ensures Elements(a + [x] + b) == Elements(a + b) + {x}
  {
  }

  lemma {:induction false} TopShape(lg: seq<real>, n: nat) returns (m: nat)
    requires 0 < |lg| && n <= |lg|
    ensures SlotShape(lg, TopAfter(lg, n), n, m)
  {
    hide SlotShape, Insert, InsertAt;
    if n == 0 {
      m := 0;
      EmptyShape(lg);
    } else {
      m := TopShape(lg, n - 1);
      var before := TopAfter(lg, n - 1);
      if InsertAt(lg, before, n - 1) == SLOTS {
        KeepShape(lg, before, n - 1, m);
        NoSlot(lg, before, n - 1);
      } else {
        SlotFound(lg, before, n - 1);
        PlaceToken(lg, before, n - 1, m);
        m := if m < SLOTS then m + 1 else m;
      }
    }
  }

  lemma NoSlot(lg: seq<real>, top: seq<nat>, x: nat)
    requires Within(top, |lg|) && x < |lg| && InsertAt(lg, top, x) == |top|
    ensures Insert(lg, top, x) == top
  {
  }

  lemma SlotFound(lg: seq<real>, top: seq<nat>, x: nat)
    requires Within(top, |lg|) && x < |lg|
    ensures InsertAt(lg, top, x) <= |top|
  {
  }

  lemma EmptyShape(lg: seq<real>)
    requires 0 < |lg|
    ensures SlotShape(lg, TopAfter(lg, 0), 0, 0)
  {
    assert Better(lg, 0) == {};
    assert Elements([]) == {};
  }

  /** Whatever the scores, the slots come out best first and no unlisted token beats the last slot. */
  lemma InsertionOrdered(lg: seq<real>)
    requires 0 < |lg|
    ensures var top := TopAfter(lg, |lg|);
            BestFirst(lg, top) && forall i: nat | i < |lg| && i !in top :: lg[i] <= lg[top[SLOTS - 1]]
  {
    var m := TopShape(lg, |lg|);
  }

  /** The eight slots are eight different tokens, a valid top eight, exactly when at least seven
      tokens beat token 0; otherwise copies of token 0 fill the remaining slots. */
  lemma InsertionIsTopIff(lg: seq<real>)
    requires 0 < |lg|
    ensures |TopAfter(lg, |lg|)| == 8
    ensures ValidTop(lg, TopAfter(lg, |lg|)) <==> |set i: nat | i < |lg| && lg[i] > lg[0]| >= 7
    ensures Distinct(TopAfter(lg, |lg|)) <==> |set i: nat | i < |lg| && lg[i] > lg[0]| >= 7
  {
    BetterIs(lg);
    hide Better, TopAfter;
    var n := |lg|;
    var m := TopShape(lg, n);
    var top := TopAfter(lg, n);
    ElementsSize(top[..m]);
    if m < SLOTS - 1 {
      assert top[SLOTS - 2] == 0 && top[SLOTS - 1] == 0;
    } else {
      if m == SLOTS - 1 { ZeroNotBetter(lg, top, m); }
      assert top == if m == SLOTS then top[..m] else top[..m] + [0];
      forall e | e in Elements(top[..m]) ensures e in Better(lg, n) {
        var t :| 0 <= t < m && top[..m][t] == e;
        assert top[t] == e;
      }
      SubsetSize(Elements(top[..m]), Better(lg, n));
      if m == SLOTS - 1 { DistinctAppend(top[..m], 0); }
      BelowAll(lg, top);
    }
  }

  lemma BetterIs(lg: seq<real>)
    requires 0 < |lg|
    ensures Better(lg, |lg|) == set i: nat | i < |lg| && lg[i] > lg[0]
  {
  }

  lemma ZeroNotBetter(lg: seq<real>, top: seq<nat>, m: nat)
    requires 0 < |lg| && m <= |top| && forall t | 0 <= t < m :: top[t] in Better(lg, |lg|)
    ensures 0 !in top[..m]
  {
    forall t | 0 <= t < m ensures top[..m][t] != 0 { assert top[t] in Better(lg, |lg|); }
  }

  lemma BelowAll(lg: seq<real>, top: seq<nat>)
    requires |top| == SLOTS && Within(top, |lg|) && BestFirst(lg, top)
    requires forall i: nat | i < |lg| && i !in top :: lg[i] <= lg[top[SLOTS - 1]]
    ensures forall i: nat, p | i < |lg| && i !in top && 0 <= p < |top| :: lg[i] <= lg[top[p]]
  {
  }

  // ---------- the selection-validity check ----------

  /** The scores of the picks that are not -1. */
  function PickedScores(s: seq<real>, picks: seq<int>): (r: seq<real>)
    requires forall i | 0 <= i < |picks| :: picks[i] < |s|
  {
    if picks == [] then []
    else
      var r := PickedScores(s, picks[..|picks| - 1]);
      var x := picks[|picks| - 1];
      if x >= 0 then r + [s[x]] else r
  }

  /** The k-th best of the visible scores (the last of them when there are fewer). */
  function KthBest(vis: seq<real>, k: nat): real
    requires vis != [] && k > 0
  {
    SortDescending(vis)[(if k < |vis| then k else |vis|) - 1]
  }

  /** The row check: with nothing visible no pick is allowed; otherwise every pick must reach the
      k-th best visible score up to the tolerance. */
  method RowPasses(s: seq<real>, threshold: nat, picks: seq<int>, k: nat, tol: real) returns (ok: bool)
    requires k > 0 && forall i | 0 <= i < |picks| :: picks[i] < |s|
    ensures ok == RowOk(s, threshold, picks, k, tol)
  {
    hide KthBest, PickedScores, SortDescending;
    var vis := s[..if threshold < |s| then threshold else |s|];
    if vis == [] {
      ok := true;
      for i := 0 to |picks|
        invariant ok == forall j | 0 <= j < i :: picks[j] < 0
      {
        if picks[i] >= 0 { ok := false; }
      }
    } else {
      var kth := KthBest(vis, k);
      var scores := PickedScores(s, picks);
      ok := true;
      for i := 0 to |scores|
        invariant ok == forall j | 0 <= j < i :: scores[j] >= kth - tol
      {
        if scores[i] < kth - tol { ok := false; }
      }
    }
  }

  predicate RowOk(s: seq<real>, threshold: nat, picks: seq<int>, k: nat, tol: real)
    requires k > 0 && forall i | 0 <= i < |picks| :: picks[i] < |s|
  {
    var vis := s[..if threshold < |s| then threshold else |s|];
    if vis == [] then forall i | 0 <= i < |picks| :: picks[i] < 0
    else
      var scores := PickedScores(s, picks);
      forall i | 0 <= i < |scores| :: scores[i] >= KthBest(vis, k) - tol
  }

  /** The picks that are not -1. */
  function Chosen(picks: seq<int>): seq<nat> {
    if picks == [] then []
    else
      var r, x := Chosen(picks[..|picks| - 1]), picks[|picks| - 1];
      if x >= 0 then r + [x] else r
  }

  /** The scores a row may choose from. */
  function Visible(s: seq<real>, threshold: nat): seq<real> { s[..if threshold < |s| then threshold else |s|] }

  function Room(k: nat, visible: nat): nat { if k < visible then k else visible }

  /** What the reference promises of a row: the k best visible entries, each once. */
  ghost predicate FullTop(vis: seq<real>, picks: seq<nat>, k: nat) {
    ValidTop(vis, picks) && |picks| == Room(k, |vis|)
  }

  lemma {:induction false} ChosenScores(s: seq<real>, picks: seq<int>)
    requires forall i | 0 <= i < |picks| :: picks[i] < |s|
    ensures Within(Chosen(picks), |s|) && PickedScores(s, picks) == ScoresOf(s, Chosen(picks))
  {
    if picks != [] { ChosenScores(s, picks[..|picks| - 1]); }
  }

  lemma {:induction false} ChosenNothing(picks: seq<int>)
    ensures Chosen(picks) == [] <==> forall i | 0 <= i < |picks| :: picks[i] < 0
  {
    if picks != [] { ChosenNothing(picks[..|picks| - 1]); }
  }

  /** Passing is one of five things a full selection needs, whatever is picked: it must also repeat
      nothing, see only visible entries, be complete, and hold everything above the k-th best. */
  lemma CheckIsPartOfValid(s: seq<real>, threshold: nat, picks: seq<int>, k: nat)
    requires k > 0 && forall i | 0 <= i < |picks| :: picks[i] < |s|
    ensures var vis, chosen := Visible(s, threshold), Chosen(picks);
            FullTop(vis, chosen, k) <==>
            && RowOk(s, threshold, picks, k, 0.0)
            && Distinct(chosen) && Within(chosen, |vis|) && |chosen| == Room(k, |vis|)
            && (vis != [] ==> forall i: nat | i < |vis| && vis[i] > KthBest(vis, k) :: i in chosen)
  {
    hide KthBest, PickedScores, Distinct, Chosen, ScoresOf;
    var vis, chosen := Visible(s, threshold), Chosen(picks);
    ChosenScores(s, picks);
    ChosenNothing(picks);
    if vis != [] && Within(chosen, |vis|) && |chosen| == Room(k, |vis|) {
      RowOkMeans(s, threshold, picks, k);
      if ValidTop(vis, chosen) { ValidReachesKth(vis, chosen, k); }
      if (forall p | 0 <= p < |chosen| :: vis[chosen[p]] >= KthBest(vis, k)) &&
         (forall i: nat | i < |vis| && vis[i] > KthBest(vis, k) :: i in chosen) && Distinct(chosen) {
        AboveKthIsValid(vis, chosen, KthBest(vis, k));
      }
    }
  }

  lemma RowOkMeans(s: seq<real>, threshold: nat, picks: seq<int>, k: nat)
    requires k > 0 && forall i | 0 <= i < |picks| :: picks[i] < |s|
    requires var vis, chosen := Visible(s, threshold), Chosen(picks); vis != [] && Within(chosen, |vis|)
    ensures var vis, chosen := Visible(s, threshold), Chosen(picks);
            RowOk(s, threshold, picks, k, 0.0) <==> forall p | 0 <= p < |chosen| :: vis[chosen[p]] >= KthBest(vis, k)
  {
    hide KthBest, PickedScores, Chosen;
    ChosenScores(s, picks);
    var vis, chosen := Visible(s, threshold), Chosen(picks);
    assert forall p | 0 <= p < |chosen| :: ScoresOf(s, chosen)[p] == s[chosen[p]] == vis[chosen[p]];
  }

  lemma ValidReachesKth(vis: seq<real>, picks: seq<nat>, k: nat)
    requires k > 0 && vis != [] && ValidTop(vis, picks)
    requires |picks| == if k < |vis| then k else |vis|
    ensures forall p | 0 <= p < |picks| :: vis[picks[p]] >= KthBest(vis, k)
    ensures exists p :: 0 <= p < |picks| && vis[picks[p]] == KthBest(vis, k)
    ensures forall i: nat | i < |vis| && vis[i] > KthBest(vis, k) :: i in picks
  {
    var scores := ScoresOf(vis, picks);
    var kth := KthBest(vis, k);
    assert (forall i | 0 <= i < |scores| :: scores[i] >= kth) && exists i :: 0 <= i < |scores| && scores[i] == kth by {
      hide ValidTop, SortDescending, ScoresOf;
      ValidTopScores(vis, picks);
      LastIsLeast(scores, SortDescending(scores));
    }
    KthIsPicked(vis, picks, kth);
    hide ScoresOf, KthBest, ValidTop;
    assert forall p | 0 <= p < |picks| :: scores[p] == vis[picks[p]] by { ScoresAre(vis, picks); }
    var i :| 0 <= i < |scores| && scores[i] == kth;
    assert vis[picks[i]] == kth;
  }

  lemma ScoresAre(vis: seq<real>, picks: seq<nat>)
    requires Within(picks, |vis|)
    ensures forall p | 0 <= p < |picks| :: ScoresOf(vis, picks)[p] == vis[picks[p]]
  {
  }

  lemma AboveKthIsValid(vis: seq<real>, picks: seq<nat>, kth: real)
    requires Within(picks, |vis|) && Distinct(picks)
    requires forall p | 0 <= p < |picks| :: vis[picks[p]] >= kth
    requires forall i: nat | i < |vis| && vis[i] > kth :: i in picks
    ensures ValidTop(vis, picks)
  {
  }

  lemma LastIsLeast(s: seq<real>, d: seq<real>)
    requires Descending(d) && multiset(d) == multiset(s) && d != []
    ensures forall i | 0 <= i < |s| :: s[i] >= d[|d| - 1]
    ensures exists i :: 0 <= i < |s| && s[i] == d[|d| - 1]
  {
    forall i | 0 <= i < |s| ensures s[i] >= d[|d| - 1] {
      assert s[i] in multiset(d);
    }
    assert d[|d| - 1] in multiset(s);
  }

  lemma KthIsPicked(vis: seq<real>, picks: seq<nat>, kth: real)
    requires ValidTop(vis, picks) && exists p :: 0 <= p < |picks| && ScoresOf(vis, picks)[p] == kth
    ensures forall i: nat | i < |vis| && vis[i] > kth :: i in picks
  {
    var p :| 0 <= p < |picks| && ScoresOf(vis, picks)[p] == kth;
    assert vis[picks[p]] == kth;
  }

  // ---------- when passing is enough ----------

  /** The visible entries that reach a score, and those above it. */
  function Reaching(vis: seq<real>, x: real): set<nat> { set i: nat | i < |vis| && vis[i] >= x }
  function Above(vis: seq<real>, x: real): set<nat> { set i: nat | i < |vis| && vis[i] > x }

  /** For this row every complete choice of distinct visible entries that passes is a valid one. */
  ghost predicate PassingIsEnough(s: seq<real>, threshold: nat, k: nat)
    requires k > 0
  {
    forall picks: seq<nat> |
      Within(picks, |Visible(s, threshold)|) && Distinct(picks) && |picks| == Room(k, |Visible(s, threshold)|) ::
      RowOk(s, threshold, picks, k, 0.0) ==> ValidTop(Visible(s, threshold), picks)
  }

  lemma {:induction false} ChosenAll(picks: seq<nat>)
    ensures Chosen(picks) == picks
  {
    if picks != [] { ChosenAll(picks[..|picks| - 1]); }
  }

  /** The indices below `n`. */
  function UpTo(n: nat): (r: set<nat>)
    ensures |r| == n && forall i :: i in r <==> 0 <= i < n
  {
    if n == 0 then {} else UpTo(n - 1) + {n - 1}
  }

  /** Something is left out of a list that is shorter than the scores. */
  lemma SomeLeftOut(n: nat, picks: seq<nat>)
    requires |picks| < n && Distinct(picks)
    ensures exists i: nat :: i < n && i !in picks
  {
    if forall i: nat | i < n :: i in picks {
      ElementsSize(picks);
      SubsetSize(UpTo(n), Elements(picks));
      assert false;
    }
  }

  /** A valid selection of every size exists: the best of what is left out can always be added. */
  lemma {:induction false} ValidTopExists(s: seq<real>, n: nat) returns (picks: seq<nat>)
    requires n <= |s|
    ensures ValidTop(s, picks) && |picks| == n
  {
    if n == 0 {
      picks := [];
    } else {
      var before := ValidTopExists(s, n - 1);
      var out := Listed(before, |s|, false);
      SomeLeftOut(|s|, before);
      var m := FirstMax(ScoresOf(s, out));
      picks := before + [out[m]];
      assert forall j | 0 <= j < |out| :: ScoresOf(s, out)[j] == s[out[j]];
      AddBest(s, before, out, m);
    }
  }

  lemma AddBest(s: seq<real>, before: seq<nat>, out: seq<nat>, m: nat)
    requires ValidTop(s, before) && Within(out, |s|) && m < |out|
    requires forall i: nat :: i in out <==> i < |s| && i !in before
    requires forall j | 0 <= j < |out| :: s[out[j]] <= s[out[m]]
    ensures ValidTop(s, before + [out[m]])
  {
    var picks := before + [out[m]];
    assert out[m] in out;
    assert forall i | i in before :: i in picks;
    forall i: nat, p | i < |s| && i !in picks && 0 <= p < |picks| ensures s[i] <= s[picks[p]] {
      assert i in out;
    }
  }

  lemma {:induction false} ListOut(pool: set<nat>, n: nat) returns (picks: seq<nat>)
    requires n <= |pool|
    ensures |picks| == n && Distinct(picks) && forall i | 0 <= i < n :: picks[i] in pool
  {
    if n == 0 {
      picks := [];
    } else {
      var x :| x in pool;
      var rest := ListOut(pool - {x}, n - 1);
      picks := rest + [x];
    }
  }

  lemma SameSize(a: set<nat>, b: set<nat>)
    requires a <= b && |a| == |b|
    ensures a == b
  {
    if x :| x in b && x !in a {
      SubsetSize(a, b - {x});
      assert false;
    }
  }

  /** At least as many entries reach the k-th best score as there are places. */
  lemma EnoughReach(vis: seq<real>, k: nat)
    requires k > 0 && vis != []
    ensures |Reaching(vis, KthBest(vis, k))| >= Room(k, |vis|)
  {
    hide KthBest;
    var picks := ValidTopExists(vis, Room(k, |vis|));
    ValidReachesKth(vis, picks, k);
    ElementsSize(picks);
    SubsetSize(Elements(picks), Reaching(vis, KthBest(vis, k)));
  }

  /** Passing is enough exactly for the rows where the k-th best score leaves no choice: as many
      entries reach it as there are places, or nothing exceeds it. */
  lemma PassingIsEnoughIff(s: seq<real>, threshold: nat, k: nat)
    requires k > 0 && Visible(s, threshold) != []
    ensures var vis := Visible(s, threshold); var kth := KthBest(vis, k);
            PassingIsEnough(s, threshold, k) <==> |Reaching(vis, kth)| == Room(k, |vis|) || Above(vis, kth) == {}
  {
    hide KthBest, RowOk, Distinct;
    var vis := Visible(s, threshold);
    var kth := KthBest(vis, k);
    EnoughReach(vis, k);
    if |Reaching(vis, kth)| != Room(k, |vis|) && Above(vis, kth) != {} {
      NotEnough(s, threshold, k, kth);
    } else {
      forall picks: seq<nat> | Within(picks, |vis|) && Distinct(picks) && |picks| == Room(k, |vis|) && RowOk(s, threshold, picks, k, 0.0)
        ensures ValidTop(vis, picks)
      {
        PassedIsValid(s, threshold, picks, k, kth);
      }
    }
  }

  lemma NotEnough(s: seq<real>, threshold: nat, k: nat, kth: real)
    requires k > 0 && Visible(s, threshold) != [] && kth == KthBest(Visible(s, threshold), k)
    requires |Reaching(Visible(s, threshold), kth)| > Room(k, |Visible(s, threshold)|)
    requires Above(Visible(s, threshold), kth) != {}
    ensures !PassingIsEnough(s, threshold, k)
  {
    hide KthBest, RowOk;
    var vis := Visible(s, threshold);
    var best :| best in Above(vis, kth);
    var picks := ListOut(Reaching(vis, kth) - {best}, Room(k, |vis|));
    ChosenAll(picks);
    RowOkMeans(s, threshold, picks, k);
    assert best !in picks;
    if ValidTop(vis, picks) {
      ValidReachesKth(vis, picks, k);
      assert false;
    }
  }

  lemma PassedIsValid(s: seq<real>, threshold: nat, picks: seq<nat>, k: nat, kth: real)
    requires k > 0 && Visible(s, threshold) != [] && kth == KthBest(Visible(s, threshold), k)
    requires Within(picks, |Visible(s, threshold)|) && Distinct(picks) && |picks| == Room(k, |Visible(s, threshold)|)
    requires RowOk(s, threshold, picks, k, 0.0)
    requires |Reaching(Visible(s, threshold), kth)| == Room(k, |Visible(s, threshold)|) || Above(Visible(s, threshold), kth) == {}
    ensures ValidTop(Visible(s, threshold), picks)
  {
    hide KthBest, RowOk;
    var vis := Visible(s, threshold);
    ChosenAll(picks);
    RowOkMeans(s, threshold, picks, k);
    if Above(vis, kth) != {} {
      ElementsSize(picks);
      SameSize(Elements(picks), Reaching(vis, kth));
    }
    forall i: nat | i < |vis| && vis[i] > kth ensures i in picks {
      assert i in Above(vis, kth) && i in Reaching(vis, kth);
      assert i in Elements(picks);
    }
    AboveKthIsValid(vis, picks, kth);
  }

  // ---------- what passing means, pick by pick ----------

  lemma {:induction false} PickedReach(s: seq<real>, picks: seq<int>, y: real)
    requires forall i | 0 <= i < |picks| :: picks[i] < |s|
    ensures (forall j | 0 <= j < |PickedScores(s, picks)| :: PickedScores(s, picks)[j] >= y) <==>
            forall i | 0 <= i < |picks| && picks[i] >= 0 :: s[picks[i]] >= y
  {
    if picks != [] {
      var n := |picks| - 1;
      PickedReach(s, picks[..n], y);
      var before, all := PickedScores(s, picks[..n]), PickedScores(s, picks);
      assert all == if picks[n] >= 0 then before + [s[picks[n]]] else before;
      assert picks[n] >= 0 ==> all[|before|] == s[picks[n]];
      assert forall j | 0 <= j < |before| :: all[j] == before[j];
      assert forall i | 0 <= i < n :: picks[..n][i] == picks[i];
    }
  }

  /** A score reaches the k-th best exactly when fewer scores than there are places exceed it. */
  lemma KthCount(vis: seq<real>, k: nat, x: real)
    requires vis != [] && k > 0
    ensures KthBest(vis, k) <= x <==> |Above(vis, x)| < Room(k, |vis|)
  {
    hide KthBest;
    var picks := ValidTopExists(vis, Room(k, |vis|));
    ValidReachesKth(vis, picks, k);
    ElementsSize(picks);
    if KthBest(vis, k) <= x {
      var p :| 0 <= p < |picks| && vis[picks[p]] == KthBest(vis, k);
      assert picks[p] in Elements(picks);
      SubsetSize(Above(vis, x), Elements(picks) - {picks[p]});
    } else {
      SubsetSize(Elements(picks), Above(vis, x));
    }
  }

  /** A row passes exactly when of every pick fewer visible scores than there are places exceed its score
      by more than the tolerance; with nothing visible that is no pick at all. */
  lemma RowOkIff(s: seq<real>, threshold: nat, picks: seq<int>, k: nat, tol: real)
    requires k > 0 && forall i | 0 <= i < |picks| :: picks[i] < |s|
    ensures var n := if threshold < |s| then threshold else |s|;
            RowOk(s, threshold, picks, k, tol) <==>
            forall i | 0 <= i < |picks| && picks[i] >= 0 ::
              |set j: nat | j < n && s[j] > s[picks[i]] + tol| < if k < n then k else n
  {
    hide KthBest, PickedScores, Above;
    var n := if threshold < |s| then threshold else |s|;
    var vis := s[..n];
    if vis != [] {
      PickedReach(s, picks, KthBest(vis, k) - tol);
      forall i | 0 <= i < |picks| && picks[i] >= 0
        ensures s[picks[i]] >= KthBest(vis, k) - tol <==>
                |set j: nat | j < n && s[j] > s[picks[i]] + tol| < if k < n then k else n
      {
        KthCount(vis, k, s[picks[i]] + tol);
        AboveIs(s, n, s[picks[i]] + tol);
      }
    }
  }

  lemma AboveIs(s: seq<real>, n: nat, x: real)
    requires n <= |s|
    ensures Above(s[..n], x) == set j: nat | j < n && s[j] > x
  {
  }

  // ---------- rows that pass and should not ----------

  /** The best entry left out. */
  lemma CheckMissesBest(s: seq<real>, picks: seq<int>)
    requires s == [3.0, 2.0, 2.0] && picks == [1, 2]
    ensures RowOk(s, 3, picks, 2, 0.0) && !FullTop(Visible(s, 3), Chosen(picks), 2)
  {
    TwoChosen(picks);
    assert Visible(s, 3) == s;
    DescendingUnique(s, SortDescending(s));
    RowOkMeans(s, 3, picks, 2);
    assert s[0] > s[Chosen(picks)[0]] && 0 !in Chosen(picks);
  }

  /** An entry that is not visible yet. */
  lemma CheckPassesInvisible(s: seq<real>, picks: seq<int>)
    requires s == [1.0, 0.5, 9.0] && picks == [2]
    ensures RowOk(s, 2, picks, 1, 0.0) && !FullTop(Visible(s, 2), Chosen(picks), 1)
  {
    hide KthBest, PickedScores;
    var vis := Visible(s, 2);
    assert vis == [1.0, 0.5];
    BestOfTwo(vis);
    OnePicked(s, picks);
    OneChosen(picks);
    assert !Within([2], 2) by { assert [2][0] == 2; }
  }

  lemma OnePicked(s: seq<real>, picks: seq<int>)
    requires |picks| == 1 && 0 <= picks[0] < |s|
    ensures PickedScores(s, picks) == [s[picks[0]]]
  {
    assert picks[..0] == [];
  }

  lemma BestOfTwo(vis: seq<real>)
    requires |vis| == 2 && vis[0] >= vis[1]
    ensures KthBest(vis, 1) == vis[0] && KthBest(vis, 2) == vis[1]
  {
    DescendingUnique(vis, SortDescending(vis));
  }

  /** One entry twice. */
  lemma CheckPassesRepeated(s: seq<real>, picks: seq<int>)
    requires s == [1.0, 0.5] && picks == [0, 0]
    ensures RowOk(s, 2, picks, 2, 0.0) && !FullTop(Visible(s, 2), Chosen(picks), 2)
  {
    TwoChosen(picks);
    assert Visible(s, 2) == s;
    BestOfTwo(s);
    hide KthBest;
    RowOkMeans(s, 2, picks, 2);
    assert !Distinct([0, 0]) by { assert [0, 0][0] == [0, 0][1]; }
  }

  /** No picks at all, on any row with something to pick. */
  lemma CheckPassesNothing(s: seq<real>, threshold: nat, picks: seq<int>, k: nat)
    requires k > 0 && Visible(s, threshold) != [] && forall i | 0 <= i < |picks| :: picks[i] < 0
    ensures RowOk(s, threshold, picks, k, 0.0) && !FullTop(Visible(s, threshold), Chosen(picks), k)
  {
    hide KthBest;
    ChosenNothing(picks);
    RowOkMeans(s, threshold, picks, k);
  }

  lemma OneChosen(picks: seq<int>)
    requires |picks| == 1 && picks[0] >= 0
    ensures Chosen(picks) == [picks[0]]
  {
    assert picks[..0] == [];
  }

  lemma TwoChosen(picks: seq<int>)
    requires |picks| == 2 && picks[0] >= 0 && picks[1] >= 0
    ensures Chosen(picks) == [picks[0], picks[1]]
  {
    OneChosen(picks[..1]);
  }
}
