/**
 Coverage accounting of the census: architecture counts are merged by class, the classes that are
 not text decoders taken out, the rest routed to a registry key directly or through a model type,
 and the keys gathered into families.
 */
module CensusCoverage {
  import opened Basics
  import opened Tally
  import CensusSweep

  // ---------- class names ----------

  const STRIP_SUFFIXES: seq<string> :=
    ["forcausallm", "lmheadmodel", "model", "forconditionalgeneration", "forvisiontext2text"]

  function Lower(s: string): string { seq(|s|, k requires 0 <= k < |s| => LowerChar(s[k])) }

  predicate EndsWith(s: string, suffix: string) { |suffix| <= |s| && s[|s| - |suffix|..] == suffix }

  predicate Strips(low: string, suffix: string) { |low| > |suffix| && EndsWith(low, suffix) }

  function StripFirst(low: string, suffixes: seq<string>): string {
    if suffixes == [] then low
    else if Strips(low, suffixes[0]) then low[..|low| - |suffixes[0]|]
    else StripFirst(low, suffixes[1..])
  }

  function StripArch(arch: string): string { StripFirst(Lower(arch), STRIP_SUFFIXES) }

  /** Taking suffixes in order, the first that leaves something is taken off, and only that one. */
  lemma {:induction false} FirstSuffixStripped(low: string, suffixes: seq<string>, i: nat)
    requires i <= |suffixes| && forall j | 0 <= j < i :: !Strips(low, suffixes[j])
    ensures i == |suffixes| ==> StripFirst(low, suffixes) == low
    ensures i < |suffixes| && Strips(low, suffixes[i]) ==>
              StripFirst(low, suffixes) != "" && StripFirst(low, suffixes) + suffixes[i] == low
  {
    if i > 0 { FirstSuffixStripped(low, suffixes[1..], i - 1); }
  }

  lemma StripStops(low: string, suffixes: seq<string>, i: nat)
    requires i <= |suffixes| && forall j | 0 <= j < i :: !Strips(low, suffixes[j])
    requires i < |suffixes| ==> Strips(low, suffixes[i])
    ensures StripFirst(low, suffixes) == if i < |suffixes| then low[..|low| - |suffixes[i]|] else low
  {
    if i > 0 { StripStops(low, suffixes[1..], i - 1); }
  }

  /** An architecture string is lower-cased, then loses the first of these suffixes that leaves something. */
  lemma StripArchIs(arch: string, low: string, i: nat)
    requires |low| == |arch| && forall k | 0 <= k < |arch| ::
               low[k] == if 'A' <= arch[k] <= 'Z' then 'a' + (arch[k] - 'A')
                         else if arch[k] == '\U{212A}' then 'k' else if arch[k] == '\U{0130}' then 'i' else arch[k]
    requires var all := ["forcausallm", "lmheadmodel", "model", "forconditionalgeneration", "forvisiontext2text"];
             && i <= |all|
             && (forall j | 0 <= j < i :: |low| <= |all[j]| || low[|low| - |all[j]|..] != all[j])
             && (i < |all| ==> |low| > |all[i]| && low[|low| - |all[i]|..] == all[i])
    ensures var all := ["forcausallm", "lmheadmodel", "model", "forconditionalgeneration", "forvisiontext2text"];
            StripArch(arch) == if i < |all| then low[..|low| - |all[i]|] else low
  {
    hide StripFirst;
    assert Lower(arch) == low;
    StripStops(low, STRIP_SUFFIXES, i);
  }

  // ---------- grouping counts by a key ----------

  type Key = string -> Option<string>

  function Fiber(ks: set<string>, g: Key, k: string): set<string> { set x | x in ks && g(x) == Some(k) }

  function Within(ks: set<string>, g: Key, targets: set<string>): set<string> {
    set x | x in ks && g(x).Some? && g(x).value in targets
  }

  function Keyed(ks: set<string>, g: Key): set<string> { set x | x in ks && g(x).Some? }

  /** `m` holds, for each key, the sum of the `n`-counts of what `g` sends to it, and no other keys. */
  ghost predicate Grouped(m: Counts, n: Counts, ks: set<string>, g: Key) {
    && (forall x | x in ks && g(x).Some? :: g(x).value in m)
    && (forall k | k in m :: Fiber(ks, g, k) != {})
    && (forall k :: Get(m, k) == SumOver(n, Fiber(ks, g, k)))
  }

  lemma NothingGrouped(n: Counts, g: Key)
    ensures Grouped(map[], n, {}, g)
  {
    forall k ensures Get(map[], k) == SumOver(n, Fiber({}, g, k)) {
      assert Fiber({}, g, k) == {};
    }
  }

  /** One turn of a merging loop. */
  lemma GroupOne(m: Counts, n: Counts, ks: set<string>, g: Key, x: string)
    requires Grouped(m, n, ks, g) && x !in ks
    ensures g(x) == None ==> Grouped(m, n, ks + {x}, g)
    ensures g(x).Some? ==> Grouped(Add(m, g(x).value, Get(n, x)), n, ks + {x}, g)
  {
    hide SumOver;
    var m' := if g(x).Some? then Add(m, g(x).value, Get(n, x)) else m;
    forall k
      ensures Fiber(ks, g, k) <= Fiber(ks + {x}, g, k)
      ensures Get(m', k) == SumOver(n, Fiber(ks + {x}, g, k))
    {
      if g(x) == Some(k) {
        PutIn(n, Fiber(ks, g, k), x);
        assert Fiber(ks + {x}, g, k) == Fiber(ks, g, k) + {x};
      } else {
        assert Fiber(ks + {x}, g, k) == Fiber(ks, g, k);
      }
    }
    if g(x).Some? { assert x in Fiber(ks + {x}, g, g(x).value); }
  }

  /** The sum over any set of keys is the sum of what is sent there. */
  lemma {:induction false} GroupedSum(m: Counts, n: Counts, ks: set<string>, g: Key, targets: set<string>)
    requires Grouped(m, n, ks, g)
    ensures SumOver(m, targets) == SumOver(n, Within(ks, g, targets))
    decreases targets
  {
    if targets == {} {
      assert Within(ks, g, targets) == {};
    } else {
      var k :| k in targets;
      GroupedSum(m, n, ks, g, targets - {k});
      TakeOut(m, targets, k);
      SumSplit(n, Within(ks, g, targets - {k}), Fiber(ks, g, k));
      assert Within(ks, g, targets) == Within(ks, g, targets - {k}) + Fiber(ks, g, k);
    }
  }

  lemma GroupedTotal(m: Counts, n: Counts, ks: set<string>, g: Key)
    requires Grouped(m, n, ks, g)
    ensures Total(m) == SumOver(n, Keyed(ks, g))
  {
    GroupedSum(m, n, ks, g, m.Keys);
    assert Within(ks, g, m.Keys) == Keyed(ks, g);
  }

  function Then(g: Key, h: Key): Key { x => match g(x) case None => None case Some(k) => h(k) }

  /** Grouping in two steps is grouping by the composed key. */
  lemma GroupTwice(p: Counts, m: Counts, n: Counts, ks: set<string>, g: Key, h: Key, k: string)
    requires Grouped(m, n, ks, g) && Grouped(p, m, m.Keys, h)
    ensures Get(p, k) == SumOver(n, Fiber(ks, Then(g, h), k))
  {
    hide SumOver;
    GroupedSum(m, n, ks, g, Fiber(m.Keys, h, k));
    assert Within(ks, g, Fiber(m.Keys, h, k)) == Fiber(ks, Then(g, h), k) by {
      hide Get;
      assert forall x | x in ks && g(x).Some? :: g(x).value in m;
    }
  }

  // ---------- merging by class ----------

  function ClassKey(): Key { arch => if arch == "<none>" then None else Some(StripArch(arch)) }

  method MergeClasses(counts: Counts) returns (stripped: Counts)
    ensures Grouped(stripped, counts, counts.Keys, ClassKey())
  {
    hide Grouped, StripArch;
    stripped := map[];
    var todo := counts.Keys;
    NothingGrouped(counts, ClassKey());
    assert counts.Keys - todo == {};
    while todo != {}
      invariant todo <= counts.Keys
      invariant Grouped(stripped, counts, counts.Keys - todo, ClassKey())
      decreases |todo|
    {
      var arch :| arch in todo;
      GroupOne(stripped, counts, counts.Keys - todo, ClassKey(), arch);
      assert counts.Keys - todo + {arch} == counts.Keys - (todo - {arch});
      todo := todo - {arch};
      if arch == CensusSweep.NONE { continue; }
      var s := StripArch(arch);
      stripped := Add(stripped, s, counts[arch]);
    }
    assert counts.Keys - todo == counts.Keys;
  }

  /** The classes outside the denominator are moved over with their counts. */
  method Exclude(all: Counts, nonText: set<string>) returns (stripped: Counts, excluded: Counts)
    ensures stripped.Keys == all.Keys - nonText && excluded.Keys == all.Keys * nonText
    ensures forall s | s in stripped :: stripped[s] == all[s]
    ensures forall s | s in excluded :: excluded[s] == all[s]
  {
    stripped, excluded := all, map[];
    var todo := all.Keys;
    while todo != {}
      invariant todo <= all.Keys
      invariant stripped.Keys == todo + (all.Keys - nonText) && excluded.Keys == (all.Keys - todo) * nonText
      invariant forall s | s in stripped :: s in all && stripped[s] == all[s]
      invariant forall s | s in excluded :: s in all && excluded[s] == all[s]
      decreases |todo|
    {
      var s :| s in todo;
      todo := todo - {s};
      if s in nonText {
        excluded := excluded[s := stripped[s]];
        stripped := stripped - {s};
      }
    }
  }

  // ---------- routing to the registry ----------

  /** What the accounting is given: the registry's probe, the token of an unmapped name, the model
      type known for a class, and the families' names. */
  datatype Registry = Registry(probe: string -> int, unknown: int, modelType: map<string, string>, names: map<int, string>) {
    predicate Mapped(s: string) { probe(s) != unknown }

    function Family(token: int): string { if token in names then names[token] else "TOKEN" + Decimal(token) }
  }

  function Digits(n: nat): string {
    (if n < 10 then "" else Digits(n / 10)) + ["0123456789"[n % 10]]
  }

  function Decimal(n: int): string { if n < 0 then "-" + Digits(-n) else Digits(n) }

  function Squash(mt: string): string {
    if mt == "" then ""
    else (if mt[0] == '_' || mt[0] == '-' then "" else [mt[0]]) + Squash(mt[1..])
  }

  /** Underscores and dashes go, every other character stays in its place. */
  lemma {:induction false} SquashKeeps(a: string, c: char, b: string)
    ensures Squash("") == ""
    ensures Squash(a + [c] + b) == Squash(a) + (if c == '_' || c == '-' then "" else [c]) + Squash(b)
  {
    if a == "" {
      assert a + [c] + b == [c] + b;
      assert ([c] + b)[1..] == b;
    } else {
      assert (a + [c] + b)[1..] == a[1..] + [c] + b;
      SquashKeeps(a[1..], c, b);
    }
  }

  /** Read digit by digit, as written from the left. */
  function NumberOf(digits: string): int {
    if digits == "" then 0 else 10 * NumberOf(digits[..|digits| - 1]) + (digits[|digits| - 1] as int - '0' as int)
  }

  lemma LastDigit(front: string, d: nat)
    requires d < 10
    ensures '0' <= "0123456789"[d] <= '9'
    ensures NumberOf(front + ["0123456789"[d]]) == 10 * NumberOf(front) + d
  {
    var text := front + ["0123456789"[d]];
    assert text[..|text| - 1] == front;
    assert "0123456789"[d] == '0' + d as char;
  }

  /** A number's digits denote it. */
  lemma {:induction false} DigitsDenote(n: nat)
    ensures NumberOf(Digits(n)) == n && Digits(n) != "" && '0' <= Digits(n)[0] <= '9'
  {
    hide NumberOf;
    assert NumberOf("") == 0 by { NoDigits(); }
    LastDigit(if n < 10 then "" else Digits(n / 10), n % 10);
    if n >= 10 { DigitsDenote(n / 10); }
  }

  lemma NoDigits()
    ensures NumberOf("") == 0
  {
  }

  /** Tokens without a name keep families of their own: their numbers can be read back. */
  lemma UnnamedApart(r: Registry, x: int, y: int)
    requires x !in r.names && y !in r.names
    ensures forall z | z in r.names :: r.Family(z) == r.names[z]
    ensures "TOKEN" <= r.Family(x)
    ensures r.Family(x) == r.Family(y) ==> x == y
  {
    hide Digits;
    var dx, dy := Decimal(x), Decimal(y);
    assert r.Family(x)[5..] == dx && r.Family(y)[5..] == dy;
    DigitsDenote(if x < 0 then -x else x);
    DigitsDenote(if y < 0 then -y else y);
    if dx == dy {
      assert x < 0 <==> dx[0] == '-';
      assert y < 0 <==> dy[0] == '-';
      if x < 0 { assert dx[1..] == Digits(-x) && dy[1..] == Digits(-y); }
    }
  }

  predicate HasEvidence(r: Registry, s: string) { s in r.modelType && r.modelType[s] != CensusSweep.NONE }

  /** Where a class without a token of its own goes. */
  function Fallback(r: Registry, s: string): Option<string> {
    if s !in r.modelType || r.modelType[s] == "<none>" then None
    else
      var mt := r.modelType[s];
      if r.probe(mt) != r.unknown then Some(mt) else if r.probe(Squash(mt)) != r.unknown then Some(Squash(mt)) else None
  }

  function Route(r: Registry, s: string): Option<string> { if r.probe(s) != r.unknown then Some(s) else Fallback(r, s) }

  function Direct(r: Registry): Key { s => if r.probe(s) != r.unknown then Some(s) else None }

  function Indirect(r: Registry): Key { s => if r.Mapped(s) || Fallback(r, s).None? then None else Some(s) }

  function RouteKey(r: Registry): Key { s => Route(r, s) }

  /** The distinct model types that the second probe is asked about, in both spellings. */
  method CollectTypes(r: Registry, classes: set<string>) returns (mts: set<string>)
    ensures forall s | s in classes && !r.Mapped(s) && HasEvidence(r, s) ::
              r.modelType[s] in mts && Squash(r.modelType[s]) in mts
  {
    mts := {};
    var todo := classes;
    while todo != {}
      invariant todo <= classes
      invariant forall s | s in classes - todo && !r.Mapped(s) && HasEvidence(r, s) ::
          r.modelType[s] in mts && Squash(r.modelType[s]) in mts
      decreases |todo|
    {
      var s :| s in todo;
      todo := todo - {s};
      if r.Mapped(s) { continue; }
      if HasEvidence(r, s) { mts := mts + {r.modelType[s], Squash(r.modelType[s])}; }
    }
  }

  /** A type the second probe was not asked about counts as unmapped. */
  function TypeToken(r: Registry, tokens: map<string, int>, mt: string): int {
    if mt in tokens then tokens[mt] else r.unknown
  }

  ghost predicate Merging(merged: Counts, direct: nat, fallback: Counts, stripped: Counts, done: set<string>, r: Registry) {
    && Grouped(merged, stripped, done, RouteKey(r))
    && direct == SumOver(stripped, Keyed(done, Direct(r)))
    && Grouped(fallback, stripped, done, Indirect(r))
  }

  lemma NothingMerged(stripped: Counts, r: Registry)
    ensures Merging(map[], 0, map[], stripped, {}, r)
  {
    NothingGrouped(stripped, RouteKey(r));
    NothingGrouped(stripped, Indirect(r));
    assert Keyed({}, Direct(r)) == {};
  }

  /** One class: where it goes and which of the two totals it raises. */
  lemma MergeOne(merged: Counts, direct: nat, fallback: Counts, stripped: Counts, done: set<string>, r: Registry, s: string)
    requires Merging(merged, direct, fallback, stripped, done, r) && s !in done
    ensures var c := Get(stripped, s);
            if r.Mapped(s) then Merging(Add(merged, s, c), direct + c, fallback, stripped, done + {s}, r)
            else match Fallback(r, s)
                 case None => Merging(merged, direct, fallback, stripped, done + {s}, r)
                 case Some(k) => Merging(Add(merged, k, c), direct, Add(fallback, s, c), stripped, done + {s}, r)
  {
    hide Grouped, SumOver, Fallback, HasEvidence;
    GroupOne(merged, stripped, done, RouteKey(r), s);
    GroupOne(fallback, stripped, done, Indirect(r), s);
    var before := Keyed(done, Direct(r));
    if r.Mapped(s) {
      PutIn(stripped, before, s);
      assert Keyed(done + {s}, Direct(r)) == before + {s};
    } else {
      assert Keyed(done + {s}, Direct(r)) == before;
    }
  }

  /** The merging loop, which only looks types up in the table of the second probe. */
  method MergeRoutes(r: Registry, stripped: Counts) returns (merged: Counts, direct: nat, fallback: Counts)
    ensures Merging(merged, direct, fallback, stripped, stripped.Keys, r)
  {
    hide Merging, Squash;
    var mts := CollectTypes(r, stripped.Keys);
    var tokens := map mt | mt in mts :: r.probe(mt);
    merged, direct, fallback := map[], 0, map[];
    var todo := stripped.Keys;
    NothingMerged(stripped, r);
    assert stripped.Keys - todo == {};
    while todo != {}
      invariant todo <= stripped.Keys
      invariant Merging(merged, direct, fallback, stripped, stripped.Keys - todo, r)
      decreases |todo|
    {
      var s :| s in todo;
      var c := stripped[s];
      MergeOne(merged, direct, fallback, stripped, stripped.Keys - todo, r, s);
      assert stripped.Keys - todo + {s} == stripped.Keys - (todo - {s});
      todo := todo - {s};
      if r.Mapped(s) {
        merged, direct := Add(merged, s, c), direct + c;
        continue;
      }
      if !HasEvidence(r, s) { continue; }
      var mt := r.modelType[s];
      if TypeToken(r, tokens, mt) != r.unknown {
        merged, fallback := Add(merged, mt, c), Add(fallback, s, c);
      } else if TypeToken(r, tokens, Squash(mt)) != r.unknown {
        merged, fallback := Add(merged, Squash(mt), c), Add(fallback, s, c);
      }
    }
    assert stripped.Keys - todo == stripped.Keys;
  }

  // ---------- families ----------

  function FamilyKey(r: Registry): Key { k => if r.Mapped(k) then Some(r.Family(r.probe(k))) else None }

  method GatherFamilies(r: Registry, merged: Counts) returns (families: Counts, covered: nat)
    ensures Grouped(families, merged, merged.Keys, FamilyKey(r))
    ensures covered == SumOver(merged, Keyed(merged.Keys, FamilyKey(r)))
  {
    hide Grouped, SumOver, Registry.Family;
    families, covered := map[], 0;
    var todo := merged.Keys;
    NothingGrouped(merged, FamilyKey(r));
    NothingKeyed(merged, FamilyKey(r));
    assert merged.Keys - todo == {};
    while todo != {}
      invariant todo <= merged.Keys
      invariant Grouped(families, merged, merged.Keys - todo, FamilyKey(r))
      invariant covered == SumOver(merged, Keyed(merged.Keys - todo, FamilyKey(r)))
      decreases |todo|
    {
      var k :| k in todo;
      GroupOne(families, merged, merged.Keys - todo, FamilyKey(r), k);
      KeyedOne(merged, merged.Keys - todo, FamilyKey(r), k);
      assert merged.Keys - todo + {k} == merged.Keys - (todo - {k});
      todo := todo - {k};
      if !r.Mapped(k) { continue; }
      families := Add(families, r.Family(r.probe(k)), merged[k]);
      covered := covered + merged[k];
    }
    assert merged.Keys - todo == merged.Keys;
  }

  lemma NothingKeyed(n: Counts, g: Key)
    ensures SumOver(n, Keyed({}, g)) == 0
  {
    assert Keyed({}, g) == {};
  }

  lemma KeyedOne(n: Counts, ks: set<string>, g: Key, x: string)
    requires x !in ks
    ensures SumOver(n, Keyed(ks + {x}, g)) == SumOver(n, Keyed(ks, g)) + if g(x).Some? then Get(n, x) else 0
  {
    if g(x).Some? {
      PutIn(n, Keyed(ks, g), x);
      assert Keyed(ks + {x}, g) == Keyed(ks, g) + {x};
    } else {
      assert Keyed(ks + {x}, g) == Keyed(ks, g);
    }
  }

  // ---------- the summary ----------

  datatype Summary = Summary(
    withArch: nat, covered: nat, direct: nat, fallback: nat,
    fallbackClasses: Counts, excluded: Counts, families: Counts)

  /** The class of an architecture string inside the denominator. */
  function TextKey(nonText: set<string>): Key {
    arch => if arch == "<none>" || StripArch(arch) in nonText then None else Some(StripArch(arch))
  }

  function OutKey(nonText: set<string>): Key {
    arch => if arch != "<none>" && StripArch(arch) in nonText then Some(StripArch(arch)) else None
  }

  /** The family an architecture string is finally counted under. */
  function CoverKey(r: Registry, nonText: set<string>): Key {
    Then(Then(TextKey(nonText), RouteKey(r)), FamilyKey(r))
  }

  lemma Restricted(all: Counts, counts: Counts, part: Counts, g: Key, g': Key)
    requires Grouped(all, counts, counts.Keys, g)
    requires part.Keys <= all.Keys && forall s | s in part :: part[s] == all[s]
    requires forall x | x in counts :: g'(x) == if g(x).Some? && g(x).value in part then g(x) else None
    ensures Grouped(part, counts, counts.Keys, g')
  {
    hide SumOver;
    forall k
      ensures k in part ==> Fiber(counts.Keys, g', k) == Fiber(counts.Keys, g, k)
      ensures Get(part, k) == SumOver(counts, Fiber(counts.Keys, g', k))
    {
      if k in part {
        assert Fiber(counts.Keys, g', k) == Fiber(counts.Keys, g, k);
      } else {
        assert Fiber(counts.Keys, g', k) == {};
        NothingSummed(counts);
      }
    }
  }

  lemma NothingSummed(n: Counts)
    ensures SumOver(n, {}) == 0
  {
  }

  lemma SumWithin(n: Counts, a: set<string>, b: set<string>)
    requires a <= b
    ensures SumOver(n, a) <= SumOver(n, b)
  {
    SumSplit(n, a, b - a);
    assert a + (b - a) == b;
  }

  /** Every key that a class is routed to is one the registry maps. */
  lemma RoutedAreMapped(merged: Counts, stripped: Counts, ks: set<string>, r: Registry)
    requires Grouped(merged, stripped, ks, RouteKey(r))
    ensures Keyed(merged.Keys, FamilyKey(r)) == merged.Keys
  {
    hide SumOver, HasEvidence, Squash, Registry.Family;
    forall k | k in merged ensures r.Mapped(k) {
      var s :| s in Fiber(ks, RouteKey(r), k);
    }
  }

  /** Direct and fallback together are what is covered, which is the families' total and never more
      than the denominator. */
  lemma CoverageBalances(r: Registry, stripped: Counts, merged: Counts, direct: nat, fallback: Counts, families: Counts)
    requires Merging(merged, direct, fallback, stripped, stripped.Keys, r)
    requires Grouped(families, merged, merged.Keys, FamilyKey(r))
    ensures direct + Total(fallback) == Total(merged) == Total(families) <= Total(stripped)
  {
    hide SumOver, Grouped, HasEvidence, Squash, Fallback;
    var ks := stripped.Keys;
    GroupedTotal(merged, stripped, ks, RouteKey(r));
    GroupedTotal(fallback, stripped, ks, Indirect(r));
    GroupedTotal(families, merged, merged.Keys, FamilyKey(r));
    RoutedAreMapped(merged, stripped, ks, r);
    SumSplit(stripped, Keyed(ks, Direct(r)), Keyed(ks, Indirect(r)));
    assert Keyed(ks, Direct(r)) + Keyed(ks, Indirect(r)) == Keyed(ks, RouteKey(r));
    SumWithin(stripped, Keyed(ks, RouteKey(r)), ks);
  }

  /** The denominator and the excluded classes share out every count but the no-architecture one. */
  lemma DenominatorBalances(counts: Counts, all: Counts, stripped: Counts, excluded: Counts)
    requires Grouped(all, counts, counts.Keys, ClassKey())
    requires stripped.Keys !! excluded.Keys && stripped.Keys + excluded.Keys == all.Keys
    requires forall s | s in stripped :: stripped[s] == all[s]
    requires forall s | s in excluded :: excluded[s] == all[s]
    ensures Total(stripped) + Total(excluded) == SumOver(counts, counts.Keys - {"<none>"})
  {
    hide SumOver, Grouped, Keyed, Fiber, Get;
    GroupedTotal(all, counts, counts.Keys, ClassKey());
    AllButNone(counts.Keys);
    AgreesOn(all, stripped);
    AgreesOn(all, excluded);
    SumSplit(all, stripped.Keys, excluded.Keys);
  }

  lemma AllButNone(ks: set<string>)
    ensures Keyed(ks, ClassKey()) == ks - {"<none>"}
  {
    hide StripArch;
  }

  lemma AgreesOn(all: Counts, part: Counts)
    requires part.Keys <= all.Keys && forall s | s in part :: part[s] == all[s]
    ensures SumOver(all, part.Keys) == Total(part)
  {
    hide SumOver;
    SumAgrees(all, part, part.Keys);
  }

  /** The whole accounting. Each family holds exactly the checkpoints whose architecture strings
      lead to it, and the totals balance. */
  method Account(counts: Counts, nonText: set<string>, r: Registry) returns (s: Summary)
    ensures s.direct + s.fallback == s.covered == Total(s.families) <= s.withArch
    ensures s.fallback == Total(s.fallbackClasses)
    ensures s.withArch + Total(s.excluded) == SumOver(counts, counts.Keys - {"<none>"})
    ensures s.withArch == SumOver(counts, Keyed(counts.Keys, TextKey(nonText)))
    ensures Grouped(s.excluded, counts, counts.Keys, OutKey(nonText))
    ensures forall k :: Get(s.fallbackClasses, k) == SumOver(counts, Fiber(counts.Keys, Then(TextKey(nonText), Indirect(r)), k))
    ensures forall f :: Get(s.families, f) == SumOver(counts, Fiber(counts.Keys, CoverKey(r, nonText), f))
  {
    hide SumOver, Grouped, Fiber, Keyed, StripArch, Then, RouteKey, FamilyKey, Indirect, Direct;
    var all := MergeClasses(counts);
    var stripped, excluded := Exclude(all, nonText);
    assert Grouped(stripped, counts, counts.Keys, TextKey(nonText)) && Grouped(excluded, counts, counts.Keys, OutKey(nonText)) by {
      Parted(counts, all, stripped, excluded, nonText);
    }
    var merged, direct, fallback := MergeRoutes(r, stripped);
    var families, covered := GatherFamilies(r, merged);
    var withArch := SumValues(stripped);
    var indirect := SumValues(fallback);
    s := Summary(withArch, covered, direct, indirect, fallback, excluded, families);
    CoverageBalances(r, stripped, merged, direct, fallback, families);
    RoutedAreMapped(merged, stripped, stripped.Keys, r);
    DenominatorBalances(counts, all, stripped, excluded);
    GroupedTotal(stripped, counts, counts.Keys, TextKey(nonText));
    Composed(counts, stripped, merged, fallback, families, r, TextKey(nonText));
  }

  lemma Parted(counts: Counts, all: Counts, stripped: Counts, excluded: Counts, nonText: set<string>)
    requires Grouped(all, counts, counts.Keys, ClassKey())
    requires stripped.Keys == all.Keys - nonText && excluded.Keys == all.Keys * nonText
    requires forall s | s in stripped :: stripped[s] == all[s]
    requires forall s | s in excluded :: excluded[s] == all[s]
    ensures Grouped(stripped, counts, counts.Keys, TextKey(nonText))
    ensures Grouped(excluded, counts, counts.Keys, OutKey(nonText))
  {
    hide SumOver, StripArch;
    assert forall x | x in counts && x != CensusSweep.NONE :: ClassKey()(x).value in all;
    Restricted(all, counts, stripped, ClassKey(), TextKey(nonText));
    Restricted(all, counts, excluded, ClassKey(), OutKey(nonText));
  }

  lemma Composed(counts: Counts, stripped: Counts, merged: Counts, fallback: Counts, families: Counts, r: Registry, g: Key)
    requires Grouped(stripped, counts, counts.Keys, g)
    requires Grouped(merged, stripped, stripped.Keys, RouteKey(r))
    requires Grouped(fallback, stripped, stripped.Keys, Indirect(r))
    requires Grouped(families, merged, merged.Keys, FamilyKey(r))
    ensures forall k :: Get(fallback, k) == SumOver(counts, Fiber(counts.Keys, Then(g, Indirect(r)), k))
    ensures forall f :: Get(families, f) == SumOver(counts, Fiber(counts.Keys, Then(Then(g, RouteKey(r)), FamilyKey(r)), f))
  {
    hide SumOver, Grouped, Fiber, RouteKey, FamilyKey, Indirect;
    forall k ensures Get(fallback, k) == SumOver(counts, Fiber(counts.Keys, Then(g, Indirect(r)), k)) {
      GroupTwice(fallback, stripped, counts, counts.Keys, g, Indirect(r), k);
    }
    GroupedTwice(merged, stripped, counts, counts.Keys, g, RouteKey(r));
    forall f ensures Get(families, f) == SumOver(counts, Fiber(counts.Keys, Then(Then(g, RouteKey(r)), FamilyKey(r)), f)) {
      GroupTwice(families, merged, counts, counts.Keys, Then(g, RouteKey(r)), FamilyKey(r), f);
    }
  }

  lemma GroupedTwice(p: Counts, m: Counts, n: Counts, ks: set<string>, g: Key, h: Key)
    requires Grouped(m, n, ks, g) && Grouped(p, m, m.Keys, h)
    ensures Grouped(p, n, ks, Then(g, h))
  {
    hide SumOver;
    forall k ensures Get(p, k) == SumOver(n, Fiber(ks, Then(g, h), k)) {
      GroupTwice(p, m, n, ks, g, h, k);
    }
    forall k | k in p ensures Fiber(ks, Then(g, h), k) != {} {
      var y :| y in Fiber(m.Keys, h, k);
      var x :| x in Fiber(ks, g, y);
      assert x in Fiber(ks, Then(g, h), k);
    }
    forall x | x in ks && Then(g, h)(x).Some? ensures Then(g, h)(x).value in p {
      assert g(x).value in m.Keys;
    }
  }

  method SumValues(m: Counts) returns (total: nat)
    ensures total == Total(m)
  {
    total := 0;
    var todo := m.Keys;
    while todo != {}
      invariant todo <= m.Keys
      invariant total + SumOver(m, todo) == Total(m)
      decreases |todo|
    {
      var k :| k in todo;
      TakeOut(m, todo, k);
      todo := todo - {k};
      total := total + m[k];
    }
  }
}
