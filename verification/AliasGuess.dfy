/**
 Which known name an uncovered architecture is guessed to be, and which guesses become a pull
 request.
 */
module AliasGuess {
  import opened Basics
  import opened Alias
  import opened AliasChain
  import opened EditDistance

  // ---------- normalised names ----------

  predicate Plain(c: char) { 'a' <= c <= 'z' || '0' <= c <= '9' }

  function NormChar(c: char): string { if Plain(LowerChar(c)) then [LowerChar(c)] else "" }

  function Norm(s: string): string { if s == "" then "" else NormChar(s[0]) + Norm(s[1..]) }

  lemma {:induction false} NormIsPlain(s: string)
    ensures forall k | 0 <= k < |Norm(s)| :: Plain(Norm(s)[k])
  {
    if s != "" { NormIsPlain(s[1..]); }
  }

  lemma {:induction false} NormOfPlain(s: string)
    requires forall k | 0 <= k < |s| :: Plain(s[k])
    ensures Norm(s) == s
  {
    if s != "" { NormOfPlain(s[1..]); }
  }

  lemma {:induction false} NormConcat(a: string, b: string)
    ensures Norm(a + b) == Norm(a) + Norm(b)
  {
    hide NormChar;
    if a == "" {
      assert a + b == b;
    } else {
      assert (a + b)[1..] == a[1..] + b;
      NormConcat(a[1..], b);
    }
  }

  /** Normalising goes character by character: letters without accents lower-cased, digits kept, all else
      dropped. */
  lemma NormKeeps(a: string, c: char, b: string)
    ensures Norm("") == ""
    ensures Norm(a + [c] + b) == Norm(a) +
            (if 'a' <= c <= 'z' || '0' <= c <= '9' then [c]
             else if 'A' <= c <= 'Z' then ['a' + (c - 'A')]
             else if c == '\U{212A}' then "k"
             else if c == '\U{0130}' then "i"
             else "") + Norm(b)
  {
    NormConcat(a + [c], b);
    NormConcat(a, [c]);
    assert [c][1..] == "";
  }

  /** A spelling and its normalised form are guessed alike. */
  lemma NormTwice(s: string)
    ensures Norm(Norm(s)) == Norm(s)
  {
    NormIsPlain(s);
    NormOfPlain(Norm(s));
  }

  // ---------- the three rules ----------

  const MIN_FAMILY_LEN := 4
  const MIN_FUZZY_LEN := 8

  datatype Kind = Exact | Fuzzy

  datatype Guess = Guess(name: string, token: string, kind: Kind)

  function GuessOf(d: Def, kind: Kind): Guess { Guess(d.name, d.token, kind) }

  predicate SameName(known: seq<Def>, k: nat, n: string)
    requires k < |known|
  {
    Norm(known[k].name) == n
  }

  /** A known name that is at most two edits away, both long enough for that to mean a spelling. */
  predicate Close(known: seq<Def>, k: nat, n: string)
    requires k < |known|
  {
    |n| >= 8 && |Norm(known[k].name)| >= 8 && Lev(n, Norm(known[k].name)) <= 2
  }

  /** A known name, long enough to be a family's, that the new one properly begins with. */
  predicate Family(known: seq<Def>, k: nat, n: string)
    requires k < |known|
  {
    |Norm(known[k].name)| >= 4 && Norm(known[k].name) < n
  }

  ghost predicate First(known: seq<Def>, k: nat, n: string) {
    k < |known| && SameName(known, k, n) && forall j | 0 <= j < k :: !SameName(known, j, n)
  }

  /** The least distance wins, the earlier entry among equals. */
  ghost predicate Closest(known: seq<Def>, k: nat, n: string) {
    && k < |known| && Close(known, k, n)
    && forall j | 0 <= j < |known| && j != k && Close(known, j, n) ::
         Lev(n, Norm(known[k].name)) < Lev(n, Norm(known[j].name)) ||
         (Lev(n, Norm(known[k].name)) == Lev(n, Norm(known[j].name)) && k < j)
  }

  /** The order the family rule tries entries in: longer names first, otherwise as in the table. */
  predicate Before(known: seq<Def>, a: nat, b: nat)
    requires a < |known| && b < |known|
  {
    |known[a].name| > |known[b].name| || (|known[a].name| == |known[b].name| && a < b)
  }

  ghost predicate LongestFamily(known: seq<Def>, k: nat, n: string) {
    && k < |known| && Family(known, k, n)
    && forall j | 0 <= j < |known| && j != k && Family(known, j, n) :: Before(known, k, j)
  }

  /** What a guess must be: the rules in order, each choosing one entry. It is about the normalised
      name only. */
  ghost predicate IsGuess(known: seq<Def>, n: string, g: Option<Guess>) {
    if n == "" then g == None
    else if exists k | 0 <= k < |known| :: SameName(known, k, n) then
      exists k: nat :: First(known, k, n) && g == Some(GuessOf(known[k], Exact))
    else if exists k | 0 <= k < |known| :: Close(known, k, n) then
      exists k: nat :: Closest(known, k, n) && g == Some(GuessOf(known[k], Fuzzy))
    else if exists k | 0 <= k < |known| :: Family(known, k, n) then
      exists k: nat :: LongestFamily(known, k, n) && g == Some(GuessOf(known[k], Fuzzy))
    else g == None
  }

  // ---------- the computation ----------

  method FindExact(known: seq<Def>, n: string) returns (g: Option<Guess>)
    ensures g == None ==> forall k | 0 <= k < |known| :: !SameName(known, k, n)
    ensures g.Some? ==> exists k: nat :: First(known, k, n) && g == Some(GuessOf(known[k], Exact))
  {
    hide Norm;
    for k := 0 to |known|
      invariant forall j | 0 <= j < k :: !SameName(known, j, n)
    {
      if Norm(known[k].name) == n {
        assert First(known, k, n);
        return Some(GuessOf(known[k], Exact));
      }
    }
    return None;
  }

  /** The loop over the table; an entry spelled exactly like the new name is passed over. */
  method FindClose(known: seq<Def>, arch: string, n: string) returns (g: Option<Guess>)
    requires n == Norm(arch) && forall k | 0 <= k < |known| :: !SameName(known, k, n)
    ensures g == None ==> forall k | 0 <= k < |known| :: !Close(known, k, n)
    ensures g.Some? ==> exists k: nat :: Closest(known, k, n) && g == Some(GuessOf(known[k], Fuzzy))
  {
    hide Norm, Lev, IsShortest;
    if |n| < MIN_FUZZY_LEN { return None; }
    var best: Option<nat> := None;
    var bestD := 3;
    for k := 0 to |known|
      invariant best == None ==> bestD == 3 && forall j | 0 <= j < k :: !Close(known, j, n)
      invariant best.Some? ==>
          && best.value < k && Close(known, best.value, n) && bestD == Lev(n, Norm(known[best.value].name))
          && forall j | 0 <= j < k && j != best.value && Close(known, j, n) ::
               bestD < Lev(n, Norm(known[j].name)) || (bestD == Lev(n, Norm(known[j].name)) && best.value < j)
    {
      var ns := Norm(known[k].name);
      assert !SameName(known, k, n);
      if |ns| < MIN_FUZZY_LEN || known[k].name == arch { continue; }
      var d := Distance(n, ns);
      if d <= 2 && d < bestD {
        best, bestD := Some(k), d;
      }
    }
    if best == None { return None; }
    assert Closest(known, best.value, n);
    return Some(GuessOf(known[best.value], Fuzzy));
  }

  function Placed(order: seq<nat>, k: nat, at: nat): (r: seq<nat>)
    requires at <= |order|
    ensures |r| == |order| + 1
    ensures forall j | j in order || j == k :: j in r
    ensures forall i | 0 <= i <= |order| :: r[i] == if i < at then order[i] else if i == at then k else order[i - 1]
  {
    var r := order[..at] + [k] + order[at..];
    assert r[at] == k;
    assert forall i | 0 <= i < at :: r[i] == order[i];
    assert forall i | at <= i < |order| :: r[i + 1] == order[i];
    r
  }

  /** A new position goes behind all that are as long and before all that are shorter. */
  lemma PlacedInOrder(known: seq<Def>, order: seq<nat>, k: nat, at: nat)
    requires k < |known| && |order| == k && at <= k
    requires forall i | 0 <= i < k :: order[i] < k
    requires forall i, j | 0 <= i < j < k :: Before(known, order[i], order[j])
    requires forall i | at <= i < k :: |known[order[i]].name| < |known[k].name|
    requires at > 0 ==> |known[order[at - 1]].name| >= |known[k].name|
    ensures forall i | 0 <= i <= k :: Placed(order, k, at)[i] <= k
    ensures forall i, j | 0 <= i < j <= k :: Before(known, Placed(order, k, at)[i], Placed(order, k, at)[j])
  {
    var r := Placed(order, k, at);
    hide Placed;
    forall i | 0 <= i < at ensures |known[order[i]].name| >= |known[k].name| {
      if i < at - 1 { assert Before(known, order[i], order[at - 1]); }
    }
    forall i | 0 <= i <= k ensures r[i] <= k {
      if i < at { assert order[i] < k; } else if i > at { assert order[i - 1] < k; }
    }
    forall i, j | 0 <= i < j <= k ensures Before(known, r[i], r[j]) {
      var a, b := if i < at then i else i - 1, if j < at then j else j - 1;
      if i != at && j != at {
        assert Before(known, order[a], order[b]);
      } else if i == at {
        assert order[b] < k && |known[order[b]].name| < |known[k].name|;
      } else {
        assert order[a] < k;
      }
    }
  }

  /** The table's positions by decreasing length of name; equal lengths keep their order. */
  method ByLength(known: seq<Def>) returns (order: seq<nat>)
    ensures |order| == |known|
    ensures forall i | 0 <= i < |order| :: order[i] < |known|
    ensures forall i, j | 0 <= i < j < |order| :: Before(known, order[i], order[j])
    ensures forall k: nat | k < |known| :: k in order
  {
    order := [];
    for k := 0 to |known|
      invariant |order| == k
      invariant forall i | 0 <= i < k :: order[i] < k
      invariant forall i, j | 0 <= i < j < k :: Before(known, order[i], order[j])
      invariant forall j: nat | j < k :: j in order
    {
      var at := k;
      while at > 0 && |known[order[at - 1]].name| < |known[k].name|
        invariant at <= k
        invariant forall i | at <= i < k :: |known[order[i]].name| < |known[k].name|
      {
        at := at - 1;
      }
      PlacedInOrder(known, order, k, at);
      order := Placed(order, k, at);
    }
  }

  method FindFamily(known: seq<Def>, n: string) returns (g: Option<Guess>)
    ensures g == None ==> forall k | 0 <= k < |known| :: !Family(known, k, n)
    ensures g.Some? ==> exists k: nat :: LongestFamily(known, k, n) && g == Some(GuessOf(known[k], Fuzzy))
  {
    hide Norm;
    var order := ByLength(known);
    for i := 0 to |order|
      invariant forall j | 0 <= j < i :: !Family(known, order[j], n)
    {
      var k := order[i];
      var ns := Norm(known[k].name);
      if |ns| >= MIN_FAMILY_LEN && ns <= n && |n| > |ns| {
        forall j: nat | j < |known| && j != k && Family(known, j, n) ensures Before(known, k, j) {
          assert j in order;
          var at :| 0 <= at < |order| && order[at] == j;
        }
        assert LongestFamily(known, k, n);
        return Some(GuessOf(known[k], Fuzzy));
      }
    }
    forall k: nat | k < |known| ensures !Family(known, k, n) {
      assert k in order;
    }
    return None;
  }

  method GuessEx(known: seq<Def>, arch: string) returns (g: Option<Guess>)
    ensures IsGuess(known, Norm(arch), g)
  {
    hide Norm, Lev, Close, SameName, Family;
    var n := Norm(arch);
    if n == "" { return None; }
    g := FindExact(known, n);
    if g.Some? { return; }
    g := FindClose(known, arch, n);
    if g.Some? { return; }
    g := FindFamily(known, n);
  }

  /** The rules leave no choice, so all spellings of a name get one guess. */
  lemma GuessIsUnique(known: seq<Def>, n: string, g: Option<Guess>, h: Option<Guess>)
    requires IsGuess(known, n, g) && IsGuess(known, n, h)
    ensures g == h
  {
    hide Norm, Lev;
  }

  /** An exact guess answers with the token the chain itself gives the name it stands for. */
  lemma ExactGuessIsChains(lines: seq<string>, known: seq<Def>, arch: string, g: Guess)
    requires Distinct(known) && forall name :: Find(known, name) == FirstDef(lines, Tool, name)
    requires IsGuess(known, Norm(arch), Some(g))
    ensures FirstDef(lines, Tool, g.name) == Some(g.token)
    ensures g.kind == Exact <==> exists k | 0 <= k < |known| :: SameName(known, k, Norm(arch))
  {
    hide Norm, Lev, Find, FirstDef, SameName, Close, Family;
    var k: nat :| k < |known| && known[k].name == g.name && known[k].token == g.token;
    FindEntry(known, k);
  }

  // ---------- what is filed ----------

  /** Everything the filing decision reads besides the guess: switches, the names the self-check
      already mentions, the names on the headings of the review record. */
  datatype Config = Config(skip: bool, dryRun: bool, fuzzyToo: bool, inSelfCheck: string -> bool, reviewed: seq<string>) {
    predicate Documented(arch: string) {
      Norm(arch) != "" && exists k | 0 <= k < |reviewed| :: Norm(reviewed[k]) == Norm(arch)
    }

    /** A guess that neither the self-check nor a review has settled. */
    predicate Open(arch: string, g: Option<Guess>) { g.Some? && !inSelfCheck(arch) && !Documented(arch) }

    predicate Files(arch: string, g: Option<Guess>) {
      Open(arch, g) && (g.value.kind == Exact || fuzzyToo)
    }
  }

  datatype Outcome = NoPr | DryRun | PrOpened

  datatype Filing = Filing(arch: string, token: string, outcome: Outcome)

  function FilingOf(c: Config, opens: string -> bool, arch: string, g: Option<Guess>): seq<Filing> {
    if !c.Open(arch, g) then []
    else if !c.Files(arch, g) then [Filing(arch, g.value.token, NoPr)]
    else if c.dryRun then [Filing(arch, g.value.token, DryRun)]
    else [Filing(arch, g.value.token, if opens(arch) then PrOpened else NoPr)]
  }

  function Filings(c: Config, opens: string -> bool, archs: seq<string>, gs: seq<Option<Guess>>): seq<Filing>
    requires |archs| == |gs|
  {
    if archs == [] then []
    else
      var n := |archs| - 1;
      Filings(c, opens, archs[..n], gs[..n]) + FilingOf(c, opens, archs[n], gs[n])
  }

  /** The names a pull request is attempted for. */
  function Attempts(c: Config, archs: seq<string>, gs: seq<Option<Guess>>): seq<string>
    requires |archs| == |gs|
  {
    if archs == [] then []
    else
      var n := |archs| - 1;
      Attempts(c, archs[..n], gs[..n]) + if c.Files(archs[n], gs[n]) && !c.dryRun then [archs[n]] else []
  }

  lemma NothingFiled(c: Config, opens: string -> bool)
    ensures Filings(c, opens, [], []) == [] && Attempts(c, [], []) == []
  {
  }

  lemma OneFiled(c: Config, opens: string -> bool, archs: seq<string>, gs: seq<Option<Guess>>, arch: string, g: Option<Guess>)
    requires |archs| == |gs|
    ensures Filings(c, opens, archs + [arch], gs + [g]) == Filings(c, opens, archs, gs) + FilingOf(c, opens, arch, g)
    ensures Attempts(c, archs + [arch], gs + [g]) ==
            Attempts(c, archs, gs) + if c.Files(arch, g) && !c.dryRun then [arch] else []
  {
    hide FilingOf, Config.Files;
    assert (archs + [arch])[..|archs|] == archs && (gs + [g])[..|gs|] == gs;
  }

  ghost predicate Guessed(known: seq<Def>, archs: seq<string>, gs: seq<Option<Guess>>) {
    |gs| == |archs| && forall i | 0 <= i < |archs| :: IsGuess(known, Norm(archs[i]), gs[i])
  }

  /** The filing loop; `opens` says what an attempt to open a pull request comes to. */
  method MaybeFile(known: seq<Def>, archs: seq<string>, c: Config, opens: string -> bool)
    returns (filed: seq<Filing>, attempted: seq<string>, ghost gs: seq<Option<Guess>>)
    ensures c.skip ==> filed == [] && attempted == []
    ensures !c.skip ==> Guessed(known, archs, gs) && filed == Filings(c, opens, archs, gs) && attempted == Attempts(c, archs, gs)
  {
    hide IsGuess, Norm, Config.Documented, Filings, Attempts;
    filed, attempted, gs := [], [], [];
    NothingFiled(c, opens);
    if c.skip { return; }
    for i := 0 to |archs|
      invariant Guessed(known, archs[..i], gs)
      invariant filed == Filings(c, opens, archs[..i], gs) && attempted == Attempts(c, archs[..i], gs)
    {
      var arch := archs[i];
      var g := GuessEx(known, arch);
      OneFiled(c, opens, archs[..i], gs, arch, g);
      gs := gs + [g];
      assert archs[..i] + [arch] == archs[..i + 1];
      if g == None || c.inSelfCheck(arch) || c.Documented(arch) { continue; }
      if g.value.kind == Fuzzy && !c.fuzzyToo {
        filed := filed + [Filing(arch, g.value.token, NoPr)];
        continue;
      }
      if c.dryRun {
        filed := filed + [Filing(arch, g.value.token, DryRun)];
        continue;
      }
      attempted := attempted + [arch];
      filed := filed + [Filing(arch, g.value.token, if opens(arch) then PrOpened else NoPr)];
    }
    assert archs[..|archs|] == archs;
  }

  /** What is filed, entry by entry: one for each name with a guess that neither the self-check nor the
      review record has settled, with what became of it. */
  lemma {:induction false} FiledIff(c: Config, opens: string -> bool, archs: seq<string>, gs: seq<Option<Guess>>, f: Filing)
    requires |archs| == |gs|
    ensures |Filings(c, opens, archs, gs)| <= |archs|
    ensures f in Filings(c, opens, archs, gs) <==>
            exists i | 0 <= i < |archs| ::
              && f.arch == archs[i] && gs[i].Some? && f.token == gs[i].value.token && !c.inSelfCheck(f.arch)
              && !(Norm(f.arch) != "" && exists k | 0 <= k < |c.reviewed| :: Norm(c.reviewed[k]) == Norm(f.arch))
              && f.outcome == (if gs[i].value.kind == Fuzzy && !c.fuzzyToo then NoPr
                               else if c.dryRun then DryRun
                               else if opens(f.arch) then PrOpened else NoPr)
  {
    hide Norm;
    if archs != [] {
      var n := |archs| - 1;
      FiledIff(c, opens, archs[..n], gs[..n], f);
      assert forall i | 0 <= i < n :: archs[..n][i] == archs[i] && gs[..n][i] == gs[i];
      assert f in FilingOf(c, opens, archs[n], gs[n]) || f !in FilingOf(c, opens, archs[n], gs[n]);
    }
  }

  /** A pull request is attempted exactly for the names whose guess is exact, or fuzzy with the switch
      on, and that no review and no self-check entry has settled. */
  lemma {:induction false} AttemptedIff(c: Config, archs: seq<string>, gs: seq<Option<Guess>>, arch: string)
    requires |archs| == |gs|
    ensures arch in Attempts(c, archs, gs) <==>
            && !c.dryRun && !c.inSelfCheck(arch)
            && !(Norm(arch) != "" && exists k | 0 <= k < |c.reviewed| :: Norm(c.reviewed[k]) == Norm(arch))
            && exists i | 0 <= i < |archs| :: archs[i] == arch && gs[i].Some? && (gs[i].value.kind == Exact || c.fuzzyToo)
  {
    hide Norm;
    if archs != [] {
      var n := |archs| - 1;
      AttemptedIff(c, archs[..n], gs[..n], arch);
      assert forall i | 0 <= i < n :: archs[..n][i] == archs[i] && gs[..n][i] == gs[i];
    }
  }

  /** A reviewed name is never attempted under any of its spellings. */
  lemma ReviewedNeverAttempted(c: Config, archs: seq<string>, gs: seq<Option<Guess>>, reviewed: string, arch: string)
    requires |archs| == |gs| && reviewed in c.reviewed && Norm(reviewed) == Norm(arch) != ""
    ensures arch !in Attempts(c, archs, gs)
  {
    hide Norm;
    AttemptedIff(c, archs, gs, arch);
  }

  /** Unless the switch is on, an attempt means that some known name is the same but for spelling. */
  lemma AttemptsAreRenames(known: seq<Def>, c: Config, archs: seq<string>, gs: seq<Option<Guess>>, arch: string)
    requires Guessed(known, archs, gs) && !c.fuzzyToo && arch in Attempts(c, archs, gs)
    ensures exists k | 0 <= k < |known| :: SameName(known, k, Norm(arch))
  {
    hide Norm, Lev, Close, Family, SameName, Config.Documented;
    AttemptedIff(c, archs, gs, arch);
    var i :| 0 <= i < |archs| && archs[i] == arch && gs[i].Some? && gs[i].value.kind == Exact;
    assert IsGuess(known, Norm(arch), gs[i]);
  }
}
