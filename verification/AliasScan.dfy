/** The scan that keeps the chain at one definition per name. */
module AliasScan {
  import opened Basics
  import opened Alias
  import opened AliasChain

  const FUNCTION := "rcpp_arch_from_string"

  /** The line that opens the chain's function. */
  predicate Opens(line: string) {
    && (exists k | 0 <= k < |line| :: FUNCTION <= line[k..] && "(" <= DropSpace(line[k..][|FUNCTION|..]))
    && '{' in line
  }

  /** Only a brace, with blanks around it. */
  predicate Closes(line: string) {
    exists k | 0 <= k < |line| ::
      line[k] == '}' && forall j | 0 <= j < |line| && j != k :: IsSpace(line[j])
  }

  /** The tokens a name is given, in the order of the lines. */
  function TokensOf(lines: seq<string>, name: string): seq<string> {
    if lines == [] then []
    else
      TokensOf(lines[..|lines| - 1], name) +
      match DefIn(lines[|lines| - 1], SelfCheck, name) case None => [] case Some(t) => [t]
  }

  function Defined(lines: seq<string>): set<string> {
    set k | 0 <= k < |lines| && Search(lines[k], SelfCheck).Some? :: Search(lines[k], SelfCheck).value.name
  }

  predicate AllSame(tokens: seq<string>) { forall j | 0 < j < |tokens| :: tokens[j] == tokens[0] }

  ghost predicate OneToken(tokens: seq<string>) { forall x, y | x in tokens && y in tokens :: x == y }

  /** For each repeated name, whether its definitions only repeat one token. */
  datatype Outcome =
    | NoFunction
    | NoClosingBrace
    | Scanned(first: nat, end: nat, repeated: map<string, bool>, tooFew: bool)
  {
    predicate Clean() { Scanned? && repeated == map[] && !tooFew }
  }

  ghost predicate Collected(defs: map<string, seq<string>>, lines: seq<string>) {
    && defs.Keys == Defined(lines)
    && (forall name :: TokensOf(lines, name) == if name in defs then defs[name] else [])
    && (forall name | name in defs :: defs[name] != [])
  }

  lemma DefinedOne(lines: seq<string>, line: string)
    ensures Defined(lines + [line]) ==
            Defined(lines) + match Search(line, SelfCheck) case None => {} case Some(d) => {d.name}
  {
    hide Search;
    var all := lines + [line];
    forall n | n in Defined(lines) ensures n in Defined(all) {
      var k :| 0 <= k < |lines| && Search(lines[k], SelfCheck).Some? && Search(lines[k], SelfCheck).value.name == n;
      assert all[k] == lines[k];
    }
    assert all[|lines|] == line;
  }

  lemma CollectOne(defs: map<string, seq<string>>, lines: seq<string>, line: string)
    requires Collected(defs, lines)
    ensures match Search(line, SelfCheck)
            case None => Collected(defs, lines + [line])
            case Some(d) =>
              Collected(defs[d.name := (if d.name in defs then defs[d.name] else []) + [d.token]], lines + [line])
  {
    hide Search, Defined, TokensOf;
    DefinedOne(lines, line);
    forall name { TokensOne(lines, line, name); }
  }

  lemma TokensOne(lines: seq<string>, line: string, name: string)
    ensures TokensOf(lines + [line], name) ==
            TokensOf(lines, name) + match DefIn(line, SelfCheck, name) case None => [] case Some(t) => [t]
  {
    hide DefIn;
    assert (lines + [line])[..|lines|] == lines;
  }

  method CollectDefs(lines: seq<string>) returns (defs: map<string, seq<string>>)
    ensures Collected(defs, lines)
  {
    hide Search, Collected;
    defs := map[];
    assert Collected(defs, []) by { NothingCollected(); }
    for i := 0 to |lines|
      invariant Collected(defs, lines[..i])
    {
      CollectOne(defs, lines[..i], lines[i]);
      assert lines[..i] + [lines[i]] == lines[..i + 1];
      var m := Search(lines[i], SelfCheck);
      if m.Some? {
        var d := m.value;
        defs := defs[d.name := (if d.name in defs then defs[d.name] else []) + [d.token]];
      }
    }
    assert lines[..|lines|] == lines;
  }

  lemma NothingCollected()
    ensures Collected(map[], [])
  {
  }

  /** The lines `first..end` of the function: its first opening line up to the next closing one. */
  ghost predicate IsBody(lines: seq<string>, first: nat, end: nat) {
    && first <= end < |lines|
    && Opens(lines[first]) && Closes(lines[end])
    && (forall k | 0 <= k < first :: !Opens(lines[k]))
    && (forall k | first <= k < end :: !Closes(lines[k]))
  }

  /** What the scan of a header comes to. */
  ghost predicate IsScan(lines: seq<string>, minAliases: nat, r: Outcome) {
    && (r == NoFunction <==> forall k | 0 <= k < |lines| :: !Opens(lines[k]))
    && (r == NoClosingBrace ==>
          exists first | 0 <= first < |lines| ::
            Opens(lines[first]) && forall k | first <= k < |lines| :: !Closes(lines[k]))
    && (r.Scanned? ==>
          && IsBody(lines, r.first, r.end)
          && Judged(lines[r.first..r.end], minAliases, r.repeated, r.tooFew))
  }

  method DuplicateScan(lines: seq<string>, minAliases: nat) returns (r: Outcome)
    ensures IsScan(lines, minAliases, r)
  {
    hide Search, Opens, Closes, Collected, Judged;
    var start := 0;
    while start < |lines| && !Opens(lines[start])
      invariant start <= |lines|
      invariant forall k | 0 <= k < start :: !Opens(lines[k])
    {
      start := start + 1;
    }
    if start == |lines| { return NoFunction; }
    var end := start;
    while end < |lines| && !Closes(lines[end])
      invariant start <= end <= |lines|
      invariant forall k | start <= k < end :: !Closes(lines[k])
    {
      end := end + 1;
    }
    if end == |lines| { return NoClosingBrace; }
    var defs := CollectDefs(lines[start..end]);
    var repeated, tooFew := Judge(defs, lines[start..end], minAliases);
    r := Scanned(start, end, repeated, tooFew);
  }

  /** Exactly the names defined more than once are reported, and the floor is on distinct names. */
  ghost predicate Judged(body: seq<string>, minAliases: nat, repeated: map<string, bool>, tooFew: bool) {
    && (forall name :: name in repeated <==> |TokensOf(body, name)| > 1)
    && (forall name | name in repeated :: repeated[name] <==> OneToken(TokensOf(body, name)))
    && (tooFew <==> |Defined(body)| < minAliases)
  }

  lemma AllSameIs(tokens: seq<string>)
    ensures AllSame(tokens) <==> OneToken(tokens)
  {
    if tokens != [] && OneToken(tokens) {
      forall j | 0 < j < |tokens| ensures tokens[j] == tokens[0] { assert tokens[j] in tokens && tokens[0] in tokens; }
    }
  }

  method Judge(defs: map<string, seq<string>>, ghost body: seq<string>, minAliases: nat)
    returns (repeated: map<string, bool>, tooFew: bool)
    requires Collected(defs, body)
    ensures Judged(body, minAliases, repeated, tooFew)
  {
    hide Defined, TokensOf, AllSame, OneToken;
    repeated := map name | name in defs && |defs[name]| > 1 :: AllSame(defs[name]);
    tooFew := |defs.Keys| < minAliases;
    forall name | name in repeated ensures repeated[name] <==> OneToken(TokensOf(body, name)) {
      AllSameIs(TokensOf(body, name));
    }
  }

  /** The two kinds of reader take the two ends of a name's definitions. */
  lemma {:induction false} ReadersTakeEnds(lines: seq<string>, name: string)
    ensures var ts := TokensOf(lines, name);
            && FirstDef(lines, SelfCheck, name) == (if ts == [] then None else Some(ts[0]))
            && LastDef(lines, SelfCheck, name) == (if ts == [] then None else Some(ts[|ts| - 1]))
  {
    hide DefIn;
    if lines != [] {
      var n := |lines| - 1;
      ReadersTakeEnds(lines[..n], name);
      assert lines == lines[..n] + [lines[n]];
      FirstDefConcat(lines[..n], [lines[n]], SelfCheck, name);
      LastDefAppend(lines[..n], lines[n], name);
    }
  }

  lemma {:induction false} LastDefAppend(lines: seq<string>, line: string, name: string)
    ensures LastDef(lines + [line], SelfCheck, name) == Prefer(DefIn(line, SelfCheck, name), LastDef(lines, SelfCheck, name))
  {
    hide DefIn;
    if lines != [] {
      assert (lines + [line])[1..] == lines[1..] + [line];
      LastDefAppend(lines[1..], line, name);
    }
  }

  lemma {:induction false} LastDefConcat(a: seq<string>, b: seq<string>, name: string)
    ensures LastDef(a + b, SelfCheck, name) == Prefer(LastDef(b, SelfCheck, name), LastDef(a, SelfCheck, name))
  {
    hide DefIn;
    if a == [] {
      assert a + b == b;
    } else {
      assert (a + b)[1..] == a[1..] + b;
      LastDefConcat(a[1..], b, name);
    }
  }

  /** A first-match and a last-match reader disagree on a name exactly when its first and last tokens
      differ, so never when it is defined once or always alike. */
  lemma ReadersDisagreeIff(lines: seq<string>, name: string)
    ensures FirstDef(lines, SelfCheck, name) != LastDef(lines, SelfCheck, name) <==>
            var ts := TokensOf(lines, name); |ts| > 1 && ts[0] != ts[|ts| - 1]
    ensures AllSame(TokensOf(lines, name)) ==> FirstDef(lines, SelfCheck, name) == LastDef(lines, SelfCheck, name)
  {
    ReadersTakeEnds(lines, name);
  }

  lemma {:induction false} TokensConcat(a: seq<string>, b: seq<string>, name: string)
    ensures TokensOf(a + b, name) == TokensOf(a, name) + TokensOf(b, name)
  {
    hide DefIn;
    if b == [] {
      assert a + b == a;
    } else {
      var n := |b| - 1;
      TokensConcat(a, b[..n], name);
      assert a + b == (a + b[..n]) + [b[n]];
      TokensOne(a + b[..n], b[n], name);
    }
  }

  /** After a clean scan the readers agree on every name within the function, which defines it at most
      once. Over the whole header they disagree exactly on the names that are given different tokens
      first and last by what stands before, in and behind the function. */
  lemma CleanScanAgrees(lines: seq<string>, minAliases: nat, r: Outcome, name: string)
    requires IsScan(lines, minAliases, r) && r.Clean()
    ensures var front, body, back := lines[..r.first], lines[r.first..r.end], lines[r.end..];
            var ts := TokensOf(front, name) + TokensOf(body, name) + TokensOf(back, name);
            && |TokensOf(body, name)| <= 1
            && FirstDef(body, SelfCheck, name) == LastDef(body, SelfCheck, name)
            && (FirstDef(lines, SelfCheck, name) != LastDef(lines, SelfCheck, name) <==> |ts| > 1 && ts[0] != ts[|ts| - 1])
  {
    hide TokensOf, FirstDef, LastDef, Opens, Closes;
    var front, body, back := lines[..r.first], lines[r.first..r.end], lines[r.end..];
    assert |TokensOf(body, name)| <= 1;
    ReadersDisagreeIff(body, name);
    ReadersDisagreeIff(lines, name);
    TokensConcat(front + body, back, name);
    TokensConcat(front, body, name);
    assert lines == front + body + back;
  }

  // ---------- a clean scan is not enough for a reader of the whole header ----------

  function DefinedTwice(name: string, early: string, late: string): seq<string> {
    [DefLine(name, early, ""), FUNCTION + "(s) {", DefLine(name, late, ""), "}"]
  }

  /** One definition above the function and another within it: the scan is clean, and the readers
      disagree. */
  lemma CleanYetDisagreeing(name: string, early: string, late: string)
    requires Nameable(name) && '{' !in name && IsToken(early) && IsToken(late) && early != late
    ensures var lines, r := DefinedTwice(name, early, late), Scanned(1, 3, map[], false);
            && IsScan(lines, 1, r) && r.Clean()
            && FirstDef(lines, SelfCheck, name) != LastDef(lines, SelfCheck, name)
  {
    hide Opens, Closes, Judged, Search;
    var lines := DefinedTwice(name, early, late);
    LinesOfExample(name, early, late);
    assert IsBody(lines, 1, 3);
    assert lines[1..3] == [lines[1], lines[2]];
    assert Judged([lines[1], lines[2]], 1, map[], false) by { BodyOfExample(name, late); }
    assert Search(lines[3], SelfCheck) == None by { NoTestNoDef("}", SelfCheck); }
    DefOfLine(name, early, "", SelfCheck);
    DefOfLine(name, late, "", SelfCheck);
    assert lines[1..] == [lines[1], lines[2], lines[3]] && lines[2..] == [lines[2], lines[3]] && lines[3..] == [lines[3]];
    assert DefIn(lines[0], SelfCheck, name) == Some(early) && DefIn(lines[2], SelfCheck, name) == Some(late);
    assert LastDef(lines[3..], SelfCheck, name) == None;
    assert LastDef(lines[2..], SelfCheck, name) == Some(late);
  }

  lemma LinesOfExample(name: string, early: string, late: string)
    requires '{' !in name && IsToken(early) && IsToken(late)
    ensures !Opens(DefLine(name, early, "")) && Opens(FUNCTION + "(s) {")
    ensures !Closes(FUNCTION + "(s) {") && !Closes(DefLine(name, late, "")) && Closes("}")
  {
    NoBrace(name, early);
    hide DropSpace, Opens, Closes, DefLine;
    assert !Opens(DefLine(name, early, "")) by { OpensHasBrace(DefLine(name, early, "")); }
    OpeningOpens();
    assert DefLine(name, late, "")[4] == 'i' by { LineStarts(name, late); }
    NotClosing(DefLine(name, late, ""), 4);
    assert (FUNCTION + "(s) {")[0] == 'r';
    NotClosing(FUNCTION + "(s) {", 0);
    BraceCloses();
  }

  lemma OpensHasBrace(line: string)
    ensures Opens(line) ==> '{' in line
  {
  }

  lemma OpeningOpens()
    ensures Opens(FUNCTION + "(s) {")
  {
    hide DropSpace;
    var open := FUNCTION + "(s) {";
    assert open[0..] == open && open[|FUNCTION|..] == "(s) {";
    assert DropSpace("(s) {") == "(s) {" by { StartsSolid("(s) {"); }
    assert open[|FUNCTION| + 4] == '{';
  }

  lemma LineStarts(name: string, token: string)
    ensures |DefLine(name, token, "")| > 4 && DefLine(name, token, "")[4] == 'i'
  {
  }

  /** A line with something else than blanks and its brace does not close anything. */
  lemma NotClosing(line: string, at: nat)
    requires at < |line| && line[at] != '}' && !IsSpace(line[at])
    ensures !Closes(line)
  {
  }

  lemma BraceCloses()
    ensures Closes("}")
  {
    assert "}"[0] == '}';
  }

  lemma StartsSolid(s: string)
    requires s != "" && !IsSpace(s[0])
    ensures DropSpace(s) == s
  {
  }

  lemma NoBrace(name: string, token: string)
    requires '{' !in name && IsToken(token)
    ensures '{' !in DefLine(name, token, "")
  {
    assert '{' !in INDENT_IF && '{' !in BEFORE_NAME && '{' !in AFTER_NAME && '{' !in PREFIX;
    assert '{' !in token by {
      assert forall k | 0 <= k < |token| :: token[k] == if k < |PREFIX| then PREFIX[k] else token[k];
    }
  }

  lemma BodyOfExample(name: string, late: string)
    requires Nameable(name) && IsToken(late)
    ensures Judged([FUNCTION + "(s) {", DefLine(name, late, "")], 1, map[], false)
  {
    hide Search;
    var open, line := FUNCTION + "(s) {", DefLine(name, late, "");
    assert Search(open, SelfCheck) == None by { OpensNothing(); }
    DefOfLine(name, late, "", SelfCheck);
    var body := [open, line];
    forall n ensures |TokensOf(body, n)| <= 1 {
      TokensOne([open], line, n);
      TokensOne([], open, n);
      assert [open] + [line] == body && [] + [open] == [open];
    }
    DefinedOne([], open);
    DefinedOne([open], line);
    assert [] + [open] == [open] && [open] + [line] == body;
    assert Defined([]) == {};
    assert Defined(body) == {name};
  }

  lemma OpensNothing()
    ensures Search(FUNCTION + "(s) {", SelfCheck) == None
  {
    hide Search;
    var front, back := "rcpp_arch_from_", "string(s) {";
    assert 's' !in front by { NoSInFront(); }
    SearchSkips(front, back, SelfCheck);
    assert FUNCTION + "(s) {" == front + back by { FunctionSpelled(); }
    StringOpensNothing();
  }

  lemma NoSInFront()
    ensures 's' !in "rcpp_arch_from_"
  {
  }

  lemma FunctionSpelled()
    ensures FUNCTION + "(s) {" == "rcpp_arch_from_" + "string(s) {"
  {
  }

  lemma StringOpensNothing()
    ensures Search("string(s) {", SelfCheck) == None
  {
    hide MatchName;
    var s := "string(s) {";
    assert !(TEST <= s) by { assert TEST[3] == 'c' && s[3] == 'i'; }
    assert s[1..] == "tring(s) {";
    SearchSkips("tring(s) {", "", SelfCheck);
    assert "tring(s) {" + "" == "tring(s) {";
  }
}
