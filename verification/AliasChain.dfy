/**
 The first-match chain of the engine header and the tools around it: the table the alias tool
 reads from it, the line the tool adds, and the scan for names defined twice.
 */
module AliasChain {
  import opened Basics
  import opened Alias

  // ---------- what the chain answers ----------

  const RETURN_UNKNOWN := "    return RCPP_ARCH_UNKNOWN;"

  predicate IsReturn(line: string) { RETURN_UNKNOWN <= line }

  predicate HasReturn(lines: seq<string>) { exists k | 0 <= k < |lines| :: IsReturn(lines[k]) }

  /** The token a single line gives a name. */
  function DefIn(line: string, r: Reader, name: string): Option<string> {
    match Search(line, r)
    case None => None
    case Some(d) => if d.name == name then Some(d.token) else None
  }

  function Prefer(a: Option<string>, b: Option<string>): Option<string> { if a.Some? then a else b }

  /** The first definition of a name anywhere in the text. */
  function FirstDef(lines: seq<string>, r: Reader, name: string): Option<string> {
    if lines == [] then None else Prefer(DefIn(lines[0], r, name), FirstDef(lines[1..], r, name))
  }

  /** The last definition, which is what a reader that assigns into a table ends up with. */
  function LastDef(lines: seq<string>, r: Reader, name: string): Option<string> {
    if lines == [] then None else Prefer(LastDef(lines[1..], r, name), DefIn(lines[0], r, name))
  }

  /** The engine's answer: definitions are tried in order until the chain returns the unknown token. */
  function Lookup(lines: seq<string>, name: string): Option<string> {
    if lines == [] || IsReturn(lines[0]) then None
    else Prefer(DefIn(lines[0], SelfCheck, name), Lookup(lines[1..], name))
  }

  /** The text from the return on, which the engine never reaches. */
  function Beyond(lines: seq<string>): seq<string> {
    if lines == [] || IsReturn(lines[0]) then lines else Beyond(lines[1..])
  }

  lemma {:induction false} LookupConcat(a: seq<string>, b: seq<string>, name: string)
    ensures Lookup(a + b, name) == if HasReturn(a) then Lookup(a, name) else Prefer(Lookup(a, name), Lookup(b, name))
  {
    hide DefIn, IsReturn;
    if a == [] {
      assert a + b == b;
    } else {
      assert (a + b)[1..] == a[1..] + b;
      LookupConcat(a[1..], b, name);
      assert HasReturn(a) <==> IsReturn(a[0]) || HasReturn(a[1..]) by {
        assert forall k | 1 <= k < |a| :: a[k] == a[1..][k - 1];
      }
    }
  }

  lemma {:induction false} FirstDefConcat(a: seq<string>, b: seq<string>, r: Reader, name: string)
    ensures FirstDef(a + b, r, name) == Prefer(FirstDef(a, r, name), FirstDef(b, r, name))
  {
    hide DefIn;
    if a == [] {
      assert a + b == b;
    } else {
      assert (a + b)[1..] == a[1..] + b;
      FirstDefConcat(a[1..], b, r, name);
    }
  }

  // ---------- the alias tool's table ----------

  /** The token under a name in a table kept in insertion order. */
  function Find(known: seq<Def>, name: string): Option<string> {
    if known == [] then None else if known[0].name == name then Some(known[0].token) else Find(known[1..], name)
  }

  predicate Distinct(known: seq<Def>) {
    forall i, j | 0 <= i < j < |known| :: known[i].name != known[j].name
  }

  lemma {:induction false} FindAppend(known: seq<Def>, d: Def, name: string)
    ensures Find(known + [d], name) == Prefer(Find(known, name), if d.name == name then Some(d.token) else None)
  {
    if known != [] {
      assert (known + [d])[1..] == known[1..] + [d];
      FindAppend(known[1..], d, name);
    }
  }

  lemma {:induction false} FindNothing(known: seq<Def>, name: string)
    ensures Find(known, name) == None <==> forall k | 0 <= k < |known| :: known[k].name != name
  {
    if known != [] {
      FindNothing(known[1..], name);
      assert forall k | 1 <= k < |known| :: known[k] == known[1..][k - 1];
    }
  }

  /** An entry of a table without repeats is what a lookup finds. */
  lemma {:induction false} FindEntry(known: seq<Def>, k: nat)
    requires k < |known| && Distinct(known)
    ensures Find(known, known[k].name) == Some(known[k].token)
  {
    if k > 0 {
      assert Distinct(known[1..]) by { assert forall i | 1 <= i < |known| :: known[i] == known[1..][i - 1]; }
      FindEntry(known[1..], k - 1);
    }
  }

  /** One pass over the lines; a name that is already in the table keeps its token. */
  method KnownMappings(lines: seq<string>) returns (known: seq<Def>)
    ensures Distinct(known)
    ensures forall name :: Find(known, name) == FirstDef(lines, Tool, name)
  {
    hide Search;
    known := [];
    for i := 0 to |lines|
      invariant Distinct(known)
      invariant forall name :: Find(known, name) == FirstDef(lines[..i], Tool, name)
    {
      ghost var before := known;
      var m := Search(lines[i], Tool);
      if m.Some? && Find(known, m.value.name) == None {
        FindNothing(known, m.value.name);
        known := known + [m.value];
      }
      forall name ensures Find(known, name) == FirstDef(lines[..i + 1], Tool, name) {
        assert lines[..i + 1] == lines[..i] + [lines[i]];
        FirstDefConcat(lines[..i], [lines[i]], Tool, name);
        if m.Some? { FindAppend(before, m.value, name); }
      }
    }
    assert lines[..|lines|] == lines;
  }

  /** For a name the tool can spell, its table answers what the chain answers, and where the chain
      has no answer it may only add a definition placed after the chain's return. */
  lemma {:induction false} TableIsChain(lines: seq<string>, name: string)
    requires IsName(name) && forall k | 0 <= k < |lines| :: Search(lines[k], Tool) == Spelled(Search(lines[k], SelfCheck))
    ensures FirstDef(lines, Tool, name) == Prefer(Lookup(lines, name), FirstDef(Beyond(lines), Tool, name))
  {
    hide Search, IsName, IsReturn;
    if lines != [] && !IsReturn(lines[0]) {
      assert Search(lines[0], Tool) == Spelled(Search(lines[0], SelfCheck));
      assert forall k | 0 <= k < |lines[1..]| :: lines[1..][k] == lines[k + 1];
      TableIsChain(lines[1..], name);
    }
  }

  // ---------- adding an alias ----------

  predicate Contains(s: string, part: string) { exists k | 0 <= k <= |s| :: part <= s[k..] }

  function Quoted(name: string): string { "\"" + name + "\"" }

  predicate HeaderHas(lines: seq<string>, name: string) {
    exists k | 0 <= k < |lines| :: Contains(lines[k], Quoted(name))
  }

  /** The last line, but never the first, that returns the unknown token; 0 when there is none. */
  function LastReturn(lines: seq<string>): (k: nat)
    ensures k == 0 || (k < |lines| && IsReturn(lines[k]))
    ensures forall j | 0 < j < |lines| && IsReturn(lines[j]) :: j <= k
  {
    if |lines| <= 1 then 0
    else if IsReturn(lines[|lines| - 1]) then |lines| - 1
    else LastReturn(lines[..|lines| - 1])
  }

  function AliasLine(name: string, token: string): string { DefLine(name, token, "  // census-auto") }

  datatype HeaderError = AnchorNotFound

  class Header {
    var lines: seq<string>

    constructor (text: seq<string>)
      ensures lines == text
    {
      lines := text;
    }

    /** Adds the proposed line before the last return; true if the header changed. */
    method ApplyAlias(name: string, token: string) returns (r: Result<bool, HeaderError>)
      modifies this
      ensures r == match Applied(old(lines), name, token) case Ok(new') => Ok(new' != old(lines)) case Err(e) => Err(e)
      ensures lines == match Applied(old(lines), name, token) case Ok(new') => new' case Err(_) => old(lines)
    {
      if HeaderHas(lines, name) { return Ok(false); }
      var k := LastReturn(lines);
      if k == 0 { return Err(AnchorNotFound); }
      ghost var was := lines;
      lines := lines[..k] + [AliasLine(name, token)] + lines[k..];
      assert |lines| == |was| + 1;
      return Ok(true);
    }
  }

  /** The header after the tool has been asked to add an alias. */
  function Applied(lines: seq<string>, name: string, token: string): Result<seq<string>, HeaderError> {
    if HeaderHas(lines, name) then Ok(lines)
    else
      var k := LastReturn(lines);
      if k == 0 then Err(AnchorNotFound) else Ok(lines[..k] + [AliasLine(name, token)] + lines[k..])
  }

  // ---------- what adding an alias does ----------

  lemma ContainsLater(s: string, part: string, n: nat)
    requires n <= |s| && Contains(s[n..], part)
    ensures Contains(s, part)
  {
    var k :| 0 <= k <= |s[n..]| && part <= s[n..][k..];
    assert s[n..][k..] == s[n + k..];
  }

  lemma {:induction false} DropsSpace(s: string) returns (k: nat)
    ensures k <= |s| && DropSpace(s) == s[k..]
  {
    if s != "" && IsSpace(s[0]) {
      var j := DropsSpace(s[1..]);
      k := j + 1;
    } else {
      k := 0;
    }
  }

  lemma MatchIsQuoted(s: string, r: Reader)
    requires MatchDef(s, r).Some?
    ensures Contains(s, Quoted(MatchDef(s, r).value.name))
  {
    hide MatchReturn, DropSpace, NameSpan, Contains;
    var s1 := s[|TEST|..];
    var k := DropsSpace(s1);
    var quoted := s1[k..];
    var n := NameSpan(quoted[1..], r);
    var name := quoted[1..][..n];
    ReturnStartsWithQuote(quoted[1..][n..]);
    assert Quoted(name) <= quoted[0..];
    assert Contains(quoted, Quoted(name)) by { IsAt(quoted, Quoted(name), 0); }
    ContainsLater(s1, Quoted(name), k);
    ContainsLater(s, Quoted(name), |TEST|);
  }

  lemma IsAt(s: string, part: string, k: nat)
    requires k <= |s| && part <= s[k..]
    ensures Contains(s, part)
  {
  }

  /** A name the chain tests for stands in the text between quotes. */
  lemma {:induction false} DefIsQuoted(s: string, r: Reader)
    requires Search(s, r).Some?
    ensures Contains(s, Quoted(Search(s, r).value.name))
  {
    hide Contains, MatchDef;
    if MatchDef(s, r).Some? {
      MatchIsQuoted(s, r);
    } else {
      DefIsQuoted(s[1..], r);
      ContainsLater(s, Quoted(Search(s, r).value.name), 1);
    }
  }

  lemma {:induction false} UnquotedIsUnknown(lines: seq<string>, name: string)
    requires !HeaderHas(lines, name)
    ensures Lookup(lines, name) == None && FirstDef(lines, Tool, name) == None
  {
    hide Contains, IsReturn, Search;
    if lines != [] {
      assert !Contains(lines[0], Quoted(name));
      if Search(lines[0], SelfCheck).Some? { DefIsQuoted(lines[0], SelfCheck); }
      if Search(lines[0], Tool).Some? { DefIsQuoted(lines[0], Tool); }
      assert !HeaderHas(lines[1..], name) by {
        assert forall k | 0 <= k < |lines[1..]| :: lines[1..][k] == lines[k + 1];
      }
      UnquotedIsUnknown(lines[1..], name);
    }
  }

  predicate Nameable(name: string) { name != "" && '"' !in name }

  /** No reader ever finds a name it could not spell. */
  lemma {:induction false} FoundNames(s: string, r: Reader)
    requires Search(s, r).Some?
    ensures Nameable(Search(s, r).value.name) && (r.Tool? ==> IsName(Search(s, r).value.name))
  {
    hide MatchReturn, DropSpace, NameSpan;
    if MatchDef(s, r).Some? {
      SpanAccepted(DropSpace(s[|TEST|..])[1..], r);
    } else {
      FoundNames(s[1..], r);
    }
  }

  lemma DefInNameable(s: string, r: Reader, name: string)
    ensures DefIn(s, r, name).Some? ==> Nameable(name) && (r.Tool? ==> IsName(name))
  {
    hide Search, IsName;
    if Search(s, r).Some? { FoundNames(s, r); }
  }

  /** The line answers its own name exactly when the name can stand between quotes. */
  lemma LineDefines(name: string, token: string)
    requires IsToken(token)
    ensures DefIn(AliasLine(name, token), SelfCheck, name) == if Nameable(name) then Some(token) else None
    ensures DefIn(AliasLine(name, token), Tool, name) == if IsName(name) then Some(token) else None
    ensures Nameable(name) ==> forall other | other != name :: DefIn(AliasLine(name, token), SelfCheck, other) == None
    ensures IsName(name) ==> forall other | other != name :: DefIn(AliasLine(name, token), Tool, other) == None
  {
    hide Search, IsName;
    DefInNameable(AliasLine(name, token), SelfCheck, name);
    DefInNameable(AliasLine(name, token), Tool, name);
    if Nameable(name) { DefOfLine(name, token, "  // census-auto", SelfCheck); }
    if IsName(name) {
      NamesAreNameable(name);
      DefOfLine(name, token, "  // census-auto", Tool);
    }
  }

  lemma NamesAreNameable(name: string)
    requires IsName(name)
    ensures Nameable(name) && forall k | 0 <= k < |name| :: Tool.Accepts(name[k])
  {
  }

  /** The header changes in exactly one line. Unless an earlier return hides that line, every name
      without an answer now has the line's, which is the token for the name itself exactly when it
      holds no quote, and then nothing for any other name. */
  lemma AliasEffect(lines: seq<string>, name: string, token: string, other: string)
    requires IsToken(token) && !HeaderHas(lines, name) && LastReturn(lines) != 0
    ensures var new' := Applied(lines, name, token).value; var k := LastReturn(lines); var line := AliasLine(name, token);
            && HeaderHas(new', name)
            && Lookup(new', other) ==
               Prefer(Lookup(lines, other), if HasReturn(lines[..k]) then None else DefIn(line, SelfCheck, other))
            && Lookup(lines, name) == None
            && (DefIn(line, SelfCheck, name) == if Nameable(name) then Some(token) else None)
            && (Nameable(name) && other != name ==> DefIn(line, SelfCheck, other) == None)
  {
    hide Contains, Search, IsReturn;
    var k, line := LastReturn(lines), AliasLine(name, token);
    var new' := lines[..k] + [line] + lines[k..];
    UnquotedIsUnknown(lines, name);
    assert new'[k] == line;
    LineIsQuoted(name, token);
    NotReturn(name, token);
    LineDefines(name, token);
    assert lines == lines[..k] + lines[k..];
    assert new' == lines[..k] + ([line] + lines[k..]);
    assert ([line] + lines[k..])[1..] == lines[k..];
    LookupConcat(lines[..k], lines[k..], other);
    LookupConcat(lines[..k], [line] + lines[k..], other);
    assert IsReturn(lines[k..][0]);
  }

  lemma LineIsQuoted(name: string, token: string)
    ensures Contains(AliasLine(name, token), Quoted(name))
  {
    var line := AliasLine(name, token);
    var at := |INDENT_IF| + |BEFORE_NAME| - 1;
    assert line[at..] == Quoted(name) + line[at + |name| + 2..];
    IsAt(line, Quoted(name), at);
  }

  /** The line as a text. */
  lemma LineText(name: string, token: string)
    ensures AliasLine(name, token) == "    if (strcmp(s, \"" + name + "\") == 0) return " + token + ";  // census-auto"
  {
  }

  lemma NotReturn(name: string, token: string)
    ensures !IsReturn(AliasLine(name, token))
  {
    assert AliasLine(name, token)[4] == 'i' && RETURN_UNKNOWN[4] == 'r';
  }

  /** Asking again changes nothing. */
  lemma ApplyTwice(lines: seq<string>, name: string, token: string, again: string)
    requires Applied(lines, name, token).Ok?
    ensures Applied(Applied(lines, name, token).value, name, again) == Applied(lines, name, token)
  {
    hide Contains, IsReturn;
    if !HeaderHas(lines, name) {
      var k := LastReturn(lines);
      LineIsQuoted(name, token);
      assert (lines[..k] + [AliasLine(name, token)] + lines[k..])[k] == AliasLine(name, token);
    }
  }

  /** The tool's own table takes what the line defines after the definitions above it and before those
      below, whatever the engine makes of it: the name itself exactly when the tool can spell it, and
      then nothing else. */
  lemma TableAfterAlias(lines: seq<string>, name: string, token: string, other: string)
    requires IsToken(token) && !HeaderHas(lines, name) && LastReturn(lines) != 0
    ensures var new' := Applied(lines, name, token).value; var k := LastReturn(lines); var line := AliasLine(name, token);
            && FirstDef(lines, Tool, other) == Prefer(FirstDef(lines[..k], Tool, other), FirstDef(lines[k..], Tool, other))
            && FirstDef(new', Tool, other) ==
               Prefer(FirstDef(lines[..k], Tool, other), Prefer(DefIn(line, Tool, other), FirstDef(lines[k..], Tool, other)))
            && FirstDef(lines, Tool, name) == None
            && (DefIn(line, Tool, name) == if IsName(name) then Some(token) else None)
            && (IsName(name) && other != name ==> DefIn(line, Tool, other) == None)
  {
    hide Contains, Search, IsReturn, IsName;
    var k, line := LastReturn(lines), AliasLine(name, token);
    UnquotedIsUnknown(lines, name);
    LineDefines(name, token);
    assert lines == lines[..k] + lines[k..];
    assert lines[..k] + [line] + lines[k..] == lines[..k] + ([line] + lines[k..]);
    assert ([line] + lines[k..])[1..] == lines[k..];
    FirstDefConcat(lines[..k], lines[k..], Tool, other);
    FirstDefConcat(lines[..k], [line] + lines[k..], Tool, other);
  }
}
