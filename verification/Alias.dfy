/**
 The architecture table of the engine header, as text: which lines define an alias, which
 definition a first-match chain answers with, and what the tools that read or edit the text see.
 A header is its sequence of lines, without their line breaks.
 */
module Alias {
  import opened Basics

  datatype Def = Def(name: string, token: string)

  // ---------- the pattern of a definition ----------

  predicate IsSpace(c: char) { c in " \t\r\n" }

  predicate NameChar(c: char) { 'a' <= c <= 'z' || '0' <= c <= '9' || c == '_' || c == '-' }

  predicate TokenChar(c: char) { 'A' <= c <= 'Z' || '0' <= c <= '9' || c == '_' }

  /** The two readers differ only in the characters they accept in a name. */
  datatype Reader = Tool | SelfCheck {
    predicate Accepts(c: char) { if Tool? then NameChar(c) else c != '"' }
  }

  function DropSpace(s: string): string { if s != "" && IsSpace(s[0]) then DropSpace(s[1..]) else s }

  function Expect(s: string, word: string): Option<string> { if word <= s then Some(s[|word|..]) else None }

  /** The length of the longest accepted beginning. */
  function NameSpan(s: string, r: Reader): (n: nat)
    ensures n <= |s|
  {
    if s != "" && r.Accepts(s[0]) then 1 + NameSpan(s[1..], r) else 0
  }

  function TokenSpan(s: string): (n: nat)
    ensures n <= |s|
  {
    if s != "" && TokenChar(s[0]) then 1 + TokenSpan(s[1..]) else 0
  }

  const TEST := "strcmp(s,"
  const PREFIX := "RCPP_ARCH_"

  /** What follows the closing quote of the name: the comparison and the returned token. */
  function MatchReturn(s: string): Option<string> {
    var s3 :- Expect(s, "\")");
    var s4 :- Expect(DropSpace(s3), "==");
    var s5 :- Expect(DropSpace(s4), "0)");
    var s6 :- Expect(DropSpace(s5), "return");
    if s6 == "" || !IsSpace(s6[0]) then None
    else
      var s7 :- Expect(DropSpace(s6), PREFIX);
      var m := TokenSpan(s7);
      if m == 0 then None else Some(PREFIX + s7[..m])
  }

  /** What follows the opening quote: the name and the rest of the definition. */
  function MatchName(s: string, r: Reader): Option<Def> {
    var n := NameSpan(s, r);
    if n == 0 then None
    else
      var token :- MatchReturn(s[n..]);
      Some(Def(s[..n], token))
  }

  /** A definition that begins at the beginning of `s`. */
  function MatchDef(s: string, r: Reader): Option<Def> {
    var s1 :- Expect(s, TEST);
    var s2 :- Expect(DropSpace(s1), "\"");
    MatchName(s2, r)
  }

  /** The leftmost definition in a line. */
  function Search(s: string, r: Reader): Option<Def> {
    if s == "" then None
    else if MatchDef(s, r).Some? then MatchDef(s, r)
    else Search(s[1..], r)
  }

  /** How many tests of the name begin in a line. */
  function Tests(s: string): nat {
    if s == "" then 0 else (if TEST <= s then 1 else 0) + Tests(s[1..])
  }

  predicate IsName(name: string) { name != "" && forall k | 0 <= k < |name| :: NameChar(name[k]) }

  predicate IsToken(token: string) {
    && |token| > |PREFIX|
    && PREFIX <= token
    && forall k | |PREFIX| <= k < |token| :: TokenChar(token[k])
  }

  lemma {:induction false} NoTestNoDef(s: string, r: Reader)
    requires Tests(s) == 0
    ensures Search(s, r) == None
  {
    hide MatchReturn, NameSpan, DropSpace;
    if s != "" { NoTestNoDef(s[1..], r); }
  }

  /** Where the tool's reader ends a name at its closing quote, the other does too; and the other
      way round when the name has only the tool's characters. */
  lemma {:induction false} SpansAgree(s: string)
    requires s != ""
    ensures var n := NameSpan(s, Tool); n < |s| && s[n] == '"' ==> NameSpan(s, SelfCheck) == n
    ensures var n := NameSpan(s, SelfCheck); (forall k | 0 <= k < n :: NameChar(s[k])) ==> NameSpan(s, Tool) == n
  {
    if |s| > 1 && s[0] != '"' {
      SpansAgree(s[1..]);
      var n := NameSpan(s[1..], SelfCheck);
      if forall k | 0 <= k < n + 1 :: NameChar(s[k]) {
        assert forall k | 0 <= k < n :: s[1..][k] == s[k + 1];
      }
    }
  }

  lemma {:induction false} SpanAccepted(s: string, r: Reader)
    ensures forall k | 0 <= k < NameSpan(s, r) :: r.Accepts(s[k])
  {
    if s != "" && r.Accepts(s[0]) {
      SpanAccepted(s[1..], r);
      assert forall k | 1 <= k < NameSpan(s, r) :: s[k] == s[1..][k - 1];
    }
  }

  lemma NamesAgree(s: string)
    ensures MatchName(s, Tool) ==
            match MatchName(s, SelfCheck) case None => None case Some(d) => if IsName(d.name) then Some(d) else None
  {
    hide MatchReturn, NameSpan;
    if s != "" {
      var n, m := NameSpan(s, Tool), NameSpan(s, SelfCheck);
      SpansAgree(s);
      SpanAccepted(s, Tool);
      ReturnStartsWithQuote(s[n..]);
      assert IsName(s[..m]) ==> forall k | 0 <= k < m :: NameChar(s[k]);
      assert n > 0 ==> IsName(s[..n]);
    }
  }

  lemma MatchesAgree(s: string)
    ensures MatchDef(s, Tool) ==
            match MatchDef(s, SelfCheck) case None => None case Some(d) => if IsName(d.name) then Some(d) else None
  {
    hide MatchName, DropSpace, IsName;
    if TEST <= s && "\"" <= DropSpace(s[|TEST|..]) {
      NamesAgree(DropSpace(s[|TEST|..])[1..]);
    }
  }

  lemma ReturnStartsWithQuote(s: string)
    ensures MatchReturn(s).Some? ==> s != "" && s[0] == '"'
  {
  }

  /** What is left of a definition for a reader that cannot spell every name. */
  function Spelled(d: Option<Def>): Option<Def> { if d.Some? && IsName(d.value.name) then d else None }

  /** The tool's leftmost definition is the self-check's whenever the tool can spell its name; only a
      name it cannot spell may hide a later definition from the self-check and not from the tool. */
  lemma {:induction false} SearchesAgree(s: string)
    ensures var tool, check := Search(s, Tool), Search(s, SelfCheck);
            && (tool == Spelled(check) <==> !(tool.Some? && check.Some? && !IsName(check.value.name)))
            && (tool.Some? ==> check.Some?)
  {
    hide MatchDef, IsName;
    if s != "" {
      MatchesAgree(s);
      SearchesAgree(s[1..]);
    }
  }

  /** On a line with one test the two always agree. */
  lemma {:induction false} OneTestAgrees(s: string)
    requires Tests(s) <= 1
    ensures Search(s, Tool) == Spelled(Search(s, SelfCheck))
  {
    hide MatchDef, IsName;
    if s != "" {
      MatchesAgree(s);
      if TEST <= s {
        NoTestNoDef(s[1..], Tool);
        NoTestNoDef(s[1..], SelfCheck);
      } else {
        NoTestNoMatch(s);
        OneTestAgrees(s[1..]);
      }
    }
  }

  lemma NoTestNoMatch(s: string)
    ensures !(TEST <= s) ==> MatchDef(s, Tool) == None && MatchDef(s, SelfCheck) == None
  {
  }

  // ---------- the line the tools write ----------

  /** Only text starting with an s begins a definition. */
  lemma {:induction false} SearchSkips(x: string, y: string, r: Reader)
    requires forall k | 0 <= k < |x| && x[k] == 's' :: k + 1 < |x| && x[k + 1] != 't'
    ensures Search(x + y, r) == Search(y, r)
  {
    hide MatchReturn, NameSpan, DropSpace;
    if x == "" {
      assert x + y == y;
    } else {
      assert (x + y)[1..] == x[1..] + y;
      assert x[0] == 's' ==> (x + y)[1] != 't';
      assert TEST[0] == 's' && TEST[1] == 't';
      SearchSkips(x[1..], y, r);
    }
  }

  lemma {:induction false} NameSpanIs(name: string, rest: string, r: Reader)
    requires forall k | 0 <= k < |name| :: r.Accepts(name[k])
    requires rest != "" && !r.Accepts(rest[0])
    ensures NameSpan(name + rest, r) == |name|
  {
    if name == "" {
      assert name + rest == rest;
    } else {
      assert (name + rest)[1..] == name[1..] + rest;
      NameSpanIs(name[1..], rest, r);
    }
  }

  lemma {:induction false} TokenSpanIs(token: string, rest: string)
    requires forall k | 0 <= k < |token| :: TokenChar(token[k])
    requires rest == "" || !TokenChar(rest[0])
    ensures TokenSpan(token + rest) == |token|
  {
    if token == "" {
      assert token + rest == rest;
    } else {
      assert (token + rest)[1..] == token[1..] + rest;
      TokenSpanIs(token[1..], rest);
    }
  }

  const BEFORE_NAME := "strcmp(s, \""
  const AFTER_NAME := "\") == 0) return "
  const INDENT_IF := "    if ("

  /** `    if (strcmp(s, "name") == 0) return TOKEN;` and whatever follows. */
  function DefLine(name: string, token: string, rest: string): string {
    INDENT_IF + (BEFORE_NAME + (name + (AFTER_NAME + (token + (";" + rest)))))
  }

  lemma ExpectWord(word: string, rest: string)
    ensures Expect(word + rest, word) == Some(rest)
  {
    assert (word + rest)[|word|..] == rest;
  }

  /** One blank before a word is skipped. */
  lemma SpaceThen(word: string, rest: string)
    requires word != "" && !IsSpace(word[0])
    ensures Expect(DropSpace(" " + (word + rest)), word) == Some(rest)
  {
    assert (" " + (word + rest))[1..] == word + rest;
    assert (word + rest)[0] == word[0];
    ExpectWord(word, rest);
  }

  lemma AfterNameSpelled(tail: string)
    ensures AFTER_NAME + tail == "\")" + (" " + ("==" + (" " + ("0)" + (" " + ("return" + (" " + tail)))))))
  {
  }

  lemma ReturnOfLine(token: string, rest: string)
    requires IsToken(token)
    ensures MatchReturn(AFTER_NAME + (token + (";" + rest))) == Some(token)
  {
    hide TokenSpan, Expect, DropSpace;
    var name := token[|PREFIX|..];
    var s7 := name + (";" + rest);
    assert token + (";" + rest) == PREFIX + s7;
    var s6 := " " + (PREFIX + s7);
    AfterNameSpelled(PREFIX + s7);
    ExpectWord("\")", " " + ("==" + (" " + ("0)" + (" " + ("return" + s6))))));
    SpaceThen("==", " " + ("0)" + (" " + ("return" + s6))));
    SpaceThen("0)", " " + ("return" + s6));
    SpaceThen("return", s6);
    SpaceThen(PREFIX, s7);
    TokenSpanIs(name, ";" + rest);
    assert s7[..|name|] == name;
    assert PREFIX + name == token;
  }

  /** A written line defines exactly what it was written for. */
  lemma DefOfLine(name: string, token: string, rest: string, r: Reader)
    requires name != "" && (forall k | 0 <= k < |name| :: r.Accepts(name[k])) && IsToken(token)
    ensures Search(DefLine(name, token, rest), r) == Some(Def(name, token))
  {
    hide MatchReturn, NameSpan;
    var after := AFTER_NAME + (token + (";" + rest));
    var body := BEFORE_NAME + (name + after);
    SearchSkips(INDENT_IF, body, r);
    var s1 := " \"" + (name + after);
    assert body == TEST + s1;
    ExpectWord(TEST, s1);
    assert DropSpace(s1) == "\"" + (name + after) by { assert s1[1..] == "\"" + (name + after); }
    ExpectWord("\"", name + after);
    NameSpanIs(name, after, r);
    assert (name + after)[|name|..] == after && (name + after)[..|name|] == name;
    ReturnOfLine(token, rest);
    assert MatchDef(body, r) == Some(Def(name, token));
  }

  // ---------- the matcher is the pattern ----------

  /** The blanks at the five places where a definition may have them, and what follows its token. */
  datatype Gaps = Gaps(name: string, paren: string, equals: string, zero: string, ret: string, rest: string)

  predicate Blank(w: string) { forall k | 0 <= k < |w| :: w[k] == ' ' || w[k] == '\t' || w[k] == '\r' || w[k] == '\n' }

  /** Blanks are optional but for one behind `return`, and the token goes on as long as it can. */
  predicate Proper(g: Gaps) {
    && Blank(g.name) && Blank(g.paren) && Blank(g.equals) && Blank(g.zero) && Blank(g.ret) && g.ret != ""
    && (g.rest == "" || !('A' <= g.rest[0] <= 'Z' || '0' <= g.rest[0] <= '9' || g.rest[0] == '_'))
  }

  /** A token with something behind its prefix. */
  predicate TokenText(t: string) {
    && |t| > 10 && t[..10] == "RCPP_ARCH_"
    && forall k | 10 <= k < |t| :: 'A' <= t[k] <= 'Z' || '0' <= t[k] <= '9' || t[k] == '_'
  }

  lemma TokensAre(t: string)
    ensures TokenText(t) <==> IsToken(t)
  {
    assert PREFIX <= t <==> |t| >= 10 && t[..10] == "RCPP_ARCH_";
  }

  function ReturnText(token: string, g: Gaps): string {
    "\")" + (g.paren + ("==" + (g.equals + ("0)" + (g.zero + ("return" + (g.ret + (token + g.rest))))))))
  }

  /** `strcmp(s, "name") == 0) return TOKEN`, blanks as given. */
  function DefText(name: string, token: string, g: Gaps): string {
    "strcmp(s," + (g.name + ("\"" + (name + ReturnText(token, g))))
  }

  lemma {:induction false} DropBlank(w: string, x: string)
    requires Blank(w) && (x == "" || !IsSpace(x[0]))
    ensures DropSpace(w + x) == x
  {
    if w == "" {
      assert w + x == x;
    } else {
      assert (w + x)[1..] == w[1..] + x;
      DropBlank(w[1..], x);
    }
  }

  lemma {:induction false} SplitBlank(s: string) returns (w: string)
    ensures Blank(w) && s == w + DropSpace(s) && (s != "" && IsSpace(s[0]) ==> w != "")
  {
    if s != "" && IsSpace(s[0]) {
      var v := SplitBlank(s[1..]);
      w := [s[0]] + v;
    } else {
      w := "";
    }
  }

  lemma Skips(w: string, word: string, rest: string)
    requires Blank(w) && word != "" && !IsSpace(word[0])
    ensures Expect(DropSpace(w + (word + rest)), word) == Some(rest)
  {
    assert (word + rest)[0] == word[0];
    DropBlank(w, word + rest);
    ExpectWord(word, rest);
  }

  lemma ExpectSplits(s: string, word: string)
    requires Expect(s, word).Some?
    ensures s == word + Expect(s, word).value
  {
  }

  lemma ReturnTextMatches(token: string, g: Gaps)
    requires Proper(g) && IsToken(token)
    ensures MatchReturn(ReturnText(token, g)) == Some(token)
  {
    hide TokenSpan, Expect, DropSpace;
    var name := token[|PREFIX|..];
    var s7 := name + g.rest;
    assert token + g.rest == PREFIX + s7;
    var s6 := g.ret + (PREFIX + s7);
    var s5 := g.zero + ("return" + s6);
    var s4 := g.equals + ("0)" + s5);
    ExpectWord("\")", g.paren + ("==" + s4));
    Skips(g.paren, "==", s4);
    Skips(g.equals, "0)", s5);
    Skips(g.zero, "return", s6);
    assert s6[0] == g.ret[0];
    Skips(g.ret, PREFIX, s7);
    TokenSpanIs(name, g.rest);
    assert s7[..|name|] == name && PREFIX + name == token;
  }

  lemma {:induction false} TokenSpanStops(s: string)
    ensures var m := TokenSpan(s); (forall k | 0 <= k < m :: TokenChar(s[k])) && (m == |s| || !TokenChar(s[m]))
  {
    if s != "" && TokenChar(s[0]) {
      TokenSpanStops(s[1..]);
      assert forall k | 1 <= k < TokenSpan(s) :: s[k] == s[1..][k - 1];
    }
  }

  lemma MatchIsReturnText(s: string) returns (g: Gaps)
    requires MatchReturn(s).Some?
    ensures Proper(g) && g.name == "" && IsToken(MatchReturn(s).value) && s == ReturnText(MatchReturn(s).value, g)
  {
    hide TokenSpan, Expect, DropSpace, IsSpace, Blank;
    var s3 := Expect(s, "\")").value;
    var paren := SplitBlank(s3);
    var s4 := Expect(DropSpace(s3), "==").value;
    var equals := SplitBlank(s4);
    var s5 := Expect(DropSpace(s4), "0)").value;
    var zero := SplitBlank(s5);
    var s6 := Expect(DropSpace(s5), "return").value;
    var ret := SplitBlank(s6);
    var s7 := Expect(DropSpace(s6), PREFIX).value;
    var m := TokenSpan(s7);
    ExpectSplits(s, "\")");
    ExpectSplits(DropSpace(s3), "==");
    ExpectSplits(DropSpace(s4), "0)");
    ExpectSplits(DropSpace(s5), "return");
    ExpectSplits(DropSpace(s6), PREFIX);
    TokenSpanStops(s7);
    assert Blank("") by { NothingIsBlank(); }
    g := Gaps("", paren, equals, zero, ret, s7[m..]);
    var token := PREFIX + s7[..m];
    assert forall k | |PREFIX| <= k < |token| :: token[k] == s7[k - |PREFIX|];
    assert token + s7[m..] == PREFIX + s7;
  }

  lemma NothingIsBlank()
    ensures Blank("")
  {
  }

  lemma NameTextMatches(name: string, text: string, r: Reader)
    requires name != "" && (forall k | 0 <= k < |name| :: r.Accepts(name[k])) && MatchReturn(text).Some?
    ensures MatchName(name + text, r) == Some(Def(name, MatchReturn(text).value))
  {
    hide MatchReturn, NameSpan;
    ReturnStartsWithQuote(text);
    NameSpanIs(name, text, r);
    assert (name + text)[|name|..] == text && (name + text)[..|name|] == name;
  }

  /** Every text with blanks in any of the places where the pattern allows them is a definition. */
  lemma DefTextMatches(name: string, token: string, g: Gaps, r: Reader)
    requires Proper(g) && IsToken(token) && name != "" && forall k | 0 <= k < |name| :: r.Accepts(name[k])
    ensures MatchDef(DefText(name, token, g), r) == Some(Def(name, token))
  {
    hide MatchReturn, MatchName, Expect, DropSpace, ReturnText;
    ReturnTextMatches(token, g);
    var text := ReturnText(token, g);
    ExpectWord(TEST, g.name + ("\"" + (name + text)));
    Skips(g.name, "\"", name + text);
    NameTextMatches(name, text, r);
  }

  lemma MatchIsDefText(s: string, r: Reader) returns (g: Gaps)
    requires MatchDef(s, r).Some?
    ensures var d := MatchDef(s, r).value;
            && Proper(g) && IsToken(d.token) && d.name != "" && (forall k | 0 <= k < |d.name| :: r.Accepts(d.name[k]))
            && s == DefText(d.name, d.token, g)
  {
    hide MatchReturn, NameSpan, Expect, DropSpace, Blank, IsToken, TokenChar;
    var s1 := Expect(s, TEST).value;
    var w := SplitBlank(s1);
    var s2 := Expect(DropSpace(s1), "\"").value;
    ExpectSplits(s, TEST);
    ExpectSplits(DropSpace(s1), "\"");
    var n := NameSpan(s2, r);
    SpanAccepted(s2, r);
    var h := MatchIsReturnText(s2[n..]);
    g := h.(name := w);
    assert s2 == s2[..n] + s2[n..];
  }

  /** What a reader takes from a position on is a definition of exactly the pattern's form, for either
      reader's names. */
  lemma MatchIsPattern(s: string, r: Reader, d: Def)
    ensures MatchDef(s, r) == Some(d) <==>
            && TokenText(d.token) && d.name != ""
            && (forall k | 0 <= k < |d.name| :: var c := d.name[k];
                  if r.Tool? then 'a' <= c <= 'z' || '0' <= c <= '9' || c == '_' || c == '-' else c != '"')
            && exists g :: Proper(g) && s == DefText(d.name, d.token, g)
  {
    hide MatchDef, Proper, DefText, IsToken, TokenText;
    TokensAre(d.token);
    if MatchDef(s, r) == Some(d) {
      var g := MatchIsDefText(s, r);
    }
    if IsToken(d.token) && d.name != "" && (forall k | 0 <= k < |d.name| :: r.Accepts(d.name[k])) && exists g :: Proper(g) && s == DefText(d.name, d.token, g) {
      var g :| Proper(g) && s == DefText(d.name, d.token, g);
      DefTextMatches(d.name, d.token, g, r);
    }
  }

  lemma NothingMatches(r: Reader)
    ensures MatchDef("", r) == None
  {
  }

  /** What a line defines is the match at the leftmost position that has one. */
  lemma {:induction false} SearchIsLeftmost(s: string, r: Reader)
    ensures Search(s, r) == None ==> forall k | 0 <= k <= |s| :: MatchDef(s[k..], r) == None
    ensures Search(s, r).Some? ==>
              exists k | 0 <= k <= |s| :: MatchDef(s[k..], r) == Search(s, r) && forall j | 0 <= j < k :: MatchDef(s[j..], r) == None
  {
    hide MatchDef;
    assert s[0..] == s;
    if s == "" {
      NothingMatches(r);
    } else if MatchDef(s, r) == None {
      SearchIsLeftmost(s[1..], r);
      assert forall k | 1 <= k <= |s| :: s[k..] == s[1..][k - 1..];
      if Search(s[1..], r).Some? {
        var k :| 0 <= k <= |s[1..]| && MatchDef(s[1..][k..], r) == Search(s[1..], r) && forall j | 0 <= j < k :: MatchDef(s[1..][j..], r) == None;
        assert MatchDef(s[k + 1..], r) == Search(s, r);
      }
    }
  }
}
