/**
 The tail sweep's rewriting of the engine header: the block between its two marks is cut out and
 a new one put behind the anchor line. Positions are a line and a column, since no part searched
 for holds a line break.
 */
module TailSweep {
  import opened Basics
  import opened Alias
  import opened AliasChain

  const MARK_TEXT := " ── 2026-08-15 census tail sweep"
  const MARK := "//" + MARK_TEXT
  const END := "// ── end census tail sweep ──"
  const ANCHOR_TEST := "    if (strcmp(s, \"lfm2\")"
  const ANCHOR_RETURN := "      == 0) return RCPP_ARCH_LFM2;"
  const ANCHOR := ANCHOR_TEST + ANCHOR_RETURN
  const INDENT := "    "

  // ---------- finding text ----------

  ghost predicate FirstIn(s: string, part: string, k: nat) {
    k <= |s| && part <= s[k..] && forall j | 0 <= j < k :: !(part <= s[j..])
  }

  lemma Shifted(s: string, part: string)
    requires s != "" && !(part <= s)
    ensures !Contains(s[1..], part) ==> !Contains(s, part)
    ensures forall j: nat | FirstIn(s[1..], part, j) :: FirstIn(s, part, j + 1)
  {
    assert s[0..] == s;
    assert forall j | 1 <= j <= |s| :: s[j..] == s[1..][j - 1..];
    if Contains(s, part) {
      var k :| 0 <= k <= |s| && part <= s[k..];
      IsAt(s[1..], part, k - 1);
    }
  }

  function IndexIn(s: string, part: string): (k: Option<nat>)
    ensures k == None ==> !Contains(s, part)
    ensures k.Some? ==> FirstIn(s, part, k.value)
  {
    if part <= s then assert s[0..] == s; Some(0)
    else if s == "" then None
    else
      (Shifted(s, part);
       hide Contains, FirstIn;
       match IndexIn(s[1..], part)
       case None => None
       case Some(j) => Some(j + 1))
  }

  datatype Pos = Pos(line: nat, col: nat)

  ghost predicate IsFirst(lines: seq<string>, part: string, p: Pos) {
    && p.line < |lines|
    && FirstIn(lines[p.line], part, p.col)
    && forall k | 0 <= k < p.line :: !Contains(lines[k], part)
  }

  function Locate(lines: seq<string>, part: string): (p: Option<Pos>)
    ensures p == None ==> forall k | 0 <= k < |lines| :: !Contains(lines[k], part)
    ensures p.Some? ==> IsFirst(lines, part, p.value)
  {
    hide Contains, FirstIn;
    if lines == [] then None
    else
      match IndexIn(lines[0], part)
      case Some(c) => Some(Pos(0, c))
      case None =>
        var rest := Locate(lines[1..], part);
        assert forall k | 1 <= k < |lines| :: lines[k] == lines[1..][k - 1];
        match rest
        case None => None
        case Some(p) => Some(Pos(p.line + 1, p.col))
  }

  lemma LocateIs(lines: seq<string>, part: string, p: Pos)
    requires IsFirst(lines, part, p)
    ensures Locate(lines, part) == Some(p)
  {
    IsAt(lines[p.line], part, p.col);
    var q := Locate(lines, part).value;
    IsAt(lines[q.line], part, q.col);
    assert q.line == p.line;
  }

  // ---------- the rewriting ----------

  datatype PatchError = NoEndMark | AnchorCount

  /** The text without what lies from the first mark to the end of the first end mark. */
  function Removed(lines: seq<string>): Result<seq<string>, PatchError> {
    match Locate(lines, MARK)
    case None => Ok(lines)
    case Some(a) =>
      match Locate(lines, END)
      case None => Err(NoEndMark)
      case Some(b) =>
        Ok(lines[..a.line] + [lines[a.line][..a.col] + lines[b.line][b.col + |END|..]] + lines[b.line + 1..])
  }

  /** The text around the anchor: everything up to its last character, the rest of its line, the
      lines below. */
  datatype Split = Split(head: seq<string>, post: string, below: seq<string>)

  /** None unless the anchor occurs exactly once. */
  function SplitAtAnchor(lines: seq<string>): Option<Split> {
    match Locate(lines, ANCHOR)
    case None => None
    case Some(p) =>
      var cut := p.col + |ANCHOR|;
      var line := lines[p.line];
      var below := lines[p.line + 1..];
      if Contains(line[cut..], ANCHOR) || Locate(below, ANCHOR).Some? then None
      else Some(Split(lines[..p.line] + [line[..cut]], line[cut..], below))
  }

  function Joined(t: Split, block: seq<string>): seq<string>
    requires block != []
  {
    var n := |block| - 1;
    t.head + block[..n] + [block[n] + t.post] + t.below
  }

  function Patched(lines: seq<string>, block: seq<string>): Result<seq<string>, PatchError>
    requires block != []
  {
    match Removed(lines)
    case Err(e) => Err(e)
    case Ok(rest) =>
      match SplitAtAnchor(rest)
      case None => Err(AnchorCount)
      case Some(t) => Ok(Joined(t, block))
  }

  method Patch(h: Header, block: seq<string>) returns (failure: Option<PatchError>)
    requires block != []
    modifies h
    ensures failure == match Patched(old(h.lines), block) case Ok(_) => None case Err(e) => Some(e)
    ensures h.lines == match Patched(old(h.lines), block) case Ok(new') => new' case Err(_) => old(h.lines)
  {
    hide Locate, Contains;
    var src := h.lines;
    var a := Locate(src, MARK);
    if a.Some? {
      var b := Locate(src, END);
      if b == None { return Some(NoEndMark); }
      var (from, till) := (a.value, b.value);
      src := src[..from.line] + [src[from.line][..from.col] + src[till.line][till.col + |END|..]] + src[till.line + 1..];
    }
    var t := SplitAtAnchor(src);
    if t == None { return Some(AnchorCount); }
    h.lines := Joined(t.value, block);
    return None;
  }

  // ---------- when it succeeds, and with what ----------

  /** A part stands in the text at a position. */
  predicate Stands(lines: seq<string>, part: string, p: Pos) {
    p.line < |lines| && p.col <= |lines[p.line]| && part <= lines[p.line][p.col..]
  }

  lemma StandsContains(lines: seq<string>, part: string, p: Pos)
    requires Stands(lines, part, p)
    ensures Contains(lines[p.line], part)
  {
  }

  lemma FirstStands(lines: seq<string>, part: string, p: Pos)
    requires IsFirst(lines, part, p)
    ensures Stands(lines, part, p) && p.col + |part| <= |lines[p.line]|
    ensures forall q | Stands(lines, part, q) :: q.line > p.line || (q.line == p.line && q.col >= p.col)
  {
    forall q | Stands(lines, part, q) ensures q.line > p.line || (q.line == p.line && q.col >= p.col) {
      StandsContains(lines, part, q);
    }
  }

  lemma SomeStands(lines: seq<string>, part: string)
    requires Locate(lines, part) == None
    ensures forall q :: !Stands(lines, part, q)
  {
    hide Contains;
    forall q ensures !Stands(lines, part, q) {
      if Stands(lines, part, q) { StandsContains(lines, part, q); }
    }
  }

  /** A text with no start mark is left as it is, one with a start mark and no end mark refused, and any
      other loses what lies from the first start mark to the end of the first end mark. */
  lemma RemovedIs(lines: seq<string>)
    ensures (forall q :: !Stands(lines, MARK, q)) ==> Removed(lines) == Ok(lines)
    ensures Removed(lines) == Err(NoEndMark) <==> (exists q :: Stands(lines, MARK, q)) && forall q :: !Stands(lines, END, q)
    ensures (exists q :: Stands(lines, MARK, q)) && (exists q :: Stands(lines, END, q)) ==>
              exists a, b :: IsFirst(lines, MARK, a) && IsFirst(lines, END, b) && b.col + |END| <= |lines[b.line]| &&
                Removed(lines) == Ok(lines[..a.line] + [lines[a.line][..a.col] + lines[b.line][b.col + |END|..]] + lines[b.line + 1..])
  {
    hide Contains, Stands, IsFirst, Locate;
    LocateFinds(lines, MARK);
    LocateFinds(lines, END);
  }

  lemma LocateFinds(lines: seq<string>, part: string)
    ensures Locate(lines, part) == None <==> forall q :: !Stands(lines, part, q)
    ensures Locate(lines, part).Some? ==>
              var p := Locate(lines, part).value;
              && IsFirst(lines, part, p) && Stands(lines, part, p) && p.line < |lines| && p.col + |part| <= |lines[p.line]|
  {
    hide Contains, Stands, IsFirst;
    var p := Locate(lines, part);
    if p == None { SomeStands(lines, part); } else { FirstStands(lines, part, p.value); }
  }

  /** Two anchors never overlap: its last character occurs in it only once. */
  lemma AnchorsApart(line: string, c: nat, d: nat)
    requires c < d <= |line| && ANCHOR <= line[c..] && ANCHOR <= line[d..]
    ensures d >= c + |ANCHOR|
  {
    AnchorEnd();
    LastOnce(line, ANCHOR, c, d);
  }

  lemma LastOnce(line: string, part: string, c: nat, d: nat)
    requires c < d <= |line| && part <= line[c..] && part <= line[d..] && part != ""
    requires forall k | 0 <= k < |part| - 1 :: part[k] != part[|part| - 1]
    ensures d >= c + |part|
  {
    var n := |part|;
    assert line[c..][n - 1] == part[n - 1];
  }

  lemma AnchorEnd()
    ensures var n := |ANCHOR|; n > 0 && ANCHOR[n - 1] == ';' && forall k | 0 <= k < n - 1 :: ANCHOR[k] != ';'
  {
    var n := |ANCHOR_TEST|;
    assert forall k | 0 <= k < n :: ANCHOR[k] == ANCHOR_TEST[k] != ';';
    assert forall k | 0 <= k < |ANCHOR_RETURN| - 1 :: ANCHOR_RETURN[k] != ';';
    assert forall k | n <= k < |ANCHOR| :: ANCHOR[k] == ANCHOR_RETURN[k - n];
  }

  /** The block goes in exactly when the anchor stands in the text once, and behind it: the two sides
      together are the text. */
  lemma AnchorIff(lines: seq<string>)
    ensures SplitAtAnchor(lines).Some? <==> exists p :: Stands(lines, ANCHOR, p) && forall q | Stands(lines, ANCHOR, q) :: q == p
    ensures SplitAtAnchor(lines).Some? ==>
              var t := SplitAtAnchor(lines).value; var n := |t.head| - 1;
              && n >= 0 && lines == t.head[..n] + [t.head[n] + t.post] + t.below
              && |t.head[n]| >= |ANCHOR| && Stands(lines, ANCHOR, Pos(n, |t.head[n]| - |ANCHOR|))
  {
    hide Contains, Stands, IsFirst;
    var f := Locate(lines, ANCHOR);
    if f == None {
      SomeStands(lines, ANCHOR);
    } else {
      var p := f.value;
      FirstStands(lines, ANCHOR, p);
      AnchorEnd();
      AnchorAlone(lines, p);
      assert p.line < |lines| && p.col + |ANCHOR| <= |lines[p.line]|;
      assert lines == lines[..p.line] + [lines[p.line]] + lines[p.line + 1..];
      assert lines[p.line][..p.col + |ANCHOR|] + lines[p.line][p.col + |ANCHOR|..] == lines[p.line];
    }
  }

  lemma AnchorAlone(lines: seq<string>, p: Pos)
    requires IsFirst(lines, ANCHOR, p) && p.col + |ANCHOR| <= |lines[p.line]|
    ensures Contains(lines[p.line][p.col + |ANCHOR|..], ANCHOR) || Locate(lines[p.line + 1..], ANCHOR).Some? <==>
            exists q :: Stands(lines, ANCHOR, q) && q != p
  {
    hide Contains, Stands;
    AnchorEnd();
    assert ANCHOR <= lines[p.line][p.col..];
    forall d | p.col < d <= |lines[p.line]| && ANCHOR <= lines[p.line][d..] ensures d >= p.col + |ANCHOR| {
      AnchorsApart(lines[p.line], p.col, d);
    }
    OnlyOne(lines, ANCHOR, p);
  }

  /** The two searches behind the first occurrence of a part find any other one. */
  lemma OnlyOne(lines: seq<string>, part: string, p: Pos)
    requires p.line < |lines| && part != "" && IsFirst(lines, part, p) && p.col + |part| <= |lines[p.line]|
    requires forall d | p.col < d <= |lines[p.line]| && part <= lines[p.line][d..] :: d >= p.col + |part|
    ensures Contains(lines[p.line][p.col + |part|..], part) || Locate(lines[p.line + 1..], part).Some? <==>
            exists q :: Stands(lines, part, q) && q != p
  {
    hide Contains, IsFirst, Stands, Locate;
    if Contains(lines[p.line][p.col + |part|..], part) { LaterInLine(lines, part, p.line, p.col + |part|); }
    if Locate(lines[p.line + 1..], part).Some? { LaterLine(lines, part, p.line); }
    if q :| Stands(lines, part, q) && q != p {
      BehindFirst(lines, part, p, q);
      FoundLater(lines, part, p, q);
    }
  }

  lemma BehindFirst(lines: seq<string>, part: string, p: Pos, q: Pos)
    requires IsFirst(lines, part, p) && p.col + |part| <= |lines[p.line]| && Stands(lines, part, q) && q != p
    requires forall d | p.col < d <= |lines[p.line]| && part <= lines[p.line][d..] :: d >= p.col + |part|
    ensures q.line > p.line || (q.line == p.line && q.col >= p.col + |part|)
  {
    hide Contains, Stands;
    FirstStands(lines, part, p);
    StandsThere(lines, part, q);
  }

  lemma StandsThere(lines: seq<string>, part: string, q: Pos)
    requires Stands(lines, part, q)
    ensures q.line < |lines| && q.col <= |lines[q.line]| && part <= lines[q.line][q.col..]
  {
  }

  lemma LaterInLine(lines: seq<string>, part: string, line: nat, cut: nat)
    requires line < |lines| && cut <= |lines[line]| && Contains(lines[line][cut..], part)
    ensures exists q :: Stands(lines, part, q) && q.line == line && q.col >= cut
  {
    var k := PlaceIn(lines[line][cut..], part);
    assert lines[line][cut..][k..] == lines[line][cut + k..];
    assert Stands(lines, part, Pos(line, cut + k));
  }

  lemma LaterLine(lines: seq<string>, part: string, line: nat)
    requires line < |lines| && Locate(lines[line + 1..], part).Some?
    ensures exists q :: Stands(lines, part, q) && q.line > line
  {
    hide Contains, IsFirst;
    var q := Locate(lines[line + 1..], part).value;
    FirstStands(lines[line + 1..], part, q);
    assert Stands(lines, part, Pos(line + 1 + q.line, q.col));
  }

  lemma FoundLater(lines: seq<string>, part: string, p: Pos, q: Pos)
    requires p.line < |lines| && p.col + |part| <= |lines[p.line]| && Stands(lines, part, q)
    requires q.line > p.line || (q.line == p.line && q.col >= p.col + |part|)
    ensures Contains(lines[p.line][p.col + |part|..], part) || Locate(lines[p.line + 1..], part).Some?
  {
    hide Contains, IsFirst;
    var line, cut := lines[p.line], p.col + |part|;
    if q.line == p.line {
      assert line[q.col..] == line[cut..][q.col - cut..];
      IsAt(line[cut..], part, q.col - cut);
    } else {
      StandsContains(lines, part, q);
      assert lines[p.line + 1..][q.line - p.line - 1] == lines[q.line];
    }
  }

  lemma PlaceIn(s: string, part: string) returns (k: nat)
    requires Contains(s, part)
    ensures k <= |s| && part <= s[k..]
  {
    k :| 0 <= k <= |s| && part <= s[k..];
  }

  // ---------- the block ----------

  datatype TailAlias = TailAlias(name: string, token: string, modelType: string)

  const HOW_MADE := " (auto-generated, model_type"
  const RULE := "-verified) ──"
  const BLOCK_HEAD := INDENT + MARK + HOW_MADE + RULE

  function TailLine(a: TailAlias): string { DefLine(a.name, PREFIX + a.token, "  // " + a.modelType) }

  function TailLines(aliases: seq<TailAlias>): (r: seq<string>)
    ensures |r| == |aliases|
  {
    seq(|aliases|, k requires 0 <= k < |aliases| => TailLine(aliases[k]))
  }

  function Block(aliases: seq<TailAlias>): (r: seq<string>)
    ensures |r| == |aliases| + 2
  {
     [BLOCK_HEAD] + TailLines(aliases) + [INDENT + END]
  }

  /** Names without quotes, token names, and comments that do not spell the end mark. */
  ghost predicate Sound(aliases: seq<TailAlias>) {
    forall a | a in aliases ::
      Nameable(a.name) && IsToken(PREFIX + a.token) && !Contains(TailLine(a), END)
  }

  function TailToken(aliases: seq<TailAlias>, name: string): Option<string> {
    if aliases == [] then None
    else if aliases[0].name == name then Some(PREFIX + aliases[0].token)
    else TailToken(aliases[1..], name)
  }

  // ---------- what the chain answers afterwards ----------

  lemma {:induction false} TailLookup(aliases: seq<TailAlias>, after: seq<string>, name: string)
    requires Sound(aliases)
    ensures Lookup(TailLines(aliases) + after, name) == Prefer(TailToken(aliases, name), Lookup(after, name))
  {
    hide Search, Contains, DefLine;
    if aliases == [] {
      assert TailLines(aliases) + after == after;
    } else {
      var a := aliases[0];
      var all := TailLines(aliases) + after;
      assert all[0] == TailLine(a);
      assert all[1..] == TailLines(aliases[1..]) + after;
      TailLookup(aliases[1..], after, name);
      DefOfLine(a.name, PREFIX + a.token, "  // " + a.modelType, SelfCheck);
      TailNotReturn(a);
    }
  }

  lemma TailNotReturn(a: TailAlias)
    ensures !IsReturn(TailLine(a))
  {
    assert TailLine(a)[4] == 'i' && RETURN_UNKNOWN[4] == 'r';
  }

  /** No test of a name can begin anywhere in this text. */
  predicate NoTestStarts(x: string) {
    forall k | 0 <= k < |x| && x[k] == 's' :: k + 1 < |x| && x[k + 1] != 't'
  }

  lemma NoTestJoins(x: string, y: string)
    requires NoTestStarts(x) && NoTestStarts(y)
    ensures NoTestStarts(x + y)
  {
  }

  lemma MarkHasNoTest()
    ensures NoTestStarts(MARK)
  {
    assert NoTestStarts(MARK_TEXT);
    NoTestJoins("//", MARK_TEXT);
  }

  lemma HeadHasNoTest()
    ensures NoTestStarts(BLOCK_HEAD)
  {
    MarkHasNoTest();
    assert NoTestStarts(INDENT) && NoTestStarts(HOW_MADE) && NoTestStarts(RULE);
    hide NoTestStarts;
    NoTestJoins(INDENT, MARK);
    NoTestJoins(INDENT + MARK, HOW_MADE);
    NoTestJoins(INDENT + MARK + HOW_MADE, RULE);
  }

  lemma HeadDefinesNothing(name: string)
    ensures DefIn(BLOCK_HEAD, SelfCheck, name) == None && !IsReturn(BLOCK_HEAD)
  {
    hide MatchDef;
    HeadHasNoTest();
    var s := BLOCK_HEAD;
    assert s[4] == '/' && RETURN_UNKNOWN[4] == 'r';
    SearchSkips(s, "", SelfCheck);
    assert s + "" == s;
  }

  lemma EndDefinesNothing(post: string, name: string)
    ensures DefIn(INDENT + END + post, SelfCheck, name) == DefIn(post, SelfCheck, name)
    ensures !IsReturn(INDENT + END + post)
  {
    hide MatchDef;
    var s := INDENT + END;
    assert (s + post)[4] == '/' && RETURN_UNKNOWN[4] == 'r';
    assert forall k | 0 <= k < |s| && s[k] == 's' :: k + 1 < |s| && s[k + 1] != 't';
    SearchSkips(s, post, SelfCheck);
  }

  lemma IndentDefinesNothing(post: string, name: string)
    ensures DefIn(INDENT + post, SelfCheck, name) == DefIn(post, SelfCheck, name)
  {
    hide MatchDef;
    SearchSkips(INDENT, post, SelfCheck);
  }

  lemma BlockLookup(aliases: seq<TailAlias>, post: string, below: seq<string>, name: string)
    requires Sound(aliases)
    ensures Lookup([BLOCK_HEAD] + (TailLines(aliases) + ([INDENT + END + post] + below)), name) ==
            Prefer(TailToken(aliases, name), Prefer(DefIn(post, SelfCheck, name), Lookup(below, name)))
  {
    hide Search, Contains, TailLines, TailToken, DefIn, IsReturn;
    var after := [INDENT + END + post] + below;
    HeadDefinesNothing(name);
    EndDefinesNothing(post, name);
    TailLookup(aliases, after, name);
    assert after[1..] == below;
    assert ([BLOCK_HEAD] + (TailLines(aliases) + after))[1..] == TailLines(aliases) + after;
  }

  /** The answers around a block: first what stands up to the anchor, then, unless the chain has
      returned by then, the block and the rest. */
  function Layered(t: Split, aliases: seq<TailAlias>, name: string): Option<string> {
    if HasReturn(t.head) then Lookup(t.head, name)
    else
      Prefer(Lookup(t.head, name),
             Prefer(TailToken(aliases, name), Prefer(DefIn(t.post, SelfCheck, name), Lookup(t.below, name))))
  }

  lemma JoinedLookup(t: Split, aliases: seq<TailAlias>, name: string)
    requires Sound(aliases)
    ensures Lookup(Joined(t, Block(aliases)), name) == Layered(t, aliases, name)
  {
    hide Search, Contains, TailToken, DefIn, IsReturn, Lookup;
    JoinedIs(t, aliases);
    LookupConcat(t.head, [BLOCK_HEAD] + (TailLines(aliases) + ([INDENT + END + t.post] + t.below)), name);
    BlockLookup(aliases, t.post, t.below, name);
  }

  lemma JoinedIs(t: Split, aliases: seq<TailAlias>)
    ensures Joined(t, Block(aliases)) ==
            t.head + ([BLOCK_HEAD] + (TailLines(aliases) + ([INDENT + END + t.post] + t.below)))
  {
    hide TailLines;
    var block := Block(aliases);
    assert block[..|block| - 1] == [BLOCK_HEAD] + TailLines(aliases);
    assert block[|block| - 1] == INDENT + END;
  }

  /** The text that a rewriting puts the block into. */
  function Base(lines: seq<string>): Option<Split> {
    match Removed(lines)
    case Err(_) => None
    case Ok(rest) => SplitAtAnchor(rest)
  }

  /** After a successful rewriting names are answered by the text up to the anchor, then by the new
      block, then by what follows; a name outside the block is answered as without any block. */
  lemma PatchLookup(lines: seq<string>, aliases: seq<TailAlias>, name: string)
    requires Base(lines).Some? && Sound(aliases)
    ensures var t := Base(lines).value;
            && Patched(lines, Block(aliases)).Ok?
            && Lookup(Patched(lines, Block(aliases)).value, name) == Layered(t, aliases, name)
            && (t.post == "" ==>
                  Lookup(Removed(lines).value, name) ==
                  if HasReturn(t.head) then Lookup(t.head, name) else Prefer(Lookup(t.head, name), Lookup(t.below, name)))
  {
    hide Contains, Locate, Joined, TailLines, TailToken, DefIn, IsReturn, Lookup, Block;
    var t := Base(lines).value;
    JoinedLookup(t, aliases, name);
    if t.post == "" {
      SplitsText(Removed(lines).value);
      LookupConcat(t.head, t.below, name);
    }
  }

  lemma SplitsText(rest: seq<string>)
    requires SplitAtAnchor(rest).Some? && SplitAtAnchor(rest).value.post == ""
    ensures rest == SplitAtAnchor(rest).value.head + SplitAtAnchor(rest).value.below
  {
    hide Contains;
    var p := Locate(rest, ANCHOR).value;
    assert rest[p.line][..p.col + |ANCHOR|] == rest[p.line];
  }

  // ---------- running it again ----------

  predicate Unmarked(lines: seq<string>, part: string) { forall k | 0 <= k < |lines| :: !Contains(lines[k], part) }

  /** No mark is left up to the anchor, and behind the anchor nothing that would start to matter on a
      line of its own. */
  ghost predicate Settled(lines: seq<string>) {
    && Base(lines).Some?
    && var t := Base(lines).value;
    && Unmarked(t.head, MARK) && Unmarked(t.head, END)
    && !Contains(INDENT + t.post, ANCHOR) && !IsReturn(INDENT + t.post)
  }

  lemma MarkPlace()
    ensures FirstIn(BLOCK_HEAD, MARK, 4)
  {
    assert BLOCK_HEAD == INDENT + (MARK + HOW_MADE + RULE);
    assert BLOCK_HEAD[4..] == MARK + HOW_MADE + RULE;
    assert forall j | 0 <= j < 4 :: BLOCK_HEAD[j..][0] == ' ' && MARK[0] == '/';
  }

  lemma EndPlace(post: string)
    ensures FirstIn(INDENT + END + post, END, 4)
  {
    var s := INDENT + END + post;
    assert s[4..] == END + post;
    assert forall j | 0 <= j < 4 :: s[j..][0] == ' ' && END[0] == '/';
  }

  /** The head mark is not an end mark. */
  lemma HeadIsNotEnd()
    ensures !Contains(BLOCK_HEAD, END)
  {
    var s := BLOCK_HEAD;
    assert END[0] == '/' && END[1] == '/' && END[6] == 'e';
    forall j | 0 <= j <= |s| ensures !(END <= s[j..]) {
      if END <= s[j..] {
        assert s[j] == END[0] && s[j + 1] == END[1] && s[j + 6] == END[6];
        NoSlashAfter(j);
      }
    }
  }

  lemma NoSlashAfter(j: nat)
    requires j + 6 < |BLOCK_HEAD| && BLOCK_HEAD[j] == '/' && BLOCK_HEAD[j + 1] == '/'
    ensures BLOCK_HEAD[j + 6] != 'e'
  {
    NoSlashes();
    AfterPair(INDENT, MARK_TEXT, HOW_MADE, RULE, j);
  }

  lemma AfterPair(front: string, text: string, more: string, end: string, j: nat)
    requires '/' !in front && '/' !in text && '/' !in more && '/' !in end && |text| > 4 && text[4] != 'e'
    requires var s := front + ("//" + text) + more + end; j + 6 < |s| && s[j] == '/' && s[j + 1] == '/'
    ensures (front + ("//" + text) + more + end)[j + 6] != 'e'
  {
    var rest := text + more + end;
    assert front + ("//" + text) + more + end == front + "//" + rest;
    OnlyPair(front, rest, j);
    assert rest[4] == text[4];
  }

  lemma NoSlashes()
    ensures '/' !in MARK_TEXT && '/' !in HOW_MADE && '/' !in RULE && MARK_TEXT[4] == '2'
  {
  }

  lemma OnlyPair(front: string, rest: string, j: nat)
    requires '/' !in front && '/' !in rest
    requires var s := front + "//" + rest; j + 1 < |s| && s[j] == '/' && s[j + 1] == '/'
    ensures j == |front|
  {
    var s := front + "//" + rest;
    assert forall k | 0 <= k < |front| :: s[k] == front[k];
    assert forall k | 0 <= k < |rest| :: s[|front| + 2 + k] == rest[k];
    assert s[j + 1] == s[|front| + 2 + (j - |front| - 1)];
  }

  lemma BlockShape(t: Split, aliases: seq<TailAlias>)
    ensures var l := Joined(t, Block(aliases)); var h, n := |t.head|, |aliases|;
            && |l| == h + n + 2 + |t.below|
            && l[..h] == t.head && l[h] == BLOCK_HEAD && l[h + n + 1] == INDENT + END + t.post && l[h + n + 2..] == t.below
            && (forall k | 0 <= k < h :: l[k] == t.head[k])
            && (forall k | h < k <= h + n :: l[k] == TailLine(aliases[k - h - 1]))
  {
    hide TailLine, Joined;
    JoinedIs(t, aliases);
  }

  lemma LineHasNoEnd(aliases: seq<TailAlias>, k: nat)
    requires Sound(aliases) && k < |aliases|
    ensures !Contains(TailLine(aliases[k]), END)
  {
    assert aliases[k] in aliases;
  }

  lemma BlockFound(t: Split, aliases: seq<TailAlias>)
    requires Sound(aliases) && Unmarked(t.head, MARK) && Unmarked(t.head, END)
    ensures var l := Joined(t, Block(aliases));
            && Locate(l, MARK) == Some(Pos(|t.head|, 4))
            && Locate(l, END) == Some(Pos(|t.head| + |aliases| + 1, 4))
  {
    hide Contains, Joined, Block, TailLine, Sound, FirstIn, Locate;
    var l := Joined(t, Block(aliases));
    var h, n := |t.head|, |aliases|;
    BlockShape(t, aliases);
    MarkPlace();
    LocateIs(l, MARK, Pos(h, 4));
    HeadIsNotEnd();
    EndPlace(t.post);
    forall k | h < k <= h + n ensures !Contains(l[k], END) { LineHasNoEnd(aliases, k - h - 1); }
    LocateIs(l, END, Pos(h + n + 1, 4));
  }

  /** The cut takes the block out and leaves one more line, blank but for what followed the anchor. */
  lemma BlockCutOut(t: Split, aliases: seq<TailAlias>)
    requires Sound(aliases) && Unmarked(t.head, MARK) && Unmarked(t.head, END)
    ensures Removed(Joined(t, Block(aliases))) == Ok(t.head + [INDENT + t.post] + t.below)
  {
    hide Contains, Joined, Block, Sound, Unmarked, Locate;
    BlockFound(t, aliases);
    BlockShape(t, aliases);
    var last := INDENT + END + t.post;
    assert last[4 + |END|..] == t.post;
    assert BLOCK_HEAD[..4] == INDENT by { assert BLOCK_HEAD == INDENT + (MARK + HOW_MADE + RULE); }
  }

  lemma Located(lines: seq<string>, part: string)
    ensures Locate(lines, part).Some? ==>
              var p := Locate(lines, part).value; p.line < |lines| && Contains(lines[p.line], part)
  {
    var p := Locate(lines, part);
    if p.Some? { IsAt(lines[p.value.line], part, p.value.col); }
  }

  /** A text whose only anchor ends a line is split behind that line. */
  lemma SplitBehind(head: seq<string>, below: seq<string>)
    requires head != [] && var last := head[|head| - 1];
             |last| >= |ANCHOR| && FirstIn(last, ANCHOR, |last| - |ANCHOR|)
    requires Unmarked(head[..|head| - 1], ANCHOR) && Unmarked(below, ANCHOR)
    ensures SplitAtAnchor(head + below) == Some(Split(head, "", below))
  {
    hide Contains, FirstIn;
    var h := |head| - 1;
    var all, last := head + below, head[h];
    assert forall k | 0 <= k < h :: all[k] == head[..h][k];
    LocateIs(all, ANCHOR, Pos(h, |last| - |ANCHOR|));
    NothingInEmpty(ANCHOR);
    Located(below, ANCHOR);
    assert last[|last|..] == "" && last[..|last|] == last;
    assert all[h + 1..] == below && all[..h] + [last] == head;
  }

  /** What is cut off behind the first occurrence of a part ends in it and holds no other. */
  lemma CutBehind(lines: seq<string>, part: string, p: Pos)
    requires IsFirst(lines, part, p) && p.col + |part| <= |lines[p.line]|
    ensures var head := lines[..p.line] + [lines[p.line][..p.col + |part|]]; var last := head[|head| - 1];
            && Unmarked(head[..|head| - 1], part)
            && |last| >= |part| && FirstIn(last, part, |last| - |part|)
  {
    hide Contains;
    FirstInPrefix(lines[p.line], part, p.col);
    var head := lines[..p.line] + [lines[p.line][..p.col + |part|]];
    assert head[..|head| - 1] == lines[..p.line];
  }

  lemma HeadEndsInAnchor(rest: seq<string>)
    requires SplitAtAnchor(rest).Some?
    ensures var t := SplitAtAnchor(rest).value;
            && t.head != [] && Unmarked(t.head[..|t.head| - 1], ANCHOR) && Unmarked(t.below, ANCHOR)
            && var last := t.head[|t.head| - 1];
            && |last| >= |ANCHOR| && FirstIn(last, ANCHOR, |last| - |ANCHOR|)
  {
    hide Contains, FirstIn;
    var p := Locate(rest, ANCHOR).value;
    FirstInPrefix(rest[p.line], ANCHOR, p.col);
    CutBehind(rest, ANCHOR, p);
  }

  lemma UnmarkedCons(line: string, below: seq<string>, part: string)
    requires !Contains(line, part) && Unmarked(below, part)
    ensures Unmarked([line] + below, part)
  {
    hide Contains;
  }

  /** The anchor is found again at the end of its line. */
  lemma AnchorFoundAgain(lines: seq<string>)
    requires Base(lines).Some? && !Contains(INDENT + Base(lines).value.post, ANCHOR)
    ensures var t := Base(lines).value;
            SplitAtAnchor(t.head + [INDENT + t.post] + t.below) ==
            Some(Split(t.head, "", [INDENT + t.post] + t.below))
  {
    hide Contains, Removed, FirstIn, SplitAtAnchor, Unmarked;
    var t := Base(lines).value;
    HeadEndsInAnchor(Removed(lines).value);
    UnmarkedCons(INDENT + t.post, t.below, ANCHOR);
    SplitBehind(t.head, [INDENT + t.post] + t.below);
    assert t.head + [INDENT + t.post] + t.below == t.head + ([INDENT + t.post] + t.below);
  }

  lemma NothingInEmpty(part: string)
    requires part != ""
    ensures !Contains("", part)
  {
  }

  lemma FirstInPrefix(s: string, part: string, k: nat)
    requires FirstIn(s, part, k)
    ensures k + |part| <= |s| && FirstIn(s[..k + |part|], part, k)
  {
    var n := k + |part|;
    assert s[..n][k..] == part;
    forall j | 0 <= j < k ensures !(part <= s[..n][j..]) {
      assert s[j..] == s[..n][j..] + s[n..];
    }
  }

  /** Rewriting the result with another list of aliases answers every name as if the first list had
      never been there; with the same list, as before. Only the text differs: it has a line more. */
  lemma PatchReplaces(lines: seq<string>, first: seq<TailAlias>, second: seq<TailAlias>, name: string)
    requires Settled(lines) && Sound(first) && Sound(second)
    ensures Patched(lines, Block(first)).Ok? && Patched(lines, Block(second)).Ok?
    ensures var once := Patched(lines, Block(first)).value; var direct := Patched(lines, Block(second)).value;
            && Patched(once, Block(second)).Ok?
            && var twice := Patched(once, Block(second)).value;
            && Lookup(twice, name) == Lookup(direct, name)
            && |twice| == |direct| + 1
  {
    hide Contains, Locate, Joined, TailToken, DefIn, IsReturn, Lookup, Block, Removed, SplitAtAnchor, Sound, Unmarked, HasReturn, TailLines;
    var t := Base(lines).value;
    BlockCutOut(t, first);
    AnchorFoundAgain(lines);
    var again := Split(t.head, "", [INDENT + t.post] + t.below);
    JoinedLookup(t, second, name);
    JoinedLookup(again, second, name);
    IndentDefinesNothing(t.post, name);
    BlankLayer(t, name);
    JoinedIs(t, second);
    JoinedIs(again, second);
  }

  lemma BlankLayer(t: Split, name: string)
    requires !IsReturn(INDENT + t.post)
    ensures DefIn("", SelfCheck, name) == None
    ensures Lookup([INDENT + t.post] + t.below, name) == Prefer(DefIn(INDENT + t.post, SelfCheck, name), Lookup(t.below, name))
  {
    hide IsReturn, Search;
    assert Search("", SelfCheck) == None by { NothingSearched(); }
    assert ([INDENT + t.post] + t.below)[1..] == t.below;
  }

  lemma NothingSearched()
    ensures Search("", SelfCheck) == None
  {
  }

  // ---------- when a rerun takes out the last block ----------

  /** The character that ends the end mark is not in the anchor. */
  lemma AnchorHasNoRule()
    ensures forall k | 0 <= k < |ANCHOR| :: ANCHOR[k] != '─'
  {
    assert forall k | 0 <= k < |ANCHOR_TEST| :: ANCHOR_TEST[k] != '─';
    assert forall k | 0 <= k < |ANCHOR_RETURN| :: ANCHOR_RETURN[k] != '─';
  }

  lemma EndEndsInRule()
    ensures |END| > 0 && END[|END| - 1] == '─'
  {
  }

  /** An end mark in a line that ends in the anchor stands before the anchor. */
  lemma EndBeforeAnchor(s: string, c: nat)
    requires |s| >= |ANCHOR| && s[|s| - |ANCHOR|..] == ANCHOR && c <= |s| && END <= s[c..]
    ensures c + |END| <= |s| - |ANCHOR|
  {
    AnchorHasNoRule();
    EndEndsInRule();
    EndsBefore(s, END, c, ANCHOR, '─');
  }

  lemma EndsBefore(s: string, part: string, c: nat, end: string, x: char)
    requires |s| >= |end| && s[|s| - |end|..] == end && c <= |s| && part <= s[c..]
    requires |part| > 0 && part[|part| - 1] == x && forall k | 0 <= k < |end| :: end[k] != x
    ensures c + |part| <= |s| - |end|
  {
    var last := c + |part| - 1;
    assert s[last] == s[c..][|part| - 1] == x;
    assert forall k | |s| - |end| <= k < |s| :: s[k] == end[k - (|s| - |end|)];
  }

  /** What is left of such a line behind the end mark still holds the anchor. */
  lemma AnchorBehindEnd(s: string, c: nat)
    requires |s| >= |ANCHOR| && s[|s| - |ANCHOR|..] == ANCHOR && c <= |s| && END <= s[c..]
    ensures c + |END| <= |s| && Contains(s[c + |END|..], ANCHOR)
  {
    EndBeforeAnchor(s, c);
    var rest := s[c + |END|..];
    assert rest[|rest| - |ANCHOR|..] == s[|s| - |ANCHOR|..];
    IsAt(rest, ANCHOR, |rest| - |ANCHOR|);
  }

  lemma HeadIsAnchored(t: Split)
    requires t.head != [] && |t.head[|t.head| - 1]| >= |ANCHOR|
    requires var last := t.head[|t.head| - 1]; FirstIn(last, ANCHOR, |last| - |ANCHOR|)
    ensures var last := t.head[|t.head| - 1]; last[|last| - |ANCHOR|..] == ANCHOR && Contains(last, ANCHOR)
  {
    var last := t.head[|t.head| - 1];
    assert last[|last| - |ANCHOR|..] == ANCHOR;
    IsAt(last, ANCHOR, |last| - |ANCHOR|);
  }

  /** A text put before more text still holds what it held. */
  lemma ContainsBehind(x: string, s: string, part: string)
    requires Contains(s, part)
    ensures Contains(x + s, part)
  {
    assert (x + s)[|x|..] == s;
    ContainsLater(x + s, part, |x|);
  }

  /** The marks of a written block are found at its ends or above them. */
  lemma MarksAbove(t: Split, aliases: seq<TailAlias>) returns (a: Pos, b: Pos)
    requires Sound(aliases)
    ensures var l := Joined(t, Block(aliases)); var h, n := |t.head|, |aliases|;
            && Locate(l, MARK) == Some(a) && Locate(l, END) == Some(b)
            && a.line <= h && (b.line < h || b.line == h + n + 1)
            && (a.line < h <==> !Unmarked(t.head, MARK)) && (b.line < h <==> !Unmarked(t.head, END))
  {
    hide Joined, Block, TailLine, Sound, Contains, FirstIn;
    var l := Joined(t, Block(aliases));
    var h, n := |t.head|, |aliases|;
    BlockShape(t, aliases);
    MarkPlace();
    EndPlace(t.post);
    HeadIsNotEnd();
    assert Contains(l[h], MARK) by { HasFirst(l[h], MARK, 4); }
    assert Contains(l[h + n + 1], END) by { HasFirst(l[h + n + 1], END, 4); }
    a, b := Locate(l, MARK).value, Locate(l, END).value;
    Located(l, MARK);
    Located(l, END);
    forall k | h < k <= h + n ensures !Contains(l[k], END) { LineHasNoEnd(aliases, k - h - 1); }
  }

  lemma HasFirst(s: string, part: string, k: nat)
    requires FirstIn(s, part, k)
    ensures Contains(s, part)
  {
    IsAt(s, part, k);
  }

  /** The text from one place to another, without what lies between. */
  function Cut(l: seq<string>, a: Pos, b: Pos): seq<string>
    requires a.line < |l| && b.line < |l| && a.col <= |l[a.line]| && b.col + |END| <= |l[b.line]|
  {
    l[..a.line] + [l[a.line][..a.col] + l[b.line][b.col + |END|..]] + l[b.line + 1..]
  }

  lemma Found(l: seq<string>, part: string, p: Pos)
    requires Locate(l, part) == Some(p)
    ensures p.line < |l| && p.col + |part| <= |l[p.line]| && part <= l[p.line][p.col..]
  {
    hide Contains;
  }

  lemma RemovedIsCut(l: seq<string>, a: Pos, b: Pos)
    requires Locate(l, MARK) == Some(a) && Locate(l, END) == Some(b)
    ensures a.line < |l| && b.line < |l| && a.col <= |l[a.line]| && b.col + |END| <= |l[b.line]|
    ensures END <= l[b.line][b.col..] && Removed(l) == Ok(Cut(l, a, b))
  {
    hide Locate;
    Found(l, MARK, a);
    Found(l, END, b);
  }

  /** A cut that does not go from the block's first line to its last does not leave the text as it was:
      it would have to be as long, and then the anchor comes to stand on a line that has none. */
  lemma OtherCut(lines: seq<string>, aliases: seq<TailAlias>)
    requires Base(lines).Some? && Sound(aliases)
    requires var head := Base(lines).value.head; !Unmarked(head, MARK) || !Unmarked(head, END)
    ensures var t := Base(lines).value;
            Removed(Joined(t, Block(aliases))) != Ok(t.head + [INDENT + t.post] + t.below)
  {
    hide Contains, Joined, Block, Removed, SplitAtAnchor, Locate, Sound, FirstIn, TailLine, Unmarked, Cut;
    var t := Base(lines).value;
    HeadEndsInAnchor(Removed(lines).value);
    HeadIsAnchored(t);
    HeadOfJoined(t, aliases);
    var a, b := MarksAbove(t, aliases);
    var l := Joined(t, Block(aliases));
    RemovedIsCut(l, a, b);
    CutLength(l, a, b);
    var expected := t.head + [INDENT + t.post] + t.below;
    if |Cut(l, a, b)| == |expected| {
      var k := MisplacedAnchor(l, t.head, a, b);
      NotOnEarlierLine(t.head, [INDENT + t.post] + t.below, k);
      assert expected == t.head + ([INDENT + t.post] + t.below);
    }
  }

  lemma HeadOfJoined(t: Split, aliases: seq<TailAlias>)
    ensures var l := Joined(t, Block(aliases)); t.head <= l && |l| == |t.head| + |aliases| + 2 + |t.below|
  {
    hide TailLine, Joined, Block;
    BlockShape(t, aliases);
  }

  lemma CutLength(l: seq<string>, a: Pos, b: Pos)
    requires a.line < |l| && b.line < |l| && a.col <= |l[a.line]| && b.col + |END| <= |l[b.line]|
    ensures |Cut(l, a, b)| == |l| - b.line + a.line
  {
  }

  lemma NotOnEarlierLine(head: seq<string>, rest: seq<string>, k: nat)
    requires head != [] && k < |head| - 1 && Unmarked(head[..|head| - 1], ANCHOR)
    ensures !Contains((head + rest)[k], ANCHOR)
  {
    hide Contains;
    assert (head + rest)[k] == head[..|head| - 1][k];
  }

  /** The anchor's line moves up by the lines cut out. */
  lemma MisplacedAnchor(l: seq<string>, head: seq<string>, a: Pos, b: Pos) returns (k: nat)
    requires head != [] && head <= l
    requires var last := head[|head| - 1]; |last| >= |ANCHOR| && last[|last| - |ANCHOR|..] == ANCHOR && Contains(last, ANCHOR)
    requires a.line < b.line < |head| && b.col + |END| <= |l[b.line]| && a.col <= |l[a.line]| && END <= l[b.line][b.col..]
    ensures k < |head| - 1 && k < |Cut(l, a, b)| && Contains(Cut(l, a, b)[k], ANCHOR)
  {
    hide Contains;
    var h := |head|;
    assert l[h - 1] == head[h - 1];
    if b.line == h - 1 {
      k := a.line;
      AnchorBehindEnd(l[h - 1], b.col);
      ContainsBehind(l[a.line][..a.col], l[h - 1][b.col + |END|..], ANCHOR);
    } else {
      k := h - 1 - (b.line - a.line);
      assert Cut(l, a, b)[k] == l[h - 1];
    }
  }

  /** A rerun takes out exactly the block written last, and leaves a blank line for it, if and only if
      no mark is left above the anchor. */
  lemma BlockRemovedIff(lines: seq<string>, aliases: seq<TailAlias>)
    requires Base(lines).Some? && Sound(aliases)
    ensures var t := Base(lines).value;
            && Patched(lines, Block(aliases)) == Ok(Joined(t, Block(aliases)))
            && (Removed(Joined(t, Block(aliases))) == Ok(t.head + [INDENT + t.post] + t.below) <==>
                Unmarked(t.head, MARK) && Unmarked(t.head, END))
  {
    hide Contains, Joined, Block, Removed, SplitAtAnchor, Locate, Sound, Unmarked;
    var t := Base(lines).value;
    if Unmarked(t.head, MARK) && Unmarked(t.head, END) {
      BlockCutOut(t, aliases);
    } else {
      OtherCut(lines, aliases);
    }
  }

  // ---------- one mark left above the anchor ----------

  /** Text that has the anchor twice, at the end of a line and again below, is refused. */
  lemma AnchorTwice(head: seq<string>, rest: seq<string>, k: nat)
    requires head != [] && Unmarked(head[..|head| - 1], ANCHOR)
    requires var last := head[|head| - 1]; |last| >= |ANCHOR| && FirstIn(last, ANCHOR, |last| - |ANCHOR|)
    requires k < |rest| && Contains(rest[k], ANCHOR)
    ensures SplitAtAnchor(head + rest) == None
  {
    hide Contains, FirstIn;
    var h, all, last := |head| - 1, head + rest, head[|head| - 1];
    assert forall j | 0 <= j < h :: all[j] == head[..h][j];
    LocateIs(all, ANCHOR, Pos(h, |last| - |ANCHOR|));
    assert all[h + 1..] == rest;
  }

  /** With only an end mark above the anchor, the text from there to the anchor is kept twice. */
  lemma EndAloneCopies(l: seq<string>, head: seq<string>, a: Pos, b: Pos) returns (rest: seq<string>, k: nat)
    requires head != [] && head <= l && a.line == |head| < |l| && a.col <= |l[a.line]|
    requires var last := head[|head| - 1]; |last| >= |ANCHOR| && last[|last| - |ANCHOR|..] == ANCHOR && Contains(last, ANCHOR)
    requires b.line < |head| && b.col + |END| <= |l[b.line]| && END <= l[b.line][b.col..]
    ensures Cut(l, a, b) == head + rest && k < |rest| && Contains(rest[k], ANCHOR)
  {
    hide Contains;
    var h := |head|;
    rest := [l[h][..a.col] + l[b.line][b.col + |END|..]] + l[b.line + 1..];
    assert l[..h] == head && l[h - 1] == head[h - 1];
    if b.line == h - 1 {
      k := 0;
      AnchorBehindEnd(l[h - 1], b.col);
      ContainsBehind(l[h][..a.col], l[h - 1][b.col + |END|..], ANCHOR);
    } else {
      k := h - 1 - b.line;
      assert rest[k] == l[h - 1];
    }
  }

  lemma NoAnchorBefore(s: string, n: nat)
    requires |s| >= |ANCHOR| && FirstIn(s, ANCHOR, |s| - |ANCHOR|) && n < |s|
    ensures !Contains(s[..n], ANCHOR)
  {
    forall k | 0 <= k <= n ensures !(ANCHOR <= s[..n][k..]) {
      if k < |s| - |ANCHOR| { assert s[k..] == s[..n][k..] + s[n..]; }
    }
  }

  lemma PrefixUnmarked(s: string, n: nat, part: string)
    requires n <= |s| && !Contains(s, part)
    ensures !Contains(s[..n], part)
  {
    forall k | 0 <= k <= n ensures !(part <= s[..n][k..]) {
      assert s[k..] == s[..n][k..] + s[n..];
    }
  }

  /** With only a start mark above the anchor, the anchor is cut out. */
  lemma MarkAloneLosesAnchor(head: seq<string>, below: seq<string>, a: Pos)
    requires head != [] && Unmarked(head[..|head| - 1], ANCHOR) && Unmarked(below, ANCHOR)
    requires var last := head[|head| - 1]; |last| >= |ANCHOR| && FirstIn(last, ANCHOR, |last| - |ANCHOR|)
    requires a.line < |head| && a.col < |head[a.line]|
    ensures SplitAtAnchor(head[..a.line] + [head[a.line][..a.col]] + below) == None
  {
    hide Contains, FirstIn;
    var cut := head[..a.line] + [head[a.line][..a.col]] + below;
    if a.line == |head| - 1 {
      NoAnchorBefore(head[a.line], a.col);
    } else {
      assert head[a.line] == head[..|head| - 1][a.line];
      PrefixUnmarked(head[a.line], a.col, ANCHOR);
    }
    forall k | 0 <= k < |cut| ensures !Contains(cut[k], ANCHOR) {
      if k < a.line {
        assert cut[k] == head[..|head| - 1][k];
      } else if k > a.line {
        assert cut[k] == below[k - a.line - 1];
      }
    }
    Located(cut, ANCHOR);
  }

  lemma StartMarkCut(t: Split, aliases: seq<TailAlias>, a: Pos)
    requires Sound(aliases) && Unmarked(t.head, END) && t.post == "" && Locate(Joined(t, Block(aliases)), MARK) == Some(a)
    requires a.line < |t.head|
    ensures a.col < |t.head[a.line]|
    ensures Removed(Joined(t, Block(aliases))) == Ok(t.head[..a.line] + [t.head[a.line][..a.col]] + t.below)
  {
    hide Contains, Joined, Block, TailLine, Sound, FirstIn, Locate, Removed;
    var l := Joined(t, Block(aliases));
    var h, n := |t.head|, |aliases|;
    BlockShape(t, aliases);
    HeadIsNotEnd();
    EndPlace(t.post);
    forall k | h < k <= h + n ensures !Contains(l[k], END) { LineHasNoEnd(aliases, k - h - 1); }
    var b := Pos(h + n + 1, 4);
    LocateIs(l, END, b);
    RemovedIsCut(l, a, b);
    Found(l, MARK, a);
    assert (INDENT + END + t.post)[4 + |END|..] == "";
    assert l[..a.line] == t.head[..a.line] && l[a.line] == t.head[a.line];
    assert l[a.line][..a.col] + "" == t.head[a.line][..a.col];
  }

  /** When exactly one of the two marks is left above the anchor, a rerun aborts: it copies the anchor or
      cuts it out. (For a lone start mark the anchor must end its line.) */
  lemma LoneMarkAborts(lines: seq<string>, aliases: seq<TailAlias>, second: seq<TailAlias>)
    requires Base(lines).Some? && Sound(aliases)
    requires var t := Base(lines).value;
             Unmarked(t.head, MARK) != Unmarked(t.head, END) && (Unmarked(t.head, END) ==> t.post == "")
    ensures Patched(lines, Block(aliases)).Ok?
    ensures Patched(Patched(lines, Block(aliases)).value, Block(second)) == Err(AnchorCount)
  {
    hide Contains, Joined, Block, Removed, SplitAtAnchor, Locate, Sound, FirstIn, TailLine, Unmarked, Cut;
    var t := Base(lines).value;
    var l := Joined(t, Block(aliases));
    HeadEndsInAnchor(Removed(lines).value);
    HeadIsAnchored(t);
    HeadOfJoined(t, aliases);
    var a, b := MarksAbove(t, aliases);
    if Unmarked(t.head, MARK) {
      RemovedIsCut(l, a, b);
      var rest, k := EndAloneCopies(l, t.head, a, b);
      AnchorTwice(t.head, rest, k);
    } else {
      StartMarkCut(t, aliases, a);
      MarkAloneLosesAnchor(t.head, t.below, a);
    }
  }

  // ---------- a second old block above the anchor ----------

  /** A block standing at a place of a text, with nothing joined to its last line. */
  lemma BlockJoined(head: seq<string>, aliases: seq<TailAlias>, below: seq<string>)
    ensures Joined(Split(head, "", below), Block(aliases)) == head + Block(aliases) + below
  {
    hide TailLines;
    JoinedIs(Split(head, "", below), aliases);
    assert INDENT + END + "" == INDENT + END;
  }

  lemma BlockCut(head: seq<string>, aliases: seq<TailAlias>, below: seq<string>)
    requires Sound(aliases) && Unmarked(head, MARK) && Unmarked(head, END)
    ensures Removed(head + Block(aliases) + below) == Ok(head + [INDENT] + below)
  {
    hide Joined, Block, Removed, Sound, Unmarked;
    BlockJoined(head, aliases, below);
    BlockCutOut(Split(head, "", below), aliases);
    assert INDENT + "" == INDENT;
  }

  lemma IndentUnmarked(part: string)
    requires |part| > 4
    ensures !Contains(INDENT, part)
  {
  }

  lemma AnchorSplits(above: seq<string>, below: seq<string>)
    requires Unmarked(above, ANCHOR) && Unmarked(below, ANCHOR)
    ensures SplitAtAnchor(above + [ANCHOR] + below) == Some(Split(above + [ANCHOR], "", below))
  {
    hide Contains;
    var head := above + [ANCHOR];
    assert ANCHOR[0..] == ANCHOR;
    assert head[..|head| - 1] == above;
    SplitBehind(head, below);
  }

  lemma UnmarkedJoin(a: seq<string>, b: seq<string>, part: string)
    requires Unmarked(a, part) && Unmarked(b, part)
    ensures Unmarked(a + b, part)
  {
    hide Contains;
  }

  /** Blank lines say nothing. */
  lemma BlankSkipped(lines: seq<string>, name: string)
    ensures Lookup([INDENT] + lines, name) == Lookup(lines, name)
  {
    hide IsReturn, DefIn;
    IndentDefinesNothing("", name);
    assert INDENT + "" == INDENT;
    assert !IsReturn(INDENT) && DefIn("", SelfCheck, name) == None by { NoDefInNothing(name); }
    assert ([INDENT] + lines)[1..] == lines;
  }

  lemma NoDefInNothing(name: string)
    ensures !IsReturn(INDENT) && DefIn("", SelfCheck, name) == None
  {
  }

  lemma OldBlockLookup(aliases: seq<TailAlias>, below: seq<string>, name: string)
    requires Sound(aliases)
    ensures Lookup(Block(aliases) + below, name) == Prefer(TailToken(aliases, name), Lookup(below, name))
  {
    hide Search, Contains, TailToken, DefIn, IsReturn, Lookup, TailLines, Sound;
    BlockLookup(aliases, "", below, name);
    assert INDENT + END + "" == INDENT + END;
    assert Block(aliases) + below == [BLOCK_HEAD] + (TailLines(aliases) + ([INDENT + END] + below));
    assert DefIn("", SelfCheck, name) == None by { NoDefInNothing(name); }
  }

  /** Two old blocks above the anchor: the first run takes one of them, and the second run the other,
      so a name that only the other block defined is answered after the first run and lost in the second. */
  lemma SecondBlockLost(older: seq<TailAlias>, earlier: seq<TailAlias>, aliases: seq<TailAlias>, name: string)
    requires Sound(older) && Sound(earlier) && Sound(aliases)
    requires Unmarked(Block(earlier), ANCHOR) && Unmarked(Block(aliases), ANCHOR)
    requires TailToken(earlier, name).Some? && TailToken(aliases, name) == None && DefIn(ANCHOR, SelfCheck, name) == None
    ensures var once := Patched(Block(older) + (Block(earlier) + [ANCHOR]), Block(aliases));
            && once.Ok? && Lookup(once.value, name) == TailToken(earlier, name)
            && var twice := Patched(once.value, Block(aliases));
            && twice.Ok? && Lookup(twice.value, name) == None
  {
    hide Search, Contains, Locate, TailToken, DefIn, IsReturn, Lookup, Block, Removed, SplitAtAnchor, Sound, HasReturn, Joined;
    var lines := Block(older) + (Block(earlier) + [ANCHOR]);
    var first := FirstRun(older, earlier);
    PatchLookup(lines, aliases, name);
    assert first.head == [INDENT] + (Block(earlier) + [ANCHOR]);
    BlankSkipped(Block(earlier) + [ANCHOR], name);
    OldBlockLookup(earlier, [ANCHOR], name);
    var once := Patched(lines, Block(aliases)).value;
    SecondRun(lines, first, earlier, aliases);
    PatchLookup(once, aliases, name);
    assert [INDENT, INDENT] + [ANCHOR] == [INDENT] + ([INDENT] + [ANCHOR]);
    BlankSkipped([INDENT] + [ANCHOR], name);
    BlankSkipped([ANCHOR], name);
    OldBlockLookup(aliases, [], name);
    assert Block(aliases) + [] == Block(aliases);
    NothingLooked(name);
  }

  lemma NothingLooked(name: string)
    ensures DefIn("", SelfCheck, name) == None && Lookup([], name) == None
    ensures Lookup([ANCHOR], name) == if IsReturn(ANCHOR) then None else DefIn(ANCHOR, SelfCheck, name)
  {
    hide IsReturn, Search;
    assert Search("", SelfCheck) == None by { NothingSearched(); }
  }

  lemma FirstRun(older: seq<TailAlias>, earlier: seq<TailAlias>) returns (t: Split)
    requires Sound(older) && Unmarked(Block(earlier), ANCHOR)
    ensures t == Split([INDENT] + Block(earlier) + [ANCHOR], "", [])
    ensures Base(Block(older) + (Block(earlier) + [ANCHOR])) == Some(t)
  {
    hide Contains, Locate, Block, Removed, SplitAtAnchor, Sound;
    BlockCut([], older, Block(earlier) + [ANCHOR]);
    assert [] + Block(older) + (Block(earlier) + [ANCHOR]) == Block(older) + (Block(earlier) + [ANCHOR]);
    IndentUnmarked(ANCHOR);
    UnmarkedJoin([INDENT], Block(earlier), ANCHOR);
    AnchorSplits([INDENT] + Block(earlier), []);
    assert [] + [INDENT] + (Block(earlier) + [ANCHOR]) == ([INDENT] + Block(earlier)) + [ANCHOR] + [];
    t := Split([INDENT] + Block(earlier) + [ANCHOR], "", []);
  }

  lemma SecondRun(lines: seq<string>, first: Split, earlier: seq<TailAlias>, aliases: seq<TailAlias>)
    requires Base(lines) == Some(first) && first == Split([INDENT] + Block(earlier) + [ANCHOR], "", [])
    requires Sound(earlier) && Unmarked(Block(aliases), ANCHOR)
    ensures Patched(lines, Block(aliases)).Ok?
    ensures Base(Patched(lines, Block(aliases)).value) == Some(Split([INDENT, INDENT] + [ANCHOR], "", Block(aliases)))
  {
    hide Contains, Locate, Block, Removed, SplitAtAnchor, Sound, Joined;
    BlockJoined(first.head, aliases, []);
    var once := Patched(lines, Block(aliases)).value;
    assert once == [INDENT] + Block(earlier) + ([ANCHOR] + Block(aliases));
    IndentUnmarked(MARK);
    IndentUnmarked(END);
    IndentUnmarked(ANCHOR);
    BlockCut([INDENT], earlier, [ANCHOR] + Block(aliases));
    AnchorSplits([INDENT, INDENT], Block(aliases));
    assert [INDENT] + [INDENT] + ([ANCHOR] + Block(aliases)) == [INDENT, INDENT] + [ANCHOR] + Block(aliases);
  }
}
