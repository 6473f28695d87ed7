/**
 The census sweep: pages of models walked to the end, four counters updated model by model, and
 nothing produced when a page could not be fetched.
 */
module CensusSweep {
  import opened Basics
  import opened Tally

  /** A model as a page lists it; no model type and an empty one are the same. */
  datatype Model = Model(id: string, modelType: string, archs: seq<string>)

  /** What a request returns. */
  datatype Fetch = Failed | Page(batch: seq<Model>, hasNext: bool)

  const NONE := "<none>"

  function TypeKey(m: Model): string { if m.modelType == "" then NONE else m.modelType }

  datatype State = State(
    counts: Counts,
    mtArchs: map<string, Counts>,
    mtCount: Counts,
    index: map<string, seq<string>>,
    total: nat,
    noArch: nat)

  const EMPTY := State(map[], map[], map[], map[], 0, 0)

  function Bucket(s: State, mt: string): Counts { if mt in s.mtArchs then s.mtArchs[mt] else map[] }

  // ---------- one model ----------

  function AddArch(s: State, mt: string, a: string): State {
    s.(counts := Add(s.counts, a, 1), mtArchs := s.mtArchs[mt := Add(Bucket(s, mt), a, 1)])
  }

  function AddArchs(s: State, mt: string, archs: seq<string>): State {
    if archs == [] then s else AddArch(AddArchs(s, mt, archs[..|archs| - 1]), mt, archs[|archs| - 1])
  }

  /** The model itself is noted before its architectures are. */
  function Noted(s: State, m: Model): State {
    s.(total := s.total + 1,
       index := s.index[m.id := if m.modelType == "" then [] else [m.modelType]],
       mtCount := Add(s.mtCount, TypeKey(m), 1),
       noArch := if m.archs == [] then s.noArch + 1 else s.noArch)
  }

  function AddModel(s: State, m: Model): State {
    AddArchs(Noted(s, m), TypeKey(m), m.archs)
  }

  function AddModels(s: State, ms: seq<Model>): State {
    if ms == [] then s else AddModel(AddModels(s, ms[..|ms| - 1]), ms[|ms| - 1])
  }

  // ---------- the walk ----------

  /** The page at a position of the walk; beyond the last page the service answers with an empty one. */
  function PageAt(pages: seq<Fetch>, i: nat): Fetch { if i < |pages| then pages[i] else Page([], false) }

  /** A page is asked for if the limit allows it and every page before it came back with models and a cursor. */
  ghost predicate Reached(pages: seq<Fetch>, maxPages: Option<nat>, j: nat) {
    (maxPages.Some? ==> j < maxPages.value) && forall k | 0 <= k < j :: Continues(pages, k)
  }

  predicate Continues(pages: seq<Fetch>, k: nat) {
    k < |pages| && pages[k].Page? && pages[k].batch != [] && pages[k].hasNext
  }

  /** The pages asked for are the first `n`. */
  ghost predicate AsksFor(pages: seq<Fetch>, maxPages: Option<nat>, n: nat) {
    forall j: nat :: Reached(pages, maxPages, j) <==> j < n
  }

  /** The models on the first `n` pages, page after page. */
  function ModelsOn(pages: seq<Fetch>, n: nat): seq<Model> {
    if n == 0 then []
    else ModelsOn(pages, n - 1) + if n <= |pages| && pages[n - 1].Page? then pages[n - 1].batch else []
  }

  /** How many there are. */
  function CountOn(pages: seq<Fetch>, n: nat): nat {
    if n == 0 then 0
    else CountOn(pages, n - 1) + if n <= |pages| && pages[n - 1].Page? then |pages[n - 1].batch| else 0
  }

  lemma {:induction false} ModelsCounted(pages: seq<Fetch>, n: nat)
    ensures |ModelsOn(pages, n)| == CountOn(pages, n)
  {
    if n != 0 { ModelsCounted(pages, n - 1); }
  }

  /** What is written: the bucket of models without architectures is also a counts key. */
  datatype Files = Files(total: nat, noArch: nat, counts: Counts, aggregate: map<string, (nat, Counts)>, index: map<string, seq<string>>)

  function FilesOf(s: State): Files {
    Files(s.total, s.noArch, s.counts[NONE := s.noArch],
          map mt | mt in s.mtArchs.Keys + s.mtCount.Keys :: (Get(s.mtCount, mt), Bucket(s, mt)), s.index)
  }

  lemma AddModelsAppend(s: State, ms: seq<Model>, m: Model)
    ensures AddModels(s, ms + [m]) == AddModel(AddModels(s, ms), m)
  {
    assert (ms + [m])[..|ms|] == ms;
  }

  lemma {:induction false} AddModelsConcat(s: State, a: seq<Model>, b: seq<Model>)
    ensures AddModels(s, a + b) == AddModels(AddModels(s, a), b)
  {
    hide AddModel;
    if b == [] {
      assert a + b == a;
    } else {
      var n := |b| - 1;
      AddModelsConcat(s, a, b[..n]);
      assert a + b == (a + b[..n]) + [b[n]];
      AddModelsAppend(s, a + b[..n], b[n]);
    }
  }

  /** The nested counting loops over one page. */
  method CountBatch(start: State, batch: seq<Model>) returns (s: State)
    ensures s == AddModels(start, batch)
  {
    hide AddArch;
    s := start;
    for k := 0 to |batch|
      invariant s == AddModels(start, batch[..k])
    {
      var m := batch[k];
      assert batch[..k + 1][..k] == batch[..k];
      s := s.(total := s.total + 1);
      s := s.(index := s.index[m.id := if m.modelType == "" then [] else [m.modelType]]);
      var key := TypeKey(m);
      s := s.(mtCount := Add(s.mtCount, key, 1));
      if m.archs == [] { s := s.(noArch := s.noArch + 1); }
      ghost var s1 := s;
      for j := 0 to |m.archs|
        invariant s == AddArchs(s1, key, m.archs[..j])
      {
        assert m.archs[..j + 1][..j] == m.archs[..j];
        s := AddArch(s, key, m.archs[j]);
      }
      assert m.archs[..|m.archs|] == m.archs;
      assert s == AddModel(AddModels(start, batch[..k]), m);
    }
    assert batch[..|batch|] == batch;
  }

  /** The page loop: nothing if a page that is asked for cannot be fetched, and otherwise the files of
      exactly the models on the pages asked for, in their order. */
  method Sweep(pages: seq<Fetch>, maxPages: Option<nat>) returns (r: Option<Files>)
    ensures r == None <==> exists j: nat | j < |pages| :: Reached(pages, maxPages, j) && pages[j].Failed?
    ensures r.Some? ==> exists n: nat ::
              && AsksFor(pages, maxPages, n)
              && r.value == FilesOf(AddModels(EMPTY, ModelsOn(pages, n)))
              && r.value.total == CountOn(pages, n)
  {
    hide AddModels, ModelsOn, CountOn;
    var s := EMPTY;
    NoModels(EMPTY, pages);
    var page := 0;
    ghost var n := 0;
    while true
      invariant s == AddModels(EMPTY, ModelsOn(pages, page))
      invariant maxPages.Some? ==> page <= maxPages.value
      invariant forall k | 0 <= k < page :: Continues(pages, k)
      decreases if page < |pages| then |pages| - page else 0
    {
      n := page;
      if maxPages.Some? && page >= maxPages.value { break; }
      n := page + 1;
      var fetched := PageAt(pages, page);
      if fetched.Failed? {
        assert Reached(pages, maxPages, page);
        return None;
      }
      OneMorePage(pages, page);
      AddModelsConcat(EMPTY, ModelsOn(pages, page), fetched.batch);
      if fetched.batch == [] {
        assert ModelsOn(pages, page) + [] == ModelsOn(pages, page);
        break;
      }
      s := CountBatch(s, fetched.batch);
      if !fetched.hasNext { break; }
      page := page + 1;
    }
    forall j: nat ensures Reached(pages, maxPages, j) <==> j < n {
      assert j < page ==> Continues(pages, j);
      if j > page { assert !Continues(pages, page) || maxPages == Some(page); }
    }
    forall j: nat | j < n && j < |pages| ensures !pages[j].Failed? {
      if j < page { assert Continues(pages, j); }
    }
    SweepBalanced(ModelsOn(pages, n));
    ModelsCounted(pages, n);
    return Some(FilesOf(s));
  }

  lemma OneMorePage(pages: seq<Fetch>, page: nat)
    requires PageAt(pages, page).Page?
    ensures ModelsOn(pages, page + 1) == ModelsOn(pages, page) + PageAt(pages, page).batch
  {
  }

  lemma NoModels(s: State, pages: seq<Fetch>)
    ensures AddModels(s, ModelsOn(pages, 0)) == s
  {
  }

  // ---------- the counts balance ----------

  /** What each model type's bucket holds for one architecture. */
  function Column(mtArchs: map<string, Counts>, a: string): Counts {
    map mt | mt in mtArchs :: Get(mtArchs[mt], a)
  }

  ghost predicate Balanced(s: State) {
    && (forall a :: Total(Column(s.mtArchs, a)) == Get(s.counts, a))
    && Total(s.mtCount) == s.total
    && s.mtArchs.Keys <= s.mtCount.Keys
  }

  /** Counting an architecture raises its own column by one and leaves the others' sums alone. */
  lemma ColumnTotal(s: State, mt: string, a: string, x: string)
    ensures Total(Column(AddArch(s, mt, a).mtArchs, x)) == Total(Column(s.mtArchs, x)) + if x == a then 1 else 0
  {
    hide Total;
    var c := if x == a then 1 else 0;
    var before := Column(s.mtArchs, x);
    assert Column(AddArch(s, mt, a).mtArchs, x) == Add(before, mt, c);
    AddTotal(before, mt, c);
  }

  lemma ArchBalanced(s: State, mt: string, a: string)
    requires Balanced(s) && mt in s.mtCount
    ensures Balanced(AddArch(s, mt, a))
  {
    hide Total, Column;
    var s' := AddArch(s, mt, a);
    forall x ensures Total(Column(s'.mtArchs, x)) == Get(s'.counts, x) {
      ColumnTotal(s, mt, a, x);
    }
  }

  lemma {:induction false} ArchsBalanced(s: State, mt: string, archs: seq<string>)
    requires Balanced(s) && mt in s.mtCount
    ensures Balanced(AddArchs(s, mt, archs)) && AddArchs(s, mt, archs).mtCount == s.mtCount
  {
    hide Balanced;
    if archs != [] {
      var n := |archs| - 1;
      ArchsBalanced(s, mt, archs[..n]);
      ArchBalanced(AddArchs(s, mt, archs[..n]), mt, archs[n]);
    }
  }

  /** After every model the per-type buckets of each architecture sum to its count, and the
      model-type counts sum to the number of models. */
  lemma {:induction false} SweepBalanced(ms: seq<Model>)
    ensures Balanced(AddModels(EMPTY, ms)) && AddModels(EMPTY, ms).total == |ms|
  {
    if ms == [] {
      forall a ensures Total(Column(EMPTY.mtArchs, a)) == 0 { assert Column(EMPTY.mtArchs, a) == map[]; }
    } else {
      var n := |ms| - 1;
      SweepBalanced(ms[..n]);
      ModelBalanced(AddModels(EMPTY, ms[..n]), ms[n]);
    }
  }

  lemma ModelBalanced(s: State, m: Model)
    requires Balanced(s)
    ensures Balanced(AddModel(s, m)) && AddModel(s, m).total == s.total + 1
  {
    hide AddArchs, Total;
    var key, s1 := TypeKey(m), Noted(s, m);
    AddTotal(s.mtCount, key, 1);
    assert Balanced(s1);
    ArchsBalanced(s1, key, m.archs);
    ArchsTotal(s1, key, m.archs);
  }

  lemma {:induction false} ArchsTotal(s: State, mt: string, archs: seq<string>)
    ensures AddArchs(s, mt, archs).total == s.total && AddArchs(s, mt, archs).noArch == s.noArch
  {
    if archs != [] { ArchsTotal(s, mt, archs[..|archs| - 1]); }
  }

  // ---------- what each count means ----------

  function Occurrences(archs: seq<string>, a: string): nat {
    if archs == [] then 0
    else Occurrences(archs[..|archs| - 1], a) + if archs[|archs| - 1] == a then 1 else 0
  }

  /** Architecture strings equal to `a` over all models, repeats included. */
  function ArchCount(ms: seq<Model>, a: string): nat {
    if ms == [] then 0 else ArchCount(ms[..|ms| - 1], a) + Occurrences(ms[|ms| - 1].archs, a)
  }

  /** Models without a type go under one key. */
  predicate HasType(m: Model, mt: string) { if m.modelType == "" then mt == "<none>" else mt == m.modelType }

  function TypeCount(ms: seq<Model>, mt: string): nat {
    if ms == [] then 0 else TypeCount(ms[..|ms| - 1], mt) + if HasType(ms[|ms| - 1], mt) then 1 else 0
  }

  function CellCount(ms: seq<Model>, mt: string, a: string): nat {
    if ms == [] then 0
    else CellCount(ms[..|ms| - 1], mt, a) + if HasType(ms[|ms| - 1], mt) then Occurrences(ms[|ms| - 1].archs, a) else 0
  }

  function BareCount(ms: seq<Model>): nat {
    if ms == [] then 0 else BareCount(ms[..|ms| - 1]) + if ms[|ms| - 1].archs == [] then 1 else 0
  }

  lemma {:induction false} ArchsCounted(s: State, key: string, archs: seq<string>, mt: string, a: string)
    ensures var s' := AddArchs(s, key, archs);
            && Get(s'.counts, a) == Get(s.counts, a) + Occurrences(archs, a)
            && Get(Bucket(s', mt), a) == Get(Bucket(s, mt), a) + (if mt == key then Occurrences(archs, a) else 0)
            && s'.mtCount == s.mtCount && s'.noArch == s.noArch && s'.index == s.index
  {
    if archs != [] { ArchsCounted(s, key, archs[..|archs| - 1], mt, a); }
  }

  /** Every counter holds the number its name promises. */
  lemma {:induction false} SweepCounts(ms: seq<Model>, mt: string, a: string)
    ensures var s := AddModels(EMPTY, ms);
            && Get(s.counts, a) == ArchCount(ms, a)
            && Get(Bucket(s, mt), a) == CellCount(ms, mt, a)
            && Get(s.mtCount, mt) == TypeCount(ms, mt)
            && (mt in s.mtCount <==> TypeCount(ms, mt) > 0)
            && s.noArch == BareCount(ms)
  {
    hide AddArchs;
    if ms != [] {
      var n := |ms| - 1;
      SweepCounts(ms[..n], mt, a);
      var s, m := AddModels(EMPTY, ms[..n]), ms[n];
      ArchsCounted(Noted(s, m), TypeKey(m), m.archs, mt, a);
    }
  }

  /** The index holds the type of the last model of each name. */
  lemma {:induction false} IndexHoldsLast(ms: seq<Model>, k: nat)
    requires k < |ms| && forall j | k < j < |ms| :: ms[j].id != ms[k].id
    ensures var index := FilesOf(AddModels(EMPTY, ms)).index; var mt := ms[k].modelType;
            ms[k].id in index && index[ms[k].id] == if mt == "" then [] else [mt]
  {
    hide AddArchs;
    var n := |ms| - 1;
    assert FilesOf(AddModels(EMPTY, ms)).index == AddModels(EMPTY, ms).index;
    if k < n { IndexHoldsLast(ms[..n], k); }
    var s, m := AddModels(EMPTY, ms[..n]), ms[n];
    ArchsCounted(Noted(s, m), TypeKey(m), m.archs, "", "");
  }

  /** And it has no names but theirs. */
  lemma {:induction false} IndexNames(ms: seq<Model>, id: string)
    ensures id in FilesOf(AddModels(EMPTY, ms)).index <==> exists k | 0 <= k < |ms| :: ms[k].id == id
  {
    hide AddArchs;
    assert FilesOf(AddModels(EMPTY, ms)).index == AddModels(EMPTY, ms).index;
    if ms != [] {
      var n := |ms| - 1;
      IndexNames(ms[..n], id);
      var s, m := AddModels(EMPTY, ms[..n]), ms[n];
      ArchsCounted(Noted(s, m), TypeKey(m), m.archs, "", "");
      assert forall k | 0 <= k < n :: ms[..n][k] == ms[k];
    }
  }

  /** The aggregate has exactly the model types that occur, each with its count and its bucket. */
  lemma AggregateCounts(ms: seq<Model>, mt: string, a: string)
    ensures var g := FilesOf(AddModels(EMPTY, ms)).aggregate;
            && (mt in g <==> TypeCount(ms, mt) > 0)
            && (mt in g ==> g[mt].0 == TypeCount(ms, mt) && Get(g[mt].1, a) == CellCount(ms, mt, a))
  {
    hide AddModels, Total;
    SweepBalanced(ms);
    SweepCounts(ms, mt, a);
  }

  /** In the files the buckets still sum to the counts, except for an architecture literally named
      like the no-architecture key: its count is overwritten, and balances only by coincidence. */
  lemma FilesBalance(ms: seq<Model>, a: string)
    ensures var s := AddModels(EMPTY, ms); var f := FilesOf(s);
            && f.total == |ms| && f.noArch == BareCount(ms)
            && Get(f.counts, a) == (if a == "<none>" then BareCount(ms) else ArchCount(ms, a))
            && (Total(Column(s.mtArchs, a)) == Get(f.counts, a) <==> a != "<none>" || ArchCount(ms, "<none>") == BareCount(ms))
  {
    hide Total, AddModels;
    SweepBalanced(ms);
    SweepCounts(ms, "", a);
  }
}
