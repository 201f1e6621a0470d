/** One execution from extracted source values to output document. */
module MappingRun {
  import opened Basics
  import LotusSteps
  import opened FieldPaths
  import S = Scheduler
  import P = Processing
  import E = Execution
  import opened Targets
  import opened TargetWriter
  import opened Output
  import opened OutputReads
  import opened FieldPlaces
  import opened TargetOutput
  import opened Documents
  import opened DocumentPlaces
  import A = Assign

  /** The plan refuses exactly the writes the target fields refuse. */
  ghost predicate SameRefusals(p: S.Plan, fs: seq<Field>, conv: Converter) {
    forall w :: p.refuses(w) == Refused(fs, conv, w)
  }

  lemma {:induction false} WritesAccepted(p: S.Plan, ls: seq<S.Link>, results: S.Results, w: S.Write)
    requires (forall l <- ls :: S.LinkOk(p, l, results)) && w in S.AllWrites(p, ls, results)
    ensures !p.refuses(w)
  {
    hide S.LinkWrites;
    var n := |ls| - 1;
    assert ls[n] in ls;
    if w in S.LinkWrites(p, ls[n], results) {
      assert S.LinkOk(p, ls[n], results);
    } else {
      WritesAccepted(p, ls[..n], results, w);
    }
  }

  lemma CompleteAccepted(p: S.Plan, t: S.Trace, results: S.Results)
    requires S.Complete(p, t, results)
    ensures forall w <- S.WritesAlong(p, t, results) :: !p.refuses(w)
  {
    hide S.LinkOk;
    var ls := S.Picked(p, t);
    forall l | l in ls ensures S.LinkOk(p, l, results) {
      var k :| 0 <= k < |ls| && ls[k] == l;
      assert S.LinkOk(p, p.links[t[k]], results);
    }
    forall w | w in S.WritesAlong(p, t, results) ensures !p.refuses(w) { WritesAccepted(p, ls, results, w); }
  }

  // ---------- what an execution may answer ----------

  /** The links decide what is written, and with it whether the waiting values can be converted. */
  ghost predicate Succeeds(p: S.Plan, fs: seq<Field>, conv: Converter) {
    match P.RunPlan(p)
    case Stuck => false
    case Ran(t, r) => BroadcastsConvert(fs, conv, S.WritesAlong(p, t, r))
  }

  /** Success and document of an execution: the orders of maps decide only among the documents that the writes
      may give. */
  ghost predicate Answers(p: S.Plan, fs: seq<Field>, conv: Converter, ok: bool, tree: Tree, raw: A.Raw) {
    && (ok <==> Succeeds(p, fs, conv))
    && (ok ==> var o := P.RunPlan(p); Generates(fs, conv, S.WritesAlong(p, o.trace, o.results), tree, raw))
  }

  /** Any two executions of a definition on a document succeed both or fail both, and for schemas whose siblings have
      paths apart their output documents are equal. */
  lemma AnswersAgree(p: S.Plan, fs: seq<Field>, conv: Converter, ok: bool, tree: Tree, raw: A.Raw, ok': bool, tree': Tree, raw': A.Raw)
    requires Unique(fs) && Answers(p, fs, conv, ok, tree, raw) && Answers(p, fs, conv, ok', tree', raw')
    ensures ok == ok'
    ensures ok && Unmixed(fs) && SiblingsApart(fs) ==> raw == raw'
  {
    hide Unmixed, SiblingsApart, Unique, P.RunPlan, BroadcastsConvert, Generates;
    var o := P.RunPlan(p);
    if o.Ran? && ok && Unmixed(fs) && SiblingsApart(fs) {
      OneDocument(fs, conv, S.WritesAlong(p, o.trace, o.results), tree, raw, tree', raw');
    }
  }

  /** What a successful execution means for its leaves and its steps. */
  ghost predicate Delivers(p: S.Plan, fs: seq<Field>, conv: Converter, tree: Tree, raw: A.Raw) {
    match P.RunPlan(p)
    case Stuck => false
    case Ran(t, r) =>
      var log := S.WritesAlong(p, t, r);
      && S.Complete(p, t, r)
      && (Unmixed(fs) && SiblingsApart(fs) ==>
            forall f, i | f in Ids(fs) && (RootOf(fs, f).Some? ==> i >= 0) && LeafAmong(fs, log, f) ::
              OutputAt(fs, raw, tree, f, i) == Converted(conv, f, Expected(fs, log, f, i)))
      && (Unmixed(fs) && SiblingsApart(fs) ==>
            forall f, i | f in Ids(fs) && (RootOf(fs, f).Some? ==> i in Recorded(fs, log, RootOf(fs, f).value)) && LeafAmong(fs, log, f) ::
              ReadAt(LotusSteps.Obj(raw), Places(fs, f), PlaceOf(fs, log, f, i)) == Converted(conv, f, Expected(fs, log, f, i)))
  }

  /** Why an execution failed: its links, or a waiting value for an array with recorded indices. */
  ghost predicate FailsRightly(p: S.Plan, fs: seq<Field>, conv: Converter) {
    match P.RunPlan(p)
    case Stuck => exists t, r :: S.Failed(p, t, r)
    case Ran(t, r) => S.Complete(p, t, r) && !BroadcastsConvert(fs, conv, S.WritesAlong(p, t, r))
  }

  lemma PlainlyDelivered(fs: seq<Field>, conv: Converter, log: seq<S.Write>, tree: Tree, raw: A.Raw)
    requires Unique(fs) && Generates(fs, conv, log, tree, raw)
    ensures Unmixed(fs) && SiblingsApart(fs) ==>
      forall f, i | f in Ids(fs) && (RootOf(fs, f).Some? ==> i in Recorded(fs, log, RootOf(fs, f).value)) && LeafAmong(fs, log, f) ::
        ReadAt(LotusSteps.Obj(raw), Places(fs, f), PlaceOf(fs, log, f, i)) == Converted(conv, f, Expected(fs, log, f, i))
  {
    hide Unique, Unmixed, SiblingsApart, Ids, LeafAmong, Generates, ReadAt, PlaceOf, Recorded, RootOf, Expected;
    if Unmixed(fs) && SiblingsApart(fs) {
      forall f, i | f in Ids(fs) && (RootOf(fs, f).Some? ==> i in Recorded(fs, log, RootOf(fs, f).value)) && LeafAmong(fs, log, f)
        ensures ReadAt(LotusSteps.Obj(raw), Places(fs, f), PlaceOf(fs, log, f, i)) == Converted(conv, f, Expected(fs, log, f, i))
      {
        PlainDocument(fs, conv, log, tree, raw, f, i);
      }
    }
  }

  // ---------- from an array of the source to one of the document ----------

  /** The value at position n is the last of its field at its index. */
  ghost predicate LastOfItem(values: seq<S.SourceValue>, field: string, n: nat) {
    && n < |values| && values[n].field == field
    && forall m :: n < m < |values| && values[m].field == field ==> values[m].index != values[n].index
  }

  ghost function SmallerItems(values: seq<S.SourceValue>, field: string, i: int): set<int> {
    set m | 0 <= m < |values| && values[m].field == field && values[m].index < i :: values[m].index as int
  }

  /** With a single link from an item field to a field inside an array, the element of the output array for an index is
      made of the value extracted at that index, and stands after the elements of smaller indices. */
  lemma ItemsArrive(p: S.Plan, fs: seq<Field>, conv: Converter, tree: Tree, raw: A.Raw, source: string, target: string, n: nat)
    requires Unique(fs) && Unmixed(fs) && SiblingsApart(fs) && target in Ids(fs) && RootOf(fs, target).Some?
    requires source != "" && target != "" && source in p.itemFields && p.links == [S.Link(source, "", LotusSteps.Nil, target, "")]
    requires Answers(p, fs, conv, true, tree, raw) && LastOfItem(p.values, source, n)
    ensures ReadAt(LotusSteps.Obj(raw), Places(fs, target), |SmallerItems(p.values, source, p.values[n].index)|) == conv(target, p.values[n].value)
  {
    hide Unique, Unmixed, SiblingsApart, Ids, LeafAmong, Generates, ReadAt, RootOf, Expected, S.WritesOf;
    OneLinkRuns(p);
    var log := S.LinkWrites(p, p.links[0], map[]);
    S.LinkWritesExactly(p, p.links[0], map[]);
    LogOfItems(p, fs, source, target, log, n);
    AllOneField(fs, log, target);
    PlainlyDelivered(fs, conv, log, tree, raw);
  }

  lemma OneLinkRuns(p: S.Plan)
    requires |p.links| == 1 && p.links[0].srcField != "" && p.links[0].tgtField != ""
    ensures P.RunPlan(p).Ran? ==> P.RunPlan(p) == P.Ran([0], map[])
    ensures S.WritesAlong(p, [0], map[]) == S.LinkWrites(p, p.links[0], map[])
  {
    hide S.LinkOk, S.LinkWrites, P.RunLink, P.RunSources, S.AllWrites;
    P.FieldTurn(p, [], map[], 0);
    P.SourceTurn(p, [], map[], 0);
    assert [] + [0] == [0];
    P.SourcesEnd(p, [0], map[]);
    NothingWritten(p);
    S.WritesExtend(p, [], 0, map[]);
  }

  lemma NothingWritten(p: S.Plan)
    ensures S.WritesAlong(p, [], map[]) == []
  {
  }

  lemma AllOneField(fs: seq<Field>, log: seq<S.Write>, f: string)
    requires Unique(fs) && f in Ids(fs) && forall w <- log :: w.field == f
    ensures LeafAmong(fs, log, f)
  {
    ChainFound(fs, f);
  }

  lemma LogOfItems(p: S.Plan, fs: seq<Field>, source: string, target: string, log: seq<S.Write>, n: nat)
    requires source != "" && source in p.itemFields && RootOf(fs, target).Some? && LastOfItem(p.values, source, n)
    requires S.WritesOf(p, S.Link(source, "", LotusSteps.Nil, target, ""), map[], log)
    ensures forall w <- log :: w.field == target
    ensures var r, i := RootOf(fs, target).value, p.values[n].index;
      && i in Recorded(fs, log, r) && Expected(fs, log, target, i) == Some(p.values[n].value)
      && PlaceOf(fs, log, target, i) == |SmallerItems(p.values, source, i)|
  {
    hide RootOf, Recorded, LastAt, LastScalar, S.ItemWritesAt, ItemAt, Smaller, SmallerItems;
    var l := S.Link(source, "", LotusSteps.Nil, target, "");
    var pos: seq<nat> :| S.ItemWritesAt(p, l, log, pos);
    var r, i := RootOf(fs, target).value, p.values[n].index;
    LogFields(p, l, log, pos);
    var k := LogLast(p, l, log, pos, n);
    LastAtIs(fs, log, target, i, k);
    NoScalar(log, target);
    forall j ensures j in Recorded(fs, log, r) <==> ItemAt(p.values, source, j) {
      RecordedOf(fs, log, target, j);
      LogIndices(p, l, log, pos, j);
    }
    assert ItemAt(p.values, source, i) by { ItemHere(p.values, source, n); }
    SameSmaller(Recorded(fs, log, r), p.values, source, i);
  }

  lemma ItemHere(values: seq<S.SourceValue>, field: string, n: nat)
    requires n < |values| && values[n].field == field
    ensures ItemAt(values, field, values[n].index)
  {
  }

  lemma SameSmaller(all: set<int>, values: seq<S.SourceValue>, field: string, i: int)
    requires forall j :: j in all <==> ItemAt(values, field, j)
    ensures Smaller(all, i) == SmallerItems(values, field, i)
  {
    forall j ensures j in Smaller(all, i) <==> j in SmallerItems(values, field, i) {
      assert j in Smaller(all, i) <==> j < i && ItemAt(values, field, j);
    }
  }

  ghost predicate ItemAt(values: seq<S.SourceValue>, field: string, j: int) {
    exists m :: 0 <= m < |values| && values[m].field == field && values[m].index == j
  }

  lemma LogFields(p: S.Plan, l: S.Link, log: seq<S.Write>, pos: seq<nat>)
    requires S.ItemWritesAt(p, l, log, pos)
    ensures forall w <- log :: w.field == l.tgtField && w.index >= 0
  {
  }

  lemma LogLast(p: S.Plan, l: S.Link, log: seq<S.Write>, pos: seq<nat>, n: nat) returns (k: nat)
    requires S.ItemWritesAt(p, l, log, pos) && LastOfItem(p.values, l.srcField, n)
    ensures k < |log| && log[k] == S.Write(l.tgtField, p.values[n].value, p.values[n].index)
    ensures forall m :: k < m < |log| ==> log[m].index != p.values[n].index
  {
    k :| 0 <= k < |pos| && pos[k] == n;
    forall m | k < m < |log| ensures log[m].index != p.values[n].index { assert pos[k] < pos[m]; }
  }

  lemma LogIndices(p: S.Plan, l: S.Link, log: seq<S.Write>, pos: seq<nat>, j: int)
    requires S.ItemWritesAt(p, l, log, pos)
    ensures (exists w :: w in log && w.index == j) <==> ItemAt(p.values, l.srcField, j)
  {
    if m :| 0 <= m < |p.values| && p.values[m].field == l.srcField && p.values[m].index == j {
      var x :| 0 <= x < |pos| && pos[x] == m;
      assert log[x].index == j && log[x] in log;
    }
    if w :| w in log && w.index == j {
      var x :| 0 <= x < |log| && log[x] == w;
      assert p.values[pos[x]].index == j;
    }
  }

  lemma {:induction false} LastAtIs(fs: seq<Field>, ws: seq<S.Write>, f: string, i: int, k: nat)
    requires k < |ws| && ws[k].field == f && ws[k].index == i && RootOf(fs, f).Some?
    requires forall m :: k < m < |ws| ==> ws[m].index != i
    ensures LastAt(fs, ws, f, i) == Some(ws[k].value)
  {
    hide RootOf;
    if k < |ws| - 1 { LastAtIs(fs, ws[..|ws| - 1], f, i, k); }
  }

  lemma {:induction false} NoScalar(ws: seq<S.Write>, f: string)
    requires forall w <- ws :: w.index >= 0
    ensures LastScalar(ws, f) == None
  {
    if ws != [] { NoScalar(ws[..|ws| - 1], f); }
  }

  lemma {:induction false} RecordedOf(fs: seq<Field>, ws: seq<S.Write>, f: string, j: int)
    requires RootOf(fs, f).Some? && forall w <- ws :: w.field == f && w.index >= 0
    ensures j in Recorded(fs, ws, RootOf(fs, f).value) <==> exists w :: w in ws && w.index == j
  {
    hide RootOf;
    if ws != [] {
      var n := |ws| - 1;
      assert ws[n] in ws;
      RecordedOf(fs, ws[..n], f, j);
      assert forall w :: w in ws <==> w in ws[..n] || w == ws[n];
    }
  }

  // ---------- executions ----------

  /** The body of an execution on blank objects, new or reused: links first, then their writes, then the output. */
  method Execute(m: E.Mapping, target: Target, p: S.Plan, fs: seq<Field>, conv: Converter) returns (ok: bool, raw: A.Raw)
    requires S.ValidPlan(p) && Unique(fs) && SameRefusals(p, fs, conv)
    requires m.IsBlank() && target.IsBlank()
    modifies m, target
    ensures Answers(p, fs, conv, ok, target.tree, raw)
    ensures ok ==> Delivers(p, fs, conv, target.tree, raw)
    ensures !ok ==> FailsRightly(p, fs, conv)
  {
    hide S.Complete, S.Failed, S.WritesAlong, Unmixed, SiblingsApart, LeafAmong, OutputAt, Expected, Refused, RootOf, Ids, S.Steady, Logged,
      BroadcastsConvert, Generates, P.RunPlan, ReadAt, PlaceOf, Recorded;
    raw := map[];
    m.Begin(p);
    ok := m.Run();
    if !ok { return; }
    CompleteAccepted(p, m.trace, m.results);
    target.Begin(fs, conv);
    var writes := m.writes;
    for k := 0 to |writes|
      invariant target.Valid() && target.fields == fs && target.convert == conv && target.log == writes[..k]
    {
      assert writes[k] in writes;
      ok := target.Set(writes[k]);
      assert writes[..k + 1] == writes[..k] + [writes[k]];
    }
    assert writes[..|writes|] == writes;
    ok, raw := GenerateTargetRaw(target);
    if ok { PlainlyDelivered(fs, conv, writes, target.tree, raw); }
  }

  /** ExecuteMapping: on objects made for the purpose. */
  method ExecuteMapping(p: S.Plan, fs: seq<Field>, conv: Converter) returns (ok: bool, tree: Tree, raw: A.Raw)
    requires S.ValidPlan(p) && Unique(fs) && SameRefusals(p, fs, conv)
    ensures Answers(p, fs, conv, ok, tree, raw)
    ensures ok ==> Delivers(p, fs, conv, tree, raw)
    ensures !ok ==> FailsRightly(p, fs, conv)
  {
    var m := new E.Mapping();
    var target := new Target();
    ok, raw := Execute(m, target, p, fs, conv);
    tree := target.tree;
  }
}
