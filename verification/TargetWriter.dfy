/** The engine's target side: writes arrive one by one, then the broadcasts are applied. */
module TargetWriter {
  import opened Basics
  import opened LotusSteps
  import opened FieldPaths
  import opened TargetTree
  import opened Scheduler
  import opened Targets

  type Indices = map<string, set<int>>
  type Pending = map<string, seq<Broadcast>>

  /** A write fails on an unknown field, and unless it is put off, on a value the field cannot take. */
  predicate Refused(fs: seq<Field>, conv: Converter, w: Write) {
    w.field !in Ids(fs) || (!Deferred(fs, w) && conv(w.field, w.value).None?)
  }

  /** No written field contains f or lies inside it. */
  ghost predicate LeafAmong(fs: seq<Field>, log: seq<Write>, f: string) {
    forall w <- log :: Separate(fs, w.field, f)
  }

  const NoConversion: Converter := (_, _) => None

  class Target {
    var fields: seq<Field>
    var paths: seq<Hop>
    var convert: Converter
    var tree: Tree
    var indices: Indices
    var pending: Pending
    ghost var log: seq<Write>

    constructor ()
      ensures IsBlank()
    {
      fields, convert, paths := [], NoConversion, [];
      tree, indices, pending, log := map[], map[], map[], [];
    }

    ghost predicate IsBlank()
      reads this
    {
      fields == [] && paths == [] && convert == NoConversion && tree == map[] && indices == map[] && pending == map[] && log == []
    }

    /** Taking on the definition of one execution. */
    method Begin(fs: seq<Field>, conv: Converter)
      requires IsBlank() && Unique(fs)
      modifies this
      ensures Valid() && log == [] && fields == fs && convert == conv
    {
      fields, convert, paths := fs, conv, Table(fs);
    }

    /** Clearing everything, the maps key by key. */
    method Reset()
      modifies this
      ensures IsBlank()
    {
      fields, paths, convert := [], [], NoConversion;
      tree := Emptied(tree);
      indices := Emptied(indices);
      pending := Emptied(pending);
      log := [];
    }

    ghost predicate Valid()
      reads this
    {
      && Unique(fields) && paths == Table(fields)
      && Logged(fields, convert, log, tree, indices, pending)
    }

    method GetArrayRoot(c: seq<Hop>) returns (r: Option<string>)
      ensures r == ArrayRoot(c)
    {
      assert c[0..] == c;
      for k := 0 to |c|
        invariant ArrayRoot(c) == ArrayRoot(c[k..])
      {
        if c[k].isItem && c[k].parent != "" { return Some(c[k].parent); }
        assert c[k..][1..] == c[k + 1..];
      }
      r := None;
    }

    /** The write itself, once it is known not to be put off. */
    method WriteNow(c: seq<Hop>, w: Write) returns (ok: bool)
      requires Unique(fields) && Chain(fields, w.field) == Some(c) && IsChain(c, w.field)
      requires w.index < 0 ==> ArrayRoot(c).None?
      modifies this`tree
      ensures ok <==> convert(w.field, w.value).Some?
      ensures tree == WriteOne(fields, convert, old(tree), w)
    {
      hide Chain, Unique;
      var value := convert(w.field, w.value);
      if value.None? { return false; }
      var root := if c[0].id in tree then tree[c[0].id] else Node(c[0].id, 0, Nil, [], []);
      if |c| == 1 {
        root := root.(value := value.value);
      } else {
        if w.index < 0 { NoItemHop(c); }
        ok, root := SetChild(c[1..], root, value.value, w.index);
      }
      tree := tree[c[0].id := root];
      ok := true;
    }

    /** setTargetFieldValueWithIndex */
    method Set(w: Write) returns (ok: bool)
      requires Valid()
      modifies this`tree, this`indices, this`pending, this`log
      ensures ok <==> !Refused(fields, convert, w)
      ensures ok <==> w.field in Ids(fields) && ((RootOf(fields, w.field).Some? && w.index < 0) || convert(w.field, w.value).Some?)
      ensures ok ==> Valid() && log == old(log) + [w]
    {
      hide Chain, Unique, Ids, Table, Logged;
      var path := GetPathToField(fields, paths, w.field);
      FoundRow(fields, w.field);
      if path.None? { return false; }
      ChainShape(fields, w.field);
      var root := GetArrayRoot(path.value);
      ghost var before := tree;
      if root.Some? && w.index < 0 {
        pending := pending[root.value := PendingOf(pending, root.value) + [Broadcast(w.field, w.value)]];
        LogDeferred(fields, convert, log, tree, indices, old(pending), w);
      } else {
        if root.Some? {
          indices := indices[root.value := IndicesOf(indices, root.value) + {w.index}];
        }
        ok := WriteNow(path.value, w);
        if !ok { return false; }
        LogDirect(fields, convert, log, before, old(indices), pending, w);
      }
      log := log + [w];
      ok := true;
    }

    /** Arrays and indices are visited in an arbitrary order, each index getting the waiting broadcasts in turn. */
    method ApplyBroadcasts() returns (ok: bool, ghost ws: seq<Write>)
      requires Valid()
      modifies this`tree, this`pending
      ensures ok <==> forall r, b | IndicesOf(indices, r) != {} && b in PendingOf(old(pending), r) :: convert(b.field, b.value).Some?
      ensures ok ==> pending == map[] && Schedule(fields, ws, indices, old(pending))
      ensures ok <==> BroadcastsConvert(fields, convert, log)
      ensures ok ==> Written(fields, convert, log, ws, tree)
      ensures ok ==> forall f, i | f in Ids(fields) && (RootOf(fields, f).Some? ==> i >= 0) && LeafAmong(fields, log, f) ::
          Reading(fields, tree, f, i) == Converted(convert, f, Expected(fields, log, f, i))
    {
      hide Chain, Unique, Ids, Table, Logged, Partly, LeafAmong, Converts, ConvertsAt, Written, BroadcastsConvert;
      ghost var start := tree;
      ws := [];
      var roots := pending.Keys;
      NothingApplied(fields, convert, start, indices, pending);
      while roots != {}
        invariant roots <= pending.Keys && pending == old(pending) && Valid2(start)
        invariant Partly(fields, convert, start, tree, ws, indices, pending, pending.Keys - roots, "", {})
        invariant Converts(convert, indices, pending, pending.Keys - roots)
      {
        var r :| r in roots;
        var done := pending.Keys - roots;
        var bcasts := pending[r];
        var todo := IndicesOf(indices, r);
        StartRoot(fields, convert, start, tree, ws, indices, pending, done, r);
        while todo != {}
          invariant todo <= IndicesOf(indices, r) && pending == old(pending) && Valid2(start)
          invariant Partly(fields, convert, start, tree, ws, indices, pending, done, r, IndicesOf(indices, r) - todo)
          invariant todo != IndicesOf(indices, r) ==> forall b <- bcasts :: convert(b.field, b.value).Some?
        {
          SomeIndex(todo);
          var idx :| idx in todo;
          ghost var t0 := tree;
          ok := ApplyAt(r, idx);
          if !ok {
            Stuck(convert, indices, pending, r);
            ConvertsAll(convert, indices, pending);
            ConvertsLogged(fields, convert, log, start, indices, pending);
            return;
          }
          NextIndex(fields, convert, start, t0, ws, indices, pending, log, done, r, IndicesOf(indices, r) - todo, idx);
          ws := ws + AtIndex(bcasts, idx);
          assert IndicesOf(indices, r) - (todo - {idx}) == (IndicesOf(indices, r) - todo) + {idx};
          todo := todo - {idx};
        }
        assert IndicesOf(indices, r) - {} == IndicesOf(indices, r);
        EndRoot(fields, convert, start, tree, ws, indices, pending, done, r);
        ConvertsNext(convert, indices, pending, done, r);
        assert pending.Keys - (roots - {r}) == done + {r};
        roots := roots - {r};
      }
      assert pending.Keys - roots == pending.Keys;
      AllApplied(fields, convert, start, tree, ws, indices, pending, log);
      ConvertsAll(convert, indices, pending);
      ConvertsLogged(fields, convert, log, start, indices, pending);
      pending := map[];
      ok := true;
    }

    ghost predicate Valid2(start: Tree)
      reads this
    {
      Unique(fields) && paths == Table(fields) && Logged(fields, convert, log, start, indices, pending)
    }

    /** The innermost loop: the waiting broadcasts of one array at one index. */
    method ApplyAt(r: string, idx: int) returns (ok: bool)
      requires Unique(fields) && r in pending && idx in IndicesOf(indices, r)
      requires exists start :: Valid2(start)
      modifies this`tree
      ensures ok <==> forall b <- pending[r] :: convert(b.field, b.value).Some?
      ensures ok ==> tree == WriteAll(fields, convert, old(tree), AtIndex(pending[r], idx))
    {
      hide Chain, Unique, Ids, Table, Logged;
      ghost var start :| Valid2(start);
      var bcasts := pending[r];
      ghost var all := AtIndex(bcasts, idx);
      for k := 0 to |bcasts|
        invariant tree == WriteAll(fields, convert, old(tree), all[..k])
        invariant forall j :: 0 <= j < k ==> convert(bcasts[j].field, bcasts[j].value).Some?
      {
        var b := bcasts[k];
        WaitingIsKnown(fields, convert, log, start, indices, pending, r, idx, b);
        var w := Write(b.field, b.value, idx);
        var path := Chain(fields, b.field).value;
        ghost var before := tree;
        var done := WriteNow(path, w);
        if !done {
          assert b in bcasts;
          return false;
        }
        assert all[k] == w;
        assert all[..k + 1][..k] == all[..k];
        WriteAllNext(fields, convert, old(tree), all[..k + 1]);
      }
      assert all[..|bcasts|] == all;
      ok := true;
    }
  }

  lemma {:induction false} WriteAllNext(fs: seq<Field>, conv: Converter, tree: Tree, ws: seq<Write>)
    requires ws != []
    ensures WriteAll(fs, conv, tree, ws) == WriteOne(fs, conv, WriteAll(fs, conv, tree, ws[..|ws| - 1]), ws[|ws| - 1])
  {
  }

  // ---------- the state told by the log ----------

  ghost predicate Logged(fs: seq<Field>, conv: Converter, log: seq<Write>, tree: Tree, indices: Indices, pending: Pending) {
    && tree == WriteAll(fs, conv, map[], Direct(fs, log))
    && Leaves(log, indices, pending, fs)
    && AllConvert(conv, Direct(fs, log))
    && forall w <- log :: w.field in Ids(fs)
  }

  ghost function Index(fs: seq<Field>, w: Write, r: string): set<int> {
    if RootOf(fs, w.field) == Some(r) && w.index >= 0 then {w.index} else {}
  }

  ghost function Scalar(fs: seq<Field>, w: Write, r: string): seq<Broadcast> {
    if RootOf(fs, w.field) == Some(r) && w.index < 0 then [Broadcast(w.field, w.value)] else []
  }

  lemma LogParts(fs: seq<Field>, log: seq<Write>, w: Write)
    ensures Direct(fs, log + [w]) == if Deferred(fs, w) then Direct(fs, log) else Direct(fs, log) + [w]
    ensures forall r :: Recorded(fs, log + [w], r) == Recorded(fs, log, r) + Index(fs, w, r)
    ensures forall r :: Waiting(fs, log + [w], r) == Waiting(fs, log, r) + Scalar(fs, w, r)
  {
    assert (log + [w])[..|log|] == log;
  }

  lemma LogDeferred(fs: seq<Field>, conv: Converter, log: seq<Write>, tree: Tree, indices: Indices, pending: Pending, w: Write)
    requires Logged(fs, conv, log, tree, indices, pending) && Deferred(fs, w) && w.field in Ids(fs)
    ensures var r := RootOf(fs, w.field).value;
      Logged(fs, conv, log + [w], tree, indices, pending[r := PendingOf(pending, r) + [Broadcast(w.field, w.value)]])
  {
    hide RootOf, Ids, WriteAll, Direct, Recorded, Waiting;
    LogParts(fs, log, w);
  }

  lemma LogDirect(fs: seq<Field>, conv: Converter, log: seq<Write>, tree: Tree, indices: Indices, pending: Pending, w: Write)
    requires Logged(fs, conv, log, tree, indices, pending) && !Deferred(fs, w) && w.field in Ids(fs)
    requires conv(w.field, w.value).Some?
    ensures Logged(fs, conv, log + [w], WriteOne(fs, conv, tree, w),
                   match RootOf(fs, w.field) case Some(r) => indices[r := IndicesOf(indices, r) + {w.index}] case None => indices,
                   pending)
  {
    hide RootOf, Ids, WriteOne, Direct, Recorded, Waiting;
    LogParts(fs, log, w);
    var us := Direct(fs, log);
    assert (us + [w])[..|us|] == us;
  }

  lemma {:induction false} WaitingLogged(fs: seq<Field>, log: seq<Write>, r: string, b: Broadcast)
    requires b in Waiting(fs, log, r)
    ensures exists w :: w in log && w.field == b.field && RootOf(fs, w.field) == Some(r)
  {
    hide RootOf;
    var n := |log| - 1;
    if b in Waiting(fs, log[..n], r) {
      WaitingLogged(fs, log[..n], r, b);
    } else {
      assert log[n] in log;
    }
  }

  lemma WaitingIsKnown(fs: seq<Field>, conv: Converter, log: seq<Write>, start: Tree, indices: Indices, pending: Pending,
                       r: string, idx: int, b: Broadcast)
    requires Unique(fs) && Logged(fs, conv, log, start, indices, pending) && b in PendingOf(pending, r)
    requires idx in IndicesOf(indices, r)
    ensures RootOf(fs, b.field) == Some(r) && b.field in Ids(fs)
    ensures Chain(fs, b.field).Some? && IsChain(Chain(fs, b.field).value, b.field)
    ensures idx >= 0
  {
    hide Chain, Unique, Ids, Recorded, Waiting;
    assert PendingOf(pending, r) == Waiting(fs, log, r);
    WaitingLogged(fs, log, r, b);
    ChainShape(fs, b.field);
    assert IndicesOf(indices, r) == Recorded(fs, log, r);
    RecordedNonNegative(fs, log, r);
  }

  lemma {:induction false} RecordedNonNegative(fs: seq<Field>, log: seq<Write>, r: string)
    ensures forall i <- Recorded(fs, log, r) :: i >= 0
  {
    if log != [] { RecordedNonNegative(fs, log[..|log| - 1], r); }
  }

  // ---------- partly applied broadcasts ----------

  ghost predicate Converts(conv: Converter, indices: Indices, pending: Pending, roots: set<string>) {
    forall r <- roots :: ConvertsAt(conv, indices, pending, r)
  }

  ghost predicate ConvertsAt(conv: Converter, indices: Indices, pending: Pending, r: string) {
    IndicesOf(indices, r) != {} ==> forall b <- PendingOf(pending, r) :: conv(b.field, b.value).Some?
  }

  ghost function Covered(indices: Indices, pending: Pending, done: set<string>, r: string, cur: set<int>, x: string, i: int): seq<Write> {
    if i in IndicesOf(indices, x) && (x in done || (x == r && i in cur)) then AtIndex(PendingOf(pending, x), i) else []
  }

  /** ws covers the arrays in done and the items cur of array r. */
  ghost predicate Partly(fs: seq<Field>, conv: Converter, start: Tree, tree: Tree, ws: seq<Write>, indices: Indices, pending: Pending,
                         done: set<string>, r: string, cur: set<int>) {
    && tree == WriteAll(fs, conv, start, ws)
    && (forall w <- ws :: RootOf(fs, w.field).Some? && w.index >= 0)
    && AllConvert(conv, ws)
    && forall x, i :: Landing(fs, ws, x, i) == Covered(indices, pending, done, r, cur, x, i)
  }

  lemma NothingApplied(fs: seq<Field>, conv: Converter, start: Tree, indices: Indices, pending: Pending)
    ensures Partly(fs, conv, start, start, [], indices, pending, pending.Keys - pending.Keys, "", {})
    ensures Converts(conv, indices, pending, pending.Keys - pending.Keys)
  {
    assert pending.Keys - pending.Keys == {};
  }

  lemma StartRoot(fs: seq<Field>, conv: Converter, start: Tree, tree: Tree, ws: seq<Write>, indices: Indices, pending: Pending,
                  done: set<string>, r: string)
    requires Partly(fs, conv, start, tree, ws, indices, pending, done, "", {})
    ensures Partly(fs, conv, start, tree, ws, indices, pending, done, r, IndicesOf(indices, r) - IndicesOf(indices, r))
  {
    hide WriteAll, Landing, RootOf;
  }

  lemma EndRoot(fs: seq<Field>, conv: Converter, start: Tree, tree: Tree, ws: seq<Write>, indices: Indices, pending: Pending,
                done: set<string>, r: string)
    requires Partly(fs, conv, start, tree, ws, indices, pending, done, r, IndicesOf(indices, r))
    ensures Partly(fs, conv, start, tree, ws, indices, pending, done + {r}, "", {})
  {
    hide WriteAll, Landing, RootOf;
  }

  lemma {:induction false} LandingConcat(fs: seq<Field>, ws: seq<Write>, us: seq<Write>, r: string, i: int)
    ensures Landing(fs, ws + us, r, i) == Landing(fs, ws, r, i) + Landing(fs, us, r, i)
  {
    hide RootOf;
    if us == [] {
      assert ws + us == ws;
    } else {
      var n := |us| - 1;
      LandingConcat(fs, ws, us[..n], r, i);
      assert (ws + us)[..|ws + us| - 1] == ws + us[..n];
    }
  }

  lemma {:induction false} LandingStep(fs: seq<Field>, ws: seq<Write>, w: Write, r: string, i: int)
    ensures Landing(fs, [], r, i) == []
    ensures Landing(fs, ws + [w], r, i) ==
      if RootOf(fs, w.field) == Some(r) && w.index == i then Landing(fs, ws, r, i) + [w] else Landing(fs, ws, r, i)
  {
    hide RootOf;
    assert (ws + [w])[..|ws|] == ws;
  }

  lemma {:induction false} LandingBlock(fs: seq<Field>, bs: seq<Broadcast>, r: string, i: int, x: string, j: int)
    requires forall b <- bs :: RootOf(fs, b.field) == Some(r)
    ensures Landing(fs, AtIndex(bs, i), x, j) == if x == r && i == j then AtIndex(bs, i) else []
  {
    hide RootOf, Landing;
    if bs == [] {
      LandingStep(fs, [], Write("", Nil, 0), x, j);
    } else {
      var n := |bs| - 1;
      assert bs[n] in bs;
      LandingBlock(fs, bs[..n], r, i, x, j);
      var w := Write(bs[n].field, bs[n].value, i);
      LandingStep(fs, AtIndex(bs[..n], i), w, x, j);
      assert AtIndex(bs, i) == AtIndex(bs[..n], i) + [w];
    }
  }

  lemma NextIndex(fs: seq<Field>, conv: Converter, start: Tree, tree: Tree, ws: seq<Write>, indices: Indices, pending: Pending,
                  log: seq<Write>, done: set<string>, r: string, cur: set<int>, i: int)
    requires Unique(fs) && Logged(fs, conv, log, start, indices, pending)
    requires Partly(fs, conv, start, tree, ws, indices, pending, done, r, cur)
    requires r in pending && r !in done && i in IndicesOf(indices, r) && i !in cur
    requires forall b <- pending[r] :: conv(b.field, b.value).Some?
    ensures Partly(fs, conv, start, WriteAll(fs, conv, tree, AtIndex(pending[r], i)), ws + AtIndex(pending[r], i),
                   indices, pending, done, r, cur + {i})
  {
    hide WriteAll, Landing, RootOf, Logged, Unique;
    var bs := pending[r];
    var us := AtIndex(bs, i);
    forall b | b in bs ensures RootOf(fs, b.field) == Some(r) && i >= 0 {
      WaitingIsKnown(fs, conv, log, start, indices, pending, r, i, b);
    }
    WriteAllConcat(fs, conv, start, ws, us);
    forall x, j
      ensures Landing(fs, ws + us, x, j) ==
        if j in IndicesOf(indices, x) && (x in done || (x == r && j in cur + {i})) then AtIndex(PendingOf(pending, x), j) else []
    {
      LandingConcat(fs, ws, us, x, j);
      LandingBlock(fs, bs, r, i, x, j);
    }
  }

  lemma SomeIndex(s: set<int>)
    ensures s == {} || exists i :: i in s
  {
    if forall i :: i !in s { assert s == {}; }
  }

  lemma ConvertsAll(conv: Converter, indices: Indices, pending: Pending)
    ensures Converts(conv, indices, pending, pending.Keys) <==>
      forall r, b | IndicesOf(indices, r) != {} && b in PendingOf(pending, r) :: conv(b.field, b.value).Some?
  {
    assert forall r | r !in pending :: PendingOf(pending, r) == [];
    if forall r, b | IndicesOf(indices, r) != {} && b in PendingOf(pending, r) :: conv(b.field, b.value).Some? {
      assert forall r <- pending.Keys :: ConvertsAt(conv, indices, pending, r);
    } else {
      var r, b :| IndicesOf(indices, r) != {} && b in PendingOf(pending, r) && conv(b.field, b.value).None?;
      assert !ConvertsAt(conv, indices, pending, r) && r in pending.Keys;
    }
  }

  lemma ConvertsNext(conv: Converter, indices: Indices, pending: Pending, done: set<string>, r: string)
    requires r in pending && Converts(conv, indices, pending, done)
    requires IndicesOf(indices, r) == {} || forall b <- pending[r] :: conv(b.field, b.value).Some?
    ensures Converts(conv, indices, pending, done + {r})
  {
  }

  lemma ConvertsLogged(fs: seq<Field>, conv: Converter, log: seq<Write>, tree: Tree, indices: Indices, pending: Pending)
    requires Logged(fs, conv, log, tree, indices, pending)
    ensures Converts(conv, indices, pending, pending.Keys) <==> BroadcastsConvert(fs, conv, log)
  {
    hide Converts, Leaves, BroadcastsConvert;
    ConvertsByLog(fs, conv, log, indices, pending);
  }

  lemma Stuck(conv: Converter, indices: Indices, pending: Pending, r: string)
    requires r in pending && IndicesOf(indices, r) != {} && !forall b <- pending[r] :: conv(b.field, b.value).Some?
    ensures !Converts(conv, indices, pending, pending.Keys)
  {
    assert !ConvertsAt(conv, indices, pending, r) && r in pending.Keys;
  }

  lemma {:induction false} DirectLogged(fs: seq<Field>, log: seq<Write>)
    ensures forall w <- Direct(fs, log) :: w in log
  {
    if log != [] { DirectLogged(fs, log[..|log| - 1]); }
  }

  lemma {:induction false} LandingHas(fs: seq<Field>, ws: seq<Write>, w: Write)
    requires w in ws && RootOf(fs, w.field).Some?
    ensures w in Landing(fs, ws, RootOf(fs, w.field).value, w.index)
  {
    hide RootOf;
    if w != ws[|ws| - 1] { LandingHas(fs, ws[..|ws| - 1], w); }
  }

  lemma ScheduledLogged(fs: seq<Field>, log: seq<Write>, ws: seq<Write>, indices: Indices, pending: Pending, w: Write)
    requires Leaves(log, indices, pending, fs) && Schedule(fs, ws, indices, pending) && w in ws
    ensures exists v :: v in log && v.field == w.field
  {
    hide Landing, RootOf, Waiting, Recorded;
    LandingHas(fs, ws, w);
    var r := RootOf(fs, w.field).value;
    assert w in AtIndex(PendingOf(pending, r), w.index);
    WaitingLogged(fs, log, r, Broadcast(w.field, w.value));
  }

  /** The final tree: the direct writes of the log, then the broadcasts ws. */
  ghost predicate Written(fs: seq<Field>, conv: Converter, log: seq<Write>, ws: seq<Write>, tree: Tree) {
    && tree == WriteAll(fs, conv, map[], Direct(fs, log) + ws)
    && AllConvert(conv, Direct(fs, log) + ws)
    && (forall w <- ws :: RootOf(fs, w.field).Some? && w.index in Recorded(fs, log, RootOf(fs, w.field).value))
    && Scheduled(fs, log, ws)
    && forall w <- Direct(fs, log) + ws :: w.field in Ids(fs) && exists v :: v in log && v.field == w.field
  }

  /** On every item of every array ws makes the scalar writes of the log, in their order, if the log recorded the item. */
  ghost predicate Scheduled(fs: seq<Field>, log: seq<Write>, ws: seq<Write>) {
    forall r, i :: Landing(fs, ws, r, i) == Broadcasts(fs, log, r, i)
  }

  ghost function Broadcasts(fs: seq<Field>, log: seq<Write>, r: string, i: int): seq<Write> {
    if i in Recorded(fs, log, r) then AtIndex(Waiting(fs, log, r), i) else []
  }

  /** Every scalar write waiting for an array with recorded indices can be converted. */
  ghost predicate BroadcastsConvert(fs: seq<Field>, conv: Converter, log: seq<Write>) {
    forall r, b | Recorded(fs, log, r) != {} && b in Waiting(fs, log, r) :: conv(b.field, b.value).Some?
  }

  lemma ConvertsByLog(fs: seq<Field>, conv: Converter, log: seq<Write>, indices: Indices, pending: Pending)
    requires Leaves(log, indices, pending, fs)
    ensures Converts(conv, indices, pending, pending.Keys) <==> BroadcastsConvert(fs, conv, log)
  {
    hide Recorded, Waiting, ConvertsAt;
    ConvertsAll(conv, indices, pending);
    assert forall r :: IndicesOf(indices, r) == Recorded(fs, log, r) && PendingOf(pending, r) == Waiting(fs, log, r);
  }

  lemma WrittenSeparate(fs: seq<Field>, conv: Converter, log: seq<Write>, ws: seq<Write>, tree: Tree, f: string)
    requires Written(fs, conv, log, ws, tree) && LeafAmong(fs, log, f)
    ensures AllSeparate(fs, Direct(fs, log) + ws, f)
  {
    hide Separate;
  }

  lemma WrittenWhenApplied(fs: seq<Field>, conv: Converter, start: Tree, tree: Tree, ws: seq<Write>, indices: Indices, pending: Pending,
                           log: seq<Write>)
    requires Logged(fs, conv, log, start, indices, pending)
    requires Partly(fs, conv, start, tree, ws, indices, pending, pending.Keys, "", {})
    ensures Schedule(fs, ws, indices, pending) && Written(fs, conv, log, ws, tree)
  {
    hide Landing, RootOf, WriteAll, Ids, Direct, Recorded, Waiting;
    assert Schedule(fs, ws, indices, pending);
    var us := Direct(fs, log);
    WriteAllConcat(fs, conv, map[], us, ws);
    DirectLogged(fs, log);
    forall w | w in ws ensures w.index in Recorded(fs, log, RootOf(fs, w.field).value) {
      LandingHas(fs, ws, w);
      assert IndicesOf(indices, RootOf(fs, w.field).value) == Recorded(fs, log, RootOf(fs, w.field).value);
    }
    forall r, i ensures Landing(fs, ws, r, i) == Broadcasts(fs, log, r, i) {
      assert IndicesOf(indices, r) == Recorded(fs, log, r) && PendingOf(pending, r) == Waiting(fs, log, r);
    }
    forall w | w in us + ws ensures w.field in Ids(fs) && exists v :: v in log && v.field == w.field {
      if w !in us { ScheduledLogged(fs, log, ws, indices, pending, w); }
    }
  }

  lemma AllApplied(fs: seq<Field>, conv: Converter, start: Tree, tree: Tree, ws: seq<Write>, indices: Indices, pending: Pending, log: seq<Write>)
    requires Unique(fs) && Logged(fs, conv, log, start, indices, pending)
    requires Partly(fs, conv, start, tree, ws, indices, pending, pending.Keys, "", {})
    ensures Schedule(fs, ws, indices, pending)
    ensures Written(fs, conv, log, ws, tree)
    ensures forall f, i | f in Ids(fs) && (RootOf(fs, f).Some? ==> i >= 0) && LeafAmong(fs, log, f) ::
        Reading(fs, tree, f, i) == Converted(conv, f, Expected(fs, log, f, i))
  {
    hide Landing, RootOf, WriteAll, Unique, Ids, Direct, Reading, Expected, Separate;
    WrittenWhenApplied(fs, conv, start, tree, ws, indices, pending, log);
    forall f, i | f in Ids(fs) && (RootOf(fs, f).Some? ==> i >= 0) && LeafAmong(fs, log, f)
      ensures Reading(fs, tree, f, i) == Converted(conv, f, Expected(fs, log, f, i))
    {
      WrittenSeparate(fs, conv, log, ws, tree, f);
      FinalReading(fs, conv, log, ws, indices, pending, f, i);
    }
  }
}
