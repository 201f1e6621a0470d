/** Target writes of one execution: direct ones grow the tree, scalar ones into array items wait and
    are applied to every index recorded for their array. */
module Targets {
  import opened Basics
  import opened LotusSteps
  import opened FieldPaths
  import opened TargetTree
  import opened Scheduler

  /** Default, required and type of a target field: what a value becomes when set, or None for an error. */
  type Converter = (string, Value) -> Option<Value>

  type Tree = map<string, Node>

  datatype Broadcast = Broadcast(field: string, value: Value)

  /** The array a chain runs through: the parent of its first item hop. */
  function ArrayRoot(c: seq<Hop>): Option<string> {
    if c == [] then None else if c[0].isItem && c[0].parent != "" then Some(c[0].parent) else ArrayRoot(c[1..])
  }

  function RootOf(fs: seq<Field>, f: string): Option<string> {
    match Chain(fs, f) case Some(c) => ArrayRoot(c) case None => None
  }

  predicate Deferred(fs: seq<Field>, w: Write) { RootOf(fs, w.field).Some? && w.index < 0 }

  // ---------- the tree ----------

  function TreePut(tree: Tree, c: seq<Hop>, v: Value, i: int): Tree
    requires c != []
  {
    var n := if c[0].id in tree then tree[c[0].id] else Node(c[0].id, 0, Nil, [], []);
    tree[c[0].id := Put(n, Keys(c[1..], i), v)]
  }

  function TreeGet(tree: Tree, c: seq<Hop>, i: int): Option<Value>
    requires c != []
  {
    if c[0].id in tree then ValueAt(tree[c[0].id], Keys(c[1..], i)) else None
  }

  function WriteOne(fs: seq<Field>, conv: Converter, tree: Tree, w: Write): Tree {
    match Chain(fs, w.field)
    case None => tree
    case Some(c) =>
      match conv(w.field, w.value)
      case None => tree
      case Some(v) => if c == [] then tree else TreePut(tree, c, v, w.index)
  }

  function WriteAll(fs: seq<Field>, conv: Converter, tree: Tree, ws: seq<Write>): Tree {
    if ws == [] then tree
    else WriteOne(fs, conv, WriteAll(fs, conv, tree, ws[..|ws| - 1]), ws[|ws| - 1])
  }

  function Reading(fs: seq<Field>, tree: Tree, f: string, i: int): Option<Value> {
    match Chain(fs, f)
    case None => None
    case Some(c) => if c == [] then None else TreeGet(tree, c, i)
  }

  /** Neither field contains the other. */
  ghost predicate Separate(fs: seq<Field>, f: string, g: string) {
    Chain(fs, f).Some? && Chain(fs, g).Some? &&
    (f == g || (!(Chain(fs, f).value <= Chain(fs, g).value) && !(Chain(fs, g).value <= Chain(fs, f).value)))
  }

  /** Every hop of a chain ends the chain of its own field. */
  lemma {:induction false} ChainPrefix(fs: seq<Field>, f: string, k: nat)
    requires Unique(fs) && f in Ids(fs)
    requires Chain(fs, f).Some? && k < |Chain(fs, f).value|
    ensures var c := Chain(fs, f).value; Chain(fs, c[k].id) == Some(c[..k + 1])
    decreases |Chain(fs, f).value|
  {
    var c := Chain(fs, f).value;
    ChainShape(fs, f);
    if k < |c| - 1 {
      FoundRow(fs, f);
      var h := c[|c| - 1];
      assert h == Find(Table(fs), f);
      assert Chain(fs, h.parent) == Some(c[..|c| - 1]);
      ChainFound(fs, h.parent);
      ChainPrefix(fs, h.parent, k);
      assert c[..|c| - 1][..k + 1] == c[..k + 1];
    } else {
      assert c[..k + 1] == c;
    }
  }

  lemma NotAbove(fs: seq<Field>, f: string, i: int, g: string, j: int)
    requires Unique(fs) && f in Ids(fs) && g in Ids(fs)
    requires Chain(fs, f).Some? && Chain(fs, g).Some?
    requires var c, d := Chain(fs, f).value, Chain(fs, g).value;
      c != [] && d != [] && c[0].id == d[0].id && !(c <= d)
    ensures !(Keys(Chain(fs, f).value[1..], i) <= Keys(Chain(fs, g).value[1..], j))
  {
    var c, d := Chain(fs, f).value, Chain(fs, g).value;
    var ks, ls := Keys(c[1..], i), Keys(d[1..], j);
    ChainShape(fs, f);
    if ks <= ls {
      var n := |c| - 1;
      if n > 0 { assert ks[n - 1] == ls[n - 1]; }
      assert c[n].id == d[n].id;
      ChainPrefix(fs, g, n);
    }
  }

  lemma {:induction false} ItemHop(c: seq<Hop>) returns (k: nat)
    requires ArrayRoot(c).Some?
    ensures k < |c| && c[k].isItem && c[k].parent == ArrayRoot(c).value
  {
    if c[0].isItem && c[0].parent != "" {
      k := 0;
    } else {
      k := ItemHop(c[1..]);
      k := k + 1;
    }
  }

  lemma {:induction false} NoItemHop(c: seq<Hop>)
    requires ArrayRoot(c).None? && forall k :: 0 <= k < |c| && c[k].isItem ==> c[k].parent != ""
    ensures forall k :: 0 <= k < |c| ==> !c[k].isItem
  {
    if c != [] { NoItemHop(c[1..]); assert c == [c[0]] + c[1..]; }
  }

  /** Without an array on the way the index does not matter. */
  lemma SameKeys(fs: seq<Field>, f: string, i: int, j: int)
    requires Unique(fs) && f in Ids(fs) && RootOf(fs, f).None?
    ensures Chain(fs, f).Some? && Chain(fs, f).value != []
    ensures Keys(Chain(fs, f).value[1..], i) == Keys(Chain(fs, f).value[1..], j)
  {
    ChainShape(fs, f);
    var c := Chain(fs, f).value;
    NoItemHop(c);
  }

  lemma KeysApart(fs: seq<Field>, f: string, i: int, g: string, j: int)
    requires Unique(fs) && f in Ids(fs) && g in Ids(fs) && Separate(fs, f, g)
    requires f != g || (RootOf(fs, f).Some? && i != j)
    ensures var c, d := Chain(fs, f).value, Chain(fs, g).value;
      c != [] && d != [] && (c[0].id == d[0].id ==> TargetTree.Apart(Keys(c[1..], i), Keys(d[1..], j)))
  {
    var c, d := Chain(fs, f).value, Chain(fs, g).value;
    ChainShape(fs, f);
    ChainShape(fs, g);
    if c[0].id == d[0].id {
      if f != g {
        NotAbove(fs, f, i, g, j);
        NotAbove(fs, g, j, f, i);
      } else {
        var k := ItemHop(c);
        assert Keys(c[1..], i)[k - 1] != Keys(d[1..], j)[k - 1];
      }
    }
  }

  /** One write reads back, and nothing else changes. */
  lemma WriteOneReads(fs: seq<Field>, conv: Converter, tree: Tree, w: Write, g: string, j: int)
    requires Unique(fs) && w.field in Ids(fs) && g in Ids(fs) && Separate(fs, w.field, g)
    requires conv(w.field, w.value).Some?
    ensures Reading(fs, WriteOne(fs, conv, tree, w), g, j) ==
      if w.field == g && (RootOf(fs, g).None? || w.index == j) then conv(w.field, w.value) else Reading(fs, tree, g, j)
  {
    hide Chain, Unique, Ids, ArrayRoot, Put, Get;
    var f, i := w.field, w.index;
    ChainShape(fs, f);
    ChainShape(fs, g);
    var c, d := Chain(fs, f).value, Chain(fs, g).value;
    var v := conv(f, w.value).value;
    var n := if c[0].id in tree then tree[c[0].id] else Node(c[0].id, 0, Nil, [], []);
    if f == g && (RootOf(fs, g).None? || i == j) {
      if RootOf(fs, g).None? { SameKeys(fs, f, i, j); }
      TargetTree.ReadBack(n, Keys(c[1..], i), v);
    } else {
      KeysApart(fs, f, i, g, j);
      if c[0].id == d[0].id {
        TargetTree.Frame(n, Keys(c[1..], i), v, Keys(d[1..], j));
        NewRootReadsNothing(c[0].id, Keys(d[1..], j));
      }
    }
  }

  lemma NewRootReadsNothing(id: string, ks: seq<Key>)
    ensures ks != [] ==> ValueAt(Node(id, 0, Nil, [], []), ks) == None
  {
  }

  // ---------- any number of writes ----------

  ghost predicate AllSeparate(fs: seq<Field>, ws: seq<Write>, g: string) {
    forall w <- ws :: w.field in Ids(fs) && Separate(fs, w.field, g)
  }

  predicate AllConvert(conv: Converter, ws: seq<Write>) {
    forall w <- ws :: conv(w.field, w.value).Some?
  }

  /** The value of the last write that lands on (f, i). */
  function LastAt(fs: seq<Field>, ws: seq<Write>, f: string, i: int): Option<Value> {
    if ws == [] then None
    else
      var w := ws[|ws| - 1];
      if w.field == f && (RootOf(fs, f).None? || w.index == i) then Some(w.value)
      else LastAt(fs, ws[..|ws| - 1], f, i)
  }

  function Converted(conv: Converter, f: string, v: Option<Value>): Option<Value> {
    match v case Some(x) => conv(f, x) case None => None
  }

  lemma {:induction false} WriteAllReads(fs: seq<Field>, conv: Converter, tree: Tree, ws: seq<Write>, f: string, i: int)
    requires Unique(fs) && f in Ids(fs) && AllSeparate(fs, ws, f) && AllConvert(conv, ws)
    ensures Reading(fs, WriteAll(fs, conv, tree, ws), f, i) ==
      if LastAt(fs, ws, f, i).Some? then Converted(conv, f, LastAt(fs, ws, f, i)) else Reading(fs, tree, f, i)
  {
    hide WriteOne, Reading, Separate, Unique, Ids;
    if ws != [] {
      var n := |ws| - 1;
      assert ws[n] in ws;
      WriteAllReads(fs, conv, tree, ws[..n], f, i);
      WriteOneReads(fs, conv, WriteAll(fs, conv, tree, ws[..n]), ws[n], f, i);
    }
  }

  lemma {:induction false} WriteAllConcat(fs: seq<Field>, conv: Converter, tree: Tree, ws: seq<Write>, us: seq<Write>)
    ensures WriteAll(fs, conv, tree, ws + us) == WriteAll(fs, conv, WriteAll(fs, conv, tree, ws), us)
  {
    hide WriteOne;
    if us == [] {
      assert ws + us == ws;
    } else {
      WriteAllConcat(fs, conv, tree, ws, us[..|us| - 1]);
      assert (ws + us)[..|ws + us| - 1] == ws + us[..|us| - 1];
    }
  }

  // ---------- what a log of writes leaves behind ----------

  function Direct(fs: seq<Field>, ws: seq<Write>): seq<Write> {
    if ws == [] then []
    else
      var w, before := ws[|ws| - 1], Direct(fs, ws[..|ws| - 1]);
      if Deferred(fs, w) then before else before + [w]
  }

  /** The indices written under array r, and the scalar writes waiting for it. */
  function Recorded(fs: seq<Field>, ws: seq<Write>, r: string): set<int> {
    if ws == [] then {}
    else
      var w := ws[|ws| - 1];
      Recorded(fs, ws[..|ws| - 1], r) + (if RootOf(fs, w.field) == Some(r) && w.index >= 0 then {w.index} else {})
  }

  function Waiting(fs: seq<Field>, ws: seq<Write>, r: string): seq<Broadcast> {
    if ws == [] then []
    else
      var w, before := ws[|ws| - 1], Waiting(fs, ws[..|ws| - 1], r);
      if RootOf(fs, w.field) == Some(r) && w.index < 0 then before + [Broadcast(w.field, w.value)] else before
  }

  function AtIndex(bs: seq<Broadcast>, i: int): seq<Write> {
    seq(|bs|, k requires 0 <= k < |bs| => Write(bs[k].field, bs[k].value, i))
  }

  /** The writes among ws that land on item i of array r. */
  function Landing(fs: seq<Field>, ws: seq<Write>, r: string, i: int): seq<Write> {
    if ws == [] then []
    else
      var w, before := ws[|ws| - 1], Landing(fs, ws[..|ws| - 1], r, i);
      if RootOf(fs, w.field) == Some(r) && w.index == i then before + [w] else before
  }

  function IndicesOf(indices: map<string, set<int>>, r: string): set<int> { if r in indices then indices[r] else {} }
  function PendingOf(pending: map<string, seq<Broadcast>>, r: string): seq<Broadcast> { if r in pending then pending[r] else [] }

  /** ws applies the broadcasts to the indices: arrays and indices in any order, the broadcasts of one
      array at one index in the order they were made. */
  ghost predicate Schedule(fs: seq<Field>, ws: seq<Write>, indices: map<string, set<int>>, pending: map<string, seq<Broadcast>>) {
    && (forall w <- ws :: RootOf(fs, w.field).Some? && w.index >= 0)
    && forall r, i :: Landing(fs, ws, r, i) == if i in IndicesOf(indices, r) then AtIndex(PendingOf(pending, r), i) else []
  }

  // ---------- what is read in the end ----------

  /** The last scalar write to f. */
  function LastScalar(ws: seq<Write>, f: string): Option<Value> {
    if ws == [] then None
    else if ws[|ws| - 1].field == f && ws[|ws| - 1].index < 0 then Some(ws[|ws| - 1].value)
    else LastScalar(ws[..|ws| - 1], f)
  }

  /** The value a field should end with at index i, told from the log alone: outside arrays the last
      write; inside, nothing at an index no write touched, else the last scalar write, wherever in the log
      it stands, else the last write at that index. */
  function Expected(fs: seq<Field>, ws: seq<Write>, f: string, i: int): Option<Value> {
    match RootOf(fs, f)
    case None => LastAt(fs, ws, f, i)
    case Some(r) =>
      if i !in Recorded(fs, ws, r) then None
      else if LastScalar(ws, f).Some? then LastScalar(ws, f)
      else LastAt(fs, ws, f, i)
  }

  // ---------- the same, told by positions in the log ----------

  /** Write number k is the last of those to f that are at index i, or the last scalar one of f. */
  ghost predicate IsLastAt(ws: seq<Write>, f: string, i: int, k: nat) {
    k < |ws| && ws[k].field == f && ws[k].index == i && forall j :: k < j < |ws| && ws[j].field == f ==> ws[j].index != i
  }

  ghost predicate IsLastScalar(ws: seq<Write>, f: string, k: nat) {
    k < |ws| && ws[k].field == f && ws[k].index < 0 && forall j :: k < j < |ws| && ws[j].field == f ==> ws[j].index >= 0
  }

  ghost predicate IsLastOf(ws: seq<Write>, f: string, k: nat) {
    k < |ws| && ws[k].field == f && forall j :: k < j < |ws| ==> ws[j].field != f
  }

  ghost predicate Records(fs: seq<Field>, ws: seq<Write>, r: string, i: int, k: nat) {
    k < |ws| && RootOf(fs, ws[k].field) == Some(r) && ws[k].index == i >= 0
  }

  lemma {:induction false} RecordedAre(fs: seq<Field>, ws: seq<Write>, r: string, i: int)
    ensures i in Recorded(fs, ws, r) <==> exists k: nat :: Records(fs, ws, r, i, k)
  {
    hide RootOf;
    if ws != [] {
      var n := |ws| - 1;
      RecordedAre(fs, ws[..n], r, i);
      if k: nat :| Records(fs, ws[..n], r, i, k) { assert Records(fs, ws, r, i, k); }
      if k: nat :| Records(fs, ws, r, i, k) { assert k == n || Records(fs, ws[..n], r, i, k); }
      if i >= 0 && RootOf(fs, ws[n].field) == Some(r) && ws[n].index == i { assert Records(fs, ws, r, i, n); }
    }
  }

  lemma {:induction false} LastScalarIs(ws: seq<Write>, f: string) returns (k: nat)
    ensures LastScalar(ws, f).None? ==> forall j :: 0 <= j < |ws| && ws[j].field == f ==> ws[j].index >= 0
    ensures LastScalar(ws, f).Some? ==> IsLastScalar(ws, f, k) && LastScalar(ws, f) == Some(ws[k].value)
  {
    k := 0;
    if ws != [] {
      var n := |ws| - 1;
      k := LastScalarIs(ws[..n], f);
      if ws[n].field == f && ws[n].index < 0 { k := n; }
    }
  }

  lemma {:induction false} LastAtIs(fs: seq<Field>, ws: seq<Write>, f: string, i: int) returns (k: nat)
    ensures LastAt(fs, ws, f, i).None? ==> forall j :: 0 <= j < |ws| && ws[j].field == f ==> RootOf(fs, f).Some? && ws[j].index != i
    ensures LastAt(fs, ws, f, i).Some? ==> LastAt(fs, ws, f, i) == Some(if k < |ws| then ws[k].value else Nil)
    ensures LastAt(fs, ws, f, i).Some? ==> if RootOf(fs, f).Some? then IsLastAt(ws, f, i, k) else IsLastOf(ws, f, k)
  {
    hide RootOf;
    k := 0;
    if ws != [] {
      var n := |ws| - 1;
      k := LastAtIs(fs, ws[..n], f, i);
      if ws[n].field == f && (RootOf(fs, f).None? || ws[n].index == i) { k := n; }
    }
  }

  /** A field outside arrays should end with its last write. Inside one, at an index some write under the array
      used, with its last scalar write if it has any, else with its last write at that index; elsewhere with nothing. */
  lemma ExpectedExactly(fs: seq<Field>, ws: seq<Write>, f: string, i: int)
    ensures RootOf(fs, f).None? ==> forall k: nat | IsLastOf(ws, f, k) :: Expected(fs, ws, f, i) == Some(ws[k].value)
    ensures forall r | RootOf(fs, f) == Some(r) ::
      && ((forall k: nat :: !Records(fs, ws, r, i, k)) ==> Expected(fs, ws, f, i) == None)
      && ((exists n: nat :: Records(fs, ws, r, i, n)) ==>
            && (forall k: nat | IsLastScalar(ws, f, k) :: Expected(fs, ws, f, i) == Some(ws[k].value))
            && ((forall k: nat :: !IsLastScalar(ws, f, k)) ==> forall k: nat | IsLastAt(ws, f, i, k) :: Expected(fs, ws, f, i) == Some(ws[k].value)))
    ensures Expected(fs, ws, f, i).Some? ==> exists k :: 0 <= k < |ws| && ws[k].field == f && Expected(fs, ws, f, i) == Some(ws[k].value)
  {
    hide RootOf, LastAt, LastScalar, Recorded;
    var a := LastAtIs(fs, ws, f, i);
    var s := LastScalarIs(ws, f);
    forall r | RootOf(fs, f) == Some(r) ensures i in Recorded(fs, ws, r) <==> exists k: nat :: Records(fs, ws, r, i, k) {
      RecordedAre(fs, ws, r, i);
    }
  }

  lemma {:induction false} LastLanding(fs: seq<Field>, ws: seq<Write>, f: string, i: int)
    requires RootOf(fs, f).Some? && i >= 0
    ensures LastAt(fs, ws, f, i) == LastAt(fs, Landing(fs, ws, RootOf(fs, f).value, i), f, i)
  {
    hide RootOf;
    if ws != [] {
      var r := RootOf(fs, f).value;
      var n := |ws| - 1;
      LastLanding(fs, ws[..n], f, i);
      var before := Landing(fs, ws[..n], r, i);
      assert (before + [ws[n]])[..|before|] == before;
    }
  }

  lemma {:induction false} LastBroadcast(fs: seq<Field>, ws: seq<Write>, f: string, i: int)
    requires RootOf(fs, f).Some? && i >= 0
    ensures LastAt(fs, AtIndex(Waiting(fs, ws, RootOf(fs, f).value), i), f, i) == LastScalar(ws, f)
  {
    hide RootOf;
    if ws != [] {
      var r := RootOf(fs, f).value;
      var n := |ws| - 1;
      LastBroadcast(fs, ws[..n], f, i);
      var before := Waiting(fs, ws[..n], r);
      var b := Broadcast(ws[n].field, ws[n].value);
      assert AtIndex(before + [b], i)[..|before|] == AtIndex(before, i);
      assert AtIndex(before + [b], i)[|before|] == Write(b.field, b.value, i);
    }
  }

  lemma {:induction false} LastDirect(fs: seq<Field>, ws: seq<Write>, f: string, i: int)
    requires RootOf(fs, f).None? || i >= 0
    ensures LastAt(fs, Direct(fs, ws), f, i) == LastAt(fs, ws, f, i)
  {
    hide RootOf;
    if ws != [] {
      var n := |ws| - 1;
      LastDirect(fs, ws[..n], f, i);
      var before := Direct(fs, ws[..n]);
      assert (before + [ws[n]])[..|before|] == before;
    }
  }

  lemma {:induction false} NeverRecorded(fs: seq<Field>, ws: seq<Write>, f: string, i: int)
    requires RootOf(fs, f).Some? && i >= 0 && i !in Recorded(fs, ws, RootOf(fs, f).value)
    ensures LastAt(fs, ws, f, i) == None
  {
    hide RootOf;
    if ws != [] { NeverRecorded(fs, ws[..|ws| - 1], f, i); }
  }

  lemma {:induction false} NotDeferredOutside(fs: seq<Field>, ws: seq<Write>, f: string)
    requires RootOf(fs, f).None? && forall w <- ws :: RootOf(fs, w.field).Some?
    ensures forall i :: LastAt(fs, ws, f, i) == None
  {
    hide RootOf;
    if ws != [] {
      assert ws[|ws| - 1] in ws;
      NotDeferredOutside(fs, ws[..|ws| - 1], f);
    }
  }

  ghost predicate Leaves(log: seq<Write>, indices: map<string, set<int>>, pending: map<string, seq<Broadcast>>, fs: seq<Field>) {
    && (forall r :: IndicesOf(indices, r) == Recorded(fs, log, r))
    && (forall r :: PendingOf(pending, r) == Waiting(fs, log, r))
  }

  lemma ScheduleLands(fs: seq<Field>, log: seq<Write>, ws: seq<Write>, indices: map<string, set<int>>,
                      pending: map<string, seq<Broadcast>>, f: string, i: int)
    requires Leaves(log, indices, pending, fs) && Schedule(fs, ws, indices, pending)
    requires RootOf(fs, f).Some? && i >= 0
    ensures LastAt(fs, ws, f, i) ==
      if i in Recorded(fs, log, RootOf(fs, f).value) then LastScalar(log, f) else None
  {
    var r := RootOf(fs, f).value;
    hide Landing, Recorded, Waiting, RootOf;
    LastLanding(fs, ws, f, i);
    LastBroadcast(fs, log, f, i);
    assert Landing(fs, ws, r, i) == if i in IndicesOf(indices, r) then AtIndex(PendingOf(pending, r), i) else [];
  }

  /** After all writes and broadcasts, in whatever order arrays and indices are visited, every leaf reads
      exactly as the log says. */
  lemma FinalReading(fs: seq<Field>, conv: Converter, log: seq<Write>, ws: seq<Write>,
                     indices: map<string, set<int>>, pending: map<string, seq<Broadcast>>, f: string, i: int)
    requires Unique(fs) && f in Ids(fs) && (RootOf(fs, f).Some? ==> i >= 0)
    requires Leaves(log, indices, pending, fs) && Schedule(fs, ws, indices, pending)
    requires AllSeparate(fs, Direct(fs, log) + ws, f) && AllConvert(conv, Direct(fs, log) + ws)
    ensures Reading(fs, WriteAll(fs, conv, WriteAll(fs, conv, map[], Direct(fs, log)), ws), f, i)
         == Converted(conv, f, Expected(fs, log, f, i))
  {
    hide WriteAll, Reading, AllSeparate, AllConvert, RootOf, Direct, LastAt, LastScalar, Leaves, Schedule, Recorded;
    var us := Direct(fs, log);
    Parts(fs, conv, us, ws, f);
    WriteAllReads(fs, conv, map[], us, f, i);
    WriteAllReads(fs, conv, WriteAll(fs, conv, map[], us), ws, f, i);
    NothingYet(fs, f, i);
    LastDirect(fs, log, f, i);
    if RootOf(fs, f).None? {
      ScheduleOutside(fs, ws, indices, pending, f);
    } else {
      ScheduleLands(fs, log, ws, indices, pending, f, i);
      if i !in Recorded(fs, log, RootOf(fs, f).value) { NeverRecorded(fs, log, f, i); }
    }
  }

  lemma ScheduleOutside(fs: seq<Field>, ws: seq<Write>, indices: map<string, set<int>>,
                        pending: map<string, seq<Broadcast>>, f: string)
    requires Schedule(fs, ws, indices, pending) && RootOf(fs, f).None?
    ensures forall i :: LastAt(fs, ws, f, i) == None
  {
    hide RootOf, LastAt, Landing;
    NotDeferredOutside(fs, ws, f);
  }

  lemma Parts(fs: seq<Field>, conv: Converter, us: seq<Write>, ws: seq<Write>, f: string)
    requires AllSeparate(fs, us + ws, f) && AllConvert(conv, us + ws)
    ensures AllSeparate(fs, us, f) && AllSeparate(fs, ws, f) && AllConvert(conv, us) && AllConvert(conv, ws)
  {
    hide Separate;
    assert forall w <- us :: w in us + ws;
    assert forall w <- ws :: w in us + ws;
  }

  lemma NothingYet(fs: seq<Field>, f: string, i: int)
    ensures Reading(fs, map[], f, i) == None
  {
  }
}
