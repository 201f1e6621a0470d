/** Generating the output document from the writes of one execution. */
module TargetOutput {
  import opened Basics
  import opened LotusSteps
  import opened FieldPaths
  import opened TargetTree
  import opened Scheduler
  import opened Targets
  import opened TargetWriter
  import opened Output
  import opened OutputReads
  import opened FieldPlaces
  import A = Assign

  // ---------- the tree has the schema's shape ----------

  lemma {:induction false} ChainKeysShaped(fs: seq<Field>, f: string, k: nat, i: int)
    requires Unique(fs) && f in Ids(fs) && Chain(fs, f).Some? && 1 <= k <= |Chain(fs, f).value|
    ensures var c := Chain(fs, f).value; KeysShaped(fs, c[k - 1].id, Keys(c[k..], i))
    decreases |Chain(fs, f).value| - k
  {
    hide Chain, Unique, Ids, Table;
    var c := Chain(fs, f).value;
    if k < |c| {
      ChainShape(fs, f);
      ChainKeysShaped(fs, f, k + 1, i);
      ChainPrefix(fs, f, k);
      ChainFound(fs, c[k].id);
      FoundRow(fs, c[k].id);
      assert Find(Table(fs), c[k].id) == c[..k + 1][k];
      assert Keys(c[k..], i)[1..] == Keys(c[k + 1..], i);
    }
  }

  lemma RootIsRoot(fs: seq<Field>, f: string)
    requires Unique(fs) && f in Ids(fs)
    ensures Chain(fs, f).Some? && Chain(fs, f).value != [] && RootHop(fs, Chain(fs, f).value[0].id)
  {
    hide Chain, Unique, Ids, Table;
    ChainShape(fs, f);
    var c := Chain(fs, f).value;
    ChainPrefix(fs, f, 0);
    ChainFound(fs, c[0].id);
    FoundRow(fs, c[0].id);
  }

  ghost predicate TreeShaped(fs: seq<Field>, tree: Tree) {
    forall r | r in tree :: RootHop(fs, r) && tree[r].id == r && Shaped(fs, tree[r])
  }

  lemma {:induction false} WritesShaped(fs: seq<Field>, conv: Converter, ws: seq<Write>)
    requires Unique(fs) && Unmixed(fs) && forall w <- ws :: w.field in Ids(fs)
    ensures TreeShaped(fs, WriteAll(fs, conv, map[], ws))
  {
    hide Chain, Unique, Ids, Table, Unmixed, Shaped, Put, RootHop, KeysShaped;
    if ws != [] {
      var w := ws[|ws| - 1];
      assert w in ws;
      var tree := WriteAll(fs, conv, map[], ws[..|ws| - 1]);
      WritesShaped(fs, conv, ws[..|ws| - 1]);
      RootIsRoot(fs, w.field);
      var c := Chain(fs, w.field).value;
      if conv(w.field, w.value).Some? {
        var v := conv(w.field, w.value).value;
        var n := if c[0].id in tree then tree[c[0].id] else Node(c[0].id, 0, Nil, [], []);
        EmptyShaped(fs, c[0].id);
        ChainKeysShaped(fs, w.field, 1, w.index);
        PutShaped(fs, n, Keys(c[1..], w.index), v);
        PutKeepsKey(n, Keys(c[1..], w.index), v);
      }
    }
  }

  lemma EmptyShaped(fs: seq<Field>, id: string)
    ensures Shaped(fs, Node(id, 0, Nil, [], []))
  {
  }

  // ---------- leaves stay leaves ----------

  function TreeNode(tree: Tree, c: seq<Hop>, i: int): Option<Node>
    requires c != []
  {
    if c[0].id in tree then Get(tree[c[0].id], Keys(c[1..], i)) else None
  }

  predicate NoneOrChildless(n: Option<Node>) { n.Some? ==> Childless(n.value) }

  lemma {:induction false} WritesBare(fs: seq<Field>, conv: Converter, ws: seq<Write>, f: string, i: int)
    requires Unique(fs) && f in Ids(fs) && AllSeparate(fs, ws, f) && Chain(fs, f).Some? && Chain(fs, f).value != []
    ensures NoneOrChildless(TreeNode(WriteAll(fs, conv, map[], ws), Chain(fs, f).value, i))
  {
    hide Chain, Unique, Ids, Put, Get, Separate, RootOf;
    if ws != [] {
      var w := ws[|ws| - 1];
      assert w in ws;
      WritesBare(fs, conv, ws[..|ws| - 1], f, i);
      OneWriteBare(fs, conv, WriteAll(fs, conv, map[], ws[..|ws| - 1]), w, f, i);
    }
  }

  lemma OneWriteBare(fs: seq<Field>, conv: Converter, tree: Tree, w: Write, f: string, i: int)
    requires Unique(fs) && f in Ids(fs) && w.field in Ids(fs) && Separate(fs, w.field, f)
    requires Chain(fs, f).Some? && Chain(fs, f).value != [] && NoneOrChildless(TreeNode(tree, Chain(fs, f).value, i))
    ensures NoneOrChildless(TreeNode(WriteOne(fs, conv, tree, w), Chain(fs, f).value, i))
  {
    hide Chain, Unique, Ids, Put, Get, RootOf;
    ChainShape(fs, w.field);
    var c, d := Chain(fs, w.field).value, Chain(fs, f).value;
    if conv(w.field, w.value).Some? && c[0].id == d[0].id {
      var v := conv(w.field, w.value).value;
      var n := if c[0].id in tree then tree[c[0].id] else Node(c[0].id, 0, Nil, [], []);
      var ks, ls := Keys(c[1..], w.index), Keys(d[1..], i);
      NothingBelowNew(c[0].id, ls);
      if w.field == f && (RootOf(fs, f).None? || w.index == i) {
        if RootOf(fs, f).None? { SameKeys(fs, f, w.index, i); }
        PutBare(n, ks, v);
      } else {
        KeysApart(fs, w.field, w.index, f, i);
        TargetTree.Frame(n, ks, v, ls);
      }
    }
  }

  lemma NothingBelowNew(id: string, ks: seq<Key>)
    ensures NoneOrChildless(Get(Node(id, 0, Nil, [], []), ks))
  {
  }

  lemma PutBare(n: Node, ks: seq<Key>, v: Value)
    requires NoneOrChildless(Get(n, ks))
    ensures NoneOrChildless(Get(Put(n, ks, v), ks))
  {
    if ks != [] { LeafIsFresh(n, ks, v); }
  }

  // ---------- the document ----------

  /** What the output holds for field f at index i: array items by the rank of their index. */
  function OutputAt(fs: seq<Field>, raw: A.Raw, tree: Tree, f: string, i: int): Option<Value> {
    match Chain(fs, f)
    case None => None
    case Some(c) =>
      if c == [] || c[0].id !in tree then None
      else
        match A.Lookup(raw, A.Split(OutputPath(fs, c[0].id)))
        case None => None
        case Some(out) => Follow(fs, out, tree[c[0].id], Keys(c[1..], i))
  }

  /** ns lists the roots of the tree, in any order. */
  ghost predicate Lists(ns: seq<Node>, tree: Tree) {
    && DistinctIds(ns)
    && (forall n <- ns :: n.id in tree && tree[n.id] == n)
    && (forall r | r in tree :: tree[r] in ns)
  }

  lemma RootsBeside(fs: seq<Field>, tree: Tree, ns: seq<Node>)
    requires RowsApart(fs) && TreeShaped(fs, tree) && Lists(ns, tree)
    ensures Beside(fs, ns)
  {
    hide Shaped, RootHop, PathsApart, ChildHop;
    forall m, l | m in ns && l in ns ensures PathsApart(fs, m.id, l.id) {
      assert RootHop(fs, m.id) && RootHop(fs, l.id);
    }
  }

  /** The output holds the tree's reading of every leaf, in whatever order the roots are listed. */
  lemma OutputAgrees(fs: seq<Field>, conv: Converter, ws: seq<Write>, ns: seq<Node>, f: string, i: int)
    requires Unique(fs) && Unmixed(fs) && RowsApart(fs) && f in Ids(fs)
    requires (forall w <- ws :: w.field in Ids(fs)) && AllSeparate(fs, ws, f)
    requires Lists(ns, WriteAll(fs, conv, map[], ws))
    ensures var tree := WriteAll(fs, conv, map[], ws);
      OutputAt(fs, RawObject(fs, ns, ns), tree, f, i) == Reading(fs, tree, f, i)
  {
    hide Unique, Unmixed, RowsApart, Ids, Chain, RawObject, RawNode, Shaped, Follow, Get, RootHop, OutputPath, Beside, AllSeparate, WriteAll;
    var tree := WriteAll(fs, conv, map[], ws);
    WritesShaped(fs, conv, ws);
    RootIsRoot(fs, f);
    WritesBare(fs, conv, ws, f, i);
    RootsBeside(fs, tree, ns);
    var c := Chain(fs, f).value;
    if c[0].id in tree {
      ObjectReads(fs, ns, tree[c[0].id]);
      OutputReadsTree(fs, tree[c[0].id], Keys(c[1..], i));
    }
  }

  ghost predicate Named(tree: Tree) { forall r | r in tree :: tree[r].id == r }

  lemma {:induction false} WritesNamed(fs: seq<Field>, conv: Converter, ws: seq<Write>)
    ensures Named(WriteAll(fs, conv, map[], ws))
  {
    hide Chain, Put;
    if ws != [] {
      var w := ws[|ws| - 1];
      var tree := WriteAll(fs, conv, map[], ws[..|ws| - 1]);
      WritesNamed(fs, conv, ws[..|ws| - 1]);
      if Chain(fs, w.field).Some? && conv(w.field, w.value).Some? && Chain(fs, w.field).value != [] {
        var c := Chain(fs, w.field).value;
        var n := if c[0].id in tree then tree[c[0].id] else Node(c[0].id, 0, Nil, [], []);
        PutKeepsKey(n, Keys(c[1..], w.index), conv(w.field, w.value).value);
      }
    }
  }

  /** The roots of the target tree, in whatever order the map hands them out. */
  method Roots(tree: Tree) returns (fields: seq<Node>)
    requires Named(tree)
    ensures Lists(fields, tree)
  {
    fields := [];
    var rest := tree.Keys;
    while rest != {}
      invariant rest <= tree.Keys && DistinctIds(fields)
      invariant forall n <- fields :: n.id in tree && tree[n.id] == n && n.id !in rest
      invariant forall r | r in tree && r !in rest :: tree[r] in fields
    {
      var r :| r in rest;
      fields := fields + [tree[r]];
      rest := rest - {r};
    }
  }

  /** The documents that the writes of a log may give: broadcasts scheduled in some order, roots listed in some. */
  ghost predicate Generates(fs: seq<Field>, conv: Converter, log: seq<Write>, tree: Tree, raw: A.Raw) {
    exists ws: seq<Write>, ns: seq<Node> :: Made(fs, conv, log, ws, tree, ns, raw)
  }

  ghost predicate Made(fs: seq<Field>, conv: Converter, log: seq<Write>, ws: seq<Write>, tree: Tree, ns: seq<Node>, raw: A.Raw) {
    Written(fs, conv, log, ws, tree) && Lists(ns, tree) && raw == RawObject(fs, ns, ns)
  }

  /** generateTargetRaw: broadcasts first, then the roots become the document. */
  method GenerateTargetRaw(t: Target) returns (ok: bool, raw: A.Raw)
    requires t.Valid()
    modifies t`tree, t`pending
    ensures ok <==> forall r, b | IndicesOf(t.indices, r) != {} && b in PendingOf(old(t.pending), r) :: t.convert(b.field, b.value).Some?
    ensures ok <==> BroadcastsConvert(t.fields, t.convert, t.log)
    ensures ok ==> Generates(t.fields, t.convert, t.log, t.tree, raw)
    ensures ok && Unmixed(t.fields) && SiblingsApart(t.fields) ==>
      forall f, i | f in Ids(t.fields) && (RootOf(t.fields, f).Some? ==> i >= 0) && LeafAmong(t.fields, t.log, f) ::
        OutputAt(t.fields, raw, t.tree, f, i) == Converted(t.convert, f, Expected(t.fields, t.log, f, i))
  {
    hide Unmixed, RowsApart, SiblingsApart, Ids, LeafAmong, OutputAt, Expected, RawObject, Written, Schedule, Lists, Named, Reading, BroadcastsConvert;
    ghost var ws;
    ok, ws := t.ApplyBroadcasts();
    if !ok { return false, map[]; }
    WrittenNamed(t.fields, t.convert, t.log, ws, t.tree);
    var fields := Roots(t.tree);
    raw := GetTargetRawObject(t.fields, fields);
    assert Made(t.fields, t.convert, t.log, ws, t.tree, fields, raw);
    if Unmixed(t.fields) && SiblingsApart(t.fields) {
      SiblingRowsApart(t.fields);
      forall f, i | f in Ids(t.fields) && (RootOf(t.fields, f).Some? ==> i >= 0) && LeafAmong(t.fields, t.log, f)
        ensures OutputAt(t.fields, raw, t.tree, f, i) == Converted(t.convert, f, Expected(t.fields, t.log, f, i))
      {
        WrittenAgrees(t.fields, t.convert, t.log, ws, t.tree, fields, f, i);
      }
    }
  }

  lemma WrittenNamed(fs: seq<Field>, conv: Converter, log: seq<Write>, ws: seq<Write>, tree: Tree)
    requires Written(fs, conv, log, ws, tree)
    ensures Named(tree)
  {
    hide WriteAll, Direct;
    WritesNamed(fs, conv, Direct(fs, log) + ws);
  }

  lemma WrittenAgrees(fs: seq<Field>, conv: Converter, log: seq<Write>, ws: seq<Write>, tree: Tree, ns: seq<Node>, f: string, i: int)
    requires Unique(fs) && Unmixed(fs) && RowsApart(fs) && f in Ids(fs) && LeafAmong(fs, log, f)
    requires Written(fs, conv, log, ws, tree) && Lists(ns, tree)
    ensures OutputAt(fs, RawObject(fs, ns, ns), tree, f, i) == Reading(fs, tree, f, i)
  {
    hide Unique, Unmixed, RowsApart, Ids, WriteAll, Direct, LeafAmong, Lists, OutputAt, RawObject, Reading, AllSeparate;
    WrittenSeparate(fs, conv, log, ws, tree, f);
    OutputAgrees(fs, conv, Direct(fs, log) + ws, ns, f, i);
  }
}
