/** The document of an execution is determined by the log of its writes, whatever the order of the maps. */
module Documents {
  import opened Basics
  import opened LotusSteps
  import opened FieldPaths
  import opened TargetTree
  import opened TreeView
  import opened Scheduler
  import opened Targets
  import opened TargetWriter
  import opened Schedules
  import opened Output
  import opened OutputReads
  import opened FieldPlaces
  import opened DocumentOrder
  import opened TargetOutput
  import A = Assign

  lemma BroadcastsBlocked(fs: seq<Field>, conv: Converter, log: seq<Write>, ws: seq<Write>, tree: Tree)
    requires Written(fs, conv, log, ws, tree)
    ensures Blocked(fs, ws) && forall w <- Direct(fs, log) + ws :: w.field in Ids(fs)
  {
    hide RootOf, Ids, Direct, WriteAll, Recorded;
    forall w | w in ws ensures w.field in Ids(fs) { assert w in Direct(fs, log) + ws; }
  }

  /** Two schedules of the same log leave trees that read alike. */
  lemma SchedulesAlike(fs: seq<Field>, conv: Converter, log: seq<Write>, ws: seq<Write>, t: Tree, us: seq<Write>, u: Tree)
    requires Unique(fs) && Written(fs, conv, log, ws, t) && Written(fs, conv, log, us, u)
    ensures AlikeTrees(t, u)
  {
    BroadcastsBlocked(fs, conv, log, ws, t);
    BroadcastsBlocked(fs, conv, log, us, u);
    hide RootOf, Ids, Direct, WriteAll, Recorded, Waiting, Landing, AlikeTrees, Unique;
    var start := WriteAll(fs, conv, map[], Direct(fs, log));
    WriteAllConcat(fs, conv, map[], Direct(fs, log), ws);
    WriteAllConcat(fs, conv, map[], Direct(fs, log), us);
    forall r, i ensures Landing(fs, ws, r, i) == Landing(fs, us, r, i) {
      assert Landing(fs, ws, r, i) == Broadcasts(fs, log, r, i) == Landing(fs, us, r, i);
    }
    SameBlocks(fs, conv, start, ws, us);
  }

  lemma TreeIsShaped(fs: seq<Field>, conv: Converter, log: seq<Write>, ws: seq<Write>, t: Tree)
    requires Unique(fs) && Unmixed(fs) && Written(fs, conv, log, ws, t)
    ensures TreeShaped(fs, t)
  {
    BroadcastsBlocked(fs, conv, log, ws, t);
    hide Unique, Unmixed, Ids, Direct, WriteAll;
    WritesShaped(fs, conv, Direct(fs, log) + ws);
  }

  lemma RootEntries(fs: seq<Field>, t: Tree, ns: seq<Node>, u: Tree, ms: seq<Node>)
    requires RowsApart(fs) && TreeShaped(fs, t) && TreeShaped(fs, u) && AlikeTrees(t, u)
    requires Lists(ns, t) && Lists(ms, u)
    ensures SameEntries(fs, ns, ms)
  {
    hide RawNode, Shaped, RowsApart, Alike, RootHop;
    forall c | c in ns ensures exists d :: d in ms && SameEntry(fs, c, d) {
      var d := u[c.id];
      assert d in ms && c.id in t && t[c.id] == c;
      SameRaw(fs, c, d);
      assert SameEntry(fs, c, d);
    }
  }

  /** So the document is the same, for schemas whose siblings have paths apart. */
  lemma OneDocument(fs: seq<Field>, conv: Converter, log: seq<Write>, t: Tree, a: A.Raw, u: Tree, b: A.Raw)
    requires Unique(fs) && Unmixed(fs) && SiblingsApart(fs)
    requires Generates(fs, conv, log, t, a) && Generates(fs, conv, log, u, b)
    ensures a == b
  {
    SiblingRowsApart(fs);
    hide Unique, Unmixed, RowsApart, SiblingsApart, RawObject, Written, Lists, AlikeTrees, TreeShaped, Beside, SameEntries;
    var ws, ns :| Made(fs, conv, log, ws, t, ns, a);
    var us, ms :| Made(fs, conv, log, us, u, ms, b);
    SchedulesAlike(fs, conv, log, ws, t, us, u);
    SchedulesAlike(fs, conv, log, us, u, ws, t);
    TreeIsShaped(fs, conv, log, ws, t);
    TreeIsShaped(fs, conv, log, us, u);
    RootsBeside(fs, t, ns);
    RootsBeside(fs, u, ms);
    RootEntries(fs, t, ns, u, ms);
    RootEntries(fs, u, ms, t, ns);
    SameObject(fs, ns, ms);
  }

  // ---------- nothing else is in it ----------

  /** The path of keys ks below root r lies on the way of the write. */
  ghost predicate OnTheWay(fs: seq<Field>, w: Write, r: string, ks: seq<Key>) {
    && Chain(fs, w.field).Some? && Chain(fs, w.field).value != []
    && Chain(fs, w.field).value[0].id == r && ks <= Keys(Chain(fs, w.field).value[1..], w.index)
  }

  lemma OneWritePresent(fs: seq<Field>, conv: Converter, t: Tree, w: Write, r: string, ks: seq<Key>)
    requires Unique(fs) && w.field in Ids(fs) && Plain(ks)
    requires r in WriteOne(fs, conv, t, w) && ValueAt(WriteOne(fs, conv, t, w)[r], ks).Some?
    ensures OnTheWay(fs, w, r, ks) || (r in t && ValueAt(t[r], ks).Some?)
  {
    hide Put, WriteOne, Unique, Ids, Chain, ValueAt;
    WriteOneIs(fs, conv, t, w);
    var c := Chain(fs, w.field).value;
    if conv(w.field, w.value).Some? && c[0].id == r {
      var v := conv(w.field, w.value).value;
      PutSeen(RootNode(t, r), Keys(c[1..], w.index), v, ks);
      EmptyRootReads(r, ks);
    }
  }

  lemma EmptyRootReads(r: string, ks: seq<Key>)
    ensures ks != [] ==> ValueAt(Node(r, 0, Nil, [], []), ks) == None
  {
  }

  /** Whatever is in the tree lies on the way of some write. */
  lemma {:induction false} OnlyWritten(fs: seq<Field>, conv: Converter, ws: seq<Write>, r: string, ks: seq<Key>)
    requires Unique(fs) && (forall w <- ws :: w.field in Ids(fs)) && Plain(ks)
    requires r in WriteAll(fs, conv, map[], ws) && ValueAt(WriteAll(fs, conv, map[], ws)[r], ks).Some?
    ensures exists w :: w in ws && OnTheWay(fs, w, r, ks)
    decreases |ws|
  {
    hide WriteOne, Unique, Ids, ValueAt, OnTheWay;
    var n := |ws| - 1;
    assert ws[n] in ws;
    OneWritePresent(fs, conv, WriteAll(fs, conv, map[], ws[..n]), ws[n], r, ks);
    if !OnTheWay(fs, ws[n], r, ks) {
      OnlyWritten(fs, conv, ws[..n], r, ks);
    }
  }

  /** An object of the document holds nothing at paths apart from those of its nodes. */
  lemma NothingBeside(fs: seq<Field>, ns: seq<Node>, q: A.Path)
    requires Beside(fs, ns) && q != [] && forall n <- ns :: A.Apart(A.Split(OutputPath(fs, n.id)), q)
    ensures A.Lookup(RawObject(fs, ns, ns), q) == None
  {
    hide RawNode, OutputPath, RawObject, Beside;
    ObjectIsPutAll(fs, ns, ns);
    BesideApart(fs, ns);
    var es := Entries(fs, ns);
    forall i | 0 <= i < |es| ensures A.Apart(es[i].path, q) { assert ns[i] in ns; }
    A.PutAllReads(map[], es, q);
  }

  /** The field of w passes, at some index, through the path ks below root r and then the field id. */
  ghost predicate OnPath(fs: seq<Field>, w: Write, r: string, ks: seq<Key>, id: string) {
    exists i :: OnTheWay(fs, Write(w.field, w.value, i), r, ks + [Key(id, false, 0)])
  }

  /** Every field below a node of the tree is there because a write of the log passes through it. */
  lemma WrittenBelow(fs: seq<Field>, conv: Converter, log: seq<Write>, ws: seq<Write>, t: Tree, n: Node, r: string, ks: seq<Key>, k: Node)
    requires Unique(fs) && Unmixed(fs) && Written(fs, conv, log, ws, t) && Shaped(fs, n)
    requires r in t && Plain(ks) && Get(t[r], ks) == Some(n) && k in n.fields
    ensures exists w :: w in log && OnPath(fs, w, r, ks, k.id)
  {
    hide Unique, Unmixed, WriteAll, Direct, OnTheWay;
    var key := Key(k.id, false, 0);
    ShapedParts(fs, n);
    ThroughChild(n, k, key, []);
    assert [key] + [] == [key];
    GetConcat(t[r], ks, [key]);
    assert Plain(ks + [key]) && ValueAt(t[r], ks + [key]).Some?;
    BroadcastsBlocked(fs, conv, log, ws, t);
    OnlyWritten(fs, conv, Direct(fs, log) + ws, r, ks + [key]);
    var w :| w in Direct(fs, log) + ws && OnTheWay(fs, w, r, ks + [key]);
    var v :| v in log && v.field == w.field;
    SameWay(fs, w, v, r, ks + [key]);
    assert OnPath(fs, v, r, ks, k.id);
  }

  lemma SameWay(fs: seq<Field>, w: Write, v: Write, r: string, ks: seq<Key>)
    requires OnTheWay(fs, w, r, ks) && v.field == w.field
    ensures OnTheWay(fs, Write(v.field, v.value, w.index), r, ks)
  {
  }
}
