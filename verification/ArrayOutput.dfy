/** Which items an output array has: one for every index recorded for it, in ascending order. */
module ArrayOutput {
  import opened Basics
  import opened LotusSteps
  import opened FieldPaths
  import opened TargetTree
  import opened Scheduler
  import opened Targets
  import opened TargetWriter
  import opened Output
  import opened OutputReads
  import opened TargetOutput

  /** a is the item field of array r, and r does not itself lie in an array. */
  ghost predicate ItemField(fs: seq<Field>, r: string, a: string) {
    && a in Ids(fs) && Chain(fs, a).Some?
    && var c := Chain(fs, a).value;
    && |c| >= 2 && c[|c| - 1] == Item(r, a) && r != ""
    && ArrayRoot(c[..|c| - 1]).None?
  }

  /** Nothing was written above the items. */
  ghost predicate NotAboveItems(fs: seq<Field>, ws: seq<Write>, a: string) {
    forall w <- ws :: w.field in Ids(fs) && Chain(fs, w.field).Some? && Chain(fs, a).Some?
                      && !(Chain(fs, w.field).value < Chain(fs, a).value)
  }

  lemma {:induction false} ArrayRootConcat(c: seq<Hop>, d: seq<Hop>)
    ensures ArrayRoot(c + d) == if ArrayRoot(c).Some? then ArrayRoot(c) else ArrayRoot(d)
  {
    if c == [] {
      assert c + d == d;
    } else {
      ArrayRootConcat(c[1..], d);
      assert (c + d)[1..] == c[1..] + d;
    }
  }

  /** The fields whose array is r are those at or below its item field. */
  lemma RootIsPrefix(fs: seq<Field>, r: string, a: string, f: string)
    requires Unique(fs) && Unmixed(fs) && ItemField(fs, r, a) && f in Ids(fs)
    ensures Chain(fs, f).Some?
    ensures RootOf(fs, f) == Some(r) <==> Chain(fs, a).value <= Chain(fs, f).value
  {
    hide Chain, Unique, Unmixed, Ids, Table;
    ChainShape(fs, f);
    ChainShape(fs, a);
    var c, d := Chain(fs, a).value, Chain(fs, f).value;
    if c <= d {
      var n := |c| - 1;
      assert d == c[..n] + ([Item(r, a)] + d[n + 1..]);
      ArrayRootConcat(c[..n], [Item(r, a)] + d[n + 1..]);
    }
    if RootOf(fs, f) == Some(r) {
      var k := ItemHop(d);
      ChainPrefix(fs, f, k);
      ChainFound(fs, d[k].id);
      FoundRow(fs, d[k].id);
      FoundRow(fs, a);
      ChildUnique(fs, r, a, d[k].id, true);
      assert d[..k + 1] == c;
    }
  }

  lemma KeysMeet(fs: seq<Field>, r: string, a: string, i: int, f: string, j: int)
    requires Unique(fs) && ItemField(fs, r, a) && f in Ids(fs) && Chain(fs, f).Some? && Chain(fs, f).value != []
    requires !(Chain(fs, f).value < Chain(fs, a).value)
    ensures var c, d := Chain(fs, a).value, Chain(fs, f).value;
      c[0].id == d[0].id ==>
        var ls, ks := Keys(c[1..], i), Keys(d[1..], j);
        !(ks < ls) && (ls <= ks <==> c <= d && i == j)
  {
    hide Chain, Unique, Ids;
    var c, d := Chain(fs, a).value, Chain(fs, f).value;
    var ls, ks := Keys(c[1..], i), Keys(d[1..], j);
    if c[0].id == d[0].id {
      if d != c && !(d <= c) { NotAbove(fs, f, j, a, i); }
      if !(c <= d) {
        NotAbove(fs, a, i, f, j);
      } else {
        var n := |c| - 2;
        assert ls[n] == Key(a, true, i);
        assert ls <= ks ==> ks[n] == ls[n];
        assert d[n + 1] == c[n + 1];
      }
    }
  }

  /** Exactly the indices written below the array have an item. */
  lemma {:induction false} ItemsPresent(fs: seq<Field>, conv: Converter, ws: seq<Write>, r: string, a: string, i: int)
    requires Unique(fs) && ItemField(fs, r, a) && NotAboveItems(fs, ws, a) && AllConvert(conv, ws)
    ensures TreeNode(WriteAll(fs, conv, map[], ws), Chain(fs, a).value, i).Some?
       <==> exists w :: w in ws && Chain(fs, a).value <= Chain(fs, w.field).value && w.index == i
  {
    hide Chain, Unique, Ids, WriteOne, TreeNode;
    if ws == [] {
      NothingPresent(Chain(fs, a).value, i);
    } else {
      var n := |ws| - 1;
      assert ws[n] in ws;
      ItemsPresent(fs, conv, ws[..n], r, a, i);
      assert forall v :: v in ws <==> v == ws[n] || v in ws[..n];
      ItemPresent(fs, conv, WriteAll(fs, conv, map[], ws[..n]), ws[n], r, a, i);
    }
  }

  lemma NothingPresent(c: seq<Hop>, i: int)
    requires c != []
    ensures TreeNode(map[], c, i) == None
  {
  }

  lemma ItemPresent(fs: seq<Field>, conv: Converter, tree: Tree, w: Write, r: string, a: string, i: int)
    requires Unique(fs) && ItemField(fs, r, a) && w.field in Ids(fs) && conv(w.field, w.value).Some?
    requires Chain(fs, w.field).Some? && !(Chain(fs, w.field).value < Chain(fs, a).value)
    ensures var c := Chain(fs, a).value;
      TreeNode(WriteOne(fs, conv, tree, w), c, i).Some? <==>
        TreeNode(tree, c, i).Some? || (c <= Chain(fs, w.field).value && w.index == i)
  {
    hide Chain, Unique, Ids, Put, Get;
    ChainShape(fs, w.field);
    var c, d := Chain(fs, a).value, Chain(fs, w.field).value;
    KeysMeet(fs, r, a, i, w.field, w.index);
    if c[0].id == d[0].id {
      var m := if d[0].id in tree then tree[d[0].id] else Node(d[0].id, 0, Nil, [], []);
      PutPresent(m, Keys(d[1..], w.index), conv(w.field, w.value).value, Keys(c[1..], i));
      EmptyHasNone(d[0].id, Keys(c[1..], i));
    }
  }

  lemma EmptyHasNone(id: string, ks: seq<Key>)
    requires ks != []
    ensures Get(Node(id, 0, Nil, [], []), ks) == None
  {
  }

  lemma {:induction false} RecordedDirect(fs: seq<Field>, log: seq<Write>, r: string, i: int)
    ensures i in Recorded(fs, log, r) <==> exists w :: w in Direct(fs, log) && RootOf(fs, w.field) == Some(r) && w.index == i
  {
    hide RootOf;
    if log != [] {
      var n := |log| - 1;
      RecordedDirect(fs, log[..n], r, i);
      assert forall v :: v in Direct(fs, log) <==> v in Direct(fs, log[..n]) || (v == log[n] && !Deferred(fs, v));
    }
  }

  /** The node of array r has one item for each recorded index, and no other. */
  lemma ItemsAreRecorded(fs: seq<Field>, conv: Converter, log: seq<Write>, ws: seq<Write>, tree: Tree, r: string, a: string, i: int)
    requires Unique(fs) && Unmixed(fs) && ItemField(fs, r, a) && Written(fs, conv, log, ws, tree)
    requires NotAboveItems(fs, Direct(fs, log) + ws, a)
    ensures TreeNode(tree, Chain(fs, a).value, i).Some? <==> i in Recorded(fs, log, r)
  {
    hide Chain, Unique, Unmixed, Ids, WriteAll, Direct, Recorded, TreeNode, RootOf, ItemField;
    var us := Direct(fs, log) + ws;
    ChainOf(fs, r, a);
    ItemsPresent(fs, conv, us, r, a, i);
    RecordedDirect(fs, log, r, i);
    forall w | w in us
      ensures RootOf(fs, w.field) == Some(r) <==> Chain(fs, a).value <= Chain(fs, w.field).value
    {
      RootIsPrefix(fs, r, a, w.field);
    }
    assert forall w :: w in us <==> w in Direct(fs, log) || w in ws;
  }

  lemma ChainOf(fs: seq<Field>, r: string, a: string)
    requires ItemField(fs, r, a)
    ensures Chain(fs, a).Some? && |Chain(fs, a).value| >= 2
  {
  }

  // ---------- ranks among the recorded indices ----------

  lemma PresentItem(n: Node, a: string, i: int)
    requires forall m <- n.items :: m.id == a
    ensures Get(n, [Key(a, true, i)]).Some? <==> i in IndexSet(n.items)
  {
    var k := Key(a, true, i);
    var p := Position(n.items, k);
    assert p < |n.items| ==> n.items[p].index == i;
    if i in IndexSet(n.items) {
      var j :| 0 <= j < |n.items| && n.items[j].index == i;
      assert n.items[j] in n.items;
      assert TargetTree.Fits(n.items[j], k);
    }
  }

  /** Output element number k of array r is the item with the k-th smallest recorded index. */
  lemma ArrayFollowsIndices(fs: seq<Field>, conv: Converter, log: seq<Write>, ws: seq<Write>, tree: Tree, r: string, a: string, n: Node)
    requires Unique(fs) && Unmixed(fs) && ItemField(fs, r, a) && Written(fs, conv, log, ws, tree)
    requires NotAboveItems(fs, Direct(fs, log) + ws, a)
    requires var c := Chain(fs, a).value; TreeNode(tree, c[..|c| - 1], 0) == Some(n)
    requires Shaped(fs, n) && n.id == r
    ensures IndexSet(n.items) == Recorded(fs, log, r)
    ensures n.items != [] ==> RawNode(fs, n).Arr? && |RawNode(fs, n).items| == |Recorded(fs, log, r)|
    ensures forall m | m in n.items ::
      var k := |Smaller(Recorded(fs, log, r), m.index)|;
      RawNode(fs, n).Arr? && k < |RawNode(fs, n).items| && RawNode(fs, n).items[k] == RawNode(fs, m)
  {
    hide Chain, Unique, Unmixed, Ids, Direct, Recorded, RawNode, Written, Get, Put, Distinct, DistinctIds;
    var c := Chain(fs, a).value;
    forall m | m in n.items ensures m.id == a { OneItem(fs, r, a, m.id); }
    forall i ensures i in IndexSet(n.items) <==> i in Recorded(fs, log, r) {
      ItemsAreRecorded(fs, conv, log, ws, tree, r, a, i);
      PresentItem(n, a, i);
      StepToItem(fs, tree, r, a, n, i);
    }
    forall m | m in n.items
      ensures RawNode(fs, n).Arr? && |RawNode(fs, n).items| == |n.items|
      ensures var k := |Smaller(IndexSet(n.items), m.index)|; k < |n.items| && RawNode(fs, n).items[k] == RawNode(fs, m)
    {
      ItemsOut(fs, n, m);
      RankCounts(n.items, m.index);
    }
    RankCounts(n.items, 0);
    if n.items != [] { assert n.items[0] in n.items; }
  }

  lemma OneItem(fs: seq<Field>, r: string, a: string, b: string)
    requires Unique(fs) && Unmixed(fs) && ItemField(fs, r, a) && ChildHop(fs, r, b, true)
    ensures a == b
  {
    hide Chain, Unique, Unmixed, Ids, Table;
    FoundRow(fs, a);
    ChildUnique(fs, r, a, b, true);
  }

  lemma StepToItem(fs: seq<Field>, tree: Tree, r: string, a: string, n: Node, i: int)
    requires Unique(fs) && ItemField(fs, r, a)
    requires var c := Chain(fs, a).value; TreeNode(tree, c[..|c| - 1], 0) == Some(n)
    ensures TreeNode(tree, Chain(fs, a).value, i) == Get(n, [Key(a, true, i)])
  {
    hide Chain, Unique, Ids, Get;
    ChainShape(fs, a);
    var c := Chain(fs, a).value;
    var up := c[..|c| - 1];
    NoItemHop(up);
    assert Keys(up[1..], 0) == Keys(up[1..], i);
    assert Keys(c[1..], i) == Keys(up[1..], i) + [Key(a, true, i)];
    GetConcat(tree[c[0].id], Keys(up[1..], i), [Key(a, true, i)]);
  }
}
