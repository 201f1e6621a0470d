/** Every written leaf stands in the output document at the place its field has in the tree of fields. */
module DocumentPlaces {
  import opened Basics
  import opened LotusSteps
  import opened FieldPaths
  import opened TargetTree
  import opened TreeView
  import opened Scheduler
  import opened Targets
  import opened TargetWriter
  import opened Schedules
  import opened Output
  import opened OutputReads
  import opened DocumentOrder
  import opened FieldPlaces
  import opened TargetOutput
  import opened ArrayOutput
  import opened Documents
  import A = Assign

  /** Reading a document by names, as dotted paths, and by position: number rank of the first array on the way, and
      the first element of any array inside it. */
  function ReadAt(out: Value, stops: seq<Stop>, rank: nat): Option<Value>
    decreases |stops|
  {
    if stops == [] then Some(out)
    else
      match stops[0]
      case Name(path) =>
        if out.Obj? && A.Lookup(out.fields, A.Split(path)).Some? then ReadAt(A.Lookup(out.fields, A.Split(path)).value, stops[1..], rank)
        else None
      case Element => if out.Arr? && rank < |out.items| then ReadAt(out.items[rank], stops[1..], 0) else None
  }

  // ---------- the reading of the log ----------

  /** The final tree reads as the log of writes says. */
  lemma WrittenReads(fs: seq<Field>, conv: Converter, log: seq<Write>, ws: seq<Write>, tree: Tree, f: string, i: int)
    requires Unique(fs) && f in Ids(fs) && (RootOf(fs, f).Some? ==> i >= 0) && LeafAmong(fs, log, f)
    requires Written(fs, conv, log, ws, tree)
    ensures Reading(fs, tree, f, i) == Converted(conv, f, Expected(fs, log, f, i))
  {
    hide WriteAll, Reading, AllSeparate, AllConvert, RootOf, Direct, LastAt, LastScalar, Recorded, Ids, Unique, LeafAmong;
    var us := Direct(fs, log);
    WrittenSeparate(fs, conv, log, ws, tree, f);
    Parts(fs, conv, us, ws, f);
    WriteAllConcat(fs, conv, map[], us, ws);
    WriteAllReads(fs, conv, map[], us, f, i);
    WriteAllReads(fs, conv, WriteAll(fs, conv, map[], us), ws, f, i);
    NothingYet(fs, f, i);
    LastDirect(fs, log, f, i);
    if RootOf(fs, f).None? {
      NotDeferredOutside(fs, ws, f);
    } else {
      var r := RootOf(fs, f).value;
      LastLanding(fs, ws, f, i);
      LastBroadcast(fs, log, f, i);
      BroadcastsAre(fs, log, ws, r, i);
      NoLast(fs, f, i);
      if i !in Recorded(fs, log, r) { NeverRecorded(fs, log, f, i); }
    }
  }

  lemma NoLast(fs: seq<Field>, f: string, i: int)
    ensures LastAt(fs, [], f, i) == None
  {
  }

  lemma BroadcastsAre(fs: seq<Field>, log: seq<Write>, ws: seq<Write>, r: string, i: int)
    requires Scheduled(fs, log, ws)
    ensures Landing(fs, ws, r, i) == if i in Recorded(fs, log, r) then AtIndex(Waiting(fs, log, r), i) else []
  {
    hide Landing, Recorded, Waiting;
    assert Landing(fs, ws, r, i) == Broadcasts(fs, log, r, i);
  }

  // ---------- containers hold no value of their own ----------

  function HopsValue(tree: Tree, c: seq<Hop>, i: int): Option<Value>
    requires c != []
  {
    if c[0].id in tree then ValueAt(tree[c[0].id], Keys(c[1..], i)) else None
  }

  lemma {:induction false} ContainersBare(fs: seq<Field>, conv: Converter, ws: seq<Write>, f: string, i: int, k: nat)
    requires Unique(fs) && f in Ids(fs) && AllSeparate(fs, ws, f) && Chain(fs, f).Some? && 1 <= k < |Chain(fs, f).value|
    ensures var v := HopsValue(WriteAll(fs, conv, map[], ws), Chain(fs, f).value[..k], i); v.Some? ==> v.value == Nil
  {
    hide Chain, Unique, Ids, Separate, HopsValue, RootOf, WriteOne;
    if ws == [] {
      NothingHeld(Chain(fs, f).value[..k], i);
    } else {
      var n := |ws| - 1;
      assert ws[n] in ws;
      ContainersBare(fs, conv, ws[..n], f, i, k);
      OneWriteBareAbove(fs, conv, WriteAll(fs, conv, map[], ws[..n]), ws[n], f, i, k);
    }
  }

  lemma NothingHeld(c: seq<Hop>, i: int)
    requires c != []
    ensures HopsValue(map[], c, i) == None
  {
  }

  lemma OneWriteBareAbove(fs: seq<Field>, conv: Converter, tree: Tree, w: Write, f: string, i: int, k: nat)
    requires Unique(fs) && f in Ids(fs) && w.field in Ids(fs) && Separate(fs, w.field, f)
    requires Chain(fs, f).Some? && 1 <= k < |Chain(fs, f).value|
    requires var v := HopsValue(tree, Chain(fs, f).value[..k], i); v.Some? ==> v.value == Nil
    ensures var v := HopsValue(WriteOne(fs, conv, tree, w), Chain(fs, f).value[..k], i); v.Some? ==> v.value == Nil
  {
    hide Chain, Unique, Ids, Put, Get, RootOf, WriteOne, ValueAt;
    ChainShape(fs, f);
    WriteOneIs(fs, conv, tree, w);
    var c, d := Chain(fs, f).value, Chain(fs, w.field).value;
    var ks, ls := Keys(d[1..], w.index), Keys(c[..k][1..], i);
    if conv(w.field, w.value).Some? && c[0].id == d[0].id {
      var whole := Keys(c[1..], i);
      assert ls == whole[..k - 1];
      if w.field != f { NotAbove(fs, w.field, w.index, f, i); }
      PrefixOfPrefix(ks, whole, k - 1);
      assert Plain(ls);
      PutSeen(RootNode(tree, c[0].id), ks, conv(w.field, w.value).value, ls);
      RootHolds(tree, c[0].id, ls);
    }
  }

  lemma PrefixOfPrefix(ks: seq<Key>, whole: seq<Key>, n: nat)
    requires n <= |whole|
    ensures ks <= whole[..n] ==> ks <= whole
  {
  }

  lemma RootHolds(tree: Tree, id: string, ls: seq<Key>)
    ensures var v := ValueAt(RootNode(tree, id), ls); v.Some? && id !in tree ==> v.value == Nil
    ensures id in tree ==> RootNode(tree, id) == tree[id]
  {
  }

  // ---------- down one chain ----------

  /** What stands while one written document is read for one field at one index. */
  ghost predicate ReadsOne(fs: seq<Field>, conv: Converter, log: seq<Write>, ws: seq<Write>, tree: Tree, f: string, i: int) {
    && Unique(fs) && Unmixed(fs) && RowsApart(fs) && f in Ids(fs) && Chain(fs, f).Some?
    && Written(fs, conv, log, ws, tree) && LeafAmong(fs, log, f)
    && (RootOf(fs, f).Some? ==> i in Recorded(fs, log, RootOf(fs, f).value))
  }

  /** The rank of the index among the recorded ones, until the first array is passed. */
  ghost function RankAt(fs: seq<Field>, log: seq<Write>, f: string, i: int, k: nat): nat
    requires Chain(fs, f).Some? && k <= |Chain(fs, f).value|
  {
    if HasItem(Chain(fs, f).value[..k]) || RootOf(fs, f).None? then 0 else |Smaller(Recorded(fs, log, RootOf(fs, f).value), i)|
  }

  /** n is the node k hops down the chain of f. */
  ghost predicate At(fs: seq<Field>, tree: Tree, f: string, i: int, k: nat, n: Node)
    requires Chain(fs, f).Some?
  {
    var c := Chain(fs, f).value;
    && 1 <= k <= |c| && TreeNode(tree, c[..k], i) == Some(n) && n.id == c[k - 1].id && Shaped(fs, n)
  }

  /** The child the next hop leads to. */
  function NextChild(n: Node, h: Hop, i: int): Option<Node> {
    var key := KeyOf(h, i);
    var p := Position(Children(n, key), key);
    if p < |Children(n, key)| then Some(Children(n, key)[p]) else None
  }

  lemma StepDown(fs: seq<Field>, tree: Tree, f: string, i: int, k: nat, n: Node)
    requires Unique(fs) && f in Ids(fs) && Chain(fs, f).Some? && At(fs, tree, f, i, k, n) && k < |Chain(fs, f).value|
    ensures var h := Chain(fs, f).value[k]; var next := NextChild(n, h, i);
      && ChildHop(fs, n.id, h.id, h.isItem)
      && (next.Some? ==> At(fs, tree, f, i, k + 1, next.value) && next.value in Children(n, KeyOf(h, i)) && next.value.id == h.id)
      && (next.Some? && h.isItem ==> next.value.index == i)
      && ValueAt(n, Keys(Chain(fs, f).value[k..], i)) ==
           match next case Some(m) => ValueAt(m, Keys(Chain(fs, f).value[k + 1..], i)) case None => None
  {
    var c := Chain(fs, f).value;
    HopHere(fs, f, i, k);
    NodeStep(tree, c, i, k, n);
    ValueStep(n, c, i, k);
    ShapedChild(fs, n, c[k], i);
    hide Chain, Unique, Ids, ChildHop, Shaped, Get, TreeNode;
  }

  lemma HopHere(fs: seq<Field>, f: string, i: int, k: nat)
    requires Unique(fs) && f in Ids(fs) && Chain(fs, f).Some? && 1 <= k < |Chain(fs, f).value|
    ensures var c := Chain(fs, f).value; ChildHop(fs, c[k - 1].id, c[k].id, c[k].isItem)
  {
    hide Chain, Unique, Ids, ChildHop;
    ChainKeysShaped(fs, f, k, i);
    assert Keys(Chain(fs, f).value[k..], i)[0] == KeyOf(Chain(fs, f).value[k], i);
  }

  lemma NodeStep(tree: Tree, c: seq<Hop>, i: int, k: nat, n: Node)
    requires 1 <= k < |c| && TreeNode(tree, c[..k], i) == Some(n)
    ensures TreeNode(tree, c[..k + 1], i) == NextChild(n, c[k], i)
  {
    var up := Keys(c[..k][1..], i);
    assert Keys(c[..k + 1][1..], i) == up + [KeyOf(c[k], i)];
    GetConcat(tree[c[0].id], up, [KeyOf(c[k], i)]);
  }

  lemma ValueStep(n: Node, c: seq<Hop>, i: int, k: nat)
    requires k < |c|
    ensures ValueAt(n, Keys(c[k..], i)) == match NextChild(n, c[k], i) case Some(m) => ValueAt(m, Keys(c[k + 1..], i)) case None => None
  {
    var ks := Keys(c[k..], i);
    assert ks[0] == KeyOf(c[k], i) && ks[1..] == Keys(c[k + 1..], i);
  }

  lemma ShapedChild(fs: seq<Field>, n: Node, h: Hop, i: int)
    requires Shaped(fs, n)
    ensures var next := NextChild(n, h, i);
      next.Some? ==> Shaped(fs, next.value) && next.value in Children(n, KeyOf(h, i)) && next.value.id == h.id && (h.isItem ==> next.value.index == i)
  {
    hide ChildHop;
  }

  lemma BareOrNil(fs: seq<Field>, conv: Converter, log: seq<Write>, ws: seq<Write>, tree: Tree, f: string, i: int, k: nat, n: Node)
    requires ReadsOne(fs, conv, log, ws, tree, f, i) && At(fs, tree, f, i, k, n) && k < |Chain(fs, f).value|
    ensures n.value == Nil
  {
    hide Chain, Unique, Ids, Unmixed, RowsApart, Direct, WriteAll, LeafAmong, AllSeparate, Get, Shaped;
    WrittenSeparate(fs, conv, log, ws, tree, f);
    ContainersBare(fs, conv, Direct(fs, log) + ws, f, i, k);
  }

  lemma FieldAbsent(fs: seq<Field>, n: Node, id: string)
    requires RowsApart(fs) && Shaped(fs, n) && ChildHop(fs, n.id, id, false) && n.value == Nil
    requires forall m <- n.fields :: m.id != id
    ensures var out := RawNode(fs, n); !out.Obj? || A.Lookup(out.fields, A.Split(OutputPath(fs, id))).None?
  {
    hide ChildHop, RootHop, PathsApart, RawObject, OutputPath;
    var q := A.Split(OutputPath(fs, id));
    FieldsBeside(fs, n);
    assert PathsApart(fs, id, id);
    forall m | m in n.fields ensures A.Apart(A.Split(OutputPath(fs, m.id)), q) {
      assert ChildHop(fs, n.id, m.id, false);
      assert PathsApart(fs, m.id, id);
      ApartPaths(fs, m.id, id);
    }
    NothingBeside(fs, n.fields, q);
  }

  lemma ApartPaths(fs: seq<Field>, a: string, b: string)
    requires PathsApart(fs, a, b) && a != b
    ensures A.Apart(A.Split(OutputPath(fs, a)), A.Split(OutputPath(fs, b)))
  {
  }

  lemma ReadsField(fs: seq<Field>, n: Node, h: Hop, i: int, rest: seq<Stop>, rank: nat)
    requires RowsApart(fs) && Shaped(fs, n) && ChildHop(fs, n.id, h.id, false) && !h.isItem && n.value == Nil
    ensures ReadAt(RawNode(fs, n), [Name(OutputPath(fs, h.id))] + rest, rank) ==
      match NextChild(n, h, i) case Some(m) => ReadAt(RawNode(fs, m), rest, rank) case None => None
  {
    hide RowsApart, Shaped, ChildHop, OutputPath, RawNode;
    var stops := [Name(OutputPath(fs, h.id))] + rest;
    assert stops[1..] == rest;
    var next := NextChild(n, h, i);
    if next.Some? {
      FieldsOut(fs, n, next.value);
    } else {
      FieldAbsent(fs, n, h.id);
    }
  }

  lemma RootHasItem(c: seq<Hop>)
    ensures ArrayRoot(c).Some? ==> HasItem(c)
  {
    if ArrayRoot(c).Some? { var k := ItemHop(c); }
  }

  lemma FirstItemHop(c: seq<Hop>, k: nat)
    requires k < |c| && c[k].isItem && c[k].parent != "" && !HasItem(c[..k])
    ensures ArrayRoot(c[..k]).None? && ArrayRoot(c) == Some(c[k].parent)
  {
    RootHasItem(c[..k]);
    ArrayRootConcat(c[..k], c[k..]);
    assert c == c[..k] + c[k..];
  }

  /** At the first array on the way stand exactly the recorded indices, in ascending order. */
  lemma FirstArray(fs: seq<Field>, conv: Converter, log: seq<Write>, ws: seq<Write>, tree: Tree, f: string, i: int, k: nat, n: Node)
    requires ReadsOne(fs, conv, log, ws, tree, f, i) && At(fs, tree, f, i, k, n) && k < |Chain(fs, f).value|
    requires Chain(fs, f).value[k].isItem && !HasItem(Chain(fs, f).value[..k])
    ensures RootOf(fs, f).Some?
    ensures var next := NextChild(n, Chain(fs, f).value[k], i);
      && next.Some? && RawNode(fs, n).Arr?
      && var rank := |Smaller(Recorded(fs, log, RootOf(fs, f).value), i)|;
         rank < |RawNode(fs, n).items| && RawNode(fs, n).items[rank] == RawNode(fs, next.value)
  {
    hide Chain, Unique, Ids, Unmixed, RowsApart, Written, LeafAmong, Recorded, RawNode, Shaped, Get, HasItem, ChildHop;
    var c := Chain(fs, f).value;
    ChainShape(fs, f);
    FirstItemHop(c, k);
    var r, a := c[k].parent, c[k].id;
    ChainPrefix(fs, f, k);
    ChainFound(fs, a);
    assert c[..k + 1][..k] == c[..k] && c[k] == Item(r, a);
    assert ItemField(fs, r, a);
    NotAboveFirst(fs, conv, log, ws, tree, f, k);
    SameNode(fs, tree, f, i, k);
    ArrayFollowsIndices(fs, conv, log, ws, tree, r, a, n);
    StepDown(fs, tree, f, i, k, n);
    ItemThere(fs, r, a, n, i);
  }

  lemma NotAboveFirst(fs: seq<Field>, conv: Converter, log: seq<Write>, ws: seq<Write>, tree: Tree, f: string, k: nat)
    requires Unique(fs) && f in Ids(fs) && Chain(fs, f).Some? && k < |Chain(fs, f).value|
    requires Written(fs, conv, log, ws, tree) && LeafAmong(fs, log, f)
    requires Chain(fs, Chain(fs, f).value[k].id) == Some(Chain(fs, f).value[..k + 1])
    ensures NotAboveItems(fs, Direct(fs, log) + ws, Chain(fs, f).value[k].id)
  {
    hide Chain, Unique, Ids, WriteAll, Direct, RootOf;
    WrittenSeparate(fs, conv, log, ws, tree, f);
    var c := Chain(fs, f).value;
    forall w | w in Direct(fs, log) + ws ensures w.field in Ids(fs) && Chain(fs, w.field).Some? && !(Chain(fs, w.field).value < c[..k + 1]) {
      assert Separate(fs, w.field, f);
    }
  }

  lemma SameNode(fs: seq<Field>, tree: Tree, f: string, i: int, k: nat)
    requires Chain(fs, f).Some? && 1 <= k <= |Chain(fs, f).value| && !HasItem(Chain(fs, f).value[..k])
    ensures var c := Chain(fs, f).value[..k]; TreeNode(tree, c, i) == TreeNode(tree, c, 0)
  {
    hide Chain, Get;
    var c := Chain(fs, f).value[..k];
    assert Keys(c[1..], i) == Keys(c[1..], 0);
  }

  lemma ItemThere(fs: seq<Field>, r: string, a: string, n: Node, i: int)
    requires Unique(fs) && Unmixed(fs) && ItemField(fs, r, a) && n.id == r && Shaped(fs, n) && i in IndexSet(n.items)
    ensures Position(n.items, Key(a, true, i)) < |n.items|
  {
    hide Unique, Unmixed, ItemField, ChildHop;
    var j :| 0 <= j < |n.items| && n.items[j].index == i;
    assert n.items[j] in n.items;
    OneItem(fs, r, a, n.items[j].id);
    assert TargetTree.Fits(n.items[j], Key(a, true, i));
  }

  /** In an array inside another there is at most the item of the index followed. */
  lemma InnerIndex(fs: seq<Field>, conv: Converter, log: seq<Write>, ws: seq<Write>, tree: Tree, f: string, i: int, k: nat, n: Node, m: Node)
    requires ReadsOne(fs, conv, log, ws, tree, f, i) && At(fs, tree, f, i, k, n) && k < |Chain(fs, f).value|
    requires HasItem(Chain(fs, f).value[..k]) && m in n.items
    ensures m.index == i
  {
    hide Chain, Unique, Ids, Unmixed, RowsApart, LeafAmong, Direct, RawNode, Shaped, Get, WriteAll;
    var c := Chain(fs, f).value;
    ChainShape(fs, f);
    var p :| 0 <= p < k && c[..k][p].isItem;
    var up, key := Keys(c[..k][1..], i), Key(m.id, true, m.index);
    ItemFound(n, m);
    GetConcat(tree[c[0].id], up, [key]);
    BroadcastsBlocked(fs, conv, log, ws, tree);
    OnlyWritten(fs, conv, Direct(fs, log) + ws, c[0].id, up + [key]);
    var w :| w in Direct(fs, log) + ws && OnTheWay(fs, w, c[0].id, up + [key]);
    var ks := Keys(Chain(fs, w.field).value[1..], w.index);
    assert (up + [key])[p - 1] == ks[p - 1] && up[p - 1] == Key(c[p].id, true, i);
    assert (up + [key])[|up|] == ks[|up|] == key;
  }

  lemma ItemFound(n: Node, m: Node)
    requires m in n.items
    ensures Get(n, [Key(m.id, true, m.index)]).Some?
  {
    var key := Key(m.id, true, m.index);
    var j :| 0 <= j < |n.items| && n.items[j] == m;
    assert TargetTree.Fits(n.items[j], key);
  }

  lemma InnerArray(fs: seq<Field>, conv: Converter, log: seq<Write>, ws: seq<Write>, tree: Tree, f: string, i: int, k: nat, n: Node)
    requires ReadsOne(fs, conv, log, ws, tree, f, i) && At(fs, tree, f, i, k, n) && k < |Chain(fs, f).value|
    requires Chain(fs, f).value[k].isItem && HasItem(Chain(fs, f).value[..k])
    ensures match NextChild(n, Chain(fs, f).value[k], i)
            case Some(m) => RawNode(fs, n).Arr? && |RawNode(fs, n).items| > 0 && RawNode(fs, n).items[0] == RawNode(fs, m)
            case None => !RawNode(fs, n).Arr?
  {
    hide Chain, Unique, Ids, Unmixed, RowsApart, LeafAmong, Written, HasItem, ChildHop, Get;
    StepDown(fs, tree, f, i, k, n);
    forall m | m in n.items ensures m.index == i { InnerIndex(fs, conv, log, ws, tree, f, i, k, n, m); }
    var h := Chain(fs, f).value[k];
    var next := NextChild(n, h, i);
    if next.Some? {
      ItemsOut(fs, n, next.value);
      OnlyRank(n.items, i);
    } else {
      NoItemsLeft(fs, n, h, i);
      BareOrNil(fs, conv, log, ws, tree, f, i, k, n);
      NoArray(fs, n);
    }
  }

  lemma OnlyRank(ns: seq<Node>, i: int)
    requires Distinct(ns) && forall m <- ns :: m.index == i
    ensures Rank(ns, i) == 0
  {
    RankCounts(ns, i);
    assert Smaller(IndexSet(ns), i) == {} by {
      forall j | j in IndexSet(ns) ensures j == i {
        var k :| 0 <= k < |ns| && ns[k].index == j;
        assert ns[k] in ns;
      }
    }
  }

  lemma NoItemsLeft(fs: seq<Field>, n: Node, h: Hop, i: int)
    requires Unique(fs) && Unmixed(fs) && Shaped(fs, n) && h.isItem && ChildHop(fs, n.id, h.id, true)
    requires NextChild(n, h, i).None? && forall m <- n.items :: m.index == i
    ensures n.items == []
  {
    hide Unique, Unmixed, ChildHop;
    if n.items != [] {
      FirstItemFits(fs, n, h, i);
    }
  }

  lemma FirstItemFits(fs: seq<Field>, n: Node, h: Hop, i: int)
    requires Unique(fs) && Unmixed(fs) && Shaped(fs, n) && h.isItem && ChildHop(fs, n.id, h.id, true)
    requires n.items != [] && forall m <- n.items :: m.index == i
    ensures NextChild(n, h, i).Some?
  {
    hide Unique, Unmixed, ChildHop;
    assert n.items[0] in n.items;
    ChildUnique(fs, n.id, h.id, n.items[0].id, true);
    assert TargetTree.Fits(n.items[0], KeyOf(h, i));
  }

  lemma NoArray(fs: seq<Field>, n: Node)
    requires n.items == [] && n.value == Nil
    ensures !RawNode(fs, n).Arr?
  {
  }

  // ---------- the whole way ----------

  lemma {:induction false} ReadsDown(fs: seq<Field>, conv: Converter, log: seq<Write>, ws: seq<Write>, tree: Tree, f: string, i: int, k: nat,
                                     n: Node, stops: seq<Stop>)
    requires ReadsOne(fs, conv, log, ws, tree, f, i) && At(fs, tree, f, i, k, n) && PlacesFit(fs, Chain(fs, f).value, stops)
    ensures ReadAt(RawNode(fs, n), stops[k..], RankAt(fs, log, f, i, k)) == ValueAt(n, Keys(Chain(fs, f).value[k..], i))
    decreases |stops| - k
  {
    hide Chain, Unique, Ids, Unmixed, RowsApart, LeafAmong, Written, HasItem, Shaped, RawNode, OutputPath, ReadAt, Smaller, Recorded, RootOf, At;
    var c := Chain(fs, f).value;
    AtLength(fs, tree, f, i, k, n);
    if k == |c| {
      LeafReads(fs, conv, log, ws, tree, f, i, n, RankAt(fs, log, f, i, k));
      assert stops[k..] == [];
    } else {
      StepDown(fs, tree, f, i, k, n);
      var h := c[k];
      var next := NextChild(n, h, i);
      assert stops[k..] == [stops[k]] + stops[k + 1..];
      HasItemStep(c, k);
      if h.isItem {
        ReadsItem(fs, conv, log, ws, tree, f, i, k, n, stops[k + 1..]);
      } else {
        BareOrNil(fs, conv, log, ws, tree, f, i, k, n);
        AtShaped(fs, tree, f, i, k, n);
        ReadsField(fs, n, h, i, stops[k + 1..], RankAt(fs, log, f, i, k));
      }
      if next.Some? { ReadsDown(fs, conv, log, ws, tree, f, i, k + 1, next.value, stops); }
    }
  }

  lemma AtLength(fs: seq<Field>, tree: Tree, f: string, i: int, k: nat, n: Node)
    requires Chain(fs, f).Some? && At(fs, tree, f, i, k, n)
    ensures 1 <= k <= |Chain(fs, f).value|
  {
  }

  lemma AtShaped(fs: seq<Field>, tree: Tree, f: string, i: int, k: nat, n: Node)
    requires Chain(fs, f).Some? && At(fs, tree, f, i, k, n)
    ensures Shaped(fs, n)
  {
  }

  lemma HasItemStep(c: seq<Hop>, k: nat)
    requires k < |c|
    ensures HasItem(c[..k + 1]) <==> HasItem(c[..k]) || c[k].isItem
  {
    if HasItem(c[..k]) {
      var j :| 0 <= j < k && c[..k][j].isItem;
      assert c[..k + 1][j].isItem;
    }
    if c[k].isItem { assert c[..k + 1][k].isItem; }
    if HasItem(c[..k + 1]) {
      var j :| 0 <= j < k + 1 && c[..k + 1][j].isItem;
      if j < k { assert c[..k][j].isItem; }
    }
  }

  lemma ReadsItem(fs: seq<Field>, conv: Converter, log: seq<Write>, ws: seq<Write>, tree: Tree, f: string, i: int, k: nat, n: Node, rest: seq<Stop>)
    requires ReadsOne(fs, conv, log, ws, tree, f, i) && At(fs, tree, f, i, k, n) && k < |Chain(fs, f).value| && Chain(fs, f).value[k].isItem
    ensures ReadAt(RawNode(fs, n), [Element] + rest, RankAt(fs, log, f, i, k)) ==
      match NextChild(n, Chain(fs, f).value[k], i) case Some(m) => ReadAt(RawNode(fs, m), rest, 0) case None => None
  {
    hide Chain, Unique, Ids, Unmixed, RowsApart, LeafAmong, Written, Shaped, RawNode, Smaller, Recorded, At, NextChild, HasItem;
    assert ([Element] + rest)[1..] == rest;
    if HasItem(Chain(fs, f).value[..k]) {
      InnerArray(fs, conv, log, ws, tree, f, i, k, n);
    } else {
      FirstArray(fs, conv, log, ws, tree, f, i, k, n);
    }
  }

  lemma LeafReads(fs: seq<Field>, conv: Converter, log: seq<Write>, ws: seq<Write>, tree: Tree, f: string, i: int, n: Node, rank: nat)
    requires ReadsOne(fs, conv, log, ws, tree, f, i) && At(fs, tree, f, i, |Chain(fs, f).value|, n)
    ensures ReadAt(RawNode(fs, n), [], rank) == ValueAt(n, Keys(Chain(fs, f).value[|Chain(fs, f).value|..], i))
  {
    hide Chain, Unique, Ids, Unmixed, RowsApart, LeafAmong, Direct, Shaped, WriteAll, AllSeparate;
    var c := Chain(fs, f).value;
    assert c[..|c|] == c && c[|c|..] == [];
    WrittenSeparate(fs, conv, log, ws, tree, f);
    WritesBare(fs, conv, Direct(fs, log) + ws, f, i);
    BareOut(fs, n);
  }

  /** How many recorded indices of the first array on the way to f are smaller. */
  ghost function PlaceOf(fs: seq<Field>, log: seq<Write>, f: string, i: int): nat {
    match RootOf(fs, f) case Some(r) => |Smaller(Recorded(fs, log, r), i)| case None => 0
  }

  /** In a document that the writes of a log may give, every field that no written field contains or lies inside is read
      at its place as the log says; an item of an array, among those recorded, stands at the number of smaller ones. */
  lemma PlainDocument(fs: seq<Field>, conv: Converter, log: seq<Write>, tree: Tree, raw: A.Raw, f: string, i: int)
    requires Unique(fs) && Unmixed(fs) && SiblingsApart(fs) && f in Ids(fs) && LeafAmong(fs, log, f)
    requires Generates(fs, conv, log, tree, raw)
    requires RootOf(fs, f).Some? ==> i in Recorded(fs, log, RootOf(fs, f).value)
    ensures ReadAt(Obj(raw), Places(fs, f), PlaceOf(fs, log, f, i)) == Converted(conv, f, Expected(fs, log, f, i))
  {
    hide Unique, Unmixed, SiblingsApart, Ids, LeafAmong, Written, RawObject, Lists, RowsApart, Recorded, Smaller, Chain, Places, Expected, RawNode,
      TreeShaped, ReadAt, OutputPath, Beside, ReadsOne, At;
    var ws, ns :| Made(fs, conv, log, ws, tree, ns, raw);
    SiblingRowsApart(fs);
    PlacesFollow(fs, f);
    RecordedFrom(fs, log, f, i);
    WrittenReads(fs, conv, log, ws, tree, f, i);
    TreeIsShaped(fs, conv, log, ws, tree);
    RootsBeside(fs, tree, ns);
    RootIsRoot(fs, f);
    var stops, r := Places(fs, f), Chain(fs, f).value[0].id;
    RootStop(fs, f, stops);
    ReadsRoot(fs, tree, ns, r, stops, RankAt(fs, log, f, i, 1));
    RankAtFirst(fs, log, f, i);
    if r in tree {
      assert ReadsOne(fs, conv, log, ws, tree, f, i) by { ReadsOneIs(fs, conv, log, ws, tree, f, i); }
      AtRoot(fs, tree, f, i);
      ReadsDown(fs, conv, log, ws, tree, f, i, 1, tree[r], stops);
    }
  }

  lemma RecordedFrom(fs: seq<Field>, log: seq<Write>, f: string, i: int)
    requires RootOf(fs, f).Some? ==> i in Recorded(fs, log, RootOf(fs, f).value)
    ensures RootOf(fs, f).Some? ==> i >= 0
  {
    if RootOf(fs, f).Some? { RecordedPositive(fs, log, RootOf(fs, f).value); }
  }

  lemma {:induction false} RecordedPositive(fs: seq<Field>, log: seq<Write>, r: string)
    ensures forall i <- Recorded(fs, log, r) :: i >= 0
  {
    hide RootOf;
    if log != [] { RecordedPositive(fs, log[..|log| - 1], r); }
  }

  lemma ReadsOneIs(fs: seq<Field>, conv: Converter, log: seq<Write>, ws: seq<Write>, tree: Tree, f: string, i: int)
    requires Unique(fs) && Unmixed(fs) && RowsApart(fs) && f in Ids(fs) && Chain(fs, f).Some?
    requires Written(fs, conv, log, ws, tree) && LeafAmong(fs, log, f)
    requires RootOf(fs, f).Some? ==> i in Recorded(fs, log, RootOf(fs, f).value)
    ensures ReadsOne(fs, conv, log, ws, tree, f, i)
  {
  }

  lemma RootStop(fs: seq<Field>, f: string, stops: seq<Stop>)
    requires Unique(fs) && f in Ids(fs) && Chain(fs, f).Some? && PlacesFit(fs, Chain(fs, f).value, stops)
    ensures Chain(fs, f).value != [] && stops != [] && stops[0] == Name(OutputPath(fs, Chain(fs, f).value[0].id))
  {
    ChainShape(fs, f);
  }

  lemma RankAtFirst(fs: seq<Field>, log: seq<Write>, f: string, i: int)
    requires Unique(fs) && f in Ids(fs) && Chain(fs, f).Some? && Chain(fs, f).value != []
    ensures RankAt(fs, log, f, i, 1) == PlaceOf(fs, log, f, i)
  {
    hide Smaller, Recorded, Chain;
    ChainShape(fs, f);
    var c := Chain(fs, f).value;
    assert c[..1] == [c[0]];
  }

  lemma AtRoot(fs: seq<Field>, tree: Tree, f: string, i: int)
    requires Chain(fs, f).Some? && Chain(fs, f).value != [] && Chain(fs, f).value[0].id in tree && TreeShaped(fs, tree)
    ensures At(fs, tree, f, i, 1, tree[Chain(fs, f).value[0].id])
  {
    hide Chain, Shaped, RootHop;
    assert Chain(fs, f).value[..1][1..] == [];
  }

  lemma ReadsRoot(fs: seq<Field>, tree: Tree, ns: seq<Node>, r: string, stops: seq<Stop>, rank: nat)
    requires RowsApart(fs) && TreeShaped(fs, tree) && Lists(ns, tree) && Beside(fs, ns) && RootHop(fs, r)
    requires stops != [] && stops[0] == Name(OutputPath(fs, r))
    ensures ReadAt(Obj(RawObject(fs, ns, ns)), stops, rank) ==
      if r in tree then ReadAt(RawNode(fs, tree[r]), stops[1..], rank) else None
  {
    hide RawNode, OutputPath, RawObject, Beside, RootHop, Shaped, ChildHop, PathsApart;
    if r in tree {
      ObjectReads(fs, ns, tree[r]);
    } else {
      var q := A.Split(OutputPath(fs, r));
      assert q != [];
      forall n | n in ns ensures A.Apart(A.Split(OutputPath(fs, n.id)), q) {
        assert PathsApart(fs, n.id, r);
        ApartPaths(fs, n.id, r);
      }
      NothingBeside(fs, ns, q);
    }
  }

  /** In particular a field at the top is found under its path, or its identifier when it has none. */
  lemma TopFieldStands(fs: seq<Field>, conv: Converter, log: seq<Write>, tree: Tree, raw: A.Raw, k: nat)
    requires Unique(fs) && Unmixed(fs) && SiblingsApart(fs) && k < |fs| && LeafAmong(fs, log, fs[k].id)
    requires Generates(fs, conv, log, tree, raw)
    ensures A.Lookup(raw, A.Split(if fs[k].path == "" then fs[k].id else fs[k].path)) ==
      Converted(conv, fs[k].id, Expected(fs, log, fs[k].id, 0))
  {
    hide Unmixed, SiblingsApart, LeafAmong, Generates, Expected;
    TopPlace(fs, k);
    PlainDocument(fs, conv, log, tree, raw, fs[k].id, 0);
  }

  lemma TopPlace(fs: seq<Field>, k: nat)
    requires Unique(fs) && k < |fs|
    ensures fs[k].id in Ids(fs) && RootOf(fs, fs[k].id).None?
    ensures Places(fs, fs[k].id) == [Name(if fs[k].path == "" then fs[k].id else fs[k].path)]
  {
    TopChain(fs, k);
    hide Chain, Places, Unique, Ids;
    NoRootHop(fs[k].id);
  }

  lemma NoRootHop(id: string)
    ensures ArrayRoot([Root(id)]) == None
  {
    assert [Root(id)][1..] == [] && ArrayRoot([]) == None;
  }

  lemma {:induction false} TopChain(fs: seq<Field>, k: nat)
    requires Unique(fs) && k < |fs|
    ensures fs[k].id in Ids(fs) && Chain(fs, fs[k].id) == Some([Root(fs[k].id)])
    ensures Places(fs, fs[k].id) == [Name(if fs[k].path == "" then fs[k].id else fs[k].path)]
    decreases |fs|
  {
    if k > 0 {
      assert fs[1..][k - 1] == fs[k];
      TopChain(fs[1..], k - 1);
      FieldChainFound(fs[0], fs[k].id);
    }
  }
}
