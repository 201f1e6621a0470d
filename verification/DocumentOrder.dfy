/** Trees of the schema's shape that read alike give the same document. */
module DocumentOrder {
  import opened FieldPaths
  import opened TargetTree
  import opened TreeView
  import opened Output
  import opened OutputReads
  import A = Assign

  // ---------- children ----------

  /** Below a child of its own key, a node reads as the child does. */
  lemma ThroughChild(n: Node, c: Node, k: Key, ks: seq<Key>)
    requires Distinct(n.items) && DistinctIds(n.fields) && c in Children(n, k) && TargetTree.Fits(c, k)
    ensures ValueAt(n, [k] + ks) == ValueAt(c, ks)
  {
    var cs := Children(n, k);
    var p := Position(cs, k);
    var j :| 0 <= j < |cs| && cs[j] == c;
    assert p <= j;
    assert ([k] + ks)[1..] == ks;
  }

  predicate PlainKey(k: Key) { !k.item ==> k.index == 0 }

  /** The child of m under the key of a child of n, in trees that read alike. */
  lemma Partner(n: Node, m: Node, c: Node, k: Key) returns (d: Node)
    requires Alike(n, m) && PlainKey(k)
    requires Distinct(n.items) && DistinctIds(n.fields) && Distinct(m.items) && DistinctIds(m.fields)
    requires c in Children(n, k) && TargetTree.Fits(c, k)
    ensures d in Children(m, k) && TargetTree.Fits(d, k) && Alike(c, d)
  {
    hide Put;
    ThroughChild(n, c, k, []);
    assert Plain([k] + []) && ValueAt(m, [k] + []) == ValueAt(n, [k] + []);
    assert ([k] + [])[0] == k && ValueAt(c, []).Some?;
    var cs := Children(m, k);
    assert Position(cs, k) < |cs|;
    d := cs[Position(cs, k)];
    forall ks | Plain(ks) ensures ValueAt(c, ks) == ValueAt(d, ks) {
      ThroughChild(n, c, k, ks);
      ThroughChild(m, d, k, ks);
      assert Plain([k] + ks);
      assert ValueAt(n, [k] + ks) == ValueAt(m, [k] + ks);
    }
  }

  // ---------- objects and arrays ----------

  ghost predicate SameEntry(fs: seq<Field>, c: Node, d: Node) { c.id == d.id && RawNode(fs, c) == RawNode(fs, d) }

  ghost predicate SameItem(fs: seq<Field>, c: Node, d: Node) { c.index == d.index && RawNode(fs, c) == RawNode(fs, d) }

  ghost predicate SameEntries(fs: seq<Field>, ns: seq<Node>, ms: seq<Node>) {
    forall c <- ns :: exists d :: d in ms && SameEntry(fs, c, d)
  }

  ghost predicate SameItems(fs: seq<Field>, ns: seq<Node>, ms: seq<Node>) {
    forall c <- ns :: exists d :: d in ms && SameItem(fs, c, d)
  }

  lemma EntryOf(fs: seq<Field>, ns: seq<Node>, ms: seq<Node>)
    requires SameEntries(fs, ns, ms)
    ensures forall e <- Entries(fs, ns) :: e in Entries(fs, ms)
  {
    hide RawNode, OutputPath;
    var es, gs := Entries(fs, ns), Entries(fs, ms);
    forall e | e in es ensures e in gs {
      var k :| 0 <= k < |es| && es[k] == e;
      assert ns[k] in ns;
      var d :| d in ms && SameEntry(fs, ns[k], d);
      var l :| 0 <= l < |ms| && ms[l] == d;
      assert gs[l] == e;
    }
  }

  lemma {:induction false} NoRepeats(es: seq<A.Entry>, e: A.Entry)
    requires A.AllApart(es)
    ensures multiset(es)[e] == if e in es then 1 else 0
  {
    if es != [] {
      var n := |es| - 1;
      NoRepeats(es[..n], e);
      assert es == es[..n] + [es[n]];
      forall k | 0 <= k < n ensures es[..n][k] != es[n] {
        assert A.Apart(es[k].path, es[n].path);
      }
    }
  }

  /** Objects with the same entries are the same, in whatever order their nodes come. */
  lemma SameObject(fs: seq<Field>, ns: seq<Node>, ms: seq<Node>)
    requires Beside(fs, ns) && Beside(fs, ms) && SameEntries(fs, ns, ms) && SameEntries(fs, ms, ns)
    ensures RawObject(fs, ns, ns) == RawObject(fs, ms, ms)
  {
    hide RawNode, OutputPath, RawObject, Beside, SameEntries;
    var es, gs := Entries(fs, ns), Entries(fs, ms);
    BesideApart(fs, ns);
    BesideApart(fs, ms);
    EntryOf(fs, ns, ms);
    EntryOf(fs, ms, ns);
    forall e ensures multiset(es)[e] == multiset(gs)[e] {
      NoRepeats(es, e);
      NoRepeats(gs, e);
    }
    assert multiset(es) == multiset(gs);
    A.OrderIrrelevant(map[], es, gs);
    ObjectIsPutAll(fs, ns, ns);
    ObjectIsPutAll(fs, ms, ms);
  }

  lemma SameIndices(fs: seq<Field>, ns: seq<Node>, ms: seq<Node>)
    requires SameItems(fs, ns, ms)
    ensures IndexSet(ns) <= IndexSet(ms)
  {
    hide RawNode;
    forall i | i in IndexSet(ns) ensures i in IndexSet(ms) {
      var k :| 0 <= k < |ns| && ns[k].index == i;
      assert ns[k] in ns;
      var d :| d in ms && SameItem(fs, ns[k], d);
      var l :| 0 <= l < |ms| && ms[l] == d;
    }
  }

  lemma ItemAt(fs: seq<Field>, ns: seq<Node>, ms: seq<Node>, k: nat)
    requires Distinct(ns) && Distinct(ms) && SameItems(fs, ns, ms) && IndexSet(ns) == IndexSet(ms)
    requires k < |ByIndexIn(ns)| && |ByIndexIn(ms)| == |ByIndexIn(ns)|
    ensures RawEach(fs, ByIndexIn(ns), ns)[k] == RawEach(fs, ByIndexIn(ms), ms)[k]
  {
    hide RawNode, RawEach, ByIndex, Rank, Distinct, IndexSet, Smaller, SameItems;
    var c := ByIndexIn(ns)[k];
    var d := ItemFor(fs, ns, ms, c);
    RankOfPosition(ns, k);
    RankCounts(ns, c.index);
    RankCounts(ms, c.index);
    RankIsPosition(ms, d);
    EachAt(fs, ByIndexIn(ns), ns, k);
    EachAt(fs, ByIndexIn(ms), ms, k);
  }

  lemma ItemFor(fs: seq<Field>, ns: seq<Node>, ms: seq<Node>, c: Node) returns (d: Node)
    requires SameItems(fs, ns, ms) && c in ns
    ensures d in ms && d.index == c.index && RawNode(fs, d) == RawNode(fs, c)
  {
    hide RawNode;
    d :| d in ms && SameItem(fs, c, d);
  }

  /** Arrays with the same items are the same. */
  lemma SameArray(fs: seq<Field>, ns: seq<Node>, ms: seq<Node>)
    requires Distinct(ns) && Distinct(ms) && SameItems(fs, ns, ms) && SameItems(fs, ms, ns)
    ensures RawEach(fs, ByIndexIn(ns), ns) == RawEach(fs, ByIndexIn(ms), ms)
  {
    hide RawNode, RawEach, ByIndex, Rank, Distinct, IndexSet, Smaller, SameItems;
    SameIndices(fs, ns, ms);
    SameIndices(fs, ms, ns);
    RankCounts(ns, 0);
    RankCounts(ms, 0);
    assert IndexSet(ns) == IndexSet(ms);
    var a, b := RawEach(fs, ByIndexIn(ns), ns), RawEach(fs, ByIndexIn(ms), ms);
    assert |a| == |ByIndexIn(ns)| == |ByIndexIn(ms)| == |b|;
    forall k | 0 <= k < |ByIndexIn(ns)|
      ensures RawEach(fs, ByIndexIn(ns), ns)[k] == RawEach(fs, ByIndexIn(ms), ms)[k]
    {
      ItemAt(fs, ns, ms, k);
    }
  }

  // ---------- the same document ----------

  lemma FieldsBeside(fs: seq<Field>, n: Node)
    requires RowsApart(fs) && Shaped(fs, n)
    ensures Beside(fs, n.fields)
  {
    hide PathsApart, RootHop, ChildHop;
    forall a, b | a in n.fields && b in n.fields ensures PathsApart(fs, a.id, b.id) {
      assert ChildHop(fs, n.id, a.id, false) && ChildHop(fs, n.id, b.id, false);
    }
  }

  lemma ShapedParts(fs: seq<Field>, n: Node)
    requires Shaped(fs, n)
    ensures Distinct(n.items) && DistinctIds(n.fields)
    ensures forall c <- n.items :: Shaped(fs, c)
    ensures forall c <- n.fields :: Shaped(fs, c)
  {
  }

  lemma {:induction false} SameFields(fs: seq<Field>, n: Node, m: Node)
    requires RowsApart(fs) && Shaped(fs, n) && Shaped(fs, m) && Alike(n, m)
    ensures SameEntries(fs, n.fields, m.fields) && SameEntries(fs, m.fields, n.fields)
    decreases n, 0
  {
    hide RawNode, RowsApart, Shaped, Alike;
    ShapedParts(fs, n);
    ShapedParts(fs, m);
    AlikeOnce(n, m, m) by { AlikeItself(m); }
    forall c | c in n.fields ensures exists d :: d in m.fields && SameEntry(fs, c, d) {
      var d := Partner(n, m, c, Key(c.id, false, 0));
      SameRaw(fs, c, d);
      assert SameEntry(fs, c, d);
    }
    forall d | d in m.fields ensures exists c :: c in n.fields && SameEntry(fs, d, c) {
      var c := Partner(m, n, d, Key(d.id, false, 0));
      AlikeOnce(d, c, c) by { AlikeItself(c); }
      SameRaw(fs, c, d);
      assert SameEntry(fs, d, c);
    }
  }

  lemma AlikeItself(n: Node)
    ensures Alike(n, n)
  {
  }

  lemma {:induction false} SameItemsOf(fs: seq<Field>, n: Node, m: Node)
    requires RowsApart(fs) && Shaped(fs, n) && Shaped(fs, m) && Alike(n, m)
    ensures SameItems(fs, n.items, m.items) && SameItems(fs, m.items, n.items)
    decreases n, 0
  {
    hide RawNode, RowsApart, Shaped, Alike;
    ShapedParts(fs, n);
    ShapedParts(fs, m);
    AlikeOnce(n, m, m) by { AlikeItself(m); }
    forall c | c in n.items ensures exists d :: d in m.items && SameItem(fs, c, d) {
      var d := Partner(n, m, c, Key(c.id, true, c.index));
      SameRaw(fs, c, d);
      assert SameItem(fs, c, d);
    }
    forall d | d in m.items ensures exists c :: c in n.items && SameItem(fs, d, c) {
      var c := Partner(m, n, d, Key(d.id, true, d.index));
      AlikeOnce(d, c, c) by { AlikeItself(c); }
      SameRaw(fs, c, d);
      assert SameItem(fs, d, c);
    }
  }

  /** Trees that read alike flatten to the same value. */
  lemma {:induction false} SameRaw(fs: seq<Field>, n: Node, m: Node)
    requires RowsApart(fs) && Shaped(fs, n) && Shaped(fs, m) && Alike(n, m)
    ensures RawNode(fs, n) == RawNode(fs, m)
    decreases n, 1
  {
    hide RowsApart, Shaped, Alike, RawObject, RawEach, SameEntries, SameItems;
    SameFields(fs, n, m);
    SameItemsOf(fs, n, m);
    FieldsBeside(fs, n);
    FieldsBeside(fs, m);
    ShapedParts(fs, n);
    ShapedParts(fs, m);
    SameObject(fs, n.fields, m.fields);
    SameArray(fs, n.items, m.items);
    SameEmpty(fs, n, m);
    SameValueHere(n, m);
  }

  lemma SameEmpty(fs: seq<Field>, n: Node, m: Node)
    requires SameEntries(fs, n.fields, m.fields) && SameEntries(fs, m.fields, n.fields)
    requires SameItems(fs, n.items, m.items) && SameItems(fs, m.items, n.items)
    ensures (n.fields == [] <==> m.fields == []) && (n.items == [] <==> m.items == [])
  {
    hide SameEntry, SameItem;
    if n.fields != [] { assert n.fields[0] in n.fields; }
    if m.fields != [] { assert m.fields[0] in m.fields; }
    if n.items != [] { assert n.items[0] in n.items; }
    if m.items != [] { assert m.items[0] in m.items; }
  }

  lemma SameValueHere(n: Node, m: Node)
    requires Alike(n, m)
    ensures n.value == m.value
  {
    assert Plain([]) && ValueAt(n, []) == ValueAt(m, []);
  }
}
