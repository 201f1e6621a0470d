/** What the output document holds: every leaf of the tree, at the place its paths and indices name. */
module OutputReads {
  import opened Basics
  import opened LotusSteps
  import opened FieldPaths
  import opened TargetTree
  import opened Output
  import A = Assign

  // ---------- children in the schema ----------

  /** No field has both items and nested fields. */
  predicate Unmixed(fs: seq<Field>)
    decreases fs, |fs|
  {
    fs == [] || (
      var f := fs[0];
      && (f.items.Some? ==> f.fields == [] && Unmixed(f.items.value.fields))
      && Unmixed(f.fields) && Unmixed(fs[1..]))
  }

  function ItemIn(f: Field, p: string): Option<string>
    decreases f, 0
  {
    if f.id == p then (match f.items case Some(i) => Some(i.id) case None => None)
    else if f.items.Some? && f.items.value.id == p then None
    else if f.items.Some? && p in Ids(f.items.value.fields) then ItemOf(f.items.value.fields, p)
    else ItemOf(f.fields, p)
  }

  /** The item field of array p. */
  function ItemOf(fs: seq<Field>, p: string): Option<string>
    decreases fs, |fs|
  {
    if fs == [] then None else if p in FieldIds(fs[0]) then ItemIn(fs[0], p) else ItemOf(fs[1..], p)
  }

  function ItemOfRow(h: Hop): Option<string> { if h.isItem then Some(h.id) else None }

  lemma {:induction false} RowsAgree(fs: seq<Field>, h: Hop)
    requires Unique(fs) && Unmixed(fs) && h in Table(fs)
    ensures h.parent == "" ==> !h.isItem
    ensures h.parent != "" ==> h.parent in Ids(fs) && ItemOf(fs, h.parent) == ItemOfRow(h)
    decreases fs, |fs|
  {
    hide Chain, FieldChain;
    if h in FieldTable(fs[0]) {
      FieldRowsAgree(fs[0], h);
    } else {
      RowsAgree(fs[1..], h);
    }
  }

  lemma {:induction false} FieldRowsAgree(f: Field, h: Hop)
    requires UniqueField(f) && Unmixed([f]) && h in FieldTable(f)
    ensures h.parent == "" ==> !h.isItem
    ensures h.parent != "" ==> h.parent in FieldIds(f) && ItemIn(f, h.parent) == ItemOfRow(h)
    decreases f, 0
  {
    hide Chain, FieldChain, Table;
    assert Unmixed(f.fields) && (f.items.Some? ==> Unmixed(f.items.value.fields) && f.fields == []);
    if f.items.Some? && h in Under(f.items.value.id, Table(f.items.value.fields)) {
      var i := f.items.value;
      var k :| 0 <= k < |Table(i.fields)| && h == Lift(i.id, Table(i.fields)[k]);
      RowsAgree(i.fields, Table(i.fields)[k]);
    } else if h in Under(f.id, Table(f.fields)) {
      var k :| 0 <= k < |Table(f.fields)| && h == Lift(f.id, Table(f.fields)[k]);
      RowsAgree(f.fields, Table(f.fields)[k]);
      NoRows([]);
    }
  }

  /** id names a field, or the item, directly below p. */
  ghost predicate ChildHop(fs: seq<Field>, p: string, id: string, item: bool) {
    p != "" && id in Ids(fs) && Find(Table(fs), id).parent == p && Find(Table(fs), id).isItem == item
  }

  lemma ChildUnique(fs: seq<Field>, p: string, a: string, b: string, item: bool)
    requires Unique(fs) && Unmixed(fs) && ChildHop(fs, p, a, true) && ChildHop(fs, p, b, item)
    ensures item && a == b
  {
    hide Chain, Table;
    FoundRow(fs, a);
    FoundRow(fs, b);
    RowFound(fs, a);
    RowFound(fs, b);
    RowsAgree(fs, Find(Table(fs), a));
    RowsAgree(fs, Find(Table(fs), b));
  }

  lemma RowFound(fs: seq<Field>, id: string)
    requires id in Ids(fs)
    ensures Find(Table(fs), id) in Table(fs)
  {
    RowOf(fs, id);
    FindFirst(Table(fs), id);
  }

  // ---------- the shape of the tree ----------

  ghost predicate DistinctIds(ns: seq<Node>) { forall i, j :: 0 <= i < j < |ns| ==> ns[i].id != ns[j].id }

  /** Children are those of the schema, no two items share an index and no two fields an identifier. */
  ghost predicate Shaped(fs: seq<Field>, n: Node)
    decreases n
  {
    && Distinct(n.items) && DistinctIds(n.fields)
    && (forall m <- n.items :: ChildHop(fs, n.id, m.id, true) && Shaped(fs, m))
    && (forall m <- n.fields :: ChildHop(fs, n.id, m.id, false) && Shaped(fs, m))
  }

  ghost predicate KeysShaped(fs: seq<Field>, p: string, ks: seq<Key>)
    decreases |ks|
  {
    ks == [] || (ChildHop(fs, p, ks[0].id, ks[0].item) && KeysShaped(fs, ks[0].id, ks[1..]))
  }

  lemma {:induction false} PutShaped(fs: seq<Field>, n: Node, ks: seq<Key>, v: Value)
    requires Unique(fs) && Unmixed(fs) && Shaped(fs, n) && KeysShaped(fs, n.id, ks)
    ensures Shaped(fs, Put(n, ks, v))
    decreases |ks|
  {
    hide Put, ChildHop, Unique, Unmixed;
    if ks == [] {
      PutHere(n, v);
    } else {
      var k := ks[0];
      var cs := Children(n, k);
      var child := Stored(n, ks, v);
      PutIsUpsert(n, ks, v);
      StoredFits(n, ks, v);
      if |ks| > 1 {
        var was := Existing(cs, k);
        if Position(cs, k) < |cs| {
          assert was in cs;
        }
        PutShaped(fs, was, ks[1..], v);
      }
      assert Shaped(fs, child);
      UpsertShaped(fs, n, k, child);
    }
  }

  lemma PutHere(n: Node, v: Value)
    ensures Put(n, [], v) == n.(value := v)
  {
  }

  lemma UpsertShaped(fs: seq<Field>, n: Node, k: Key, child: Node)
    requires Unique(fs) && Unmixed(fs) && Shaped(fs, n) && Shaped(fs, child)
    requires ChildHop(fs, n.id, k.id, k.item) && TargetTree.Fits(child, k)
    ensures Shaped(fs, WithChildren(n, k, Upsert(Children(n, k), k, child)))
  {
    hide ChildHop, Unique, Unmixed;
    var cs := Children(n, k);
    var us := Upsert(cs, k, child);
    if k.item {
      forall m | m in cs ensures m.id == k.id { ChildUnique(fs, n.id, k.id, m.id, true); }
    }
    var p := Position(cs, k);
    forall i | 0 <= i < |us| && i != p ensures us[i] in cs {
      assert us[i] == cs[i];
    }
    assert forall m <- us :: m == child || m in cs;
  }

  // ---------- reading the output ----------

  /** Distinct fields beside each other have paths neither of which is above the other. */
  ghost predicate PathsApart(fs: seq<Field>, a: string, b: string) {
    && A.Assignable(A.Split(OutputPath(fs, a))) && A.Assignable(A.Split(OutputPath(fs, b)))
    && (a != b ==> A.Apart(A.Split(OutputPath(fs, a)), A.Split(OutputPath(fs, b))))
  }

  ghost predicate RowsApart(fs: seq<Field>) {
    && (forall p, a, b | ChildHop(fs, p, a, false) && ChildHop(fs, p, b, false) :: PathsApart(fs, a, b))
    && (forall a, b | RootHop(fs, a) && RootHop(fs, b) :: PathsApart(fs, a, b))
  }

  ghost predicate RootHop(fs: seq<Field>, id: string) { id in Ids(fs) && Find(Table(fs), id).parent == "" }

  function Entries(fs: seq<Field>, ns: seq<Node>): (es: seq<A.Entry>)
    ensures |es| == |ns|
  {
    seq(|ns|, k requires 0 <= k < |ns| => A.Entry(A.Split(OutputPath(fs, ns[k].id)), RawNode(fs, ns[k])))
  }

  lemma {:induction false} ObjectIsPutAll(fs: seq<Field>, ns: seq<Node>, all: seq<Node>)
    requires forall m <- ns :: m in all
    ensures RawObject(fs, ns, all) == A.PutAll(map[], Entries(fs, ns))
  {
    hide RawNode, OutputPath;
    if ns != [] {
      ObjectIsPutAll(fs, ns[..|ns| - 1], all);
      assert Entries(fs, ns)[..|ns| - 1] == Entries(fs, ns[..|ns| - 1]);
    }
  }

  ghost predicate Beside(fs: seq<Field>, ns: seq<Node>) {
    DistinctIds(ns) && forall m, l | m in ns && l in ns :: PathsApart(fs, m.id, l.id)
  }

  lemma BesideApart(fs: seq<Field>, ns: seq<Node>)
    requires Beside(fs, ns)
    ensures A.AllApart(Entries(fs, ns))
  {
    hide RawNode, OutputPath;
    var es := Entries(fs, ns);
    forall i | 0 <= i < |es| ensures A.Assignable(es[i].path) {
      assert PathsApart(fs, ns[i].id, ns[i].id);
    }
    forall i, j | 0 <= i < j < |es| ensures A.Apart(es[i].path, es[j].path) {
      assert PathsApart(fs, ns[i].id, ns[j].id);
    }
  }

  /** Each of the nodes is found in the object under its own path. */
  lemma ObjectReads(fs: seq<Field>, ns: seq<Node>, n: Node)
    requires Beside(fs, ns) && n in ns
    ensures A.Lookup(RawObject(fs, ns, ns), A.Split(OutputPath(fs, n.id))) == Some(RawNode(fs, n))
  {
    hide RawNode, OutputPath, RawObject;
    ObjectIsPutAll(fs, ns, ns);
    BesideApart(fs, ns);
    var es := Entries(fs, ns);
    A.PutAllReads(map[], es, A.Split(OutputPath(fs, n.id)));
    var k :| 0 <= k < |ns| && ns[k] == n;
    assert es[k].value == RawNode(fs, n);
  }

  /** The object does not depend on the order in which a map hands the nodes out. */
  lemma ObjectOrderIrrelevant(fs: seq<Field>, ns: seq<Node>, ms: seq<Node>)
    requires Beside(fs, ns) && Beside(fs, ms) && multiset(ns) == multiset(ms)
    ensures RawObject(fs, ns, ns) == RawObject(fs, ms, ms)
  {
    hide RawNode, OutputPath, RawObject, Beside;
    ObjectIsPutAll(fs, ns, ns);
    ObjectIsPutAll(fs, ms, ms);
    BesideApart(fs, ns);
    BesideApart(fs, ms);
    EntriesPermuted(fs, ns, ms);
    A.OrderIrrelevant(map[], Entries(fs, ns), Entries(fs, ms));
  }

  function Drop(ns: seq<Node>, j: nat): seq<Node>
    requires j < |ns|
  {
    ns[..j] + ns[j + 1..]
  }

  lemma DropOne(fs: seq<Field>, ns: seq<Node>, j: nat)
    requires j < |ns|
    ensures multiset(Drop(ns, j)) == multiset(ns) - multiset{ns[j]}
    ensures multiset(Entries(fs, Drop(ns, j))) == multiset(Entries(fs, ns)) - multiset{Entries(fs, ns)[j]}
  {
    hide RawNode, OutputPath;
    var es := Entries(fs, ns);
    assert ns == ns[..j] + [ns[j]] + ns[j + 1..];
    assert es == es[..j] + [es[j]] + es[j + 1..];
    assert Entries(fs, Drop(ns, j)) == es[..j] + es[j + 1..];
  }

  lemma {:induction false} EntriesPermuted(fs: seq<Field>, ns: seq<Node>, ms: seq<Node>)
    requires multiset(ns) == multiset(ms)
    ensures multiset(Entries(fs, ns)) == multiset(Entries(fs, ms))
    decreases |ns|
  {
    assert |ms| == |multiset(ms)| == |multiset(ns)| == |ns|;
    if ns != [] {
      var x := |ns| - 1;
      assert ns[x] in multiset(ms);
      assert ns[x] in ms;
      var j :| 0 <= j < |ms| && ms[j] == ns[x];
      DropOne(fs, ns, x);
      DropOne(fs, ms, j);
      EntriesPermuted(fs, Drop(ns, x), Drop(ms, j));
      SameRemaining(fs, ns, x, ms, j);
    }
  }

  lemma SameRemaining(fs: seq<Field>, ns: seq<Node>, x: nat, ms: seq<Node>, j: nat)
    requires x < |ns| && j < |ms| && ns[x] == ms[j]
    requires multiset(Entries(fs, ns)) - multiset{Entries(fs, ns)[x]} == multiset(Entries(fs, ms)) - multiset{Entries(fs, ms)[j]}
    ensures multiset(Entries(fs, ns)) == multiset(Entries(fs, ms))
  {
    hide RawNode, OutputPath;
    var es, gs := Entries(fs, ns), Entries(fs, ms);
    assert es[x] == gs[j] && es[x] in multiset(es) && gs[j] in multiset(gs);
    assert multiset(es) == multiset(es) - multiset{es[x]} + multiset{es[x]};
    assert multiset(gs) == multiset(gs) - multiset{gs[j]} + multiset{gs[j]};
  }

  /** Reading an output value along the keys: fields by their path, items by the rank of their index. */
  function Follow(fs: seq<Field>, out: Value, n: Node, ks: seq<Key>): Option<Value>
    decreases |ks|
  {
    if ks == [] then Some(out)
    else
      var k := ks[0];
      var cs := Children(n, k);
      var p := Position(cs, k);
      if p == |cs| then None
      else if k.item then
        if out.Arr? && Rank(cs, k.index) < |out.items| then Follow(fs, out.items[Rank(cs, k.index)], cs[p], ks[1..]) else None
      else if out.Obj? && A.Lookup(out.fields, A.Split(OutputPath(fs, k.id))).Some? then
        Follow(fs, A.Lookup(out.fields, A.Split(OutputPath(fs, k.id))).value, cs[p], ks[1..])
      else None
  }

  predicate Childless(n: Node) { n.items == [] && n.fields == [] }

  lemma {:induction false} EachAt(fs: seq<Field>, ns: seq<Node>, all: seq<Node>, k: nat)
    requires k < |ns| && forall m <- ns :: m in all
    ensures RawEach(fs, ns, all)[k] == RawNode(fs, ns[k])
  {
    hide RawNode;
    if k < |ns| - 1 { EachAt(fs, ns[..|ns| - 1], all, k); }
  }

  lemma ItemsOut(fs: seq<Field>, n: Node, m: Node)
    requires Unique(fs) && Unmixed(fs) && Shaped(fs, n) && m in n.items
    ensures RawNode(fs, n).Arr? && |RawNode(fs, n).items| == |n.items|
    ensures Rank(n.items, m.index) < |n.items| && RawNode(fs, n).items[Rank(n.items, m.index)] == RawNode(fs, m)
  {
    hide ChildHop, Unique, Unmixed, ByIndex, RawEach;
    if n.fields != [] {
      assert n.fields[0] in n.fields;
      ChildUnique(fs, n.id, m.id, n.fields[0].id, false);
    }
    RankIsPosition(n.items, m);
    EachAt(fs, ByIndexIn(n.items), n.items, Rank(n.items, m.index));
  }

  lemma FieldsOut(fs: seq<Field>, n: Node, m: Node)
    requires RowsApart(fs) && Shaped(fs, n) && m in n.fields
    ensures RawNode(fs, n).Obj?
    ensures A.Lookup(RawNode(fs, n).fields, A.Split(OutputPath(fs, m.id))) == Some(RawNode(fs, m))
  {
    hide ChildHop, PathsApart, RawObject, RootHop;
    forall a, b | a in n.fields && b in n.fields ensures PathsApart(fs, a.id, b.id) {
      assert ChildHop(fs, n.id, a.id, false) && ChildHop(fs, n.id, b.id, false);
    }
    ObjectReads(fs, n.fields, m);
  }

  /** Following the keys in the output finds exactly what the tree holds. */
  lemma {:induction false} OutputReadsTree(fs: seq<Field>, n: Node, ks: seq<Key>)
    requires Unique(fs) && Unmixed(fs) && RowsApart(fs) && Shaped(fs, n)
    requires Get(n, ks).Some? ==> Childless(Get(n, ks).value)
    ensures Follow(fs, RawNode(fs, n), n, ks) == ValueAt(n, ks)
    decreases |ks|
  {
    hide RawNode, OutputPath, ChildHop, Unique, Unmixed, RowsApart, Distinct, DistinctIds;
    if ks == [] {
      BareOut(fs, n);
    } else {
      var k := ks[0];
      var cs := Children(n, k);
      var p := Position(cs, k);
      if p < |cs| {
        assert cs[p] in cs;
        OutputReadsTree(fs, cs[p], ks[1..]);
        if k.item { ItemsOut(fs, n, cs[p]); } else { FieldsOut(fs, n, cs[p]); }
      }
    }
  }

  lemma BareOut(fs: seq<Field>, n: Node)
    requires Childless(n)
    ensures RawNode(fs, n) == n.value
  {
  }
}
