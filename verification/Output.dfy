/** The output document: the tree of target values flattened into nested maps and arrays. */
module Output {
  import opened Basics
  import opened LotusSteps
  import opened FieldPaths
  import opened TargetTree
  import A = Assign

  datatype Found = Found(field: Field, isItem: bool)

  /** GetField: the first field with the identifier, flagged when it is an array item or lies inside one. */
  function FieldIn(f: Field, id: string): Option<Found>
    decreases f, 0
  {
    if f.id == id then Some(Found(f, false))
    else if f.items.Some? && f.items.value.id == id then Some(Found(f.items.value, true))
    else if f.items.Some? && FieldIn(f.items.value, id).Some? && FieldIn(f.items.value, id).value.field.id != "" then
      Some(FieldIn(f.items.value, id).value.(isItem := true))
    else InnerField(f.fields, id)
  }

  /** Nested fields with an empty identifier are not found. */
  function InnerField(fs: seq<Field>, id: string): Option<Found>
    decreases fs, |fs|
  {
    if fs == [] then None
    else
      var r := FieldIn(fs[0], id);
      if r.Some? && r.value.field.id != "" then r else InnerField(fs[1..], id)
  }

  function GetField(fs: seq<Field>, id: string): Option<Found> {
    if fs == [] then None
    else if FieldIn(fs[0], id).Some? then FieldIn(fs[0], id)
    else GetField(fs[1..], id)
  }

  predicate HasItem(c: seq<Hop>) { exists k :: 0 <= k < |c| && c[k].isItem }

  /** What a lookup finds is the field asked for, flagged exactly when its chain has an item hop. */
  ghost predicate Agrees(r: Option<Found>, c: Option<seq<Hop>>, id: string) {
    && (r.Some? <==> c.Some?)
    && (r.Some? ==> r.value.field.id == id && (r.value.isItem <==> HasItem(c.value)))
  }

  lemma HasItemBelow(head: seq<Hop>, parent: string, c: seq<Hop>)
    ensures HasItem(head + Under(parent, c)) <==> HasItem(head) || HasItem(c)
  {
    var r := head + Under(parent, c);
    if HasItem(head) {
      var k :| 0 <= k < |head| && head[k].isItem;
      assert r[k].isItem;
    } else if HasItem(c) {
      var k :| 0 <= k < |c| && c[k].isItem;
      assert r[|head| + k].isItem;
    }
  }

  lemma {:induction false} FieldInAgrees(f: Field, id: string)
    requires UniqueField(f) && id != ""
    ensures Agrees(FieldIn(f, id), FieldChain(f, id), id)
    decreases f, 0
  {
    hide Chain;
    if f.id != id {
      var c := Chain(f.fields, id);
      ChainFound(f.fields, id);
      InnerFieldAgrees(f.fields, id);
      if c.Some? { HasItemBelow([Root(f.id)], f.id, c.value); }
      if f.items.Some? {
        var i := f.items.value;
        ChainFound(i.fields, id);
        InnerFieldAgrees(i.fields, id);
        var head := [Root(f.id), Item(f.id, i.id)];
        assert head[1].isItem && [Root(f.id), Item(f.id, id)][1].isItem;
        if Chain(i.fields, id).Some? { HasItemBelow(head, i.id, Chain(i.fields, id).value); }
      }
    }
  }

  lemma {:induction false} InnerFieldAgrees(fs: seq<Field>, id: string)
    requires Unique(fs) && id != ""
    ensures Agrees(InnerField(fs, id), Chain(fs, id), id)
    decreases fs, |fs|
  {
    if fs != [] {
      FieldInAgrees(fs[0], id);
      InnerFieldAgrees(fs[1..], id);
    }
  }

  /** GetField finds exactly the fields of the tree, and flags exactly those with an array on the way. */
  lemma {:induction false} GetFieldAgrees(fs: seq<Field>, id: string)
    requires Unique(fs) && id != ""
    ensures Agrees(GetField(fs, id), Chain(fs, id), id)
    decreases |fs|
  {
    if fs != [] {
      FieldInAgrees(fs[0], id);
      GetFieldAgrees(fs[1..], id);
    }
  }

  /** The key a field is written under: its path, or its identifier when it has none. */
  function OutputPath(fs: seq<Field>, id: string): string {
    match GetField(fs, id) case Some(f) => if f.field.path == "" then id else f.field.path case None => id
  }

  // ---------- order of items ----------

  function Insert(n: Node, ns: seq<Node>): seq<Node> {
    if ns == [] || n.index < ns[0].index then [n] + ns else [ns[0]] + Insert(n, ns[1..])
  }

  /** The effect of a stable sort by index. */
  function ByIndex(ns: seq<Node>): seq<Node> {
    if ns == [] then [] else Insert(ns[|ns| - 1], ByIndex(ns[..|ns| - 1]))
  }

  lemma LastCounts(ns: seq<Node>)
    requires ns != []
    ensures multiset(ns) == multiset(ns[..|ns| - 1]) + multiset{ns[|ns| - 1]}
  {
    assert ns == ns[..|ns| - 1] + [ns[|ns| - 1]];
  }

  lemma {:induction false} ByIndexKeeps(ns: seq<Node>)
    ensures multiset(ByIndex(ns)) == multiset(ns)
  {
    if ns != [] {
      hide Insert;
      var n := |ns| - 1;
      ByIndexKeeps(ns[..n]);
      InsertAdds(ns[n], ByIndex(ns[..n]));
      LastCounts(ns);
    }
  }

  lemma {:induction false} InsertAdds(n: Node, ns: seq<Node>)
    ensures multiset(Insert(n, ns)) == multiset(ns) + multiset{n}
  {
    if ns != [] && n.index >= ns[0].index {
      InsertAdds(n, ns[1..]);
      assert ns == [ns[0]] + ns[1..];
    }
  }

  ghost predicate Sorted(ns: seq<Node>) { forall i, j :: 0 <= i < j < |ns| ==> ns[i].index <= ns[j].index }

  lemma {:induction false} InsertSorts(n: Node, ns: seq<Node>)
    requires Sorted(ns)
    ensures Sorted(Insert(n, ns))
  {
    if ns != [] && n.index >= ns[0].index {
      var rest := Insert(n, ns[1..]);
      assert Insert(n, ns) == [ns[0]] + rest;
      hide Insert;
      InsertSorts(n, ns[1..]);
      InsertAdds(n, ns[1..]);
      forall k | 0 <= k < |rest| ensures ns[0].index <= rest[k].index {
        assert rest[k] in multiset(rest);
        assert rest[k] == n || rest[k] in ns[1..];
      }
    }
  }

  lemma {:induction false} ByIndexSorts(ns: seq<Node>)
    ensures Sorted(ByIndex(ns))
  {
    if ns != [] {
      ByIndexSorts(ns[..|ns| - 1]);
      InsertSorts(ns[|ns| - 1], ByIndex(ns[..|ns| - 1]));
    }
  }

  /** How many nodes carry a smaller index. */
  function Rank(ns: seq<Node>, i: int): nat {
    if ns == [] then 0 else Rank(ns[..|ns| - 1], i) + if ns[|ns| - 1].index < i then 1 else 0
  }

  ghost predicate Distinct(ns: seq<Node>) { forall i, j :: 0 <= i < j < |ns| ==> ns[i].index != ns[j].index }

  lemma {:induction false} RankInsert(n: Node, ns: seq<Node>, i: int)
    ensures Rank(Insert(n, ns), i) == Rank(ns, i) + if n.index < i then 1 else 0
  {
    if ns == [] {
      assert [n][..0] == [];
    } else if n.index < ns[0].index {
      RankConcat([n], ns, i);
      assert [n][..0] == [];
    } else {
      RankInsert(n, ns[1..], i);
      RankConcat([ns[0]], Insert(n, ns[1..]), i);
      RankConcat([ns[0]], ns[1..], i);
      assert ns == [ns[0]] + ns[1..];
    }
  }

  lemma {:induction false} RankConcat(ns: seq<Node>, ms: seq<Node>, i: int)
    ensures Rank(ns + ms, i) == Rank(ns, i) + Rank(ms, i)
  {
    if ms == [] {
      assert ns + ms == ns;
    } else {
      RankConcat(ns, ms[..|ms| - 1], i);
      assert (ns + ms)[..|ns + ms| - 1] == ns + ms[..|ms| - 1];
    }
  }

  lemma {:induction false} RankByIndex(ns: seq<Node>, i: int)
    ensures Rank(ByIndex(ns), i) == Rank(ns, i)
  {
    if ns != [] {
      RankByIndex(ns[..|ns| - 1], i);
      RankInsert(ns[|ns| - 1], ByIndex(ns[..|ns| - 1]), i);
    }
  }

  lemma {:induction false} RankSorted(ns: seq<Node>, k: nat, i: int)
    requires Sorted(ns) && k <= |ns|
    requires (forall j :: 0 <= j < k ==> ns[j].index < i) && (forall j :: k <= j < |ns| ==> ns[j].index >= i)
    ensures Rank(ns, i) == k
  {
    if ns != [] {
      var n := |ns| - 1;
      RankSorted(ns[..n], if k < |ns| then k else n, i);
    }
  }

  /** Sorting puts a node at the position given by its rank. */
  lemma RankIsPosition(ns: seq<Node>, n: Node)
    requires Distinct(ns) && n in ns
    ensures Rank(ns, n.index) < |ByIndex(ns)| && ByIndex(ns)[Rank(ns, n.index)] == n
  {
    var s := ByIndex(ns);
    ByIndexSorts(ns);
    ByIndexKeeps(ns);
    RankByIndex(ns, n.index);
    assert n in multiset(s);
    var k :| 0 <= k < |s| && s[k] == n;
    forall j | 0 <= j < |s| && j != k ensures s[j].index != n.index {
      StaysDistinct(ns, s, j, k);
    }
    RankSorted(s, k, n.index);
  }

  lemma StaysDistinct(ns: seq<Node>, s: seq<Node>, j: nat, k: nat)
    requires Distinct(ns) && multiset(s) == multiset(ns) && j < |s| && k < |s| && j != k
    ensures s[j].index != s[k].index
  {
    var a, b := s[j], s[k];
    assert a in multiset(s) && b in multiset(s);
    if a == b {
      TwiceIn(s, j, k);
      OnceIn(ns, a);
    } else {
      assert a in ns && b in ns;
    }
  }

  lemma TwiceIn(s: seq<Node>, j: nat, k: nat)
    requires j < |s| && k < |s| && j != k && s[j] == s[k]
    ensures multiset(s)[s[j]] >= 2
  {
    var lo, hi := if j < k then j else k, if j < k then k else j;
    assert s == s[..lo] + [s[lo]] + s[lo + 1..hi] + [s[hi]] + s[hi + 1..];
  }

  lemma {:induction false} OnceIn(ns: seq<Node>, n: Node)
    requires Distinct(ns)
    ensures multiset(ns)[n] <= 1
  {
    if ns != [] {
      var m := |ns| - 1;
      OnceIn(ns[..m], n);
      assert ns == ns[..m] + [ns[m]];
      if ns[m] == n { assert n !in ns[..m]; }
    }
  }

  function Smaller(s: set<int>, i: int): set<int> { set j | j in s && j < i }

  function IndexSet(ns: seq<Node>): set<int> { set k | 0 <= k < |ns| :: ns[k].index }

  lemma IndicesStep(ns: seq<Node>)
    requires Distinct(ns) && ns != []
    ensures var n := |ns| - 1;
      ns[n].index !in IndexSet(ns[..n]) && IndexSet(ns) == IndexSet(ns[..n]) + {ns[n].index}
  {
  }

  lemma SmallerStep(s: set<int>, x: int, i: int)
    requires x !in s
    ensures |s + {x}| == |s| + 1
    ensures |Smaller(s + {x}, i)| == |Smaller(s, i)| + if x < i then 1 else 0
  {
    var t := Smaller(s + {x}, i);
    if x < i {
      assert t == Smaller(s, i) + {x};
    } else {
      assert t == Smaller(s, i);
    }
  }

  lemma {:induction false} RankCounts(ns: seq<Node>, i: int)
    requires Distinct(ns)
    ensures |IndexSet(ns)| == |ns| && Rank(ns, i) == |Smaller(IndexSet(ns), i)|
  {
    hide IndexSet, Smaller;
    if ns == [] {
      NoIndices(i);
    } else {
      var n := |ns| - 1;
      RankCounts(ns[..n], i);
      IndicesStep(ns);
      SmallerStep(IndexSet(ns[..n]), ns[n].index, i);
    }
  }

  lemma NoIndices(i: int)
    ensures IndexSet([]) == {} && Smaller({}, i) == {}
  {
  }

  /** And the node at a position has that rank. */
  lemma RankOfPosition(ns: seq<Node>, k: nat)
    requires Distinct(ns) && k < |ByIndex(ns)|
    ensures Rank(ns, ByIndex(ns)[k].index) == k
  {
    var s := ByIndex(ns);
    ByIndexSorts(ns);
    ByIndexKeeps(ns);
    RankByIndex(ns, s[k].index);
    forall j | 0 <= j < |s| && j != k ensures s[j].index != s[k].index {
      StaysDistinct(ns, s, j, k);
    }
    RankSorted(s, k, s[k].index);
  }

  // ---------- flattening ----------

  function RawNode(fs: seq<Field>, n: Node): Value
    decreases n, 0, 0
  {
    if n.fields != [] then Obj(RawObject(fs, n.fields, n.fields))
    else if n.items != [] then Arr(RawEach(fs, ByIndexIn(n.items), n.items))
    else n.value
  }

  function ByIndexIn(ns: seq<Node>): (r: seq<Node>)
    ensures r == ByIndex(ns) && |r| == |ns| && forall m <- r :: m in ns
  {
    var r := ByIndex(ns);
    ByIndexKeeps(ns);
    assert |multiset(r)| == |multiset(ns)|;
    assert forall m <- r :: m in multiset(r);
    r
  }

  /** The values of the nodes ns, all of them among `all`. */
  function RawEach(fs: seq<Field>, ns: seq<Node>, all: seq<Node>): (vs: seq<Value>)
    requires forall m <- ns :: m in all
    ensures |vs| == |ns|
    decreases all, 1, |ns|
  {
    if ns == [] then []
    else
      var n := ns[|ns| - 1];
      assert n in ns && n in all;
      RawEach(fs, ns[..|ns| - 1], all) + [RawNode(fs, n)]
  }

  function RawObject(fs: seq<Field>, ns: seq<Node>, all: seq<Node>): A.Raw
    requires forall m <- ns :: m in all
    decreases all, 1, |ns|
  {
    if ns == [] then map[]
    else
      var n := ns[|ns| - 1];
      assert n in ns && n in all;
      A.Put(RawObject(fs, ns[..|ns| - 1], all), A.Split(OutputPath(fs, n.id)), RawNode(fs, n))
  }

  /** getTargetRawObject: the values in the order they are stored. */
  method GetTargetRawObject(fs: seq<Field>, values: seq<Node>) returns (raw: A.Raw)
    ensures raw == RawObject(fs, values, values)
    decreases values, 1
  {
    hide RawNode, RawObject, OutputPath;
    raw := map[];
    NoObject(fs, values);
    for k := 0 to |values|
      invariant raw == RawObject(fs, values[..k], values)
    {
      var value := values[k];
      var item;
      if |value.fields| > 0 {
        var obj := GetTargetRawObject(fs, value.fields);
        item := Obj(obj);
      } else if |value.items| > 0 {
        var arr := GetTargetRawArrays(fs, value.items);
        item := Arr(arr);
      } else {
        item := value.value;
      }
      RawNodeIs(fs, value, item);
      raw := A.AssignMapValue(raw, OutputPath(fs, value.id), item);
      NextField(fs, values, k);
    }
    assert values[..|values|] == values;
  }

  /** getTargetRawArrays: the values sorted by index. */
  method GetTargetRawArrays(fs: seq<Field>, values: seq<Node>) returns (items: seq<Value>)
    ensures items == RawEach(fs, ByIndexIn(values), values)
    decreases values, 1
  {
    hide RawNode, RawEach, ByIndex;
    var sorted := ByIndexIn(values);
    items := [];
    NoItems(fs, values);
    for k := 0 to |sorted|
      invariant items == RawEach(fs, sorted[..k], values)
    {
      var value := sorted[k];
      assert value in values;
      var item;
      if |value.fields| > 0 {
        var obj := GetTargetRawObject(fs, value.fields);
        item := Obj(obj);
      } else if |value.items| > 0 {
        var arr := GetTargetRawArrays(fs, value.items);
        item := Arr(arr);
      } else {
        item := value.value;
      }
      RawNodeIs(fs, value, item);
      items := items + [item];
      NextItem(fs, sorted, values, k);
    }
    assert sorted[..|sorted|] == sorted;
  }

  lemma NoObject(fs: seq<Field>, all: seq<Node>)
    ensures RawObject(fs, all[..0], all) == map[]
  {
  }

  lemma NoItems(fs: seq<Field>, all: seq<Node>)
    ensures RawEach(fs, [], all) == []
  {
  }

  lemma RawNodeIs(fs: seq<Field>, n: Node, v: Value)
    requires n.fields != [] ==> v == Obj(RawObject(fs, n.fields, n.fields))
    requires n.fields == [] && n.items != [] ==> v == Arr(RawEach(fs, ByIndexIn(n.items), n.items))
    requires n.fields == [] && n.items == [] ==> v == n.value
    ensures v == RawNode(fs, n)
  {
  }

  lemma {:induction false} NextField(fs: seq<Field>, ns: seq<Node>, k: nat)
    requires k < |ns|
    ensures RawObject(fs, ns[..k + 1], ns)
         == A.Put(RawObject(fs, ns[..k], ns), A.Split(OutputPath(fs, ns[k].id)), RawNode(fs, ns[k]))
  {
    assert ns[..k + 1][..k] == ns[..k];
  }

  lemma {:induction false} NextItem(fs: seq<Field>, ns: seq<Node>, all: seq<Node>, k: nat)
    requires k < |ns| && forall m <- ns :: m in all
    ensures RawEach(fs, ns[..k + 1], all) == RawEach(fs, ns[..k], all) + [RawNode(fs, ns[k])]
  {
    assert ns[..k + 1][..k] == ns[..k];
  }
}
