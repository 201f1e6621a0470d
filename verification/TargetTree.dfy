/** The tree of target values: nested objects and indexed array items, grown one write at a time. */
module TargetTree {
  import opened Basics
  import opened LotusSteps
  import opened FieldPaths

  datatype Node = Node(id: string, index: int, value: Value, items: seq<Node>, fields: seq<Node>)

  /** One step down: to a field, or to the array item with an index. */
  datatype Key = Key(id: string, item: bool, index: int)

  function KeyOf(h: Hop, index: int): Key { Key(h.id, h.isItem, if h.isItem then index else 0) }

  function Keys(hops: seq<Hop>, index: int): (ks: seq<Key>)
    ensures |ks| == |hops| && forall k :: 0 <= k < |hops| ==> ks[k] == KeyOf(hops[k], index)
  {
    seq(|hops|, k requires 0 <= k < |hops| => KeyOf(hops[k], index))
  }

  // ---------- children ----------

  /** Items are told apart by identifier and index, fields by identifier. */
  predicate Fits(n: Node, k: Key) { n.id == k.id && (k.item ==> n.index == k.index) }

  function Children(n: Node, k: Key): seq<Node> { if k.item then n.items else n.fields }

  function WithChildren(n: Node, k: Key, cs: seq<Node>): Node {
    if k.item then n.(items := cs) else n.(fields := cs)
  }

  /** The position of the first child that fits, or the length. */
  function Position(cs: seq<Node>, k: Key): (p: nat)
    ensures p <= |cs|
    ensures p < |cs| ==> Fits(cs[p], k)
    ensures forall j :: 0 <= j < p ==> !Fits(cs[j], k)
  {
    if cs == [] || Fits(cs[0], k) then 0 else 1 + Position(cs[1..], k)
  }

  function Upsert(cs: seq<Node>, k: Key, n: Node): seq<Node> {
    var p := Position(cs, k);
    if p < |cs| then cs[p := n] else cs + [n]
  }

  function Fresh(k: Key, v: Value): Node { Node(k.id, k.index, v, [], []) }

  function Existing(cs: seq<Node>, k: Key): Node {
    var p := Position(cs, k);
    if p < |cs| then cs[p] else Fresh(k, Nil)
  }

  // ---------- one write ----------

  /** A write creates the containers on the way; the node at the end is a new leaf. */
  function Put(n: Node, ks: seq<Key>, v: Value): Node
    decreases |ks|
  {
    if ks == [] then n.(value := v)
    else
      var cs := Children(n, ks[0]);
      var child := if |ks| == 1 then Fresh(ks[0], v) else Put(Existing(cs, ks[0]), ks[1..], v);
      WithChildren(n, ks[0], Upsert(cs, ks[0], child))
  }

  function Get(n: Node, ks: seq<Key>): Option<Node>
    decreases |ks|
  {
    if ks == [] then Some(n)
    else
      var cs := Children(n, ks[0]);
      var p := Position(cs, ks[0]);
      if p < |cs| then Get(cs[p], ks[1..]) else None
  }

  function ValueAt(n: Node, ks: seq<Key>): Option<Value> {
    match Get(n, ks) case Some(m) => Some(m.value) case None => None
  }

  lemma {:induction false} PositionIs(cs: seq<Node>, k: Key, p: nat)
    requires p <= |cs| && (p < |cs| ==> Fits(cs[p], k)) && forall j :: 0 <= j < p ==> !Fits(cs[j], k)
    ensures Position(cs, k) == p
  {
  }

  lemma PutKeepsKey(n: Node, ks: seq<Key>, v: Value)
    ensures Put(n, ks, v).id == n.id && Put(n, ks, v).index == n.index
  {
  }

  /** The child a write stores. */
  function Stored(n: Node, ks: seq<Key>, v: Value): Node
    requires ks != []
  {
    if |ks| == 1 then Fresh(ks[0], v) else Put(Existing(Children(n, ks[0]), ks[0]), ks[1..], v)
  }

  lemma UpsertHere(cs: seq<Node>, k: Key, n: Node)
    requires Fits(n, k)
    ensures var us := Upsert(cs, k, n); Position(us, k) < |us| && us[Position(us, k)] == n
  {
    PositionIs(Upsert(cs, k, n), k, Position(cs, k));
  }

  lemma UpsertElsewhere(cs: seq<Node>, k: Key, n: Node, l: Key)
    requires Fits(n, k) && k.item == l.item && k != l && (!k.item ==> k.index == l.index)
    ensures var us := Upsert(cs, k, n);
      && (Position(us, l) < |us| <==> Position(cs, l) < |cs|)
      && (Position(cs, l) < |cs| ==> us[Position(us, l)] == cs[Position(cs, l)])
  {
    var us := Upsert(cs, k, n);
    var p := Position(cs, l);
    assert !Fits(n, l);
    PositionIs(us, l, if p < |cs| then p else |us|);
  }

  lemma StoredFits(n: Node, ks: seq<Key>, v: Value)
    requires ks != []
    ensures Fits(Stored(n, ks, v), ks[0])
  {
    if |ks| > 1 { PutKeepsKey(Existing(Children(n, ks[0]), ks[0]), ks[1..], v); }
  }

  lemma PutIsUpsert(n: Node, ks: seq<Key>, v: Value)
    requires ks != []
    ensures Put(n, ks, v) == WithChildren(n, ks[0], Upsert(Children(n, ks[0]), ks[0], Stored(n, ks, v)))
  {
  }

  /** The node at the end of a write is a new leaf. */
  lemma {:induction false} LeafIsFresh(n: Node, ks: seq<Key>, v: Value)
    requires ks != []
    ensures Get(Put(n, ks, v), ks) == Some(Fresh(ks[|ks| - 1], v))
    decreases |ks|
  {
    hide Put;
    PutIsUpsert(n, ks, v);
    StoredFits(n, ks, v);
    UpsertHere(Children(n, ks[0]), ks[0], Stored(n, ks, v));
    if |ks| > 1 {
      LeafIsFresh(Existing(Children(n, ks[0]), ks[0]), ks[1..], v);
    } else {
      assert Get(Fresh(ks[0], v), ks[1..]) == Some(Fresh(ks[0], v));
    }
  }

  /** A written leaf is read back. */
  lemma ReadBack(n: Node, ks: seq<Key>, v: Value)
    ensures ValueAt(Put(n, ks, v), ks) == Some(v)
  {
    if ks != [] { LeafIsFresh(n, ks, v); }
  }

  /** So a write erases everything that was below. */
  lemma WriteErasesBelow(n: Node, ks: seq<Key>, v: Value, k: Key)
    requires ks != []
    ensures Get(Put(n, ks, v), ks + [k]) == None
  {
    LeafIsFresh(n, ks, v);
    GetConcat(Put(n, ks, v), ks, [k]);
  }

  lemma {:induction false} GetConcat(n: Node, ks: seq<Key>, ls: seq<Key>)
    ensures Get(n, ks + ls) == match Get(n, ks) case Some(m) => Get(m, ls) case None => None
    decreases |ks|
  {
    if ks == [] {
      assert ks + ls == ls;
    } else {
      assert (ks + ls)[1..] == ks[1..] + ls;
      var cs := Children(n, ks[0]);
      if Position(cs, ks[0]) < |cs| { GetConcat(cs[Position(cs, ks[0])], ks[1..], ls); }
    }
  }

  predicate Apart(ks: seq<Key>, ls: seq<Key>) { !(ks <= ls) && !(ls <= ks) }

  /** Fields carry index 0. */
  predicate Plain(ks: seq<Key>) { forall k :: 0 <= k < |ks| && !ks[k].item ==> ks[k].index == 0 }

  /** A write changes nothing that is neither above nor below it. */
  lemma {:induction false} Frame(n: Node, ks: seq<Key>, v: Value, ls: seq<Key>)
    requires Apart(ks, ls) && Plain(ks) && Plain(ls)
    ensures Get(Put(n, ks, v), ls) == Get(n, ls)
    decreases |ks|
  {
    hide Put;
    PutIsUpsert(n, ks, v);
    StoredFits(n, ks, v);
    var k, l := ks[0], ls[0];
    var cs := Children(n, k);
    if k == l {
      ApartTail(ks, ls);
      UpsertHere(cs, k, Stored(n, ks, v));
      Frame(Existing(cs, k), ks[1..], v, ls[1..]);
      FreshIsEmpty(k, ls[1..]);
    } else if k.item == l.item {
      UpsertElsewhere(cs, k, Stored(n, ks, v), l);
    }
  }

  lemma ApartTail(ks: seq<Key>, ls: seq<Key>)
    requires Apart(ks, ls) && ks[0] == ls[0]
    ensures |ks| > 1 && |ls| > 1 && Apart(ks[1..], ls[1..])
  {
    assert ks == [ks[0]] + ks[1..] && ls == [ls[0]] + ls[1..];
  }

  lemma FreshIsEmpty(k: Key, ls: seq<Key>)
    requires ls != []
    ensures Get(Fresh(k, Nil), ls) == None
  {
  }

  /** Unless it comes from above, a write makes present exactly what lies on its way. */
  lemma PutPresent(n: Node, ks: seq<Key>, v: Value, ls: seq<Key>)
    requires Plain(ks) && Plain(ls) && !(ks < ls)
    ensures Get(Put(n, ks, v), ls).Some? <==> Get(n, ls).Some? || ls <= ks
  {
    if ls <= ks {
      if ks != [] {
        LeafIsFresh(n, ks, v);
        GetConcat(Put(n, ks, v), ls, ks[|ls|..]);
        assert ks == ls + ks[|ls|..];
      }
    } else {
      Frame(n, ks, v, ls);
    }
  }

  // ---------- writing in place ----------

  /** Replaces the first child that fits, or appends. */
  method UpsertChild(cs: seq<Node>, k: Key, n: Node) returns (r: seq<Node>)
    ensures r == Upsert(cs, k, n)
  {
    r := cs;
    for i := 0 to |cs|
      invariant r == cs && forall j :: 0 <= j < i ==> !Fits(cs[j], k)
    {
      if Fits(cs[i], k) {
        PositionIs(cs, k, i);
        return cs[i := n];
      }
    }
    PositionIs(cs, k, |cs|);
    r := cs + [n];
  }

  method FindChild(cs: seq<Node>, k: Key) returns (n: Node)
    ensures n == Existing(cs, k)
  {
    for i := 0 to |cs|
      invariant forall j :: 0 <= j < i ==> !Fits(cs[j], k)
    {
      if Fits(cs[i], k) {
        PositionIs(cs, k, i);
        return cs[i];
      }
    }
    PositionIs(cs, k, |cs|);
    n := Fresh(k, Nil);
  }

  /** setChildTargetFieldValueWithIndex: the only failure is an array item without an index. */
  method SetChild(path: seq<Hop>, parent: Node, value: Value, index: int) returns (ok: bool, n: Node)
    requires path != []
    ensures ok <==> index >= 0 || forall h <- path :: !h.isItem
    ensures ok ==> n == Put(parent, Keys(path, index), value)
    decreases |path|
  {
    hide Put;
    var next := path[0];
    var key := KeyOf(next, index);
    var ks := Keys(path, index);
    PutIsUpsert(parent, ks, value);
    if next.isItem && index < 0 { return false, parent; }
    var children := Children(parent, key);
    var child;
    if |path| == 1 {
      child := Fresh(key, value);
    } else {
      child := FindChild(children, key);
      assert ks[1..] == Keys(path[1..], index);
      ok, child := SetChild(path[1..], child, value, index);
      if !ok {
        var h :| h in path[1..] && h.isItem;
        assert h in path;
        return false, parent;
      }
    }
    assert forall h <- path :: h == path[0] || h in path[1..];
    var all := UpsertChild(children, key, child);
    ok, n := true, WithChildren(parent, key, all);
  }
}
