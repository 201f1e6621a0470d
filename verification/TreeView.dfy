/** Trees that read alike: whatever order their children were added in. */
module TreeView {
  import opened Basics
  import opened LotusSteps
  import opened TargetTree

  /** Every path of keys is present in both or in neither, and with the same value. */
  ghost predicate Alike(n: Node, m: Node) {
    forall ks | Plain(ks) :: ValueAt(n, ks) == ValueAt(m, ks)
  }

  lemma {:induction false} PutAbove(n: Node, ks: seq<Key>, v: Value, ls: seq<Key>)
    requires ls < ks && Plain(ks)
    ensures ValueAt(Put(n, ks, v), ls) == Some(if ValueAt(n, ls).Some? then ValueAt(n, ls).value else Nil)
    decreases |ks|
  {
    hide Put;
    PutIsUpsert(n, ks, v);
    StoredFits(n, ks, v);
    if ls == [] {
    } else {
      var k := ks[0];
      var cs := Children(n, k);
      assert ls[0] == k && ks == [k] + ks[1..] && ls == [k] + ls[1..];
      UpsertHere(cs, k, Stored(n, ks, v));
      PutAbove(Existing(cs, k), ks[1..], v, ls[1..]);
      if Position(cs, k) == |cs| { FreshValue(k, ls[1..]); }
    }
  }

  lemma FreshValue(k: Key, ls: seq<Key>)
    ensures ValueAt(Fresh(k, Nil), ls) == if ls == [] then Some(Nil) else None
  {
  }

  lemma PutBelow(n: Node, ks: seq<Key>, v: Value, ls: seq<Key>)
    requires ks < ls
    ensures ValueAt(Put(n, ks, v), ls) == if ks == [] then ValueAt(n, ls) else None
  {
    if ks != [] {
      LeafIsFresh(n, ks, v);
      assert ls == ks + ls[|ks|..];
      GetConcat(Put(n, ks, v), ks, ls[|ks|..]);
    }
  }

  /** What is read after a write, told from what was read before. */
  function After(before: Option<Value>, ks: seq<Key>, v: Value, ls: seq<Key>): Option<Value> {
    if ls == ks then Some(v)
    else if ls <= ks then Some(if before.Some? then before.value else Nil)
    else if ks <= ls then if ks == [] then before else None
    else before
  }

  lemma PutSeen(n: Node, ks: seq<Key>, v: Value, ls: seq<Key>)
    requires Plain(ks) && Plain(ls)
    ensures ValueAt(Put(n, ks, v), ls) == After(ValueAt(n, ls), ks, v, ls)
  {
    hide Put, Get;
    if ls == ks {
      ReadBack(n, ks, v);
    } else if ls <= ks {
      PutAbove(n, ks, v, ls);
    } else if ks <= ls {
      PutBelow(n, ks, v, ls);
    } else {
      Frame(n, ks, v, ls);
    }
  }

  lemma PutAlike(n: Node, m: Node, ks: seq<Key>, v: Value)
    requires Alike(n, m) && Plain(ks)
    ensures Alike(Put(n, ks, v), Put(m, ks, v))
  {
    hide Put, ValueAt, Plain, After;
    forall ls | Plain(ls) ensures ValueAt(Put(n, ks, v), ls) == ValueAt(Put(m, ks, v), ls) {
      PutSeen(n, ks, v, ls);
      PutSeen(m, ks, v, ls);
    }
  }

  /** Writes at paths neither of which is above the other read alike in both orders. */
  lemma PutsCommute(n: Node, ks: seq<Key>, v: Value, ls: seq<Key>, w: Value)
    requires Plain(ks) && Plain(ls) && Apart(ks, ls)
    ensures Alike(Put(Put(n, ks, v), ls, w), Put(Put(n, ls, w), ks, v))
  {
    hide Put, ValueAt, Plain, After;
    forall qs | Plain(qs)
      ensures ValueAt(Put(Put(n, ks, v), ls, w), qs) == ValueAt(Put(Put(n, ls, w), ks, v), qs)
    {
      PutSeen(n, ks, v, qs);
      PutSeen(Put(n, ks, v), ls, w, qs);
      PutSeen(n, ls, w, qs);
      PutSeen(Put(n, ls, w), ks, v, qs);
      AfterCommutes(ValueAt(n, qs), ks, v, ls, w, qs);
    }
  }

  lemma AfterCommutes(b: Option<Value>, ks: seq<Key>, v: Value, ls: seq<Key>, w: Value, qs: seq<Key>)
    requires Apart(ks, ls)
    ensures After(After(b, ks, v, qs), ls, w, qs) == After(After(b, ls, w, qs), ks, v, qs)
  {
  }

  lemma AlikeOnce(n: Node, m: Node, o: Node)
    requires Alike(n, m) && Alike(m, o)
    ensures Alike(n, o) && Alike(m, n)
  {
    hide ValueAt, Plain;
  }
}
