/** Assigning values at dotted paths of nested maps, and reading them back. */
module Assign {
  import opened Basics
  import opened LotusSteps

  type Raw = map<string, Value>
  type Path = seq<string>

  // ---------- dotted paths ----------

  /** strings.Split(s, "."): always at least one segment. */
  function Split(s: string): (p: Path)
    ensures |p| >= 1
  {
    if s == [] then [""]
    else if s[0] == '.' then [""] + Split(s[1..])
    else var rest := Split(s[1..]); [[s[0]] + rest[0]] + rest[1..]
  }

  /** strings.Join(p, ".") */
  function Join(p: Path): string {
    if p == [] then "" else if |p| == 1 then p[0] else p[0] + "." + Join(p[1..])
  }

  predicate Dotless(p: Path) { forall s <- p :: '.' !in s }

  lemma {:induction false} SplitDotless(s: string)
    ensures Dotless(Split(s))
  {
    if s != [] {
      SplitDotless(s[1..]);
      assert Split(s[1..])[0] in Split(s[1..]);
    }
  }

  lemma {:induction false} JoinSplit(s: string)
    ensures Join(Split(s)) == s
  {
    if s != [] {
      JoinSplit(s[1..]);
      var rest := Split(s[1..]);
      if s[0] == '.' {
        assert Split(s) == [""] + rest && Split(s)[1..] == rest;
      } else {
        assert Split(s)[1..] == rest[1..];
      }
    }
  }

  lemma {:induction false} SplitSegment(s: string, t: string)
    requires '.' !in s
    ensures Split(s) == [s]
    ensures Split(s + "." + t) == [s] + Split(t)
  {
    var w := s + "." + t;
    if s == [] {
      assert w == "." + t && w[1..] == t;
    } else {
      SplitSegment(s[1..], t);
      assert w[1..] == s[1..] + "." + t;
      assert s == [s[0]] + s[1..];
    }
  }

  lemma {:induction false} SplitJoin(p: Path)
    requires p != [] && Dotless(p)
    ensures Split(Join(p)) == p
  {
    SplitSegment(p[0], Join(p[1..]));
    if |p| > 1 {
      SplitJoin(p[1..]);
      assert p == [p[0]] + p[1..];
    } else {
      assert p == [p[0]];
    }
  }

  // ---------- assignment ----------

  function Child(m: Raw, k: string): Raw {
    if k in m && m[k].Obj? then m[k].fields else map[]
  }

  /** An assignment to an empty path, in the end or from the start, is dropped. */
  function Put(m: Raw, p: Path, v: Value): Raw
    requires p != []
    decreases |p|
  {
    if p == [""] then m
    else if |p| == 1 then m[p[0] := v]
    else m[p[0] := Obj(Put(Child(m, p[0]), p[1..], v))]
  }

  method AssignMapValue(target: Raw, path: string, value: Value) returns (r: Raw)
    ensures r == Put(target, Split(path), value)
    decreases |Split(path)|
  {
    if path == "" { return target; }
    var paths := Split(path);
    JoinSplit(path);
    if |paths| == 1 { return target[paths[0] := value]; }
    var existing := if paths[0] in target && target[paths[0]].Obj? then target[paths[0]].fields else map[];
    SplitDotless(path);
    SplitJoin(paths[1..]);
    var result := AssignMapValue(existing, Join(paths[1..]), value);
    r := target[paths[0] := Obj(result)];
  }

  /** The plain walk down string-keyed maps, while every key is present. */
  function Lookup(m: Raw, p: Path): Option<Value>
    requires p != []
    decreases |p|
  {
    if p[0] !in m then None
    else if |p| == 1 then Some(m[p[0]])
    else if m[p[0]].Obj? then Lookup(m[p[0]].fields, p[1..])
    else None
  }

  predicate Assignable(p: Path) { p != [] && p[|p| - 1] != "" }

  /** Reading an assigned path returns the value, unless the last segment is empty: then the
      assignment only creates the containers and what was there before is read. */
  lemma {:induction false} ReadBack(m: Raw, p: Path, v: Value)
    requires p != []
    ensures Assignable(p) ==> Lookup(Put(m, p, v), p) == Some(v)
    ensures !Assignable(p) ==> Lookup(Put(m, p, v), p) == Lookup(m, p)
    decreases |p|
  {
    if |p| > 1 {
      var k := p[0];
      ReadBack(Child(m, k), p[1..], v);
      assert p[1..][|p[1..]| - 1] == p[|p| - 1];
      if k !in m || !m[k].Obj? { EmptyLookup(p[1..]); }
    }
  }

  lemma EmptyLookup(p: Path)
    requires p != []
    ensures Lookup(map[], p) == None
  {
  }

  predicate Apart(p: Path, q: Path) { !(p <= q) && !(q <= p) }

  lemma ApartStep(p: Path, q: Path)
    requires p != [] && q != [] && Apart(p, q) && p[0] == q[0]
    ensures |p| > 1 && |q| > 1 && Apart(p[1..], q[1..])
  {
    assert p == [p[0]] + p[1..] && q == [q[0]] + q[1..];
  }

  /** An assignment leaves every path alone that is neither above nor below it. */
  lemma {:induction false} Frame(m: Raw, p: Path, v: Value, q: Path)
    requires p != [] && q != [] && Apart(p, q)
    ensures Lookup(Put(m, p, v), q) == Lookup(m, q)
    decreases |p|
  {
    if p[0] == q[0] {
      ApartStep(p, q);
      Frame(Child(m, p[0]), p[1..], v, q[1..]);
      if p[0] !in m || !m[p[0]].Obj? { EmptyLookup(q[1..]); }
    }
  }

  /** What an assignment stores under its first key. */
  function Slot(c: Raw, p: Path, v: Value): Value
    requires p != []
  {
    if |p| == 1 then v else Obj(Put(c, p[1..], v))
  }

  lemma PutIsUpdate(m: Raw, p: Path, v: Value)
    requires p != []
    ensures Put(m, p, v) == if p == [""] then m else m[p[0] := Slot(Child(m, p[0]), p, v)]
  {
  }

  lemma {:induction false} Commute(m: Raw, p: Path, v: Value, q: Path, w: Value)
    requires p != [] && q != [] && Apart(p, q)
    ensures Put(Put(m, p, v), q, w) == Put(Put(m, q, w), p, v)
    decreases |p|
  {
    hide Put;
    var mp, mq := Put(m, p, v), Put(m, q, w);
    PutIsUpdate(m, p, v);
    PutIsUpdate(m, q, w);
    PutIsUpdate(mp, q, w);
    PutIsUpdate(mq, p, v);
    if p != [""] && q != [""] {
      if p[0] == q[0] {
        ApartStep(p, q);
        Commute(Child(m, p[0]), p[1..], v, q[1..], w);
      } else {
        assert Child(mp, q[0]) == Child(m, q[0]) && Child(mq, p[0]) == Child(m, p[0]);
      }
    }
  }

  /** Two assignments commute on every map exactly when neither path is above the other. */
  lemma CommuteExactly(p: Path, q: Path)
    requires Assignable(p) && Assignable(q)
    ensures (forall m, v, w :: Put(Put(m, p, v), q, w) == Put(Put(m, q, w), p, v)) <==> Apart(p, q)
  {
    if Apart(p, q) {
      forall m, v, w ensures Put(Put(m, p, v), q, w) == Put(Put(m, q, w), p, v) { Commute(m, p, v, q, w); }
    } else if p <= q {
      Overwrites(p, q, Bool(true), Bool(false));
    } else {
      Overwrites(q, p, Bool(false), Bool(true));
    }
  }

  /** Assigning above a path wins when it comes last and is replaced when it comes first. */
  lemma Overwrites(p: Path, q: Path, v: Value, w: Value)
    requires Assignable(p) && Assignable(q) && p <= q && v != w && !v.Obj?
    ensures Put(Put(map[], q, w), p, v) != Put(Put(map[], p, v), q, w)
  {
    var last := Put(Put(map[], q, w), p, v);
    var first := Put(Put(map[], p, v), q, w);
    ReadBack(Put(map[], q, w), p, v);
    ReadBack(Put(map[], p, v), q, w);
    if p == q {
      assert Lookup(last, p) != Lookup(first, p);
    } else {
      Above(first, p, q);
      assert Lookup(last, p) == Some(v);
    }
  }

  lemma {:induction false} Above(m: Raw, p: Path, q: Path)
    requires p != [] && p < q && Lookup(m, q).Some?
    ensures Lookup(m, p).Some? && Lookup(m, p).value.Obj?
    decreases |p|
  {
    assert p[0] == q[0];
    if |p| > 1 {
      assert p[1..] < q[1..];
      Above(m[p[0]].fields, p[1..], q[1..]);
    }
  }

  // ---------- any number of assignments, in any order ----------

  datatype Entry = Entry(path: Path, value: Value)

  ghost predicate AllApart(es: seq<Entry>) {
    && (forall i :: 0 <= i < |es| ==> Assignable(es[i].path))
    && (forall i, j :: 0 <= i < j < |es| ==> Apart(es[i].path, es[j].path))
  }

  function PutAll(m: Raw, es: seq<Entry>): Raw
    requires forall e <- es :: e.path != []
  {
    if es == [] then m else Put(PutAll(m, es[..|es| - 1]), es[|es| - 1].path, es[|es| - 1].value)
  }

  lemma {:induction false} PutAllReads(m: Raw, es: seq<Entry>, q: Path)
    requires AllApart(es) && q != []
    ensures forall i :: 0 <= i < |es| ==> Lookup(PutAll(m, es), es[i].path) == Some(es[i].value)
    ensures (forall i :: 0 <= i < |es| ==> Apart(es[i].path, q)) ==> Lookup(PutAll(m, es), q) == Lookup(m, q)
  {
    if es != [] {
      hide Put, Lookup, PutAll, Apart;
      var n := |es| - 1;
      var before := PutAll(m, es[..n]);
      assert es == es[..n] + [es[n]];
      PutAllMore(m, es[..n], es[n]);
      PutAllReads(m, es[..n], q);
      ReadBack(before, es[n].path, es[n].value);
      forall i | 0 <= i < n ensures Lookup(PutAll(m, es), es[i].path) == Some(es[i].value) {
        assert es[..n][i] == es[i];
        Frame(before, es[n].path, es[n].value, es[i].path);
      }
      if forall i :: 0 <= i < |es| ==> Apart(es[i].path, q) {
        Frame(before, es[n].path, es[n].value, q);
      }
    }
  }

  function Without(es: seq<Entry>, i: nat): seq<Entry>
    requires i < |es|
  {
    es[..i] + es[i + 1..]
  }

  lemma WithoutApart(es: seq<Entry>, i: nat)
    requires AllApart(es) && i < |es|
    ensures AllApart(Without(es, i)) && multiset(Without(es, i)) == multiset(es) - multiset{es[i]}
  {
    assert es == es[..i] + [es[i]] + es[i + 1..];
  }

  lemma ApartLast(es: seq<Entry>, i: nat)
    requires AllApart(es) && i < |es| - 1
    ensures AllApart(es[..|es| - 1]) && es[|es| - 1].path != [] && es[i].path != []
    ensures Apart(es[i].path, es[|es| - 1].path)
  {
  }

  /** Any one of the assignments may be done last. */
  lemma {:induction false} DoLast(m: Raw, es: seq<Entry>, i: nat)
    requires AllApart(es) && i < |es|
    ensures AllApart(Without(es, i)) && es[i].path != []
    ensures PutAll(m, es) == Put(PutAll(m, Without(es, i)), es[i].path, es[i].value)
    decreases |es|
  {
    hide Put, Apart, AllApart, PutAll;
    WithoutApart(es, i);
    Paths(es);
    var n := |es| - 1;
    var front := es[..n];
    assert es == front + [es[n]];
    PutAllMore(m, front, es[n]);
    if i == n {
      assert Without(es, i) == front;
    } else {
      ApartLast(es, i);
      DoLast(m, front, i);
      var less := Without(front, i);
      Paths(less);
      assert Without(es, i) == less + [es[n]];
      PutAllMore(m, less, es[n]);
      Commute(PutAll(m, less), es[i].path, es[i].value, es[n].path, es[n].value);
    }
  }

  lemma Paths(es: seq<Entry>)
    requires AllApart(es)
    ensures forall e <- es :: e.path != []
  {
  }

  lemma PutAllMore(m: Raw, es: seq<Entry>, e: Entry)
    requires e.path != [] && forall e <- es :: e.path != []
    ensures PutAll(m, es + [e]) == Put(PutAll(m, es), e.path, e.value)
  {
    assert (es + [e])[..|es|] == es;
  }

  /** The result does not depend on the order of the assignments. */
  lemma {:induction false} OrderIrrelevant(m: Raw, es: seq<Entry>, fs: seq<Entry>)
    requires AllApart(es) && AllApart(fs) && multiset(es) == multiset(fs)
    ensures PutAll(m, es) == PutAll(m, fs)
    decreases |es|
  {
    assert |es| == |multiset(es)| == |multiset(fs)| == |fs|;
    if es != [] {
      var n := |es| - 1;
      var e := es[n];
      assert e in multiset(es);
      assert e in fs;
      var i :| 0 <= i < |fs| && fs[i] == e;
      WithoutApart(es, n);
      WithoutApart(fs, i);
      OrderIrrelevant(m, Without(es, n), Without(fs, i));
      DoLast(m, es, n);
      DoLast(m, fs, i);
    }
  }
}
