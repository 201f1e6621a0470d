/** For which equalities the containment query and the evaluation of all conditions accept the same documents. */
module CriteriaSplit {
  import opened Basics
  import opened LotusSteps
  import opened Criteria
  import A = Assign

  // ---------- what a built document holds ----------

  /** A value can be set at p: nothing but objects on the way. */
  predicate Clear(m: Fields, p: A.Path)
    requires p != []
    decreases |p|
  {
    p[0] !in m || |p| == 1 || (m[p[0]].Obj? && Clear(m[p[0]].fields, p[1..]))
  }

  lemma {:induction false} SetReads(m: Fields, p: A.Path, v: Value)
    requires p != [] && Clear(m, p)
    ensures A.Lookup(SetNested(m, p, v), p) == Some(v)
    decreases |p|
  {
    if |p| > 1 { SetReads(BelowKey(m, p[0]), p[1..], v); }
  }

  predicate Above(q: A.Path, p: A.Path) { q <= p && q != p }

  lemma {:induction false} ClearKept(m: Fields, q: A.Path, v: Value, p: A.Path)
    requires p != [] && q != [] && Clear(m, p) && !Above(q, p)
    ensures Clear(SetNested(m, q, v), p)
    decreases |p|
  {
    if p[0] == q[0] && |p| > 1 {
      if |q| == 1 { OneStep(q, p); }
      SameStep(q, p);
      ClearKept(BelowKey(m, p[0]), q[1..], v, p[1..]);
    }
  }

  lemma OneStep(q: A.Path, p: A.Path)
    requires |q| == 1 && p != [] && p[0] == q[0]
    ensures q <= p && (|p| > 1 ==> q != p)
  {
    assert q == p[..1];
  }

  lemma SameStep(q: A.Path, p: A.Path)
    requires p != [] && q != [] && p[0] == q[0]
    ensures q[1..] <= p[1..] <==> q <= p
    ensures q[1..] == p[1..] <==> q == p
  {
    assert q == [q[0]] + q[1..] && p == [p[0]] + p[1..];
  }

  /** A value stays unless one is set on its way, or inside it. */
  lemma {:induction false} SetKept(m: Fields, q: A.Path, v: Value, p: A.Path, s: Value)
    requires p != [] && q != [] && A.Lookup(m, p) == Some(s)
    requires !(q <= p) && (p <= q ==> !s.Obj?)
    ensures A.Lookup(SetNested(m, q, v), p) == Some(s)
    decreases |p|
  {
    if p[0] == q[0] {
      if |q| == 1 { OneStep(q, p); }
      SameStep(q, p);
      if |p| > 1 {
        SameStep(p, q);
        SetKept(m[p[0]].fields, q[1..], v, p[1..], s);
      } else {
        assert p == q[..1];
      }
    }
  }

  /** No other field of ks lies on the way to f, and none inside its value. */
  ghost predicate Undisturbed(simple: Fields, ks: seq<string>, f: string) {
    f in simple && forall k <- ks :: k != f ==> !(A.Split(k) <= A.Split(f)) && (A.Split(f) <= A.Split(k) ==> !simple[f].Obj?)
  }

  lemma {:induction false} BuiltReads(simple: Fields, ks: seq<string>, f: string)
    requires (forall k <- ks :: k in simple) && Undisturbed(simple, ks, f)
    requires forall i, j :: 0 <= i < j < |ks| ==> ks[i] != ks[j]
    ensures f in ks ==> A.Lookup(Built(simple, ks), A.Split(f)) == Some(simple[f])
    ensures f !in ks ==> Clear(Built(simple, ks), A.Split(f))
  {
    hide A.Split, A.Lookup, SetNested, Clear;
    if ks == [] {
      NothingThere(A.Split(f));
    } else {
      var n := |ks| - 1;
      var front, k := ks[..n], ks[n];
      assert ks == front + [k] && k !in front;
      BuiltReads(simple, front, f);
      var m := Built(simple, front);
      if k == f {
        SetReads(m, A.Split(f), simple[f]);
      } else if f in front {
        SetKept(m, A.Split(k), simple[k], A.Split(f), simple[f]);
      } else {
        ClearKept(m, A.Split(k), simple[k], A.Split(f));
      }
    }
  }

  lemma NothingThere(p: A.Path)
    requires p != []
    ensures Clear(map[], p)
  {
  }

  lemma {:induction false} ContainsItself(v: Value)
    ensures Contains(v, v)
    decreases v
  {
    match v
    case Obj(fs) => forall k | k in fs ensures Contains(fs[k], fs[k]) { ContainsItself(fs[k]); }
    case Arr(items) =>
      forall j | 0 <= j < |items| ensures HasItem(items, items[j]) { ContainsItself(items[j]); }
    case _ =>
  }

  // ---------- when the two agree ----------

  /** A value taken for v is v. */
  ghost predicate TakenExactly(t: Texts, v: Value) { forall w :: ValuesEqual(t, w, v) ==> w == v }

  ghost predicate Equalities(criteria: Fields) { forall f | f in criteria :: Scalar(criteria[f]) }

  lemma EqualitiesAreSimple(criteria: Fields)
    requires Equalities(criteria)
    ensures Simple(criteria) == criteria && forall c: Condition :: !IsComplex(criteria, c)
  {
  }

  lemma AcceptsEqualities(t: Texts, criteria: Fields, data: Fields)
    requires Equalities(criteria)
    ensures Accepts(t, criteria, data) <==> forall f | f in criteria :: Meets(t, data, Where(f, "", criteria[f]))
  {
    hide Meets;
    forall f | f in criteria ensures Stands(criteria, Where(f, "", criteria[f])) {}
    forall c: Condition | Stands(criteria, c) ensures c == Where(c.field, "", criteria[c.field]) {}
  }

  lemma SameSplit(f: string, g: string)
    requires A.Split(f) == A.Split(g)
    ensures f == g
  {
    A.JoinSplit(f);
    A.JoinSplit(g);
  }

  /** From a field above another to one with no field above it. */
  lemma {:induction false} Topmost(ks: seq<string>, f: string, g: string) returns (top: string, below: string)
    requires f in ks && g in ks && f != g && A.Split(f) <= A.Split(g)
    ensures top in ks && below in ks && top != below && A.Split(top) <= A.Split(below)
    ensures forall k <- ks :: k != top ==> !(A.Split(k) <= A.Split(top))
    decreases |A.Split(f)|
  {
    hide A.Split;
    if k :| k in ks && k != f && A.Split(k) <= A.Split(f) {
      if |A.Split(k)| == |A.Split(f)| { SameSplit(k, f); }
      top, below := Topmost(ks, k, f);
    } else {
      top, below := f, g;
    }
  }

  /** A built document contains itself; but of two fields one above the other it has no value for the lower. */
  lemma OverlapDisagrees(t: Texts, criteria: Fields, ks: seq<string>, f: string, g: string)
    requires Order(criteria, ks) && Equalities(criteria) && f in ks && g in ks && f != g && A.Split(f) <= A.Split(g)
    ensures exists data :: !Accepts(t, criteria, data) && Contains(Obj(data), Obj(Built(criteria, ks)))
  {
    hide A.Split, Contains, A.Lookup, Accepts, Built;
    var top, below := Topmost(ks, f, g);
    var data := Built(criteria, ks);
    BuiltReads(criteria, ks, top);
    if |A.Split(top)| == |A.Split(below)| { SameSplit(top, below); }
    if A.Lookup(data, A.Split(below)).Some? { A.Above(data, A.Split(top), A.Split(below)); }
    ContainsItself(Obj(data));
    AcceptsEqualities(t, criteria, data);
    assert !Meets(t, data, Where(below, "", criteria[below]));
    assert !Accepts(t, criteria, data);
  }

  /** With another value taken for the one of f, the document that has it is accepted and not contained. */
  lemma CoercionDisagrees(t: Texts, criteria: Fields, ks: seq<string>, f: string, w: Value)
    requires Order(criteria, ks) && Equalities(criteria) && FieldsApart(ks)
    requires f in criteria && ValuesEqual(t, w, criteria[f]) && w != criteria[f]
    ensures exists data :: Accepts(t, criteria, data) && !Contains(Obj(data), Obj(Built(criteria, ks)))
  {
    hide A.Split, Contains, A.Lookup, Accepts, Built;
    var other := criteria[f := w];
    var data := Built(other, ks);
    forall k | k in ks ensures A.Lookup(data, A.Split(k)) == Some(other[k]) {
      ApartUndisturbed(other, ks, k);
      BuiltReads(other, ks, k);
    }
    AcceptsEqualities(t, criteria, data);
    ContainsBuilt(data, criteria, ks);
    assert f in ks && A.Lookup(data, A.Split(f)) == Some(w);
    assert Accepts(t, criteria, data);
  }

  lemma ApartUndisturbed(simple: Fields, ks: seq<string>, f: string)
    requires Order(simple, ks) && FieldsApart(ks) && f in ks
    ensures Undisturbed(simple, ks, f)
  {
    hide A.Split;
    var i :| 0 <= i < |ks| && ks[i] == f;
    forall k | k in ks && k != f ensures A.Apart(A.Split(k), A.Split(f)) {
      var j :| 0 <= j < |ks| && ks[j] == k;
      if i < j { assert A.Apart(A.Split(ks[i]), A.Split(ks[j])); } else { assert A.Apart(A.Split(ks[j]), A.Split(ks[i])); }
    }
  }

  /** Criteria that ask for scalars: containment and evaluation accept the same documents, in whatever order the
      containment document is built, exactly when no field lies above another and no other value is taken for one asked for. */
  lemma SplitExactly(t: Texts, criteria: Fields, ks: seq<string>)
    requires Order(criteria, ks) && Equalities(criteria)
    ensures (forall data :: Accepts(t, criteria, data) <==> SplitAccepts(t, criteria, data, ks)) <==>
      FieldsApart(ks) && forall f | f in criteria :: TakenExactly(t, criteria[f])
  {
    EqualitiesAreSimple(criteria);
    hide A.Split, Contains, A.Lookup, Accepts, Built, FieldsApart;
    SplitOfEqualities(t, criteria, ks);
    if !FieldsApart(ks) {
      var f, g := Overlapping(ks);
      OverlapDisagrees(t, criteria, ks, f, g);
    } else if f, w :| f in criteria && ValuesEqual(t, w, criteria[f]) && w != criteria[f] {
      CoercionDisagrees(t, criteria, ks, f, w);
    } else {
      forall data ensures Accepts(t, criteria, data) <==> SplitAccepts(t, criteria, data, ks) {
        SplitAgrees(t, criteria, data, ks);
      }
    }
  }

  lemma SplitOfEqualities(t: Texts, criteria: Fields, ks: seq<string>)
    requires Order(criteria, ks) && Equalities(criteria)
    ensures forall data :: SplitAccepts(t, criteria, data, ks) <==> Contains(Obj(data), Obj(Built(criteria, ks)))
  {
    EqualitiesAreSimple(criteria);
    if criteria == map[] {
      FirstIsIn(ks);
      forall data ensures Contains(Obj(data), Obj(Built(criteria, ks))) { ContainsEmpty(data); }
    }
  }

  lemma FirstIsIn(ks: seq<string>)
    ensures ks != [] ==> ks[0] in ks
  {
  }

  lemma Overlapping(ks: seq<string>) returns (f: string, g: string)
    requires !FieldsApart(ks) && forall i, j :: 0 <= i < j < |ks| ==> ks[i] != ks[j]
    ensures f in ks && g in ks && f != g && A.Split(f) <= A.Split(g)
  {
    hide A.Split;
    var i, j :| 0 <= i < j < |ks| && !A.Apart(A.Split(ks[i]), A.Split(ks[j]));
    if A.Split(ks[i]) <= A.Split(ks[j]) { f, g := ks[i], ks[j]; } else { f, g := ks[j], ks[i]; }
  }
}
