/** Criteria: conditions on the fields of a document, and their split into a part for the database and
    a part evaluated here. */
module Criteria {
  import opened Basics
  import opened LotusSteps
  import A = Assign

  type Fields = map<string, Value>

  datatype Condition = Where(field: string, operator: string, value: Value)

  /** Formatting with %v and parsing of numbers, known by their results only. */
  datatype Texts = Texts(format: Value -> string, parse: string -> Option<real>)

  // ---------- one condition ----------

  predicate ValuesEqual(t: Texts, a: Value, b: Value) {
    if a == Nil || b == Nil then a == b else a == b || t.format(a) == t.format(b)
  }

  function ToNumber(t: Texts, v: Value): Option<real> {
    match v
    case Num(n) => Some(n)
    case Str(s) => t.parse(s)
    case _ => None
  }

  predicate Compare(t: Texts, actual: Value, op: string, expected: Value) {
    match (ToNumber(t, actual), ToNumber(t, expected))
    case (Some(a), Some(e)) =>
      if op == "$gte" then a >= e else if op == "$gt" then a > e else if op == "$lte" then a <= e else op == "$lt" && a < e
    case _ => false
  }

  predicate HasEqual(t: Texts, items: seq<Value>, v: Value) { exists i :: 0 <= i < |items| && ValuesEqual(t, items[i], v) }

  /** Whether a document meets a condition; an unknown operator is never met. */
  predicate Meets(t: Texts, data: Fields, c: Condition) {
    var found := A.Lookup(data, A.Split(c.field));
    if c.operator == "" then found.Some? && ValuesEqual(t, found.value, c.value)
    else if c.operator == "$ne" then found.None? || !ValuesEqual(t, found.value, c.value)
    else if c.operator == "$exists" then c.value.Bool? && c.value.b == found.Some?
    else if c.operator == "$contains" then found.Some? && found.value.Arr? && HasEqual(t, found.value.items, c.value)
    else if c.operator == "$in" then found.Some? && c.value.Arr? && HasEqual(t, c.value.items, found.value)
    else if c.operator in {"$gte", "$gt", "$lte", "$lt"} then found.Some? && Compare(t, found.value, c.operator, c.value)
    else false
  }

  /** The value reads as the number a: it is one, or a text that parses to it. */
  ghost predicate ReadsAs(t: Texts, v: Value, a: real) { v == Num(a) || exists s :: v == Str(s) && t.parse(s) == Some(a) }

  /** Ordering operators compare numbers and nothing else. */
  lemma ComparesNumbers(t: Texts, x: Value, y: Value)
    ensures forall a, b | ReadsAs(t, x, a) && ReadsAs(t, y, b) ::
      && (Compare(t, x, "$gte", y) <==> a >= b) && (Compare(t, x, "$gt", y) <==> a > b)
      && (Compare(t, x, "$lte", y) <==> a <= b) && (Compare(t, x, "$lt", y) <==> a < b)
    ensures (forall a :: !ReadsAs(t, x, a)) || (forall b :: !ReadsAs(t, y, b)) ==> forall op :: !Compare(t, x, op, y)
  {
    if ToNumber(t, x).Some? { assert ReadsAs(t, x, ToNumber(t, x).value); }
    if ToNumber(t, y).Some? { assert ReadsAs(t, y, ToNumber(t, y).value); }
  }

  /** Values are taken for the same when they are, or are formatted alike; null only for itself. */
  lemma TakenForSame(t: Texts, a: Value, b: Value)
    ensures ValuesEqual(t, a, a) && (ValuesEqual(t, a, b) <==> ValuesEqual(t, b, a))
    ensures ValuesEqual(t, a, Nil) <==> a == Nil
    ensures a != Nil && b != Nil ==> (ValuesEqual(t, a, b) <==> a == b || t.format(a) == t.format(b))
  {
  }

  /** What each operator asks of the value at the path of its field. */
  lemma MeetsExactly(t: Texts, data: Fields, field: string, v: Value)
    ensures var at := A.Lookup(data, A.Split(field));
      && (Meets(t, data, Where(field, "", v)) <==> exists x :: at == Some(x) && ValuesEqual(t, x, v))
      && (Meets(t, data, Where(field, "$ne", v)) <==> !Meets(t, data, Where(field, "", v)))
      && (Meets(t, data, Where(field, "$exists", Bool(true))) <==> at != None)
      && (Meets(t, data, Where(field, "$exists", Bool(false))) <==> at == None)
      && (!v.Bool? ==> !Meets(t, data, Where(field, "$exists", v)))
      && (Meets(t, data, Where(field, "$in", v)) <==>
            exists x, items, i :: at == Some(x) && v == Arr(items) && 0 <= i < |items| && ValuesEqual(t, items[i], x))
      && (Meets(t, data, Where(field, "$contains", v)) <==>
            exists items, i :: at == Some(Arr(items)) && 0 <= i < |items| && ValuesEqual(t, items[i], v))
    ensures forall op | op == "$gte" || op == "$gt" || op == "$lte" || op == "$lt" ::
      Meets(t, data, Where(field, op, v)) <==> exists x :: A.Lookup(data, A.Split(field)) == Some(x) && Compare(t, x, op, v)
    ensures forall op | op != "" && op != "$ne" && op != "$exists" && op != "$in" && op != "$contains"
                        && op != "$gte" && op != "$gt" && op != "$lte" && op != "$lt" :: !Meets(t, data, Where(field, op, v))
  {
    hide A.Lookup, A.Split, Compare, ValuesEqual;
    MeetsItems(t, data, field, v);
  }

  lemma MeetsItems(t: Texts, data: Fields, field: string, v: Value)
    ensures var at := A.Lookup(data, A.Split(field));
      && (Meets(t, data, Where(field, "$in", v)) <==>
            exists x, items, i :: at == Some(x) && v == Arr(items) && 0 <= i < |items| && ValuesEqual(t, items[i], x))
      && (Meets(t, data, Where(field, "$contains", v)) <==>
            exists items, i :: at == Some(Arr(items)) && 0 <= i < |items| && ValuesEqual(t, items[i], v))
  {
    hide A.Lookup, A.Split, Compare, ValuesEqual;
    assert "$in" != "" && "$in" != "$ne" && "$contains" != "$ne" && "$contains" != "$exists" && "$in" != "$exists" && "$in" != "$contains";
  }

  method GetNestedValue(data: Fields, path: string) returns (found: Option<Value>)
    ensures found == A.Lookup(data, A.Split(path))
  {
    var parts := A.Split(path);
    var current := Obj(data);
    assert parts[0..] == parts;
    for k := 0 to |parts|
      invariant k < |parts| ==> A.Lookup(data, parts) == if current.Obj? then A.Lookup(current.fields, parts[k..]) else None
      invariant k == |parts| ==> A.Lookup(data, parts) == Some(current)
    {
      if !current.Obj? || parts[k] !in current.fields { return None; }
      assert parts[k..][1..] == parts[k + 1..];
      current := current.fields[parts[k]];
    }
    found := Some(current);
  }

  method EvaluateCondition(t: Texts, data: Fields, c: Condition) returns (r: bool)
    ensures r == Meets(t, data, c)
  {
    var found := GetNestedValue(data, c.field);
    match c.operator {
      case "" => return found.Some? && ValuesEqual(t, found.value, c.value);
      case "$ne" => return found.None? || !ValuesEqual(t, found.value, c.value);
      case "$exists" => return c.value.Bool? && found.Some? == c.value.b;
      case "$contains" =>
        if found.None? || !found.value.Arr? { return false; }
        r := AnyEqual(t, found.value.items, c.value);
      case "$in" =>
        if found.None? || !c.value.Arr? { return false; }
        r := AnyEqual(t, c.value.items, found.value);
      case _ =>
        return c.operator in {"$gte", "$gt", "$lte", "$lt"} && found.Some? && Compare(t, found.value, c.operator, c.value);
    }
  }

  method AnyEqual(t: Texts, items: seq<Value>, v: Value) returns (r: bool)
    ensures r == HasEqual(t, items, v)
  {
    for i := 0 to |items|
      invariant forall j :: 0 <= j < i ==> !ValuesEqual(t, items[j], v)
    {
      if ValuesEqual(t, items[i], v) { return true; }
    }
    r := false;
  }

  // ---------- a criteria map ----------

  /** The conditions a criteria map stands for: one per operator of a field, or an equality. */
  ghost predicate Stands(criteria: Fields, c: Condition) {
    && c.field in criteria
    && match criteria[c.field]
       case Obj(ops) => c.operator in ops && c.value == ops[c.operator]
       case v => c.operator == "" && c.value == v
  }

  ghost predicate Accepts(t: Texts, criteria: Fields, data: Fields) {
    forall c: Condition | Stands(criteria, c) :: Meets(t, data, c)
  }

  /** The conditions of one operator map, in whatever order it hands them out. */
  method OperatorConditions(field: string, ops: Fields) returns (cs: seq<Condition>)
    ensures forall c :: c in cs <==> c.field == field && c.operator in ops && c.value == ops[c.operator]
  {
    cs := [];
    var rest := ops.Keys;
    while rest != {}
      invariant rest <= ops.Keys
      invariant forall c :: c in cs <==> c.field == field && c.operator in ops && c.operator !in rest && c.value == ops[c.operator]
    {
      var op :| op in rest;
      cs := cs + [Where(field, op, ops[op])];
      rest := rest - {op};
    }
  }

  method ParseCriteria(criteria: Fields) returns (cs: seq<Condition>)
    ensures forall c :: c in cs <==> Stands(criteria, c)
  {
    cs := [];
    var rest := criteria.Keys;
    while rest != {}
      invariant rest <= criteria.Keys
      invariant forall c :: c in cs <==> Stands(criteria, c) && c.field !in rest
    {
      var field :| field in rest;
      if criteria[field].Obj? {
        var more := OperatorConditions(field, criteria[field].fields);
        cs := cs + more;
      } else {
        cs := cs + [Where(field, "", criteria[field])];
      }
      rest := rest - {field};
    }
  }

  method MatchesCriteria(t: Texts, criteria: Fields, data: Fields) returns (r: bool)
    ensures r == Accepts(t, criteria, data)
  {
    var conditions := ParseCriteria(criteria);
    for k := 0 to |conditions|
      invariant forall j :: 0 <= j < k ==> Meets(t, data, conditions[j])
    {
      var met := EvaluateCondition(t, data, conditions[k]);
      if !met {
        assert conditions[k] in conditions;
        return false;
      }
    }
    r := true;
  }

  // ---------- the split ----------

  function Simple(criteria: Fields): Fields { map f | f in criteria && !criteria[f].Obj? :: criteria[f] }

  ghost predicate IsComplex(criteria: Fields, c: Condition) { Stands(criteria, c) && criteria[c.field].Obj? }

  method SplitCriteria(criteria: Fields) returns (simple: Fields, complex: seq<Condition>)
    ensures forall f :: f in simple <==> f in criteria && !criteria[f].Obj?
    ensures forall f | f in simple :: simple[f] == criteria[f]
    ensures forall c :: c in complex <==> c.field in criteria && criteria[c.field].Obj? && c.operator in criteria[c.field].fields && c.value == criteria[c.field].fields[c.operator]
    ensures simple == Simple(criteria)
    ensures forall c :: c in complex <==> IsComplex(criteria, c)
  {
    simple, complex := map[], [];
    var rest := criteria.Keys;
    while rest != {}
      invariant rest <= criteria.Keys
      invariant simple == map f | f in criteria && f !in rest && !criteria[f].Obj? :: criteria[f]
      invariant forall c :: c in complex <==> IsComplex(criteria, c) && c.field !in rest
    {
      var field :| field in rest;
      if criteria[field].Obj? {
        var more := OperatorConditions(field, criteria[field].fields);
        complex := complex + more;
      } else {
        simple := simple[field := criteria[field]];
      }
      rest := rest - {field};
    }
  }

  /** setNestedValue: a value already on the way blocks the path and nothing is set. */
  function SetNested(m: Fields, p: A.Path, v: Value): Fields
    requires p != []
    decreases |p|
  {
    if |p| == 1 then m[p[0] := v]
    else if p[0] !in m then m[p[0] := Obj(SetNested(map[], p[1..], v))]
    else if m[p[0]].Obj? then m[p[0] := Obj(SetNested(m[p[0]].fields, p[1..], v))]
    else m
  }

  /** The containment document, the simple fields being taken in the order ks. */
  function Built(simple: Fields, ks: seq<string>): Fields
    requires forall k <- ks :: k in simple
  {
    if ks == [] then map[]
    else SetNested(Built(simple, ks[..|ks| - 1]), A.Split(ks[|ks| - 1]), simple[ks[|ks| - 1]])
  }

  /** ks lists the fields of a map, each once. */
  ghost predicate Order(simple: Fields, ks: seq<string>) {
    && (forall k :: k in ks <==> k in simple)
    && forall i, j :: 0 <= i < j < |ks| ==> ks[i] != ks[j]
  }

  method BuildJSONBContainment(simple: Fields) returns (r: Option<Value>, ghost ks: seq<string>)
    ensures Order(simple, ks)
    ensures r == if simple == map[] then None else Some(Obj(Built(simple, ks)))
  {
    ks := [];
    if |simple| == 0 { return None, []; }
    var result: Fields := map[];
    var rest := simple.Keys;
    while rest != {}
      invariant rest <= simple.Keys && (forall k :: k in ks <==> k in simple && k !in rest)
      invariant forall i, j :: 0 <= i < j < |ks| ==> ks[i] != ks[j]
      invariant result == Built(simple, ks)
    {
      var field :| field in rest;
      result := SetNested(result, A.Split(field), simple[field]);
      assert (ks + [field])[..|ks|] == ks;
      ks := ks + [field];
      rest := rest - {field};
    }
    r := Some(Obj(result));
  }

  /** The containment operator @> of the database on JSON values. */
  predicate Contains(a: Value, b: Value)
    decreases b, 0
  {
    match b
    case Obj(fs) => a.Obj? && forall k | k in fs :: k in a.fields && Contains(a.fields[k], fs[k])
    case Arr(items) => a.Arr? && forall j | 0 <= j < |items| :: HasItem(a.items, items[j])
    case _ => a == b
  }

  predicate HasItem(items: seq<Value>, v: Value)
    decreases v, 1
  {
    exists i | 0 <= i < |items| :: Contains(items[i], v)
  }

  predicate Scalar(v: Value) { v.Nil? || v.Bool? || v.Num? || v.Str? }

  /** Nothing set in m lies on p or below it. */
  predicate Open(m: Fields, p: A.Path)
    requires p != []
    decreases |p|
  {
    p[0] !in m || (|p| > 1 && m[p[0]].Obj? && Open(m[p[0]].fields, p[1..]))
  }

  lemma {:induction false} SetStaysOpen(m: Fields, p: A.Path, v: Value, q: A.Path)
    requires p != [] && q != [] && A.Apart(p, q) && Open(m, p) && Open(m, q)
    ensures Open(SetNested(m, p, v), q)
    decreases |p|
  {
    if p[0] == q[0] {
      A.ApartStep(p, q);
      SetStaysOpen(if p[0] in m then m[p[0]].fields else map[], p[1..], v, q[1..]);
    }
  }

  function BelowKey(m: Fields, k: string): Fields { if k in m && m[k].Obj? then m[k].fields else map[] }

  lemma {:induction false} SetNestedStep(m: Fields, p: A.Path, v: Value)
    requires |p| > 1 && Open(m, p)
    ensures SetNested(m, p, v) == m[p[0] := Obj(SetNested(BelowKey(m, p[0]), p[1..], v))]
    ensures Open(BelowKey(m, p[0]), p[1..])
    ensures p[0] in m ==> m[p[0]] == Obj(BelowKey(m, p[0]))
  {
  }

  lemma OnlyObjects(a: Value, fs: Fields)
    ensures Contains(a, Obj(fs)) ==> a.Obj?
    ensures a.Obj? ==> Contains(a, Obj(map[]))
  {
  }

  /** Containing one more field is having its value at its path. */
  lemma {:induction false} ContainsSet(data: Fields, m: Fields, p: A.Path, v: Value)
    requires p != [] && Open(m, p) && Scalar(v)
    ensures Contains(Obj(data), Obj(SetNested(m, p, v))) <==> Contains(Obj(data), Obj(m)) && A.Lookup(data, p) == Some(v)
    decreases |p|
  {
    var k := p[0];
    if |p| > 1 {
      hide Contains, SetNested, Open;
      var below := BelowKey(m, k);
      SetNestedStep(m, p, v);
      var fs := SetNested(below, p[1..], v);
      ContainsUpdate(data, m, k, Obj(fs));
      if k in m { ContainsSplit(data, m, k); }
      if k in data {
        OnlyObjects(data[k], fs);
        OnlyObjects(data[k], below);
        if data[k].Obj? { ContainsSet(data[k].fields, below, p[1..], v); }
      }
    } else {
      ContainsUpdate(data, m, k, v);
    }
  }

  ghost predicate Has(data: Fields, k: string, v: Value) { k in data && Contains(data[k], v) }

  lemma ContainsIs(data: Fields, m: Fields)
    ensures Contains(Obj(data), Obj(m)) <==> forall x | x in m :: Has(data, x, m[x])
  {
  }

  lemma ContainsUpdate(data: Fields, m: Fields, k: string, v: Value)
    ensures Contains(Obj(data), Obj(m[k := v])) <==> Contains(Obj(data), Obj(m - {k})) && k in data && Contains(data[k], v)
    ensures k !in m ==> m - {k} == m
  {
    ContainsIs(data, m[k := v]);
    ContainsIs(data, m - {k});
    assert Has(data, k, v) <==> k in data && Contains(data[k], v);
    hide Contains, Has;
    var n := m[k := v];
    assert k in n && n[k] == v;
    assert forall x :: x in n <==> x == k || x in m - {k};
    assert forall x | x in m - {k} :: x in n && n[x] == (m - {k})[x];
  }

  lemma ContainsSplit(data: Fields, m: Fields, k: string)
    requires k in m
    ensures Contains(Obj(data), Obj(m)) <==> Contains(Obj(data), Obj(m - {k})) && k in data && Contains(data[k], m[k])
  {
    ContainsUpdate(data, m, k, m[k]);
    assert m[k := m[k]] == m;
  }

  lemma ContainsEmpty(data: Fields)
    ensures Contains(Obj(data), Obj(map[]))
  {
  }

  ghost predicate FieldsApart(ks: seq<string>) {
    forall i, j :: 0 <= i < j < |ks| ==> A.Apart(A.Split(ks[i]), A.Split(ks[j]))
  }

  lemma {:induction false} BuiltOpen(simple: Fields, ks: seq<string>, q: A.Path)
    requires (forall k <- ks :: k in simple) && FieldsApart(ks) && q != []
    requires forall k <- ks :: A.Apart(A.Split(k), q)
    ensures Open(Built(simple, ks), q)
  {
    if ks != [] {
      var n := |ks| - 1;
      var p := A.Split(ks[n]);
      assert ks[n] in ks;
      BuiltOpen(simple, ks[..n], q);
      BuiltOpen(simple, ks[..n], p);
      SetStaysOpen(Built(simple, ks[..n]), p, simple[ks[n]], q);
    }
  }

  /** Containing the built document is having every simple field's value, in whatever order it was built. */
  lemma {:induction false} ContainsBuilt(data: Fields, simple: Fields, ks: seq<string>)
    requires (forall k <- ks :: k in simple && Scalar(simple[k])) && FieldsApart(ks)
    ensures Contains(Obj(data), Obj(Built(simple, ks))) <==> forall k <- ks :: A.Lookup(data, A.Split(k)) == Some(simple[k])
  {
    hide A.Lookup, A.Split, Contains, SetNested;
    if ks == [] {
      ContainsEmpty(data);
    } else {
      var n := |ks| - 1;
      var p := A.Split(ks[n]);
      assert ks[n] in ks;
      ContainsBuilt(data, simple, ks[..n]);
      forall k | k in ks[..n] ensures A.Apart(A.Split(k), p) {
        var i :| 0 <= i < n && ks[i] == k;
      }
      BuiltOpen(simple, ks[..n], p);
      ContainsSet(data, Built(simple, ks[..n]), p, simple[ks[n]]);
      assert forall k <- ks :: k in ks[..n] || k == ks[n];
    }
  }

  /** A value of the field, where there is one, is equal to v only by being v. */
  ghost predicate SameTyped(t: Texts, data: Fields, field: string, v: Value) {
    var found := A.Lookup(data, A.Split(field));
    found.Some? ==> (ValuesEqual(t, found.value, v) ==> found.value == v)
  }

  /** Containment of the simple part, and evaluation of the rest. */
  ghost predicate SplitAccepts(t: Texts, criteria: Fields, data: Fields, ks: seq<string>)
    requires forall k <- ks :: k in Simple(criteria)
  {
    && (Simple(criteria) == map[] || Contains(Obj(data), Obj(Built(Simple(criteria), ks))))
    && forall c: Condition | IsComplex(criteria, c) :: Meets(t, data, c)
  }

  /** Checking containment of the simple part and evaluating the rest accepts exactly what evaluating
      all conditions accepts. */
  lemma SplitAgrees(t: Texts, criteria: Fields, data: Fields, ks: seq<string>)
    requires Order(Simple(criteria), ks) && FieldsApart(ks)
    requires forall f | f in Simple(criteria) :: Scalar(criteria[f]) && SameTyped(t, data, f, criteria[f])
    ensures Accepts(t, criteria, data) <==> SplitAccepts(t, criteria, data, ks)
  {
    hide A.Lookup, A.Split, Contains, Built;
    var simple := Simple(criteria);
    if simple == map[] { assert forall k :: k !in ks; }
    ContainsBuilt(data, simple, ks);
    EqualitiesMet(t, criteria, data, ks);
    assert forall c: Condition | Stands(criteria, c) :: IsComplex(criteria, c) || (c.field in simple && c == Where(c.field, "", simple[c.field]));
    assert forall f | f in simple :: Stands(criteria, Where(f, "", simple[f]));
  }

  lemma EqualitiesMet(t: Texts, criteria: Fields, data: Fields, ks: seq<string>)
    requires Order(Simple(criteria), ks)
    requires forall f | f in Simple(criteria) :: SameTyped(t, data, f, criteria[f])
    ensures (forall k <- ks :: A.Lookup(data, A.Split(k)) == Some(Simple(criteria)[k])) <==>
            (forall f | f in Simple(criteria) :: Meets(t, data, Where(f, "", Simple(criteria)[f])))
  {
    hide A.Lookup, A.Split;
  }

  predicate SameType(a: Value, b: Value) {
    (a.Nil? && b.Nil?) || (a.Bool? && b.Bool?) || (a.Num? && b.Num?) || (a.Str? && b.Str?)
  }

  /** Scalars of one type are formatted alike only when they are the same. */
  ghost predicate FormatsApart(t: Texts) {
    forall a: Value, b: Value :: SameType(a, b) && t.format(a) == t.format(b) ==> a == b
  }

  /** So the hypothesis of the split holds wherever the field's value has the criterion's type. */
  lemma SameTypeSuffices(t: Texts, data: Fields, field: string, v: Value)
    requires FormatsApart(t)
    requires var found := A.Lookup(data, A.Split(field)); found.Some? ==> SameType(found.value, v)
    ensures SameTyped(t, data, field, v)
  {
  }

  /** A number written as text is accepted here but not by containment. */
  lemma CoercionDiverges(t: Texts)
    requires t.format(Num(5.0)) == t.format(Str("5"))
    ensures var criteria, data := map["n" := Num(5.0)], map["n" := Str("5")];
      && Accepts(t, criteria, data)
      && Simple(criteria) == criteria && !Contains(Obj(data), Obj(Built(criteria, ["n"])))
  {
    var criteria: Fields, data: Fields := map["n" := Num(5.0)], map["n" := Str("5")];
    A.SplitSegment("n", "");
    assert ["n"][..0] == [];
    assert Built(criteria, ["n"]) == SetNested(Built(criteria, []), ["n"], Num(5.0)) == criteria;
    assert "n" in criteria && !Contains(data["n"], criteria["n"]);
  }

  /** Where one field's path lies above another's, containment loses a condition. */
  lemma OverlapDiverges(t: Texts, v: Value, w: Value)
    requires Scalar(v) && v != Nil && Scalar(w)
    ensures var criteria, data := map["a" := v, "a.b" := w], map["a" := v];
      && Simple(criteria) == criteria
      && Contains(Obj(data), Obj(Built(criteria, ["a", "a.b"]))) && Contains(Obj(data), Obj(Built(criteria, ["a.b", "a"])))
      && !Accepts(t, criteria, data)
  {
    var criteria: Fields, data: Fields := map["a" := v, "a.b" := w], map["a" := v];
    OverlapPaths();
    OverlapFails(t, criteria, data, v, w);
    hide A.Split, Built, Contains, Accepts;
    BuiltOverlap(criteria, v, w);
    ContainsSelf(data, v);
  }

  lemma OverlapPaths()
    ensures A.Split("a") == ["a"] && A.Split("a.b") == ["a", "b"]
  {
    A.SplitSegment("a", "b");
    A.SplitSegment("b", "");
    assert "a.b" == "a" + "." + "b";
  }

  lemma OverlapFails(t: Texts, criteria: Fields, data: Fields, v: Value, w: Value)
    requires criteria == map["a" := v, "a.b" := w] && data == map["a" := v] && Scalar(v) && Scalar(w)
    requires A.Split("a.b") == ["a", "b"]
    ensures !Accepts(t, criteria, data)
  {
    hide A.Split;
    assert Stands(criteria, Where("a.b", "", w)) && !Meets(t, data, Where("a.b", "", w));
  }

  lemma ContainsSelf(data: Fields, v: Value)
    requires Scalar(v) && data == map["a" := v]
    ensures Contains(Obj(data), Obj(data))
  {
    ContainsIs(data, data);
  }

  lemma BuiltOverlap(criteria: Fields, v: Value, w: Value)
    requires criteria == map["a" := v, "a.b" := w] && Scalar(v)
    requires A.Split("a") == ["a"] && A.Split("a.b") == ["a", "b"]
    ensures Built(criteria, ["a", "a.b"]) == map["a" := v] == Built(criteria, ["a.b", "a"])
  {
    hide A.Split, Built;
    BuiltStep(criteria, [], "a");
    BuiltStep(criteria, [], "a.b");
    BuiltStep(criteria, ["a"], "a.b");
    BuiltStep(criteria, ["a.b"], "a");
    assert [] + ["a"] == ["a"] && [] + ["a.b"] == ["a.b"];
    assert ["a"] + ["a.b"] == ["a", "a.b"] && ["a.b"] + ["a"] == ["a.b", "a"];
    assert SetNested(map[], ["a"], v) == map["a" := v];
    assert SetNested(map["a" := v], ["a", "b"], w) == map["a" := v];
    var inner := SetNested(map[], ["b"], w);
    assert ["a", "b"][1..] == ["b"];
    assert SetNested(map["a" := Obj(inner)], ["a"], v) == map["a" := v];
  }

  lemma {:induction false} BuiltStep(simple: Fields, ks: seq<string>, f: string)
    requires (forall k <- ks :: k in simple) && f in simple
    ensures Built(simple, []) == map[]
    ensures Built(simple, ks + [f]) == SetNested(Built(simple, ks), A.Split(f), simple[f])
  {
    hide A.Split, SetNested;
    assert (ks + [f])[..|ks|] == ks;
  }
}
