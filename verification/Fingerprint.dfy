/** Fingerprints: the canonical text of a document without its excluded fields, and what two equal
    fingerprints say about two documents. */
module Fingerprint {
  import opened Canonical

  /** Excluded paths; an entry may hold false, as a Go map[string]bool may. */
  type Exclusions = map<string, bool>

  function Extend(path: string, key: string): string {
    if path == [] then key else path + "." + key
  }

  ghost predicate Below(path: string, e: string) { e + "." <= path }

  ghost predicate Excluded(path: string, ex: Exclusions) {
    (path in ex && ex[path]) || exists e | e in ex :: Below(path, e)
  }

  /** The document without the excluded fields. Array elements keep the path of their array. */
  ghost function Prune(d: Json, ex: Exclusions, path: string): Json
    decreases d
  {
    match d
    case Arr(items) => Arr(seq(|items|, i requires 0 <= i < |items| => Prune(items[i], ex, path)))
    case Obj(fields) =>
      Obj(map k | k in fields && !Excluded(Extend(path, k), ex) :: Prune(fields[k], ex, Extend(path, k)))
    case _ => d
  }

  // ---------- the printer ----------

  method ShouldExcludeField(path: string, ex: Exclusions) returns (r: bool)
    ensures r == Excluded(path, ex)
  {
    if path in ex && ex[path] { return true; }
    var rest := ex.Keys;
    while rest != {}
      invariant rest <= ex.Keys
      invariant forall e | e in ex && e !in rest :: !Below(path, e)
    {
      var e :| e in rest;
      if e + "." <= path {
        assert Below(path, e);
        return true;
      }
      rest := rest - {e};
    }
    return false;
  }

  /** The keys of a map, in whatever order it hands them out, sorted. */
  method SortedKeys(m: map<string, Json>) returns (ks: seq<string>)
    ensures ks == Ordered(m.Keys)
  {
    ks := [];
    var rest := m.Keys;
    while rest != {}
      invariant rest <= m.Keys && Distinct(ks) && Keys(ks) == m.Keys - rest
    {
      var k :| k in rest;
      assert k !in Keys(ks);
      Append(ks, k);
      ks := ks + [k];
      rest := rest - {k};
    }
    SortedSorts(ks);
    AscendingUnique(Sorted(ks), Ordered(m.Keys));
    ks := Sorted(ks);
  }

  lemma Append(ks: seq<string>, k: string)
    requires Distinct(ks) && k !in Keys(ks)
    ensures Distinct(ks + [k]) && Keys(ks + [k]) == Keys(ks) + {k}
  {
    assert forall x :: x in ks + [k] <==> x in ks || x == k;
  }

  ghost function Retained(ks: seq<string>, ex: Exclusions, path: string): seq<string> {
    if ks == [] then []
    else (if Excluded(Extend(path, ks[0]), ex) then [] else [ks[0]]) + Retained(ks[1..], ex, path)
  }

  lemma {:induction false} RetainedKeys(ks: seq<string>, ex: Exclusions, path: string)
    requires Ascending(ks)
    ensures Ascending(Retained(ks, ex, path))
    ensures forall k :: k in Retained(ks, ex, path) <==> k in ks && !Excluded(Extend(path, k), ex)
  {
    hide Excluded, Less;
    if ks != [] {
      var rest := Retained(ks[1..], ex, path);
      RetainedKeys(ks[1..], ex, path);
      assert ks == [ks[0]] + ks[1..];
      forall i | 0 <= i < |rest| ensures Less(ks[0], rest[i]) { assert rest[i] in ks[1..]; }
    }
  }

  lemma RetainedIsOrdered(d: Json, ex: Exclusions, path: string)
    requires d.Obj?
    ensures Retained(Ordered(d.fields.Keys), ex, path) == Ordered(Prune(d, ex, path).fields.Keys)
  {
    hide Excluded, Less;
    var ks := Ordered(d.fields.Keys);
    RetainedKeys(ks, ex, path);
    var kept := Retained(ks, ex, path);
    assert forall k :: k in ks <==> k in Keys(ks);
    assert Keys(kept) == Prune(d, ex, path).fields.Keys;
    AscendingUnique(kept, Ordered(Prune(d, ex, path).fields.Keys));
  }

  /** The canonical text is the text of the pruned document. */
  method CanonicalizeWithExclusions(d: Json, ex: Exclusions, path: string) returns (s: string)
    ensures s == Print(Prune(d, ex, path))
    decreases d, 1
  {
    match d {
      case Obj(_) => s := CanonicalizeMap(d, ex, path);
      case Arr(_) => s := CanonicalizeArray(d, ex, path);
      case Null => s := "null";
      case Bool(b) => s := if b then "true" else "false";
      case Num(l) => s := l;
      case Str(t) => s := Quote(t);
    }
  }

  method CanonicalizeMap(d: Json, ex: Exclusions, path: string) returns (s: string)
    requires d.Obj?
    ensures s == Print(Prune(d, ex, path))
    decreases d, 0
  {
    hide Excluded, Less, Prune, Print, PrintFields, Retained, Quote, Left;
    ghost var pruned := Prune(d, ex, path);
    PrunedFields(d, ex, path);
    var keys := SortedKeys(d.fields);
    RetainedIsOrdered(d, ex, path);
    assert forall k :: k in keys <==> k in Keys(keys);
    s := "{";
    var first := true;
    ghost var all := NothingPrinted(pruned, keys, ex, path, d);
    for i := 0 to |keys|
      invariant Left(pruned, Retained(keys[i..], ex, path), first, s, all)
    {
      var k := keys[i];
      RetainedAt(keys, i, ex, path);
      var fieldPath := Extend(path, k);
      var excluded := ShouldExcludeField(fieldPath, ex);
      if !excluded {
        ghost var before := s;
        if !first { s := s + ","; }
        var value := CanonicalizeWithExclusions(d.fields[k], ex, fieldPath);
        s := s + Quote(k) + ":" + value;
        FieldPrinted(pruned, k, Retained(keys[i + 1..], ex, path), first, before, s, value, all);
        first := false;
      }
    }
    AllPrinted(pruned, keys, ex, path, first, s, all);
    s := s + "}";
  }

  /** What is left to print is the fields ks of p. */
  ghost predicate Left(p: Json, ks: seq<string>, first: bool, s: string, all: string) {
    p.Obj? && (forall k <- ks :: k in p.fields) && s + PrintFields(p, ks, first) == all
  }

  lemma NothingPrinted(p: Json, keys: seq<string>, ex: Exclusions, path: string, d: Json) returns (all: string)
    requires d.Obj? && p == Prune(d, ex, path) && keys == Ordered(d.fields.Keys)
    ensures Left(p, Retained(keys[0..], ex, path), true, "{", all)
    ensures p.Obj? && Retained(keys, ex, path) == Ordered(p.fields.Keys)
    ensures (forall k <- Retained(keys, ex, path) :: k in p.fields) && all == "{" + PrintFields(p, Retained(keys, ex, path), true)
  {
    RetainedIn(keys, ex, path, p, d);
    assert keys[0..] == keys;
    hide Prune, PrintFields, Retained;
    all := "{" + PrintFields(p, Retained(keys, ex, path), true);
  }

  lemma AllPrinted(p: Json, keys: seq<string>, ex: Exclusions, path: string, first: bool, s: string, all: string)
    requires p.Obj? && Retained(keys, ex, path) == Ordered(p.fields.Keys)
    requires (forall k <- Retained(keys, ex, path) :: k in p.fields) && all == "{" + PrintFields(p, Retained(keys, ex, path), true)
    requires Left(p, Retained(keys[|keys|..], ex, path), first, s, all)
    ensures s + "}" == Print(p)
  {
    NoFieldsLeft(p, keys[|keys|..], ex, path, first);
    ObjectPrinted(p, keys, ex, path);
    hide Print, PrintFields, Retained;
    assert s + [] == s;
  }

  lemma PrunedFields(d: Json, ex: Exclusions, path: string)
    requires d.Obj?
    ensures var p := Prune(d, ex, path);
            && p.Obj? && p.fields.Keys <= d.fields.Keys
            && (forall k | k in d.fields :: k in p.fields <==> !Excluded(Extend(path, k), ex))
            && (forall k | k in p.fields :: p.fields[k] == Prune(d.fields[k], ex, Extend(path, k)))
  {
    hide Excluded;
  }

  lemma RetainedIn(ks: seq<string>, ex: Exclusions, path: string, p: Json, d: Json)
    requires d.Obj? && p == Prune(d, ex, path) && ks == Ordered(d.fields.Keys)
    ensures p.Obj? && Retained(ks, ex, path) == Ordered(p.fields.Keys)
    ensures forall k <- Retained(ks, ex, path) :: k in p.fields
  {
    hide Excluded, Less;
    RetainedIsOrdered(d, ex, path);
    PrunedFields(d, ex, path);
    assert forall k <- Ordered(p.fields.Keys) :: k in Keys(Ordered(p.fields.Keys));
  }

  lemma {:induction false} RetainedStep(ks: seq<string>, ex: Exclusions, path: string)
    requires ks != []
    ensures Excluded(Extend(path, ks[0]), ex) ==> Retained(ks, ex, path) == Retained(ks[1..], ex, path)
    ensures !Excluded(Extend(path, ks[0]), ex) ==> Retained(ks, ex, path) == [ks[0]] + Retained(ks[1..], ex, path)
  {
    hide Excluded;
  }

  lemma RetainedAt(ks: seq<string>, i: nat, ex: Exclusions, path: string)
    requires i < |ks|
    ensures Excluded(Extend(path, ks[i]), ex) ==> Retained(ks[i..], ex, path) == Retained(ks[i + 1..], ex, path)
    ensures !Excluded(Extend(path, ks[i]), ex) ==> Retained(ks[i..], ex, path) == [ks[i]] + Retained(ks[i + 1..], ex, path)
  {
    hide Excluded, Retained;
    assert ks[i..][0] == ks[i] && ks[i..][1..] == ks[i + 1..];
    RetainedStep(ks[i..], ex, path);
  }

  lemma FieldPrinted(p: Json, k: string, rest: seq<string>, first: bool, before: string, after: string, value: string, all: string)
    requires Left(p, [k] + rest, first, before, all)
    requires k in p.fields ==> value == Print(p.fields[k])
    requires after == (if first then before else before + ",") + Quote(k) + ":" + value
    ensures Left(p, rest, false, after, all)
  {
    hide Print, PrintFields, Quote;
    var ks := [k] + rest;
    assert ks[0] == k && ks[1..] == rest && k in ks && forall j <- rest :: j in ks;
    FieldText(p, ks, first, []);
    var q := PrintFields(p, ks[1..], false);
    assert PrintFields(p, ks, first) + [] == PrintFields(p, ks, first);
    assert q + [] == q;
  }

  lemma NoFieldsLeft(p: Json, ks: seq<string>, ex: Exclusions, path: string, first: bool)
    requires p.Obj? && ks == []
    ensures Retained(ks, ex, path) == [] && PrintFields(p, [], first) == []
  {
  }

  lemma ObjectPrinted(p: Json, ks: seq<string>, ex: Exclusions, path: string)
    requires p.Obj? && Retained(ks, ex, path) == Ordered(p.fields.Keys)
    ensures (forall k <- Retained(ks, ex, path) :: k in p.fields)
    ensures "{" + PrintFields(p, Retained(ks, ex, path), true) + "}" == Print(p)
  {
    assert forall k <- Ordered(p.fields.Keys) :: k in Keys(Ordered(p.fields.Keys));
  }

  method CanonicalizeArray(d: Json, ex: Exclusions, path: string) returns (s: string)
    requires d.Arr?
    ensures s == Print(Prune(d, ex, path))
    decreases d, 0
  {
    hide Prune, Print, PrintItems;
    ghost var pruned := Prune(d, ex, path);
    PrunedItems(d, ex, path);
    s := "[";
    ghost var all := "[" + PrintItems(pruned, 0);
    for i := 0 to |d.items|
      invariant s + PrintItems(pruned, i) == all
    {
      ghost var before := s;
      if i > 0 { s := s + ","; }
      var item := CanonicalizeWithExclusions(d.items[i], ex, path);
      s := s + item;
      ItemPrinted(pruned, i, before, s, item);
    }
    ArrayPrinted(pruned, s);
    s := s + "]";
  }

  lemma PrunedItems(d: Json, ex: Exclusions, path: string)
    requires d.Arr?
    ensures var p := Prune(d, ex, path);
            && p.Arr? && |p.items| == |d.items|
            && (forall i | 0 <= i < |d.items| :: p.items[i] == Prune(d.items[i], ex, path))
  {
  }

  lemma ItemPrinted(p: Json, i: nat, before: string, after: string, item: string)
    requires p.Arr? && i < |p.items| && item == Print(p.items[i])
    requires after == (if i == 0 then before else before + ",") + item
    ensures before + PrintItems(p, i) == after + PrintItems(p, i + 1)
  {
    hide Print, PrintItems;
    ItemText(p, i, []);
    var q := PrintItems(p, i + 1);
    assert PrintItems(p, i) + [] == PrintItems(p, i);
    assert q + [] == q;
  }

  lemma ArrayPrinted(p: Json, s: string)
    requires p.Arr? && s + PrintItems(p, |p.items|) == "[" + PrintItems(p, 0)
    ensures s + "]" == Print(p)
  {
    assert PrintItems(p, |p.items|) == [];
  }

  // ---------- what a fingerprint says ----------

  /** Two documents have the same canonical text exactly when they agree outside the excluded fields. */
  lemma SameTextSameData(x: Json, y: Json, ex: Exclusions)
    ensures Print(Prune(x, ex, "")) == Print(Prune(y, ex, "")) <==> Prune(x, ex, "") == Prune(y, ex, "")
  {
    PrintInjective(Prune(x, ex, ""), Prune(y, ex, ""));
  }

  datatype Result<T> = Ok(value: T) | Err

  /** Reading a raw document: it must be an object, and null reads as an empty one. */
  function AsObject(d: Json): Result<Json> {
    match d
    case Obj(_) => Ok(d)
    case Null => Ok(Obj(map[]))
    case _ => Err
  }

  method GenerateFromJSON<H>(d: Json, ex: Exclusions, hash: string -> H) returns (r: Result<H>)
    ensures d.Obj? ==> r == Ok(hash(Print(Prune(d, ex, ""))))
    ensures d == Null ==> r == Ok(hash("{}"))
    ensures !d.Obj? && d != Null ==> r == Err
  {
    EmptyText(ex);
    var o := AsObject(d);
    if o.Err? { return Err; }
    var text := CanonicalizeWithExclusions(o.value, ex, "");
    r := Ok(hash(text));
  }

  lemma EmptyText(ex: Exclusions)
    ensures Print(Prune(Obj(map[]), ex, "")) == "{}"
  {
    var d := Prune(Obj(map[]), ex, "");
    assert d == Obj(map[]) && d.fields.Keys == {};
    NoKeys(Ordered({}));
  }

  /** Excluded fields do not matter, and pruning again changes nothing. */
  lemma {:induction false} PruneTwice(d: Json, ex: Exclusions, path: string)
    ensures Prune(Prune(d, ex, path), ex, path) == Prune(d, ex, path)
    decreases d
  {
    hide Excluded, Extend;
    match d
    case Arr(items) =>
      forall i | 0 <= i < |items| ensures Prune(Prune(items[i], ex, path), ex, path) == Prune(items[i], ex, path) {
        PruneTwice(items[i], ex, path);
      }
      PrunedItems(d, ex, path);
      var p := Prune(d, ex, path);
      PrunedItems(p, ex, path);
      assert Prune(p, ex, path).items == p.items;
    case Obj(fields) =>
      PrunedFields(d, ex, path);
      var p := Prune(d, ex, path);
      PrunedFields(p, ex, path);
      forall k | k in p.fields ensures Prune(p.fields[k], ex, Extend(path, k)) == p.fields[k] {
        PruneTwice(fields[k], ex, Extend(path, k));
      }
      assert Prune(p, ex, path).fields == p.fields;
    case _ =>
  }

  // ---------- the prefix test ----------

  ghost function PruneExact(d: Json, ex: Exclusions, path: string): Json
    decreases d
  {
    match d
    case Arr(items) => Arr(seq(|items|, i requires 0 <= i < |items| => PruneExact(items[i], ex, path)))
    case Obj(fields) =>
      Obj(map k | k in fields && Extend(path, k) !in ex :: PruneExact(fields[k], ex, Extend(path, k)))
    case _ => d
  }

  predicate Plain(key: string) { key != [] && '.' !in key }

  /** Every key of the document, at any depth, is non-empty and has no dot. */
  ghost predicate PlainKeys(d: Json)
    decreases d
  {
    match d
    case Arr(items) => forall i | 0 <= i < |items| :: PlainKeys(items[i])
    case Obj(fields) => forall k | k in fields :: Plain(k) && PlainKeys(fields[k])
    case _ => true
  }

  /** Every path that ends before a dot of p is one of these. */
  ghost predicate Covered(above: set<string>, p: string) { forall e {:trigger Below(p, e)} :: Below(p, e) ==> e in above }

  /** Wherever the path of a field has a dot, the part before it is the path of a field around it; above holds the
      paths of the fields around the document. */
  ghost predicate Nested(d: Json, path: string, above: set<string>)
    decreases d, 0
  {
    match d
    case Arr(items) => forall i | 0 <= i < |items| :: Nested(items[i], path, above)
    case Obj(fields) => forall k | k in fields :: NestedField(fields[k], Extend(path, k), above)
    case _ => true
  }

  ghost predicate NestedField(d: Json, path: string, above: set<string>)
    decreases d, 1
  {
    Covered(above, path) && Nested(d, path, above + {path})
  }

  ghost predicate OnlyTrue(ex: Exclusions) { forall e | e in ex :: ex[e] }

  lemma CoveredExclusion(ex: Exclusions, above: set<string>, p: string)
    requires OnlyTrue(ex) && Covered(above, p) && ex.Keys !! above
    ensures Excluded(p, ex) <==> p in ex
  {
  }

  lemma {:induction false} NestedAgrees(d: Json, ex: Exclusions, path: string, above: set<string>)
    requires OnlyTrue(ex) && Nested(d, path, above) && ex.Keys !! above
    ensures Prune(d, ex, path) == PruneExact(d, ex, path)
    decreases d
  {
    hide Excluded, Extend, Covered, OnlyTrue;
    match d
    case Arr(items) =>
      forall i | 0 <= i < |items| ensures Prune(items[i], ex, path) == PruneExact(items[i], ex, path) {
        NestedAgrees(items[i], ex, path, above);
      }
    case Obj(fields) =>
      forall k | k in fields
        ensures Excluded(Extend(path, k), ex) <==> Extend(path, k) in ex
        ensures Extend(path, k) !in ex ==> Prune(fields[k], ex, Extend(path, k)) == PruneExact(fields[k], ex, Extend(path, k))
      {
        var p := Extend(path, k);
        assert NestedField(fields[k], p, above);
        CoveredExclusion(ex, above, p);
        if p !in ex { NestedAgrees(fields[k], ex, p, above + {p}); }
      }
    case _ =>
  }

  /** The fields around are kept by excluding e. */
  ghost predicate Around(above: set<string>, e: string) { e !in above && forall p | p in above :: !Below(p, e) }

  ghost predicate AllCovered(above: set<string>) { forall p | p in above :: Covered(above, p) }

  lemma NestedDisagrees(d: Json, path: string, above: set<string>) returns (e: string)
    requires !Nested(d, path, above) && AllCovered(above)
    ensures Around(above, e) && Prune(d, map[e := true], path) != PruneExact(d, map[e := true], path)
    decreases d, 0
  {
    hide Excluded, Extend;
    match d
    case Arr(items) =>
      var i :| 0 <= i < |items| && !Nested(items[i], path, above);
      e := NestedDisagrees(items[i], path, above);
      assert Prune(d, map[e := true], path).items[i] != PruneExact(d, map[e := true], path).items[i];
    case Obj(fields) =>
      var k :| k in fields && !NestedField(fields[k], Extend(path, k), above);
      e := FieldDisagrees(fields[k], Extend(path, k), above);
      FieldTold(d, path, k, e);
    case _ =>
  }

  lemma FieldTold(d: Json, path: string, k: string, e: string)
    requires d.Obj? && k in d.fields
    requires var p := Extend(path, k); var ex := map[e := true];
      && p != e && (!Below(p, e) ==> Prune(d.fields[k], ex, p) != PruneExact(d.fields[k], ex, p))
    ensures Prune(d, map[e := true], path) != PruneExact(d, map[e := true], path)
  {
    hide Extend;
    var p, ex := Extend(path, k), map[e := true];
    OneExcluded(p, e);
    hide Excluded;
    var a, b := Prune(d, ex, path), PruneExact(d, ex, path);
    assert k in b.fields && b.fields[k] == PruneExact(d.fields[k], ex, p);
    assert k in a.fields <==> !Below(p, e);
    if k in a.fields { assert a.fields[k] == Prune(d.fields[k], ex, p); }
  }

  lemma OneExcluded(p: string, e: string)
    ensures Excluded(p, map[e := true]) <==> p == e || Below(p, e)
  {
  }

  lemma FieldDisagrees(d: Json, path: string, above: set<string>) returns (e: string)
    requires !NestedField(d, path, above) && AllCovered(above)
    ensures Around(above, e) && path != e
    ensures !Below(path, e) ==> Prune(d, map[e := true], path) != PruneExact(d, map[e := true], path)
    decreases d, 1
  {
    if Covered(above, path) {
      e := NestedDisagrees(d, path, above + {path});
    } else {
      e :| Below(path, e) && e !in above;
    }
  }

  /** Testing prefixes changes nothing, whatever is excluded, exactly for documents with nothing before a dot of a
      path but the paths of the fields around it. */
  lemma PrefixTestExactly(d: Json)
    ensures (forall ex: Exclusions | OnlyTrue(ex) :: Prune(d, ex, "") == PruneExact(d, ex, "")) <==> Nested(d, "", {})
  {
    if Nested(d, "", {}) {
      forall ex: Exclusions | OnlyTrue(ex) ensures Prune(d, ex, "") == PruneExact(d, ex, "") { NestedAgrees(d, ex, "", {}); }
    } else {
      var e := NestedDisagrees(d, "", {});
      assert OnlyTrue(map[e := true]);
    }
  }

  ghost predicate NoEmptyKeys(d: Json)
    decreases d
  {
    match d
    case Arr(items) => forall i | 0 <= i < |items| :: NoEmptyKeys(items[i])
    case Obj(fields) => forall k | k in fields :: k != [] && NoEmptyKeys(fields[k])
    case _ => true
  }

  /** The paths of the fields around, the innermost being path, are the parts of it before its dots and path itself. */
  ghost predicate Steps(above: set<string>, path: string) {
    if path == [] then above == {} else forall e :: e in above <==> e == path || Below(path, e)
  }

  lemma {:induction false} PlainIsNested(d: Json, path: string, above: set<string>)
    requires NoEmptyKeys(d) && Steps(above, path)
    ensures Nested(d, path, above) <==> PlainKeys(d)
    decreases d
  {
    hide Extend, Plain, Covered, Steps;
    match d
    case Arr(items) =>
      forall i | 0 <= i < |items| ensures Nested(items[i], path, above) <==> PlainKeys(items[i]) {
        PlainIsNested(items[i], path, above);
      }
    case Obj(fields) =>
      forall k | k in fields ensures NestedField(fields[k], Extend(path, k), above) <==> Plain(k) && PlainKeys(fields[k]) {
        CoveredPlain(path, k, above);
        if Plain(k) { PlainIsNested(fields[k], Extend(path, k), above + {Extend(path, k)}); }
      }
    case _ =>
  }

  lemma DotInHead(head: string, key: string, e: string)
    requires Plain(key) && e + "." <= head + key
    ensures |e| < |head|
  {
    var full := head + key;
    assert forall i | 0 <= i < |key| :: key[i] in key && full[|head| + i] != '.';
    assert full[|e|] == (e + ".")[|e|] == '.';
  }

  lemma DotBefore(path: string, key: string, e: string)
    requires Plain(key) && Below(Extend(path, key), e)
    ensures path != [] && (e == path || Below(path, e))
  {
    var head := if path == [] then [] else path + ".";
    var full := head + key;
    assert full == Extend(path, key);
    DotInHead(head, key, e);
    assert (e + ".") == full[..|e| + 1];
    assert path == full[..|path|];
    if |e| == |path| {
      assert e == full[..|e|] == path;
    } else {
      assert path[..|e| + 1] == full[..|e| + 1];
    }
  }

  lemma AboveStays(path: string, key: string, e: string)
    requires path != [] && (e == path || Below(path, e))
    ensures Below(Extend(path, key), e)
  {
    var full := path + "." + key;
    assert path + "." == full[..|path| + 1];
    if e != path { assert (e + ".") == path[..|e| + 1] == full[..|e| + 1]; }
  }

  lemma CoveredPlain(path: string, key: string, above: set<string>)
    requires key != [] && Steps(above, path)
    ensures Covered(above, Extend(path, key)) <==> Plain(key)
    ensures Plain(key) ==> Steps(above + {Extend(path, key)}, Extend(path, key))
  {
    var head := if path == [] then [] else path + ".";
    var full := head + key;
    assert full == Extend(path, key);
    forall e | Below(full, e) ensures Plain(key) ==> e in above {
      if Plain(key) { DotBefore(path, key, e); }
    }
    forall e | e in above ensures Below(full, e) { AboveStays(path, key, e); }
    if i :| 0 <= i < |key| && key[i] == '.' {
      var e := head + key[..i];
      assert e + "." == full[..|head| + i + 1];
      assert Below(full, e) && |e| >= |head|;
    }
  }

  /** Where no key is empty, those are the documents without a dot in a key. */
  lemma PrefixTestAddsNothing(d: Json)
    requires NoEmptyKeys(d)
    ensures (forall ex: Exclusions | OnlyTrue(ex) :: Prune(d, ex, "") == PruneExact(d, ex, "")) <==> PlainKeys(d)
  {
    PrefixTestExactly(d);
    PlainIsNested(d, "", {});
  }

  /** A key with a dot is taken for a nested path, so excluding "a" drops a top-level "a.b". */
  lemma DottedKeyDiffers()
    ensures var d := Obj(map["a.b" := Null]); var ex := map["a" := true];
            Prune(d, ex, "") != PruneExact(d, ex, "")
  {
    var d := Obj(map["a.b" := Null]);
    var ex := map["a" := true];
    assert "a" + "." <= "a.b";
    assert Below("a.b", "a");
    assert Excluded(Extend("", "a.b"), ex);
    assert "a.b" in PruneExact(d, ex, "").fields;
  }
}
