/** Where a field stands in the output document, told from the tree of fields: names of fields and elements of arrays. */
module FieldPlaces {
  import opened Basics
  import opened FieldPaths
  import opened Output
  import opened OutputReads
  import A = Assign

  datatype Stop = Name(path: string) | Element

  /** The fields from the top down to the one with this identifier: each at its path, or its identifier when it has none. */
  function Places(fs: seq<Field>, id: string): seq<Stop>
    decreases fs, |fs|
  {
    if fs == [] then [] else if id in FieldIds(fs[0]) then PlacesIn(fs[0], id) else Places(fs[1..], id)
  }

  function PlacesIn(f: Field, id: string): seq<Stop>
    decreases f, 0
  {
    var here := [Name(if f.path == "" then f.id else f.path)];
    if id == f.id then here
    else if f.items.Some? && id == f.items.value.id then here + [Element]
    else if f.items.Some? && id in Ids(f.items.value.fields) then here + [Element] + Places(f.items.value.fields, id)
    else here + Places(f.fields, id)
  }

  /** Fields beside each other have assignable paths, none above another. */
  ghost predicate ListApart(fs: seq<Field>) {
    forall i, j | 0 <= i < |fs| && 0 <= j < |fs| ::
      var p := A.Split(if fs[i].path == "" then fs[i].id else fs[i].path);
      var q := A.Split(if fs[j].path == "" then fs[j].id else fs[j].path);
      A.Assignable(p) && (i != j ==> A.Apart(p, q))
  }

  /** So it is at every level of the tree of fields. */
  ghost predicate SiblingsApart(fs: seq<Field>)
    decreases fs, 0
  {
    && ListApart(fs)
    && forall f <- fs :: SiblingsApart(f.fields) && (f.items.Some? ==> SiblingsApart(f.items.value.fields))
  }

  // ---------- what a lookup finds ----------

  lemma {:induction false} InnerIsGet(fs: seq<Field>, id: string)
    requires Unique(fs) && id != ""
    ensures InnerField(fs, id) == GetField(fs, id)
    decreases |fs|
  {
    if fs != [] {
      FieldInAgrees(fs[0], id);
      InnerIsGet(fs[1..], id);
    }
  }

  lemma GetFirst(fs: seq<Field>, id: string)
    requires Unique(fs) && fs != [] && id != ""
    ensures id in FieldIds(fs[0]) ==> FieldIn(fs[0], id).Some? && GetField(fs, id) == FieldIn(fs[0], id)
    ensures id !in FieldIds(fs[0]) ==> GetField(fs, id) == GetField(fs[1..], id)
  {
    FieldInAgrees(fs[0], id);
    FieldChainFound(fs[0], id);
  }

  lemma FieldInParts(f: Field, id: string)
    requires UniqueField(f) && id != "" && id in FieldIds(f)
    ensures FieldIn(f, id).Some?
    ensures id == f.id ==> FieldIn(f, id).value.field == f
    ensures f.items.Some? && id == f.items.value.id ==> FieldIn(f, id).value.field == f.items.value
    ensures f.items.Some? && id in Ids(f.items.value.fields) ==>
      GetField(f.items.value.fields, id).Some? && FieldIn(f, id).value.field == GetField(f.items.value.fields, id).value.field
    ensures id in Ids(f.fields) ==> GetField(f.fields, id).Some? && FieldIn(f, id).value.field == GetField(f.fields, id).value.field
  {
    FieldInAgrees(f, id);
    FieldChainFound(f, id);
    InnerIsGet(f.fields, id);
    InnerFieldAgrees(f.fields, id);
    ChainFound(f.fields, id);
    if f.items.Some? {
      InnerIsGet(f.items.value.fields, id);
      InnerFieldAgrees(f.items.value.fields, id);
      ChainFound(f.items.value.fields, id);
    }
  }

  /** The key a field is written under, part by part of the tree. */
  lemma PathParts(fs: seq<Field>, id: string)
    requires Unique(fs) && fs != [] && id != "" && id in Ids(fs)
    ensures var f := fs[0];
      && (id !in FieldIds(f) ==> OutputPath(fs, id) == OutputPath(fs[1..], id))
      && (id == f.id ==> OutputPath(fs, id) == if f.path == "" then f.id else f.path)
      && (f.items.Some? && id in Ids(f.items.value.fields) ==> OutputPath(fs, id) == OutputPath(f.items.value.fields, id))
      && (id in Ids(f.fields) ==> OutputPath(fs, id) == OutputPath(f.fields, id))
  {
    GetFirst(fs, id);
    if id in FieldIds(fs[0]) { FieldInParts(fs[0], id); }
  }

  // ---------- places follow chains ----------

  ghost predicate PlacesFit(fs: seq<Field>, c: seq<Hop>, ps: seq<Stop>) {
    |ps| == |c| && forall k :: 0 <= k < |c| ==> c[k].id in Ids(fs) && ps[k] == if c[k].isItem then Element else Name(OutputPath(fs, c[k].id))
  }

  lemma {:induction false} PlacesFollow(fs: seq<Field>, id: string)
    requires Unique(fs) && id in Ids(fs)
    ensures Chain(fs, id).Some? && PlacesFit(fs, Chain(fs, id).value, Places(fs, id))
    decreases fs, |fs|
  {
    hide OutputPath;
    FieldChainFound(fs[0], id);
    if id in FieldIds(fs[0]) {
      FirstFollows(fs, id);
    } else {
      PlacesFollow(fs[1..], id);
      var c, ps := Chain(fs, id).value, Places(fs, id);
      LaterFits(fs, c, ps);
    }
  }

  lemma LaterFits(fs: seq<Field>, c: seq<Hop>, ps: seq<Stop>)
    requires Unique(fs) && fs != [] && PlacesFit(fs[1..], c, ps)
    ensures PlacesFit(fs, c, ps)
  {
    hide OutputPath;
    forall k | 0 <= k < |c| ensures c[k].id in Ids(fs) && OutputPath(fs, c[k].id) == OutputPath(fs[1..], c[k].id) {
      IdsNonEmpty(fs, c[k].id);
      PathParts(fs, c[k].id);
    }
  }

  lemma UniqueParts(f: Field)
    requires UniqueField(f)
    ensures f.id != "" && Unique(f.fields) && (f.items.Some? ==> Unique(f.items.value.fields))
  {
  }

  lemma {:induction false} FirstFollows(fs: seq<Field>, id: string)
    requires Unique(fs) && fs != [] && id in FieldIds(fs[0])
    ensures FieldChain(fs[0], id).Some? && PlacesFit(fs, FieldChain(fs[0], id).value, PlacesIn(fs[0], id))
    decreases fs[0], 0
  {
    hide OutputPath, Unique, Chain, Places, PlacesFit, FieldChain, PlacesIn;
    var f := fs[0];
    assert UniqueField(f) by { FirstUnique(fs); }
    UniqueParts(f);
    if f.items.Some? && id in Ids(f.items.value.fields) {
      PlacesFollow(f.items.value.fields, id);
      ItemFollows(fs, id);
    } else if id in Ids(f.fields) {
      PlacesFollow(f.fields, id);
      SubFollows(fs, id);
    } else {
      TopFollows(fs, id);
    }
  }

  lemma FirstUnique(fs: seq<Field>)
    requires Unique(fs) && fs != []
    ensures UniqueField(fs[0])
  {
  }

  lemma TopFollows(fs: seq<Field>, id: string)
    requires Unique(fs) && fs != []
    requires var f := fs[0]; id == f.id || (f.items.Some? && id == f.items.value.id)
    ensures FieldChain(fs[0], id).Some? && PlacesFit(fs, FieldChain(fs[0], id).value, PlacesIn(fs[0], id))
  {
    hide OutputPath;
    PathParts(fs, fs[0].id);
  }

  lemma ItemFollows(fs: seq<Field>, id: string)
    requires Unique(fs) && fs != [] && fs[0].items.Some? && id in Ids(fs[0].items.value.fields)
    requires var gs := fs[0].items.value.fields; Chain(gs, id).Some? && PlacesFit(gs, Chain(gs, id).value, Places(gs, id))
    ensures FieldChain(fs[0], id).Some? && PlacesFit(fs, FieldChain(fs[0], id).value, PlacesIn(fs[0], id))
  {
    var f := fs[0];
    var i := f.items.value;
    TopFollows(fs, i.id);
    InnerFits(fs, [Root(f.id), Item(f.id, i.id)], PlacesIn(f, i.id), i.id, i.fields, Chain(i.fields, id).value, Places(i.fields, id));
    hide OutputPath, PlacesFit, Places, Chain;
  }

  lemma SubFollows(fs: seq<Field>, id: string)
    requires Unique(fs) && fs != [] && id in Ids(fs[0].fields)
    requires var gs := fs[0].fields; Chain(gs, id).Some? && PlacesFit(gs, Chain(gs, id).value, Places(gs, id))
    ensures FieldChain(fs[0], id).Some? && PlacesFit(fs, FieldChain(fs[0], id).value, PlacesIn(fs[0], id))
  {
    var f := fs[0];
    TopFollows(fs, f.id);
    InnerFits(fs, [Root(f.id)], PlacesIn(f, f.id), f.id, f.fields, Chain(f.fields, id).value, Places(f.fields, id));
    if f.items.Some? { ChainFound(f.items.value.fields, id); }
    hide OutputPath, PlacesFit, Places, Chain;
  }

  lemma InnerFits(fs: seq<Field>, head: seq<Hop>, stops: seq<Stop>, parent: string, gs: seq<Field>, c: seq<Hop>, ps: seq<Stop>)
    requires Unique(fs) && fs != [] && PlacesFit(fs, head, stops) && PlacesFit(gs, c, ps)
    requires gs == fs[0].fields || (fs[0].items.Some? && gs == fs[0].items.value.fields)
    ensures PlacesFit(fs, head + Under(parent, c), stops + ps)
  {
    hide OutputPath;
    forall k | 0 <= k < |c| ensures c[k].id in Ids(fs) && OutputPath(fs, c[k].id) == OutputPath(gs, c[k].id) {
      assert c[k].id in FieldIds(fs[0]);
      IdsNonEmpty(fs, c[k].id);
      PathParts(fs, c[k].id);
    }
  }

  // ---------- siblings in the tree and in the table ----------

  /** The fields directly below p. */
  function ListUnder(fs: seq<Field>, p: string): seq<Field>
    decreases fs, |fs|
  {
    if fs == [] then [] else if p in FieldIds(fs[0]) then ListIn(fs[0], p) else ListUnder(fs[1..], p)
  }

  function ListIn(f: Field, p: string): seq<Field>
    decreases f, 0
  {
    if f.id == p then f.fields
    else if f.items.Some? && f.items.value.id == p then f.items.value.fields
    else if f.items.Some? && p in Ids(f.items.value.fields) then ListUnder(f.items.value.fields, p)
    else ListUnder(f.fields, p)
  }

  ghost predicate Listed(fs: seq<Field>, gs: seq<Field>, id: string) {
    exists i :: 0 <= i < |gs| && gs[i].id == id && OutputPath(fs, id) == if gs[i].path == "" then gs[i].id else gs[i].path
  }

  /** A row of the table stands for a field of the list its parent has. */
  lemma {:induction false} RowListed(fs: seq<Field>, h: Hop)
    requires Unique(fs) && h in Table(fs) && !h.isItem
    ensures Listed(fs, if h.parent == "" then fs else ListUnder(fs, h.parent), h.id)
    decreases fs, |fs|
  {
    hide OutputPath;
    TableIds(fs, h);
    if h in FieldTable(fs[0]) {
      FirstListed(fs, h);
    } else {
      RowListed(fs[1..], h);
      TableIds(fs[1..], h);
      IdsNonEmpty(fs[1..], h.id);
      PathParts(fs, h.id);
      if h.parent == "" {
        var i :| 0 <= i < |fs[1..]| && fs[1..][i].id == h.id && OutputPath(fs[1..], h.id) == if fs[1..][i].path == "" then fs[1..][i].id else fs[1..][i].path;
        assert fs[i + 1] == fs[1..][i];
      }
    }
  }

  lemma {:induction false} TableIds(fs: seq<Field>, h: Hop)
    requires Unique(fs) && h in Table(fs)
    ensures h.id in Ids(fs) && (h.parent != "" ==> h.parent in Ids(fs))
    ensures fs != [] && h in FieldTable(fs[0]) ==> h.id in FieldIds(fs[0]) && (h.parent != "" ==> h.parent in FieldIds(fs[0]))
    ensures fs != [] && h !in FieldTable(fs[0]) ==> h in Table(fs[1..]) && h.id in Ids(fs[1..]) && (h.parent != "" ==> h.parent in Ids(fs[1..]))
    decreases fs, |fs|
  {
    if h in FieldTable(fs[0]) {
      FieldTableIds(fs[0], h);
    } else {
      TableIds(fs[1..], h);
    }
  }

  lemma {:induction false} FieldTableIds(f: Field, h: Hop)
    requires UniqueField(f) && h in FieldTable(f)
    ensures h.id in FieldIds(f) && (h.parent != "" ==> h.parent in FieldIds(f))
    decreases f, 0
  {
    hide Chain, FieldChain, Table;
    if f.items.Some? && h in Under(f.items.value.id, Table(f.items.value.fields)) {
      var rows := Table(f.items.value.fields);
      var k :| 0 <= k < |rows| && h == Lift(f.items.value.id, rows[k]);
      TableIds(f.items.value.fields, rows[k]);
    } else if h in Under(f.id, Table(f.fields)) {
      var rows := Table(f.fields);
      var k :| 0 <= k < |rows| && h == Lift(f.id, rows[k]);
      TableIds(f.fields, rows[k]);
    }
  }

  lemma {:induction false} FirstListed(fs: seq<Field>, h: Hop)
    requires Unique(fs) && fs != [] && h in FieldTable(fs[0]) && !h.isItem
    ensures Listed(fs, if h.parent == "" then fs else ListUnder(fs, h.parent), h.id)
    decreases fs[0], 0
  {
    hide OutputPath, Chain, FieldChain, Table, Unique, ListUnder;
    var f := fs[0];
    assert UniqueField(f) by { FirstUnique(fs); }
    UniqueParts(f);
    if f.items.Some? && h in Under(f.items.value.id, Table(f.items.value.fields)) {
      var rows := Table(f.items.value.fields);
      var k :| 0 <= k < |rows| && h == Lift(f.items.value.id, rows[k]);
      RowListed(f.items.value.fields, rows[k]);
      ItemListed(fs, rows[k]);
    } else if h in Under(f.id, Table(f.fields)) {
      var rows := Table(f.fields);
      var k :| 0 <= k < |rows| && h == Lift(f.id, rows[k]);
      RowListed(f.fields, rows[k]);
      SubListed(fs, rows[k]);
    } else {
      assert h == Root(f.id);
      IdIn(fs, f.id);
      PathParts(fs, f.id);
    }
  }

  lemma IdIn(fs: seq<Field>, id: string)
    requires Unique(fs) && fs != [] && id in FieldIds(fs[0])
    ensures id in Ids(fs) && id != ""
  {
    IdsNonEmpty(fs, id);
  }

  lemma ItemListed(fs: seq<Field>, g: Hop)
    requires Unique(fs) && fs != [] && fs[0].items.Some? && g in Table(fs[0].items.value.fields) && !g.isItem
    requires var gs := fs[0].items.value.fields; Listed(gs, if g.parent == "" then gs else ListUnder(gs, g.parent), g.id)
    ensures var h := Lift(fs[0].items.value.id, g); h.parent != "" && Listed(fs, ListUnder(fs, h.parent), h.id)
  {
    var f := fs[0];
    var gs := f.items.value.fields;
    TableIds(gs, g);
    IdIn(fs, g.id);
    PathParts(fs, g.id);
    var h := Lift(f.items.value.id, g);
    ItemList(fs, h.parent);
    hide OutputPath, Chain, FieldChain, Table, Ids, Unique, ListUnder;
  }

  lemma ItemList(fs: seq<Field>, p: string)
    requires Unique(fs) && fs != [] && fs[0].items.Some?
    ensures var f := fs[0]; var i := f.items.value;
      && (p == i.id ==> p != "" && ListUnder(fs, p) == i.fields)
      && (p in Ids(i.fields) ==> p != "" && ListUnder(fs, p) == ListUnder(i.fields, p))
  {
    if p in FieldIds(fs[0]) { IdIn(fs, p); }
  }

  lemma SubList(fs: seq<Field>, p: string)
    requires Unique(fs) && fs != []
    ensures var f := fs[0];
      && (p == f.id ==> p != "" && ListUnder(fs, p) == f.fields)
      && (p in Ids(f.fields) ==> p != "" && ListUnder(fs, p) == ListUnder(f.fields, p))
  {
    if p in FieldIds(fs[0]) { IdIn(fs, p); }
  }

  lemma SubListed(fs: seq<Field>, g: Hop)
    requires Unique(fs) && fs != [] && g in Table(fs[0].fields) && !g.isItem
    requires var gs := fs[0].fields; Listed(gs, if g.parent == "" then gs else ListUnder(gs, g.parent), g.id)
    ensures var h := Lift(fs[0].id, g); h.parent != "" && Listed(fs, ListUnder(fs, h.parent), h.id)
  {
    var f := fs[0];
    var gs := f.fields;
    TableIds(gs, g);
    IdIn(fs, g.id);
    PathParts(fs, g.id);
    var h := Lift(f.id, g);
    SubList(fs, h.parent);
    hide OutputPath, Chain, FieldChain, Table, Ids, Unique, ListUnder;
  }

  lemma {:induction false} UnderApart(fs: seq<Field>, p: string)
    requires SiblingsApart(fs)
    ensures ListApart(ListUnder(fs, p))
    decreases fs, |fs|
  {
    if fs != [] {
      assert fs[0] in fs;
      if p in FieldIds(fs[0]) {
        var f := fs[0];
        UnderApart(f.fields, p);
        if f.items.Some? { UnderApart(f.items.value.fields, p); }
      } else {
        RestApart(fs);
        UnderApart(fs[1..], p);
      }
    }
  }

  lemma RestApart(fs: seq<Field>)
    requires SiblingsApart(fs) && fs != []
    ensures SiblingsApart(fs[1..])
  {
    assert forall i :: 0 <= i < |fs| - 1 ==> fs[1..][i] == fs[i + 1];
  }

  lemma ListedApart(fs: seq<Field>, gs: seq<Field>, a: string, b: string)
    requires ListApart(gs) && Listed(fs, gs, a) && Listed(fs, gs, b)
    ensures PathsApart(fs, a, b)
  {
    hide OutputPath;
  }

  /** So fields beside each other in the tree are beside each other in the table. */
  lemma SiblingRowsApart(fs: seq<Field>)
    requires Unique(fs) && SiblingsApart(fs)
    ensures RowsApart(fs)
  {
    hide OutputPath, PathsApart, Table, Unique, SiblingsApart, ListApart, Listed;
    forall p, a, b | ChildHop(fs, p, a, false) && ChildHop(fs, p, b, false) ensures PathsApart(fs, a, b) {
      RowFound(fs, a);
      RowFound(fs, b);
      HopNamed(fs, a);
      HopNamed(fs, b);
      RowListed(fs, Find(Table(fs), a));
      RowListed(fs, Find(Table(fs), b));
      UnderApart(fs, p);
      ListedApart(fs, ListUnder(fs, p), a, b);
    }
    forall a, b | RootHop(fs, a) && RootHop(fs, b) ensures PathsApart(fs, a, b) {
      RowFound(fs, a);
      RowFound(fs, b);
      HopNamed(fs, a);
      HopNamed(fs, b);
      RootNoItem(fs, a);
      RootNoItem(fs, b);
      RowListed(fs, Find(Table(fs), a));
      RowListed(fs, Find(Table(fs), b));
      TopApart(fs);
      ListedApart(fs, fs, a, b);
    }
  }

  lemma TopApart(fs: seq<Field>)
    requires SiblingsApart(fs)
    ensures ListApart(fs)
  {
  }

  lemma HopNamed(fs: seq<Field>, id: string)
    requires id in Ids(fs)
    ensures Find(Table(fs), id).id == id
  {
    RowOf(fs, id);
    FindFirst(Table(fs), id);
  }

  lemma RootNoItem(fs: seq<Field>, id: string)
    requires Unique(fs) && RootHop(fs, id)
    ensures !Find(Table(fs), id).isItem
  {
    FoundRow(fs, id);
    ChainShape(fs, id);
    HopNamed(fs, id);
  }
}
