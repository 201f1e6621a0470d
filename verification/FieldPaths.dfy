/** Field trees, the flattened parent table, and the path from the root to a field. */
module FieldPaths {
  import opened Basics

  datatype Field = Field(id: string, path: string, items: Option<Field>, fields: seq<Field>)

  /** One row of the parent table. */
  datatype Hop = Hop(parent: string, id: string, isItem: bool, isField: bool)

  function Root(id: string): Hop { Hop("", id, false, false) }
  function Item(parent: string, id: string): Hop { Hop(parent, id, true, false) }

  function Lift(parent: string, h: Hop): Hop {
    Hop(if h.parent == "" then parent else h.parent, h.id, h.isItem, h.isField || !h.isItem)
  }

  function Under(parent: string, hs: seq<Hop>): (r: seq<Hop>)
    ensures |r| == |hs| && forall k :: 0 <= k < |hs| ==> r[k] == Lift(parent, hs[k])
  {
    seq(|hs|, k requires 0 <= k < |hs| => Lift(parent, hs[k]))
  }

  // ---------- the table ----------

  function FieldTable(f: Field): seq<Hop>
    decreases f, 0
  {
    (if f.items.Some? then Under(f.items.value.id, Table(f.items.value.fields)) else [])
    + [Root(f.id)]
    + (if f.items.Some? then [Item(f.id, f.items.value.id)] else [])
    + Under(f.id, Table(f.fields))
  }

  function Table(fs: seq<Field>): seq<Hop>
    decreases fs, |fs|
  {
    if fs == [] then [] else FieldTable(fs[0]) + Table(fs[1..])
  }

  method GetFieldPaths(fs: seq<Field>) returns (paths: seq<Hop>)
    ensures paths == Table(fs)
    decreases fs
  {
    hide Table, FieldTable, Under;
    paths := [];
    assert fs[0..] == fs;
    for k := 0 to |fs|
      invariant paths + Table(fs[k..]) == Table(fs)
    {
      var field := fs[k];
      ghost var before := paths;
      var path := [Root(field.id)];
      if field.items.Some? {
        path := path + [Item(field.id, field.items.value.id)];
        var itemSubPaths := GetFieldPaths(field.items.value.fields);
        paths := paths + Under(field.items.value.id, itemSubPaths);
      }
      var subPaths := GetFieldPaths(field.fields);
      paths := paths + path;
      paths := paths + Under(field.id, subPaths);
      assert paths == RowsAfter(before, field);
      NextRows(fs, k, before, paths);
    }
    NoRows(fs[|fs|..]);
  }

  lemma NoRows(fs: seq<Field>)
    requires fs == []
    ensures Table(fs) == []
  {
  }

  function RowsAfter(before: seq<Hop>, f: Field): seq<Hop> {
    (if f.items.Some? then before + Under(f.items.value.id, Table(f.items.value.fields)) else before)
    + (if f.items.Some? then [Root(f.id)] + [Item(f.id, f.items.value.id)] else [Root(f.id)])
    + Under(f.id, Table(f.fields))
  }

  lemma NextRows(fs: seq<Field>, k: nat, before: seq<Hop>, after: seq<Hop>)
    requires k < |fs| && after == RowsAfter(before, fs[k])
    ensures before + Table(fs[k..]) == after + Table(fs[k + 1..])
  {
    hide Table, FieldTable, Under, RowsAfter;
    TableStep(fs, k);
    FieldRows(before, fs[k]);
  }

  lemma {:induction false} TableStep(fs: seq<Field>, k: nat)
    requires k < |fs|
    ensures Table(fs[k..]) == FieldTable(fs[k]) + Table(fs[k + 1..])
  {
    hide FieldTable;
    assert fs[k..][0] == fs[k] && fs[k..][1..] == fs[k + 1..];
  }

  lemma {:induction false} FieldRows(before: seq<Hop>, f: Field)
    ensures RowsAfter(before, f) == before + FieldTable(f)
  {
    hide Table, Under;
  }

  // ---------- chains ----------

  /** The hops from a root field down to a field, read off the tree. */
  function FieldChain(f: Field, id: string): Option<seq<Hop>>
    decreases f, 0
  {
    if f.id == id then Some([Root(id)])
    else if f.items.Some? && f.items.value.id == id then Some([Root(f.id), Item(f.id, id)])
    else if f.items.Some? && Chain(f.items.value.fields, id).Some? then
      Some([Root(f.id), Item(f.id, f.items.value.id)] + Under(f.items.value.id, Chain(f.items.value.fields, id).value))
    else if Chain(f.fields, id).Some? then Some([Root(f.id)] + Under(f.id, Chain(f.fields, id).value))
    else None
  }

  function Chain(fs: seq<Field>, id: string): Option<seq<Hop>>
    decreases fs, |fs|
  {
    if fs == [] then None
    else if FieldChain(fs[0], id).Some? then FieldChain(fs[0], id)
    else Chain(fs[1..], id)
  }

  function FieldIds(f: Field): set<string>
    decreases f, 0
  {
    {f.id} + (if f.items.Some? then {f.items.value.id} + Ids(f.items.value.fields) else {}) + Ids(f.fields)
  }

  function Ids(fs: seq<Field>): set<string>
    decreases fs, |fs|
  {
    if fs == [] then {} else FieldIds(fs[0]) + Ids(fs[1..])
  }

  /** Non-empty identifiers, none used twice, and no array directly inside an array. */
  predicate UniqueField(f: Field)
    decreases f, 0
  {
    && f.id != ""
    && Unique(f.fields) && f.id !in Ids(f.fields)
    && (f.items.Some? ==>
          var i := f.items.value;
          && i.id != "" && i.items.None? && i.id != f.id
          && Unique(i.fields) && i.id !in Ids(i.fields) && f.id !in Ids(i.fields)
          && i.id !in Ids(f.fields) && Ids(i.fields) !! Ids(f.fields))
  }

  predicate Unique(fs: seq<Field>)
    decreases fs, |fs|
  {
    fs == [] || (UniqueField(fs[0]) && Unique(fs[1..]) && FieldIds(fs[0]) !! Ids(fs[1..]))
  }

  lemma {:induction false} ChainFound(fs: seq<Field>, id: string)
    ensures Chain(fs, id).Some? <==> id in Ids(fs)
    decreases fs, |fs|
  {
    if fs != [] {
      FieldChainFound(fs[0], id);
      ChainFound(fs[1..], id);
    }
  }

  lemma {:induction false} FieldChainFound(f: Field, id: string)
    ensures FieldChain(f, id).Some? <==> id in FieldIds(f)
    decreases f, 0
  {
    if f.items.Some? { ChainFound(f.items.value.fields, id); }
    ChainFound(f.fields, id);
  }

  /** c is a chain: it starts at a root, each further hop names the one before it as parent, is an
      item hop or a field hop and not both, and the last hop is the field asked for. */
  ghost predicate IsChain(c: seq<Hop>, id: string) {
    && c != [] && c[|c| - 1].id == id
    && c[0] == Root(c[0].id)
    && forall k :: 1 <= k < |c| ==> c[k].parent == c[k - 1].id && c[k].parent != "" && c[k].isItem != c[k].isField
  }

  lemma {:induction false} ChainShape(fs: seq<Field>, id: string)
    requires Unique(fs) && id in Ids(fs)
    ensures Chain(fs, id).Some? && IsChain(Chain(fs, id).value, id)
    decreases fs, |fs|
  {
    ChainFound(fs, id);
    FieldChainFound(fs[0], id);
    if id in FieldIds(fs[0]) {
      FieldChainShape(fs[0], id);
    } else {
      ChainShape(fs[1..], id);
    }
  }

  lemma Below(head: seq<Hop>, parent: string, c: seq<Hop>, id: string)
    requires IsChain(head, parent) && parent != "" && IsChain(c, id)
    ensures IsChain(head + Under(parent, c), id)
  {
    var u := Under(parent, c);
    var r := head + u;
    assert r[|r| - 1] == u[|c| - 1];
    forall k | 1 <= k < |r|
      ensures r[k].parent == r[k - 1].id && r[k].parent != "" && r[k].isItem != r[k].isField
    {
      if k == |head| {
        assert r[k] == Lift(parent, c[0]) && r[k - 1] == head[|head| - 1];
      } else if k > |head| {
        assert r[k] == Lift(parent, c[k - |head|]) && r[k - 1].id == c[k - |head| - 1].id;
      }
    }
  }

  lemma {:induction false} FieldChainShape(f: Field, id: string)
    requires UniqueField(f) && id in FieldIds(f)
    ensures FieldChain(f, id).Some? && IsChain(FieldChain(f, id).value, id)
    decreases f, 0
  {
    FieldChainFound(f, id);
    ChainFound(f.fields, id);
    if f.id == id {
    } else if f.items.Some? && f.items.value.id == id {
    } else if f.items.Some? && id in Ids(f.items.value.fields) {
      var i := f.items.value;
      ChainShape(i.fields, id);
      ChainFound(i.fields, id);
      Below([Root(f.id), Item(f.id, i.id)], i.id, Chain(i.fields, id).value, id);
    } else {
      if f.items.Some? { ChainFound(f.items.value.fields, id); }
      ChainShape(f.fields, id);
      Below([Root(f.id)], f.id, Chain(f.fields, id).value, id);
    }
  }

  // ---------- the table agrees with the tree ----------

  /** A row of the table is the last hop of its field's chain, and its parent's chain is the rest. */
  ghost predicate Fits(fs: seq<Field>, h: Hop) {
    && Chain(fs, h.id).Some?
    && var c := Chain(fs, h.id).value;
    && c != [] && c[|c| - 1] == h
    && (h.parent == "" ==> |c| == 1)
    && (h.parent != "" ==> |c| > 1 && Chain(fs, h.parent) == Some(c[..|c| - 1]))
  }

  ghost predicate FieldFits(f: Field, h: Hop) {
    && FieldChain(f, h.id).Some?
    && var c := FieldChain(f, h.id).value;
    && c != [] && c[|c| - 1] == h
    && (h.parent == "" ==> |c| == 1)
    && (h.parent != "" ==> |c| > 1 && FieldChain(f, h.parent) == Some(c[..|c| - 1]))
  }

  lemma {:induction false} RowsFit(fs: seq<Field>, h: Hop)
    requires Unique(fs) && h in Table(fs)
    ensures Fits(fs, h)
    decreases fs, |fs|
  {
    FieldChainFound(fs[0], h.id);
    FieldChainFound(fs[0], h.parent);
    if h in FieldTable(fs[0]) {
      FieldRowsFit(fs[0], h);
    } else {
      RowsFit(fs[1..], h);
      ChainFound(fs[1..], h.id);
      ChainFound(fs[1..], h.parent);
    }
  }

  lemma UnderPrefix(parent: string, c: seq<Hop>, head: seq<Hop>)
    requires c != []
    ensures (head + Under(parent, c))[..|head| + |c| - 1] == head + Under(parent, c[..|c| - 1])
  {
  }

  lemma {:induction false} FieldRowsFit(f: Field, h: Hop)
    requires UniqueField(f) && h in FieldTable(f)
    ensures FieldFits(f, h)
    decreases f, 0
  {
    if f.items.Some? && h in Under(f.items.value.id, Table(f.items.value.fields)) {
      ItemRowsFit(f, h);
    } else if h in Under(f.id, Table(f.fields)) {
      SubRowsFit(f, h);
    } else if h != Root(f.id) {
      assert f.items.Some? && h == Item(f.id, f.items.value.id);
      assert [Root(f.id), h][..1] == [Root(f.id)];
    }
  }

  lemma ItemChain(f: Field, id: string)
    requires UniqueField(f) && f.items.Some? && Chain(f.items.value.fields, id).Some?
    ensures var i := f.items.value;
      FieldChain(f, id) == Some([Root(f.id), Item(f.id, i.id)] + Under(i.id, Chain(i.fields, id).value))
    ensures FieldChain(f, f.items.value.id) == Some([Root(f.id), Item(f.id, f.items.value.id)])
  {
    hide Chain, Ids, Unique;
    ChainFound(f.items.value.fields, id);
  }

  lemma SubChain(f: Field, id: string)
    requires UniqueField(f) && Chain(f.fields, id).Some?
    ensures FieldChain(f, id) == Some([Root(f.id)] + Under(f.id, Chain(f.fields, id).value))
    ensures FieldChain(f, f.id) == Some([Root(f.id)])
  {
    hide Chain, Ids, Unique;
    ChainFound(f.fields, id);
    if f.items.Some? { ChainFound(f.items.value.fields, id); }
  }

  lemma {:induction false} ItemRowsFit(f: Field, h: Hop)
    requires UniqueField(f) && f.items.Some? && h in Under(f.items.value.id, Table(f.items.value.fields))
    ensures FieldFits(f, h)
    decreases f.items.value.fields, |f.items.value.fields| + 1
  {
    hide Chain, Ids, FieldChain, Table;
    var i := f.items.value;
    var rows := Table(i.fields);
    var k :| 0 <= k < |rows| && Lift(i.id, rows[k]) == h;
    var g := rows[k];
    RowsFit(i.fields, g);
    var c := Chain(i.fields, g.id).value;
    ItemChain(f, g.id);
    var head := [Root(f.id), Item(f.id, i.id)];
    UnderPrefix(i.id, c, head);
    if g.parent == "" {
      assert (head + Under(i.id, c))[..2] == head;
    } else {
      ItemChain(f, g.parent);
    }
  }

  lemma OwnUnique(f: Field)
    requires UniqueField(f)
    ensures Unique(f.fields) && f.id != ""
  {
  }

  lemma {:induction false} SubRowsFit(f: Field, h: Hop)
    requires UniqueField(f) && h in Under(f.id, Table(f.fields))
    ensures FieldFits(f, h)
    decreases f.fields, |f.fields| + 1
  {
    hide Chain, Ids, FieldChain, Table, Unique, UniqueField;
    OwnUnique(f);
    var rows := Table(f.fields);
    var k :| 0 <= k < |rows| && Lift(f.id, rows[k]) == h;
    var g := rows[k];
    RowsFit(f.fields, g);
    var c := Chain(f.fields, g.id).value;
    SubChain(f, g.id);
    var head := [Root(f.id)];
    UnderPrefix(f.id, c, head);
    if g.parent == "" {
      assert (head + Under(f.id, c))[..1] == head;
    } else {
      SubChain(f, g.parent);
    }
  }

  /** Every field has a row. */
  lemma {:induction false} RowOf(fs: seq<Field>, id: string)
    requires id in Ids(fs)
    ensures exists h :: h in Table(fs) && h.id == id
    decreases fs, |fs|
  {
    if id in FieldIds(fs[0]) {
      FieldRowOf(fs[0], id);
    } else {
      RowOf(fs[1..], id);
    }
  }

  lemma {:induction false} FieldRowOf(f: Field, id: string)
    requires id in FieldIds(f)
    ensures exists h :: h in FieldTable(f) && h.id == id
    decreases f, 0
  {
    if id == f.id {
      assert Root(f.id) in FieldTable(f);
    } else if f.items.Some? && id == f.items.value.id {
      assert Item(f.id, id) in FieldTable(f);
    } else if f.items.Some? && id in Ids(f.items.value.fields) {
      RowOf(f.items.value.fields, id);
      Lifted(f.items.value.id, Table(f.items.value.fields), id);
    } else {
      RowOf(f.fields, id);
      Lifted(f.id, Table(f.fields), id);
    }
  }

  lemma Lifted(parent: string, hs: seq<Hop>, id: string)
    requires exists h :: h in hs && h.id == id
    ensures exists h :: h in Under(parent, hs) && h.id == id
  {
    var h :| h in hs && h.id == id;
    var k :| 0 <= k < |hs| && hs[k] == h;
    assert Under(parent, hs)[k].id == id;
  }

  // ---------- looking a path up ----------

  const NoHop := Hop("", "", false, false)

  function Find(paths: seq<Hop>, id: string): Hop {
    if paths == [] then NoHop else if paths[0].id == id then paths[0] else Find(paths[1..], id)
  }

  lemma {:induction false} FindFirst(paths: seq<Hop>, id: string)
    ensures (exists h :: h in paths && h.id == id) ==> Find(paths, id) in paths && Find(paths, id).id == id
    ensures !(exists h :: h in paths && h.id == id) ==> Find(paths, id) == NoHop
  {
    if paths != [] {
      FindFirst(paths[1..], id);
      assert paths == [paths[0]] + paths[1..];
      assert paths[0] in paths;
    }
  }

  ghost function Depth(fs: seq<Field>, id: string): nat {
    match Chain(fs, id) case Some(c) => |c| case None => 0
  }

  /** GetPathToField on the table of a tree: it ends, and answers with the chain read off the tree,
      or with an error for a field the tree does not have. */
  method GetPathToField(ghost fs: seq<Field>, paths: seq<Hop>, id: string) returns (r: Option<seq<Hop>>)
    requires Unique(fs) && paths == Table(fs)
    ensures r == Chain(fs, id)
    decreases Depth(fs, id)
  {
    hide Chain, Table, Unique, Ids;
    var hop := Find(paths, id);
    FoundRow(fs, id);
    if hop == NoHop { return None; }
    if hop.parent == "" {
      OneHop(Chain(fs, id).value);
      return Some([hop]);
    }
    var up := GetPathToField(fs, paths, hop.parent);
    if up.None? { return None; }
    assert up.value + [hop] == Chain(fs, id).value;
    r := Some(up.value + [hop]);
  }

  lemma OneHop(c: seq<Hop>)
    requires |c| == 1
    ensures c == [c[|c| - 1]]
  {
  }

  lemma FoundRow(fs: seq<Field>, id: string)
    requires Unique(fs)
    ensures var h := Find(Table(fs), id);
      if id in Ids(fs) then h.id == id != "" && Fits(fs, h) else h == NoHop && Chain(fs, id).None?
  {
    FindFirst(Table(fs), id);
    ChainFound(fs, id);
    if id in Ids(fs) {
      RowOf(fs, id);
      RowsFit(fs, Find(Table(fs), id));
      IdsNonEmpty(fs, id);
    } else if exists h :: h in Table(fs) && h.id == id {
      RowsFit(fs, Find(Table(fs), id));
    }
  }

  lemma {:induction false} IdsNonEmpty(fs: seq<Field>, id: string)
    requires Unique(fs) && id in Ids(fs)
    ensures id != ""
    decreases fs, |fs|
  {
    var f := fs[0];
    if id in FieldIds(f) {
      if id in Ids(f.fields) {
        IdsNonEmpty(f.fields, id);
      } else if f.items.Some? && id in Ids(f.items.value.fields) {
        IdsNonEmpty(f.items.value.fields, id);
      }
    } else {
      IdsNonEmpty(fs[1..], id);
    }
  }
}
