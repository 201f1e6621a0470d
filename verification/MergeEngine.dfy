/** The merge engine and the deletion and relationship consumers: how one event changes the
    tables. Each operation is a function on the tables; the class below carries it out statement
    by statement inside a transaction. */
module MergeEngine {
  import opened ClusterStore

  datatype Match = Match(id: StagedId, blocked: bool)

  /** A relationship rule waiting for an entity: its type, and the live staged entities that
      satisfy the rule's other side. */
  datatype Rule = Rule(kind: string, others: set<StagedId>)

  datatype Outcome = Merged(db: Db, id: MergedId) | Failed

  function Finish(tx: Tx, id: MergedId): Outcome {
    match tx case Commit(d) => Merged(d, id) case Abort => Failed
  }

  // ---------- merging ----------

  /** Every id the step collects, blocked matches included: the filtered list only decides
      whether there is anything to merge. */
  function Collected(source: StagedId, matches: seq<Match>): set<StagedId> {
    {source} + set i | 0 <= i < |matches| :: matches[i].id
  }

  /** The staged rows that load, plus the source itself even when its row is already deleted. */
  function Loaded(db: Db, source: StagedId, ids: set<StagedId>): set<StagedId> {
    {source} + set x | x in ids && StagedLive(db, x)
  }

  predicate NothingToMerge(matches: seq<Match>) {
    forall i :: 0 <= i < |matches| ==> matches[i].blocked
  }

  function UpsertSingle(db: Db, source: StagedId): Outcome {
    var existing := Containing(db, {source});
    if existing != [] then Finish(Update(db, existing[0], 1), existing[0])
    else Finish(AddToCluster(Create(db, 1), db.next, source), db.next)
  }

  function CreateCluster(db: Db, loaded: set<StagedId>): Outcome {
    Finish(AddAll(Create(db, |loaded|), db.next, loaded), db.next)
  }

  function ExtendCluster(db: Db, m: MergedId, loaded: set<StagedId>): Outcome {
    match Update(db, m, |loaded|)
    case Commit(d) => Finish(AddAll(d, m, loaded), m)
    case Abort => Failed
  }

  /** Move a cluster's members to the survivor, rewire its relationships, soft-delete it. */
  function AbsorbOne(db: Db, survivor: MergedId, other: MergedId): Tx {
    var moved :- MoveClusterMembers(db, other, survivor);
    SoftDelete(Rewire(moved, other, survivor), other)
  }

  function Absorb(db: Db, survivor: MergedId, others: seq<MergedId>): Tx
    decreases |others|
  {
    if others == [] then Commit(db)
    else
      var next :- AbsorbOne(db, survivor, others[0]);
      Absorb(next, survivor, others[1..])
  }

  function Consolidate(db: Db, existing: seq<MergedId>, loaded: set<StagedId>): Outcome
    requires existing != []
  {
    match Absorb(db, existing[0], existing[1..])
    case Abort => Failed
    case Commit(a) =>
      match AddAll(a, existing[0], loaded)
      case Abort => Failed
      case Commit(b) => Finish(Update(b, existing[0], |loaded|), existing[0])
  }

  function MergeEntity(db: Db, source: StagedId, matches: seq<Match>): Outcome {
    if NothingToMerge(matches) then UpsertSingle(db, source)
    else
      var ids := Collected(source, matches);
      var loaded := Loaded(db, source, ids);
      if |loaded| == 1 then UpsertSingle(db, source)
      else
        var existing := Containing(db, ids);
        if |existing| == 0 then CreateCluster(db, loaded)
        else if |existing| == 1 then ExtendCluster(db, existing[0], loaded)
        else Consolidate(db, existing, loaded)
  }

  // ---------- deletions ----------

  /** A staged entity's deletion event: leave the cluster; an emptied cluster is soft-deleted
      together with the merged relationships that touch it. */
  function EntityDeleted(db: Db, x: StagedId): Tx {
    var existing := Containing(db, {x});
    if existing == [] then Commit(db)
    else
      var left := RemoveFromCluster(db, existing[0], x);
      if Members(left, existing[0]) != {} then Commit(left)
      else
        var emptied :- SoftDelete(left, existing[0]);
        Commit(SoftDeleteRelsOf(emptied, existing[0]))
  }

  /** A staged relationship's deletion event. */
  function RelationshipDeleted(db: Db, s: string): Tx {
    if s !in db.relRows || !db.relRows[s].active || !LiveRel(db, db.relRows[s].rel) then Commit(db)
    else
      var k := db.relRows[s].rel;
      var left := db.(relRows := db.relRows[s := RelMember(k, false)]);
      if exists t :: t in left.relRows && left.relRows[t].active && left.relRows[t].rel == k
      then Commit(left)
      else Commit(left.(rels := left.rels[k := false]))
  }

  // ---------- relationships ----------

  function HomesOf(db: Db, xs: set<StagedId>): set<MergedId> {
    set r | r in db.rows && db.rows[r] && r.1 in xs :: r.0
  }

  function LiveHomesOf(db: Db, xs: set<StagedId>): set<MergedId> {
    set m | m in HomesOf(db, xs) && Live(db, m)
  }

  function UpsertPairs(db: Db, kind: string, froms: set<MergedId>, tos: set<MergedId>): Db {
    db.(rels := db.rels + AllTrue(PairKeys(kind, froms, tos)))
  }

  function PairKeys(kind: string, froms: set<MergedId>, tos: set<MergedId>): set<RelKey> {
    set f, t | f in froms && t in tos :: RelKey(kind, f, t)
  }

  /** The relationship consumer: an edge for every pair of merged entities found through the
      staged ones. */
  function RelationshipSeen(db: Db, kind: string, froms: set<StagedId>, tos: set<StagedId>): Db {
    UpsertPairs(db, kind, LiveHomesOf(db, froms), LiveHomesOf(db, tos))
  }

  /** Completing waiting rules joins entity_clusters only; it never looks at
      merged_entities.deleted_at. */
  function CompleteRules(db: Db, m: MergedId, asFrom: seq<Rule>, asTo: seq<Rule>): Db
    decreases |asFrom| + |asTo|
  {
    if asFrom != [] then
      CompleteRules(UpsertPairs(db, asFrom[0].kind, {m}, HomesOf(db, asFrom[0].others)), m, asFrom[1..], asTo)
    else if asTo != [] then
      CompleteRules(UpsertPairs(db, asTo[0].kind, HomesOf(db, asTo[0].others), {m}), m, [], asTo[1..])
    else db
  }

  // ---------- the engine ----------

  class Engine {
    var db: Db

    constructor ()
      ensures db == EMPTY
    {
      db := EMPTY;
    }

    method MergeWithMatches(source: StagedId, matches: seq<Match>) returns (r: Outcome)
      modifies this
      ensures r == MergeEntity(old(db), source, matches)
      ensures db == if r.Merged? then r.db else old(db)
    {
      var valid := 0;
      for i := 0 to |matches|
        invariant valid == 0 <==> NothingToMerge(matches[..i])
        invariant valid >= 0
      {
        if !matches[i].blocked {
          assert !matches[..i + 1][i].blocked;
          valid := valid + 1;
        } else {
          assert matches[..i + 1] == matches[..i] + [matches[i]];
        }
      }
      assert matches[..|matches|] == matches;
      if valid == 0 {
        r := UpsertSingleEntity(source);
      } else {
        r := MergeEntityWithMatches(source, matches);
      }
    }

    method UpsertSingleEntity(source: StagedId) returns (r: Outcome)
      modifies this
      ensures r == UpsertSingle(old(db), source)
      ensures db == if r.Merged? then r.db else old(db)
    {
      var existing := Containing(db, {source});
      var tx := db;
      var home := tx.next;
      if existing != [] {
        home := existing[0];
        var updated := Update(tx, home, 1);
        if updated.Abort? { return Failed; }
        tx := updated.db;
      } else {
        tx := Create(tx, 1);
        var added := AddToCluster(tx, home, source);
        if added.Abort? { return Failed; }
        tx := added.db;
      }
      db := tx;
      r := Merged(tx, home);
    }

    method MergeEntityWithMatches(source: StagedId, matches: seq<Match>) returns (r: Outcome)
      requires !NothingToMerge(matches)
      modifies this
      ensures r == MergeEntity(old(db), source, matches)
      ensures db == if r.Merged? then r.db else old(db)
    {
      var ids := Collected(source, matches);
      var loaded := Loaded(db, source, ids);
      if |loaded| == 1 {
        r := UpsertSingleEntity(source);
        return;
      }
      var existing := Containing(db, ids);
      var tx: Tx;
      var home := db.next;
      if |existing| == 0 {
        tx := AddEntities(Create(db, |loaded|), home, loaded);
      } else if |existing| == 1 {
        home := existing[0];
        tx := Update(db, home, |loaded|);
        if tx.Commit? {
          tx := AddEntities(tx.db, home, loaded);
        }
      } else {
        home := existing[0];
        tx := ConsolidateClusters(db, existing, loaded);
      }
      if tx.Abort? { return Failed; }
      db := tx.db;
      r := Merged(tx.db, home);
    }

    static method ConsolidateClusters(db: Db, existing: seq<MergedId>, loaded: set<StagedId>) returns (tx: Tx)
      requires |existing| > 1 && forall i, j :: 0 <= i < j < |existing| ==> existing[i] != existing[j]
      ensures Finish(tx, existing[0]) == Consolidate(db, existing, loaded)
    {
      var survivor := existing[0];
      tx := Commit(db);
      for i := 1 to |existing|
        invariant tx.Commit? && Absorb(db, survivor, existing[1..]) == Absorb(tx.db, survivor, existing[i..])
      {
        assert existing[i..][0] == existing[i] && existing[i..][1..] == existing[i + 1..];
        tx := MoveClusterMembers(tx.db, existing[i], survivor);
        if tx.Abort? { return; }
        var rewired := RewireMergedEntity(tx.db, existing[i], survivor);
        tx := SoftDelete(rewired, existing[i]);
        if tx.Abort? { return; }
      }
      tx := AddEntities(tx.db, survivor, loaded);
      if tx.Commit? {
        tx := Update(tx.db, survivor, |loaded|);
      }
    }

    static method AddEntities(db: Db, m: MergedId, loaded: set<StagedId>) returns (tx: Tx)
      ensures tx == AddAll(db, m, loaded)
    {
      var todo := loaded;
      tx := Commit(db);
      assert loaded - todo == {};
      assert db.rows == db.rows + AllTrue(set x | x in loaded - todo :: (m, x));
      while todo != {}
        invariant todo <= loaded && tx == AddAll(db, m, loaded - todo) && tx.Commit?
        decreases todo
      {
        var x :| x in todo;
        AddAllStep(db, m, loaded - todo, x);
        assert loaded - (todo - {x}) == loaded - todo + {x};
        tx := AddToCluster(tx.db, m, x);
        if tx.Abort? {
          AddAllAborts(db, m, loaded - (todo - {x}), loaded);
          return;
        }
        todo := todo - {x};
      }
      assert loaded - todo == loaded;
    }

    static method RewireMergedEntity(db: Db, from: MergedId, to: MergedId) returns (d: Db)
      requires from != to
      ensures d == Rewire(db, from, to)
    {
      d := RewireEach(db, LiveRelsOf(db, from), from, to);
    }

    static method RewireEach(db: Db, touched: set<RelKey>, from: MergedId, to: MergedId) returns (d: Db)
      requires from != to && forall k :: k in touched ==> Touches(k, from)
      ensures d == RewireSome(db, touched, from, to)
    {
      var todo := touched;
      d := db;
      RewireNone(db, from, to);
      assert touched - todo == {};
      while todo != {}
        invariant todo <= touched && d == RewireSome(db, touched - todo, from, to)
        decreases todo
      {
        var k :| k in todo;
        RewireSomeStep(db, touched - todo, k, from, to);
        d := RewireOne(d, k, from, to);
        assert touched - (todo - {k}) == touched - todo + {k};
        todo := todo - {k};
      }
      assert touched - todo == touched;
    }

    method ProcessEntityDeletion(x: StagedId) returns (ok: bool)
      modifies this
      ensures ok == EntityDeleted(old(db), x).Commit?
      ensures db == if ok then EntityDeleted(old(db), x).db else old(db)
    {
      var existing := Containing(db, {x});
      if existing == [] { return true; }
      var home := existing[0];
      var tx := RemoveFromCluster(db, home, x);
      if Members(tx, home) == {} {
        var emptied := SoftDelete(tx, home);
        if emptied.Abort? { return false; }
        tx := SoftDeleteRelsOf(emptied.db, home);
      }
      db := tx;
      ok := true;
    }

    method CreateMergedRelationships(kind: string, froms: set<StagedId>, tos: set<StagedId>)
      modifies this
      ensures db == RelationshipSeen(old(db), kind, froms, tos)
    {
      var fs, ts := LiveHomesOf(db, froms), LiveHomesOf(db, tos);
      var todo := fs;
      ghost var start := db;
      PairsNone(start, kind, ts);
      assert fs - todo == {};
      while todo != {}
        invariant todo <= fs && db == UpsertPairs(start, kind, fs - todo, ts)
        decreases todo
      {
        var f :| f in todo;
        var rest := ts;
        ghost var row := db;
        PairsNone(row, kind, {f});
        assert ts - rest == {};
        while rest != {}
          invariant rest <= ts && db == UpsertPairs(row, kind, {f}, ts - rest)
          decreases rest
        {
          var t :| t in rest;
          PairsStep(row, kind, f, ts - rest, t);
          db := UpsertRel(db, RelKey(kind, f, t));
          assert ts - (rest - {t}) == ts - rest + {t};
          rest := rest - {t};
        }
        assert ts - rest == ts;
        PairsRow(start, kind, fs - todo, f, ts);
        assert fs - (todo - {f}) == fs - todo + {f};
        todo := todo - {f};
      }
      assert fs - todo == fs;
    }
  }

  // ---------- one loop iteration at a time ----------

  lemma AddAllStep(db: Db, m: MergedId, done: set<StagedId>, x: StagedId)
    requires AddAll(db, m, done).Commit?
    ensures AddToCluster(AddAll(db, m, done).db, m, x) == AddAll(db, m, done + {x})
  {
    AddAllStepRows(db, m, done, x);
    AddAllStepAborts(db, m, done, x);
  }

  lemma AddAllStepRows(db: Db, m: MergedId, done: set<StagedId>, x: StagedId)
    ensures (db.rows + AllTrue(set y | y in done :: (m, y)))[(m, x) := true] == db.rows + AllTrue(set y | y in done + {x} :: (m, y))
  {
    OneTrue(db.rows, set y | y in done :: (m, y), (m, x));
    assert (set y | y in done + {x} :: (m, y)) == (set y | y in done :: (m, y)) + {(m, x)};
  }

  lemma AddAllStepAborts(db: Db, m: MergedId, done: set<StagedId>, x: StagedId)
    requires AddAll(db, m, done).Commit?
    ensures AddToCluster(AddAll(db, m, done).db, m, x).Abort? <==> AddAll(db, m, done + {x}).Abort?
  {
    var d := AddAll(db, m, done).db;
    if AddToCluster(d, m, x).Abort? {
      var r :| r in d.rows && r.1 == x && r.0 != m && d.rows[r];
      assert r in db.rows && db.rows[r] && r.1 in done + {x};
    }
    if AddAll(db, m, done + {x}).Abort? {
      var r :| r in db.rows && r.1 in done + {x} && r.0 != m && db.rows[r];
      assert r.1 !in done && r in d.rows && d.rows[r];
    }
  }

  lemma AddAllAborts(db: Db, m: MergedId, some: set<StagedId>, all: set<StagedId>)
    requires some <= all && AddAll(db, m, some).Abort?
    ensures AddAll(db, m, all).Abort?
  {
  }

  lemma PairsNone(db: Db, kind: string, ms: set<MergedId>)
    ensures UpsertPairs(db, kind, {}, ms) == db == UpsertPairs(db, kind, ms, {})
  {
    assert UpsertPairs(db, kind, {}, ms).rels == db.rels == UpsertPairs(db, kind, ms, {}).rels;
  }

  lemma PairsStep(db: Db, kind: string, f: MergedId, done: set<MergedId>, t: MergedId)
    ensures UpsertRel(UpsertPairs(db, kind, {f}, done), RelKey(kind, f, t)) == UpsertPairs(db, kind, {f}, done + {t})
  {
    hide AllTrue;
    assert PairKeys(kind, {f}, done + {t}) == PairKeys(kind, {f}, done) + {RelKey(kind, f, t)};
    OneTrue(db.rels, PairKeys(kind, {f}, done), RelKey(kind, f, t));
  }

  lemma OneTrue<K>(m: map<K, bool>, a: set<K>, k: K)
    ensures (m + AllTrue(a))[k := true] == m + AllTrue(a + {k})
  {
  }

  lemma PairsRow(db: Db, kind: string, done: set<MergedId>, f: MergedId, ts: set<MergedId>)
    ensures UpsertPairs(UpsertPairs(db, kind, done, ts), kind, {f}, ts) == UpsertPairs(db, kind, done + {f}, ts)
  {
    UnionTrue(db.rels, PairKeys(kind, done, ts), PairKeys(kind, {f}, ts));
    assert PairKeys(kind, done, ts) + PairKeys(kind, {f}, ts) == PairKeys(kind, done + {f}, ts);
  }

  lemma UnionTrue<K>(m: map<K, bool>, a: set<K>, b: set<K>)
    ensures m + AllTrue(a) + AllTrue(b) == m + AllTrue(a + b)
  {
  }

  lemma RewireNone(db: Db, from: MergedId, to: MergedId)
    ensures RewireSome(db, {}, from, to) == db
  {
    assert RewireSome(db, {}, from, to).rels == db.rels;
    assert RewireSome(db, {}, from, to).relRows == db.relRows;
  }

  lemma RewireSomeStep(db: Db, done: set<RelKey>, k: RelKey, from: MergedId, to: MergedId)
    requires from != to && k !in done && Touches(k, from)
    requires forall j :: j in done ==> Touches(j, from)
    ensures RewireOne(RewireSome(db, done, from, to), k, from, to) == RewireSome(db, done + {k}, from, to)
  {
    RewireRelsStep(db, done, k, from, to);
    RewireMembersStep(db, done, k, from, to);
  }

  lemma RewireRelsStep(db: Db, done: set<RelKey>, k: RelKey, from: MergedId, to: MergedId)
    requires from != to && k !in done && Touches(k, from)
    requires forall j :: j in done ==> Touches(j, from)
    ensures RewireOne(RewireSome(db, done, from, to), k, from, to).rels == RewireSome(db, done + {k}, from, to).rels
  {
    var k' := RenameKey(k, from, to);
    var images := set j | j in done :: RenameKey(j, from, to);
    assert (set j | j in done + {k} :: RenameKey(j, from, to)) == images + {k'};
    assert k' !in done && k !in images;
    OneMoreRewired(db.rels, images, done, k', k);
  }

  lemma OneMoreRewired(m: map<RelKey, bool>, on: set<RelKey>, off: set<RelKey>, k': RelKey, k: RelKey)
    requires k' !in off && k !in on && k != k'
    ensures (m + AllTrue(on) + map j | j in off :: false)[k' := true][k := false]
         == m + AllTrue(on + {k'}) + map j | j in off + {k} :: false
  {
  }

  lemma RewireMembersStep(db: Db, done: set<RelKey>, k: RelKey, from: MergedId, to: MergedId)
    requires from != to && k !in done && Touches(k, from)
    requires forall j :: j in done ==> Touches(j, from)
    ensures RewireOne(RewireSome(db, done, from, to), k, from, to).relRows
         == RewireSome(db, done + {k}, from, to).relRows
  {
    var t := RewireSome(db, done, from, to);
    var a, b := RewireOne(t, k, from, to).relRows, RewireSome(db, done + {k}, from, to).relRows;
    OneRewiredRows(t, k, from, to);
    SomeRewiredRows(db, done, from, to);
    SomeRewiredRows(db, done + {k}, from, to);
    hide RewireOne, RewireSome, Touches, RenameKey;
    forall s | s in db.relRows ensures a[s] == b[s] {
      RenamedOnce(db.relRows[s].rel, from, to);
    }
  }

  /** The relationship member a rewiring leaves, row by row. */
  function RewiredRow(r: RelMember, touched: bool, from: MergedId, to: MergedId): RelMember {
    if touched then r.(rel := RenameKey(r.rel, from, to)) else r
  }

  lemma OneRewiredRows(db: Db, k: RelKey, from: MergedId, to: MergedId)
    ensures var d := RewireOne(db, k, from, to);
      && d.relRows.Keys == db.relRows.Keys
      && forall s :: s in db.relRows ==> d.relRows[s] == RewiredRow(db.relRows[s], db.relRows[s].rel == k, from, to)
  {
  }

  lemma SomeRewiredRows(db: Db, touched: set<RelKey>, from: MergedId, to: MergedId)
    ensures var d := RewireSome(db, touched, from, to);
      && d.relRows.Keys == db.relRows.Keys
      && forall s :: s in db.relRows ==> d.relRows[s] == RewiredRow(db.relRows[s], db.relRows[s].rel in touched, from, to)
  {
  }

  lemma RenamedOnce(k: RelKey, from: MergedId, to: MergedId)
    requires from != to
    ensures !Touches(RenameKey(k, from, to), from)
  {
  }
}
