/** The tables the merge consumers share, for one tenant, and the SQL statements issued on them.

    A statement either commits a new table state or aborts: a unique index or a "no rows
    affected" check makes the repository return an error, and the surrounding transaction rolls
    back. Merged entities are numbered in order of creation, which is the order the
    consolidation query sorts by. */
module ClusterStore {
  type StagedId = string
  type MergedId = nat

  /** The natural key of a merged relationship; its row id is a hash of exactly these fields. */
  datatype RelKey = RelKey(kind: string, from: MergedId, to: MergedId)

  datatype RelMember = RelMember(rel: RelKey, active: bool)

  datatype Db = Db(
    staged: map<StagedId, bool>,              // staged_entities: row -> deleted_at IS NULL
    next: nat,                                // merged_entities: rows 0 .. next - 1
    gone: set<MergedId>,                      // merged_entities with deleted_at set
    count: map<MergedId, nat>,                // merged_entities.source_count
    rows: map<(MergedId, StagedId), bool>,    // entity_clusters: row -> removed_at IS NULL
    rels: map<RelKey, bool>,                  // merged_relationships: row -> deleted_at IS NULL
    relRows: map<string, RelMember>)          // relationship_clusters, unique per staged relationship

  const EMPTY: Db := Db(map[], 0, {}, map[], map[], map[], map[])

  datatype Tx = Commit(db: Db) | Abort {
    predicate IsFailure() { Abort? }
    function PropagateFailure(): Tx requires Abort? { Abort }
    function Extract(): Db requires Commit? { db }
  }

  predicate Active(db: Db, m: MergedId, x: StagedId) {
    (m, x) in db.rows && db.rows[(m, x)]
  }

  predicate Live(db: Db, m: MergedId) {
    m < db.next && m !in db.gone
  }

  predicate LiveRel(db: Db, k: RelKey) {
    k in db.rels && db.rels[k]
  }

  predicate StagedLive(db: Db, x: StagedId) {
    x in db.staged && db.staged[x]
  }

  /** Soft-deleted merged entities have no active members. */
  ghost predicate Owned(db: Db) {
    forall m, x :: Active(db, m, x) ==> Live(db, m)
  }

  /** The partial unique index entity_clusters_unique_active_staged. */
  ghost predicate OneHome(db: Db) {
    forall m, n, x :: Active(db, m, x) && Active(db, n, x) ==> m == n
  }

  /** Live merged entities have a member. */
  ghost predicate Inhabited(db: Db) {
    forall m :: Live(db, m) ==> exists x :: Active(db, m, x)
  }

  /** No live relationship touches a soft-deleted merged entity. */
  ghost predicate Attached(db: Db) {
    forall k :: LiveRel(db, k) ==> Live(db, k.from) && Live(db, k.to)
  }

  /** The foreign keys into merged_entities. */
  ghost predicate Keyed(db: Db) {
    && (forall m, x :: (m, x) in db.rows ==> m < db.next)
    && (forall m :: m in db.gone ==> m < db.next)
  }

  /** What every completed step keeps. */
  ghost predicate Inv(db: Db) {
    Owned(db) && OneHome(db) && Inhabited(db) && Attached(db) && Keyed(db)
  }

  function AllTrue<K>(keys: set<K>): map<K, bool> {
    map k | k in keys :: true
  }

  // ---------- entity_clusters ----------

  /** INSERT ... ON CONFLICT (merged, staged) DO UPDATE SET removed_at = NULL, under the unique
      index on active staged ids. */
  function AddToCluster(db: Db, m: MergedId, x: StagedId): Tx {
    if exists r :: r in db.rows && r.1 == x && r.0 != m && db.rows[r] then Abort
    else Commit(db.(rows := db.rows[(m, x) := true]))
  }

  /** AddToCluster for each of xs. */
  function AddAll(db: Db, m: MergedId, xs: set<StagedId>): Tx {
    if exists r :: r in db.rows && r.1 in xs && r.0 != m && db.rows[r] then Abort
    else Commit(db.(rows := db.rows + AllTrue(set x | x in xs :: (m, x))))
  }

  function RemoveFromCluster(db: Db, m: MergedId, x: StagedId): Db {
    if Active(db, m, x) then db.(rows := db.rows[(m, x) := false]) else db
  }

  function Members(db: Db, m: MergedId): set<StagedId> {
    set r | r in db.rows && r.0 == m && db.rows[r] :: r.1
  }

  /** A row of the target cluster, removed or not, already names an active member of `from`. */
  predicate MoveConflict(db: Db, from: MergedId, to: MergedId) {
    exists r :: r in db.rows && r.0 == from && db.rows[r] && (to, r.1) in db.rows
  }

  /** UPDATE entity_clusters SET merged_entity_id = to WHERE merged_entity_id = from AND
      removed_at IS NULL, under UNIQUE (merged_entity_id, staged_entity_id). */
  function MoveClusterMembers(db: Db, from: MergedId, to: MergedId): Tx {
    if MoveConflict(db, from, to) then Abort
    else
      var stay := map r | r in db.rows && !(r.0 == from && db.rows[r]) :: db.rows[r];
      Commit(db.(rows := stay + AllTrue(set r | r in db.rows && r.0 == from && db.rows[r] :: (to, r.1))))
  }

  // ---------- merged_entities ----------

  function Create(db: Db, sources: nat): Db {
    db.(next := db.next + 1, gone := db.gone - {db.next}, count := db.count[db.next := sources])
  }

  function Update(db: Db, m: MergedId, sources: nat): Tx {
    if Live(db, m) then Commit(db.(count := db.count[m := sources])) else Abort
  }

  function SoftDelete(db: Db, m: MergedId): Tx {
    if Live(db, m) then Commit(db.(gone := db.gone + {m})) else Abort
  }

  /** Live merged entities holding an active row for any of ids, oldest first. */
  function Containing(db: Db, ids: set<StagedId>): (ms: seq<MergedId>)
    ensures forall i, j :: 0 <= i < j < |ms| ==> ms[i] < ms[j]
    ensures forall m :: m in ms <==> Live(db, m) && exists x :: x in ids && Active(db, m, x)
  {
    ContainingFrom(db, ids, 0)
  }

  /** Those from row lo on. */
  function ContainingFrom(db: Db, ids: set<StagedId>, lo: nat): (ms: seq<MergedId>)
    requires lo <= db.next
    ensures forall i, j :: 0 <= i < j < |ms| ==> ms[i] < ms[j]
    ensures forall m :: m in ms <==> lo <= m && Live(db, m) && exists x :: x in ids && Active(db, m, x)
    decreases db.next - lo
  {
    if lo == db.next then []
    else
      var rest := ContainingFrom(db, ids, lo + 1);
      assert forall j :: 0 <= j < |rest| ==> rest[j] in rest;
      if lo !in db.gone && exists x :: x in ids && Active(db, lo, x) then [lo] + rest else rest
  }

  lemma FirstContains(db: Db, ids: set<StagedId>)
    requires Containing(db, ids) != []
    ensures exists x :: x in ids && Active(db, Containing(db, ids)[0], x)
  {
    assert Containing(db, ids)[0] in Containing(db, ids);
  }

  lemma NoneContaining(db: Db, ids: set<StagedId>)
    requires forall m, x :: x in ids ==> !Active(db, m, x)
    ensures Containing(db, ids) == []
  {
    if Containing(db, ids) != [] { FirstContains(db, ids); }
  }

  // ---------- merged_relationships ----------

  function UpsertRel(db: Db, k: RelKey): Db {
    db.(rels := db.rels[k := true])
  }

  function Rename(m: MergedId, from: MergedId, to: MergedId): MergedId {
    if m == from then to else m
  }

  function RenameKey(k: RelKey, from: MergedId, to: MergedId): RelKey {
    RelKey(k.kind, Rename(k.from, from, to), Rename(k.to, from, to))
  }

  predicate Touches(k: RelKey, m: MergedId) {
    k.from == m || k.to == m
  }

  /** One iteration of the rewiring loop: upsert the renamed edge, carry its members over,
      soft-delete the old edge. */
  function RewireOne(db: Db, k: RelKey, from: MergedId, to: MergedId): Db {
    var k' := RenameKey(k, from, to);
    db.(rels := db.rels[k' := true][k := false],
        relRows := map s | s in db.relRows ::
          if db.relRows[s].rel == k then db.relRows[s].(rel := k') else db.relRows[s])
  }

  /** All live edges touching `from` now touch `to`, and only those changed. */
  function Rewire(db: Db, from: MergedId, to: MergedId): Db {
    RewireSome(db, LiveRelsOf(db, from), from, to)
  }

  function LiveRelsOf(db: Db, m: MergedId): set<RelKey> {
    set k | k in db.rels && db.rels[k] && Touches(k, m)
  }

  function RewireSome(db: Db, touched: set<RelKey>, from: MergedId, to: MergedId): Db {
    db.(rels := db.rels
          + AllTrue(set k | k in touched :: RenameKey(k, from, to))
          + (map k | k in touched :: false),
        relRows := map s | s in db.relRows ::
          if db.relRows[s].rel in touched
          then db.relRows[s].(rel := RenameKey(db.relRows[s].rel, from, to)) else db.relRows[s])
  }

  function SoftDeleteRelsOf(db: Db, m: MergedId): Db {
    db.(rels := map k | k in db.rels :: db.rels[k] && !Touches(k, m))
  }

  // ---------- what the bulk statements do, row by row ----------

  lemma AddAllRows(db: Db, m: MergedId, xs: set<StagedId>)
    requires AddAll(db, m, xs).Commit?
    ensures var d := AddAll(db, m, xs).db;
      forall n, x :: Active(d, n, x) <==> Active(db, n, x) || (n == m && x in xs)
    ensures var d := AddAll(db, m, xs).db;
      forall n, x :: (n, x) in d.rows <==> (n, x) in db.rows || (n == m && x in xs)
  {
  }

  lemma MoveRows(db: Db, from: MergedId, to: MergedId)
    requires from != to && MoveClusterMembers(db, from, to).Commit?
    ensures var d := MoveClusterMembers(db, from, to).db;
      forall n, x :: Active(d, n, x) <==>
        if n == to then Active(db, to, x) || Active(db, from, x)
        else n != from && Active(db, n, x)
    ensures var d := MoveClusterMembers(db, from, to).db;
      forall n, x :: (n, x) in d.rows ==> (n, x) in db.rows || (n == to && Active(db, from, x))
  {
  }

  /** After rewiring, the live edges are the image of the live edges under the renaming. */
  lemma RewireEdges(db: Db, from: MergedId, to: MergedId)
    requires from != to
    ensures var d := Rewire(db, from, to);
      forall k :: LiveRel(d, k) <==> exists k0 :: LiveRel(db, k0) && k == RenameKey(k0, from, to)
  {
    var d := Rewire(db, from, to);
    forall k0 | LiveRel(db, k0) ensures LiveRel(d, RenameKey(k0, from, to)) {
      if !Touches(k0, from) { assert RenameKey(k0, from, to) == k0; }
    }
    forall k | LiveRel(d, k) ensures exists k0 :: LiveRel(db, k0) && k == RenameKey(k0, from, to) {
      if !exists k0 :: LiveRel(db, k0) && Touches(k0, from) && k == RenameKey(k0, from, to) {
        assert k == RenameKey(k, from, to);
      }
    }
  }
}
