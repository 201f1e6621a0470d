/** Whole runs of the merge, deletion and relationship consumers. */
module ClusterRuns {
  import opened ClusterStore
  import opened MergeEngine
  import opened ClusterInvariants

  datatype Event =
    | StagedUpserted(x: StagedId)    // a staged row is inserted or revived
    | StagedDeleted(x: StagedId)     // a staged row is soft-deleted
    | EntityChanged(source: StagedId, matches: seq<Match>, asFrom: seq<Rule>, asTo: seq<Rule>)
    | EntityRemoved(x: StagedId)     // the deletion event of a staged row
    | RelationshipChanged(kind: string, froms: set<StagedId>, tos: set<StagedId>)
    | RelationshipRemoved(s: string)

  /** The merge consumer: merge, then complete the waiting rules. */
  function ProcessEntity(db: Db, source: StagedId, matches: seq<Match>, asFrom: seq<Rule>, asTo: seq<Rule>): Tx {
    match MergeEntity(db, source, matches)
    case Merged(d, id) => Commit(CompleteRules(d, id, asFrom, asTo))
    case Failed => Abort
  }

  function Handle(db: Db, e: Event): Tx {
    match e
    case StagedUpserted(x) => Commit(db.(staged := db.staged[x := true]))
    case StagedDeleted(x) => Commit(if x in db.staged then db.(staged := db.staged[x := false]) else db)
    case EntityChanged(s, ms, f, t) => ProcessEntity(db, s, ms, f, t)
    case EntityRemoved(x) => EntityDeleted(db, x)
    case RelationshipChanged(k, f, t) => Commit(RelationshipSeen(db, k, f, t))
    case RelationshipRemoved(s) => RelationshipDeleted(db, s)
  }

  /** A handler that fails leaves the tables as they were. */
  function Step(db: Db, e: Event): Db {
    match Handle(db, e) case Commit(d) => d case Abort => db
  }

  function Run(db: Db, es: seq<Event>): Db {
    if es == [] then db else Step(Run(db, es[..|es| - 1]), es[|es| - 1])
  }

  // ---------- every step keeps the invariant ----------

  lemma SameRowsKeep(db: Db, d: Db)
    requires Inv(db) && d.rows == db.rows && d.next == db.next && d.gone == db.gone
    requires forall k :: LiveRel(d, k) ==> Live(db, k.from) && Live(db, k.to)
    ensures Inv(d)
  {
    assert forall m, x :: Active(d, m, x) <==> Active(db, m, x);
    forall m | Live(d, m) ensures exists x :: Active(d, m, x) {
      assert Live(db, m);
      var x :| Active(db, m, x);
      assert Active(d, m, x);
    }
  }

  lemma PairsKeep(db: Db, kind: string, froms: set<MergedId>, tos: set<MergedId>)
    requires Inv(db) && forall m :: m in froms + tos ==> Live(db, m)
    ensures Inv(UpsertPairs(db, kind, froms, tos))
  {
    var d := UpsertPairs(db, kind, froms, tos);
    forall k | LiveRel(d, k) ensures Live(db, k.from) && Live(db, k.to) {
      if k !in PairKeys(kind, froms, tos) { assert LiveRel(db, k); }
    }
    SameRowsKeep(db, d);
  }

  lemma HomesLive(db: Db, xs: set<StagedId>)
    requires Owned(db)
    ensures forall m :: m in HomesOf(db, xs) ==> Live(db, m)
  {
    forall m | m in HomesOf(db, xs) ensures Live(db, m) {
      var r :| r in db.rows && db.rows[r] && r.1 in xs && r.0 == m;
      assert Active(db, m, r.1);
    }
  }

  lemma {:induction false} CompleteKeeps(db: Db, m: MergedId, asFrom: seq<Rule>, asTo: seq<Rule>)
    requires Inv(db) && Live(db, m)
    ensures Inv(CompleteRules(db, m, asFrom, asTo))
    decreases |asFrom| + |asTo|
  {
    if asFrom != [] {
      HomesLive(db, asFrom[0].others);
      PairsKeep(db, asFrom[0].kind, {m}, HomesOf(db, asFrom[0].others));
      CompleteKeeps(UpsertPairs(db, asFrom[0].kind, {m}, HomesOf(db, asFrom[0].others)), m, asFrom[1..], asTo);
    } else if asTo != [] {
      HomesLive(db, asTo[0].others);
      PairsKeep(db, asTo[0].kind, HomesOf(db, asTo[0].others), {m});
      CompleteKeeps(UpsertPairs(db, asTo[0].kind, HomesOf(db, asTo[0].others), {m}), m, [], asTo[1..]);
    }
  }

  /** Completing rules only adds live relationships, among them one for each partner a rule finds. */
  lemma {:induction false} CompleteAdds(db: Db, m: MergedId, asFrom: seq<Rule>, asTo: seq<Rule>)
    ensures var d := CompleteRules(db, m, asFrom, asTo);
      && (forall k :: LiveRel(db, k) ==> LiveRel(d, k))
      && (forall r, h :: r in asFrom && h in HomesOf(db, r.others) ==> LiveRel(d, RelKey(r.kind, m, h)))
      && (forall r, h :: r in asTo && h in HomesOf(db, r.others) ==> LiveRel(d, RelKey(r.kind, h, m)))
    decreases |asFrom| + |asTo|
  {
    if asFrom != [] {
      var hs := HomesOf(db, asFrom[0].others);
      var t := UpsertPairs(db, asFrom[0].kind, {m}, hs);
      CompleteAdds(t, m, asFrom[1..], asTo);
      PairsLiveNow(db, asFrom[0].kind, {m}, hs);
      assert asFrom == [asFrom[0]] + asFrom[1..];
      assert forall r: Rule :: HomesOf(t, r.others) == HomesOf(db, r.others);
    } else if asTo != [] {
      var hs := HomesOf(db, asTo[0].others);
      var t := UpsertPairs(db, asTo[0].kind, hs, {m});
      CompleteAdds(t, m, [], asTo[1..]);
      PairsLiveNow(db, asTo[0].kind, hs, {m});
      assert asTo == [asTo[0]] + asTo[1..];
      assert forall r: Rule :: HomesOf(t, r.others) == HomesOf(db, r.others);
    }
  }

  lemma PairsLiveNow(db: Db, kind: string, froms: set<MergedId>, tos: set<MergedId>)
    ensures var d := UpsertPairs(db, kind, froms, tos);
      && (forall k :: LiveRel(db, k) ==> LiveRel(d, k))
      && (forall f, t :: f in froms && t in tos ==> LiveRel(d, RelKey(kind, f, t)))
  {
    forall f, t | f in froms && t in tos ensures LiveRel(UpsertPairs(db, kind, froms, tos), RelKey(kind, f, t)) {
      assert RelKey(kind, f, t) in PairKeys(kind, froms, tos);
    }
  }

  lemma {:induction false} CompleteNothing(db: Db, m: MergedId, asFrom: seq<Rule>, asTo: seq<Rule>)
    requires forall r :: r in asFrom || r in asTo ==> HomesOf(db, r.others) == {}
    ensures CompleteRules(db, m, asFrom, asTo) == db
    decreases |asFrom| + |asTo|
  {
    if asFrom != [] {
      assert asFrom[0] in asFrom;
      PairsNone(db, asFrom[0].kind, {m});
      CompleteNothing(db, m, asFrom[1..], asTo);
    } else if asTo != [] {
      assert asTo[0] in asTo;
      assert PairKeys(asTo[0].kind, {}, {m}) == {};
      assert UpsertPairs(db, asTo[0].kind, {}, {m}).rels == db.rels;
      CompleteNothing(db, m, [], asTo[1..]);
    }
  }

  /** Completing rules, on either side, for a merged entity that another consumer has meanwhile soft-deleted leaves
      a live relationship on it, unless no rule finds a partner: the handler must be atomic. */
  lemma LateCompletionDangles(db: Db, m: MergedId, asFrom: seq<Rule>, asTo: seq<Rule>)
    requires Inv(db) && m in db.gone
    ensures Inv(CompleteRules(db, m, asFrom, asTo)) <==>
      forall r :: r in asFrom || r in asTo ==> HomesOf(db, r.others) == {}
  {
    if forall r :: r in asFrom || r in asTo ==> HomesOf(db, r.others) == {} {
      CompleteNothing(db, m, asFrom, asTo);
    } else {
      var d := CompleteRules(db, m, asFrom, asTo);
      var r :| (r in asFrom || r in asTo) && HomesOf(db, r.others) != {};
      var h :| h in HomesOf(db, r.others);
      CompleteAdds(db, m, asFrom, asTo);
      CompleteRows(db, m, asFrom, asTo);
      assert LiveRel(d, RelKey(r.kind, m, h)) || LiveRel(d, RelKey(r.kind, h, m));
    }
  }

  /** A deletion event removes exactly that member, soft-deletes an emptied cluster, and never
      fails. */
  lemma DeletionEffect(db: Db, x: StagedId)
    requires Inv(db)
    ensures EntityDeleted(db, x).Commit?
    ensures var d := EntityDeleted(db, x).db;
      && Inv(d) && d.staged == db.staged && d.next == db.next
      && (forall n, y :: Active(d, n, y) <==> Active(db, n, y) && y != x)
      && (forall n :: Live(d, n) <==> Live(db, n) && exists y :: y != x && Active(db, n, y))
      && (forall k :: LiveRel(d, k) <==> LiveRel(db, k) && Live(d, k.from) && Live(d, k.to))
  {
    var cs := Containing(db, {x});
    if cs == [] {
      assert forall n :: Active(db, n, x) ==> n in cs;
    } else {
      var m := cs[0];
      assert m in cs && Active(db, m, x);
      RemovalRows(db, m, x);
      var left := RemoveFromCluster(db, m, x);
      MembersAre(left, m);
      var d := EntityDeleted(db, x).db;
      assert forall n, y :: Active(d, n, y) <==> Active(left, n, y);
      if Members(left, m) != {} {
        var y :| y in Members(left, m);
        assert Active(left, m, y);
      }
      RemovalKeeps(db, d, m, x);
    }
  }

  lemma MembersAre(db: Db, m: MergedId)
    ensures forall y :: y in Members(db, m) <==> Active(db, m, y)
  {
    forall y | Active(db, m, y) ensures y in Members(db, m) {
      assert (m, y) in db.rows && (m, y).1 == y;
    }
  }

  lemma RemovalRows(db: Db, m: MergedId, x: StagedId)
    requires OneHome(db) && Active(db, m, x)
    ensures forall n, y :: Active(RemoveFromCluster(db, m, x), n, y) <==> Active(db, n, y) && y != x
  {
    forall n, y ensures Active(RemoveFromCluster(db, m, x), n, y) <==> Active(db, n, y) && y != x {
      if y == x && Active(db, n, y) { assert n == m; }
    }
  }

  lemma RemovalKeeps(db: Db, d: Db, m: MergedId, x: StagedId)
    requires Inv(db) && Active(db, m, x) && d == EntityDeleted(db, x).db
    requires d.rows == db.rows[(m, x) := false] && d.next == db.next
    requires forall n, y :: Active(d, n, y) <==> Active(db, n, y) && y != x
    requires d.gone == if exists y :: Active(d, m, y) then db.gone else db.gone + {m}
    requires forall k :: LiveRel(d, k) ==> LiveRel(db, k) && (m in d.gone ==> !Touches(k, m))
    ensures Inv(d)
    ensures forall n :: Live(d, n) <==> Live(db, n) && exists y :: y != x && Active(db, n, y)
  {
    forall n | Live(db, n) && n != m ensures exists y :: y != x && Active(db, n, y) && Active(d, n, y) {
      var y :| Active(db, n, y);
      assert y != x;
    }
    forall n | Live(d, n) ensures exists y :: Active(d, n, y) {
      assert Live(db, n);
      if n != m { var y :| y != x && Active(db, n, y) && Active(d, n, y); }
    }
    forall n, y | Active(d, n, y) ensures Live(d, n) {
      assert Active(db, n, y);
    }
  }

  lemma StepKeepsInv(db: Db, e: Event)
    requires Inv(db)
    ensures Inv(Step(db, e))
  {
    match e
    case StagedUpserted(x) => SameRowsKeep(db, Step(db, e));
    case StagedDeleted(x) => SameRowsKeep(db, Step(db, e));
    case EntityChanged(s, ms, f, t) =>
      MergeEffect(db, s, ms);
      var r := MergeEntity(db, s, ms);
      if r.Merged? { CompleteKeeps(r.db, r.id, f, t); }
    case EntityRemoved(x) => DeletionEffect(db, x);
    case RelationshipChanged(k, f, t) => PairsKeep(db, k, LiveHomesOf(db, f), LiveHomesOf(db, t));
    case RelationshipRemoved(s) => SameRowsKeep(db, Step(db, e));
  }

  /** Over every run: one live cluster per staged entity, live merged entities inhabited,
      soft-deleted ones empty, and no live relationship on a soft-deleted one. */
  lemma {:induction false} RunKeepsInv(es: seq<Event>)
    ensures Inv(Run(EMPTY, es))
    decreases |es|
  {
    if es != [] {
      RunKeepsInv(es[..|es| - 1]);
      StepKeepsInv(Run(EMPTY, es[..|es| - 1]), es[|es| - 1]);
    }
  }

  /** No consumer ever adds to relationship_clusters, so on every run a staged relationship's
      deletion event changes nothing: its merged relationship stays live. */
  lemma {:induction false} RelationshipDeletionDoesNothing(es: seq<Event>, s: string)
    ensures Run(EMPTY, es).relRows == map[]
    ensures Run(EMPTY, es + [RelationshipRemoved(s)]) == Run(EMPTY, es)
    decreases |es|
  {
    if es != [] {
      var before, e := Run(EMPTY, es[..|es| - 1]), es[|es| - 1];
      RelationshipDeletionDoesNothing(es[..|es| - 1], s);
      if e.EntityChanged? {
        MergeRelRows(before, e.source, e.matches);
        var r := MergeEntity(before, e.source, e.matches);
        if r.Merged? { CompleteRows(r.db, r.id, e.asFrom, e.asTo); }
      }
    }
    assert (es + [RelationshipRemoved(s)])[..|es|] == es;
  }

  lemma {:induction false} CompleteRows(db: Db, m: MergedId, asFrom: seq<Rule>, asTo: seq<Rule>)
    ensures CompleteRules(db, m, asFrom, asTo) == db.(rels := CompleteRules(db, m, asFrom, asTo).rels)
    decreases |asFrom| + |asTo|
  {
    if asFrom != [] {
      CompleteRows(UpsertPairs(db, asFrom[0].kind, {m}, HomesOf(db, asFrom[0].others)), m, asFrom[1..], asTo);
    } else if asTo != [] {
      CompleteRows(UpsertPairs(db, asTo[0].kind, HomesOf(db, asTo[0].others), {m}), m, [], asTo[1..]);
    }
  }

  lemma MergeRelRows(db: Db, source: StagedId, matches: seq<Match>)
    requires db.relRows == map[]
    ensures MergeEntity(db, source, matches).Merged? ==> MergeEntity(db, source, matches).db.relRows == map[]
  {
    hide AddAll, AddToCluster, Containing, Collected, Loaded, Absorb;
    var ids := Collected(source, matches);
    var cs, xs := Containing(db, ids), Loaded(db, source, ids);
    AddRelRows(Create(db, 1), db.next, {}, source);
    AddRelRows(Create(db, |xs|), db.next, xs, source);
    if !Alone(db, source, matches) && |cs| == 1 && Live(db, cs[0]) {
      AddRelRows(Update(db, cs[0], |xs|).db, cs[0], xs, source);
    }
    if !Alone(db, source, matches) && |cs| > 1 {
      AbsorbRelRows(db, cs[0], cs[1..]);
      ConsolidateRelRows(db, cs, xs);
    }
  }

  lemma AddRelRows(db: Db, m: MergedId, xs: set<StagedId>, x: StagedId)
    ensures AddAll(db, m, xs).Commit? ==> AddAll(db, m, xs).db.relRows == db.relRows
    ensures AddToCluster(db, m, x).Commit? ==> AddToCluster(db, m, x).db.relRows == db.relRows
  {
  }

  lemma ConsolidateRelRows(db: Db, cs: seq<MergedId>, xs: set<StagedId>)
    requires cs != [] && (Absorb(db, cs[0], cs[1..]).Commit? ==> Absorb(db, cs[0], cs[1..]).db.relRows == map[])
    ensures Consolidate(db, cs, xs).Merged? ==> Consolidate(db, cs, xs).db.relRows == map[]
  {
  }

  lemma {:induction false} AbsorbRelRows(db: Db, s: MergedId, cs: seq<MergedId>)
    requires db.relRows == map[]
    ensures Absorb(db, s, cs).Commit? ==> Absorb(db, s, cs).db.relRows == map[]
    decreases |cs|
  {
    if cs != [] && AbsorbOne(db, s, cs[0]).Commit? {
      AbsorbRelRows(AbsorbOne(db, s, cs[0]).db, s, cs[1..]);
    }
  }
}
