/** At-least-once delivery: handling the same event twice in a row leaves the tables as handling
    it once does. And three places where the code differs from what its comments suggest. */
module ClusterRedelivery {
  import opened Basics
  import opened ClusterStore
  import opened MergeEngine
  import opened ClusterInvariants
  import opened ClusterRuns
  import opened ClusterMerges

  // ---------- redelivery ----------

  lemma OnlyCluster(db: Db, ids: set<StagedId>, id: MergedId)
    requires forall n :: (Live(db, n) && exists x :: x in ids && Active(db, n, x)) <==> n == id
    ensures Containing(db, ids) == [id]
  {
    var cs := Containing(db, ids);
    assert |cs| > 1 ==> cs[0] < cs[1];
    assert forall i :: 0 <= i < |cs| ==> cs[i] in cs;
    assert Live(db, id) && exists x :: x in ids && Active(db, id, x);
    assert id in cs;
  }

  lemma AddKnown(db: Db, m: MergedId, xs: set<StagedId>)
    requires OneHome(db) && forall x :: x in xs ==> Active(db, m, x)
    ensures AddAll(db, m, xs) == Commit(db)
  {
    AddAllCommits(db, m, xs);
    assert db.rows + AllTrue(set x | x in xs :: (m, x)) == db.rows;
  }

  lemma SameGroup(db: Db, later: Db, source: StagedId, matches: seq<Match>)
    requires later.staged == db.staged
    ensures Alone(later, source, matches) == Alone(db, source, matches)
    ensures Joined(later, source, matches) == Joined(db, source, matches)
  {
    var ids := Collected(source, matches);
    assert Loaded(later, source, ids) == Loaded(db, source, ids);
  }

  lemma OneClusterLeft(db: Db, source: StagedId, matches: seq<Match>, d: Db, id: MergedId, later: Db)
    requires Owned(db) && Effect(db, source, matches, d, id) && Owned(later)
    requires forall n, x :: Active(later, n, x) <==> Active(d, n, x)
    requires later.staged == db.staged
    ensures Involved(later, source, matches) == [id]
    ensures Joined(later, source, matches) == Joined(db, source, matches)
    ensures forall x :: x in Joined(db, source, matches) ==> Active(later, id, x)
  {
    var ids := if Alone(db, source, matches) then {source} else Collected(source, matches);
    SameGroup(db, later, source, matches);
    SourceJoins(db, source, matches);
    assert Grouped(db, source, matches, source) && Active(later, id, source);
    assert forall x :: x in Joined(db, source, matches) ==> Grouped(db, source, matches, x) && Active(d, id, x);
    forall n, x | x in ids && Active(later, n, x) ensures n == id {
      NoOtherCluster(db, source, matches, d, id, ids, n, x);
    }
    OnlyCluster(later, ids, id);
  }

  lemma NoOtherCluster(db: Db, source: StagedId, matches: seq<Match>, d: Db, id: MergedId,
                       ids: set<StagedId>, n: MergedId, x: StagedId)
    requires Owned(db) && Effect(db, source, matches, d, id)
    requires Involved(db, source, matches) == Containing(db, ids) && x in ids && Active(d, n, x)
    ensures n == id
  {
    assert n != id ==> Active(db, n, x);
  }

  /** Merging again finds the one cluster left by the first time and changes nothing, whatever
      relationships were completed in between. */
  lemma MergeAgain(db: Db, source: StagedId, matches: seq<Match>, d: Db, id: MergedId, later: Db)
    requires Inv(db) && MergeEntity(db, source, matches) == Merged(d, id)
    requires later == d.(rels := later.rels) && Inv(later)
    ensures MergeEntity(later, source, matches) == Merged(later, id)
  {
    MergeEffect(db, source, matches);
    OneClusterLeft(db, source, matches, d, id, later);
    MergeSettled(later, source, matches, id);
  }

  lemma MergeSettled(db: Db, source: StagedId, matches: seq<Match>, id: MergedId)
    requires OneHome(db) && Live(db, id) && Involved(db, source, matches) == [id]
    requires id in db.count && db.count[id] == |Joined(db, source, matches)|
    requires forall x :: x in Joined(db, source, matches) ==> Active(db, id, x)
    ensures MergeEntity(db, source, matches) == Merged(db, id)
  {
    var xs := Joined(db, source, matches);
    AddKnown(db, id, xs);
    assert |{source}| == 1;
    assert db.count[id := |xs|] == db.count;
    assert Update(db, id, |xs|) == Commit(db);
  }

  ghost predicate PairsLive(db: Db, kind: string, froms: set<MergedId>, tos: set<MergedId>) {
    forall f, t :: f in froms && t in tos ==> LiveRel(db, RelKey(kind, f, t))
  }

  ghost predicate Completed(db: Db, m: MergedId, asFrom: seq<Rule>, asTo: seq<Rule>) {
    && (forall i :: 0 <= i < |asFrom| ==> PairsLive(db, asFrom[i].kind, {m}, HomesOf(db, asFrom[i].others)))
    && (forall i :: 0 <= i < |asTo| ==> PairsLive(db, asTo[i].kind, HomesOf(db, asTo[i].others), {m}))
  }

  lemma PairsDone(db: Db, kind: string, froms: set<MergedId>, tos: set<MergedId>)
    ensures PairsLive(UpsertPairs(db, kind, froms, tos), kind, froms, tos)
    ensures forall k :: LiveRel(db, k) ==> LiveRel(UpsertPairs(db, kind, froms, tos), k)
    ensures PairsLive(db, kind, froms, tos) ==> UpsertPairs(db, kind, froms, tos) == db
  {
    var d := UpsertPairs(db, kind, froms, tos);
    forall f, t | f in froms && t in tos ensures LiveRel(d, RelKey(kind, f, t)) {
      assert RelKey(kind, f, t) in PairKeys(kind, froms, tos);
    }
    if PairsLive(db, kind, froms, tos) {
      assert forall k :: k in PairKeys(kind, froms, tos) ==> LiveRel(db, k);
      assert d.rels == db.rels;
    }
  }

  lemma SameHomes(db: Db, d: Db)
    requires d.rows == db.rows
    ensures forall xs :: HomesOf(d, xs) == HomesOf(db, xs)
  {
  }

  lemma PairsStay(db: Db, d: Db, kind: string, froms: set<MergedId>, tos: set<MergedId>)
    requires PairsLive(db, kind, froms, tos) && forall k :: LiveRel(db, k) ==> LiveRel(d, k)
    ensures PairsLive(d, kind, froms, tos)
  {
  }

  lemma PairsOnly(db: Db, kind: string, froms: set<MergedId>, tos: set<MergedId>)
    ensures var d := UpsertPairs(db, kind, froms, tos); d == db.(rels := d.rels)
  {
  }

  lemma {:induction false} CompleteDone(db: Db, m: MergedId, asFrom: seq<Rule>, asTo: seq<Rule>)
    ensures var d := CompleteRules(db, m, asFrom, asTo);
      && d == db.(rels := d.rels) && Completed(d, m, asFrom, asTo)
      && forall k :: LiveRel(db, k) ==> LiveRel(d, k)
    decreases |asFrom| + |asTo|
  {
    hide UpsertPairs, PairsLive, LiveRel, HomesOf;
    var d := CompleteRules(db, m, asFrom, asTo);
    if asFrom != [] {
      var kind, hs := asFrom[0].kind, HomesOf(db, asFrom[0].others);
      var next := UpsertPairs(db, kind, {m}, hs);
      PairsDone(db, kind, {m}, hs);
      PairsOnly(db, kind, {m}, hs);
      CompleteDone(next, m, asFrom[1..], asTo);
      PairsStay(next, d, kind, {m}, hs);
      SameHomes(db, d);
      forall i | 0 <= i < |asFrom| ensures PairsLive(d, asFrom[i].kind, {m}, HomesOf(d, asFrom[i].others)) {
        if i > 0 { assert asFrom[i] == asFrom[1..][i - 1]; }
      }
    } else if asTo != [] {
      var kind, hs := asTo[0].kind, HomesOf(db, asTo[0].others);
      var next := UpsertPairs(db, kind, hs, {m});
      PairsDone(db, kind, hs, {m});
      PairsOnly(db, kind, hs, {m});
      CompleteDone(next, m, [], asTo[1..]);
      PairsStay(next, d, kind, hs, {m});
      SameHomes(db, d);
      forall i | 0 <= i < |asTo| ensures PairsLive(d, asTo[i].kind, HomesOf(d, asTo[i].others), {m}) {
        if i > 0 { assert asTo[i] == asTo[1..][i - 1]; }
      }
    }
  }

  lemma {:induction false} CompleteAgain(db: Db, m: MergedId, asFrom: seq<Rule>, asTo: seq<Rule>)
    requires Completed(db, m, asFrom, asTo)
    ensures CompleteRules(db, m, asFrom, asTo) == db
    decreases |asFrom| + |asTo|
  {
    if asFrom != [] {
      PairsDone(db, asFrom[0].kind, {m}, HomesOf(db, asFrom[0].others));
      CompleteAgain(db, m, asFrom[1..], asTo);
    } else if asTo != [] {
      PairsDone(db, asTo[0].kind, HomesOf(db, asTo[0].others), {m});
      CompleteAgain(db, m, [], asTo[1..]);
    }
  }

  lemma DeleteAgain(db: Db, x: StagedId)
    requires Inv(db)
    ensures EntityDeleted(db, x).Commit?
    ensures EntityDeleted(EntityDeleted(db, x).db, x) == EntityDeleted(db, x)
  {
    DeletionEffect(db, x);
    var d := EntityDeleted(db, x).db;
    NoneContaining(d, {x});
  }

  lemma PairAgain(db: Db, kind: string, froms: set<StagedId>, tos: set<StagedId>)
    ensures var d := RelationshipSeen(db, kind, froms, tos); RelationshipSeen(d, kind, froms, tos) == d
  {
    var d := RelationshipSeen(db, kind, froms, tos);
    assert HomesOf(d, froms) == HomesOf(db, froms) && HomesOf(d, tos) == HomesOf(db, tos);
    assert LiveHomesOf(d, froms) == LiveHomesOf(db, froms) && LiveHomesOf(d, tos) == LiveHomesOf(db, tos);
    PairsDone(db, kind, LiveHomesOf(db, froms), LiveHomesOf(db, tos));
    PairsDone(d, kind, LiveHomesOf(d, froms), LiveHomesOf(d, tos));
  }

  /** Immediate redelivery of any event, successful or not, changes no table. */
  lemma Redelivery(db: Db, e: Event)
    requires Inv(db)
    ensures Step(Step(db, e), e) == Step(db, e)
  {
    var d := Step(db, e);
    StepKeepsInv(db, e);
    match e
    case StagedUpserted(x) => assert d.staged[x := true] == d.staged;
    case StagedDeleted(x) => if x in db.staged { assert d.staged[x := false] == d.staged; }
    case EntityChanged(s, ms, f, t) =>
      var r := MergeEntity(db, s, ms);
      if r.Merged? {
        CompleteDone(r.db, r.id, f, t);
        MergeAgain(db, s, ms, r.db, r.id, d);
        CompleteAgain(d, r.id, f, t);
      }
    case EntityRemoved(x) => DeleteAgain(db, x);
    case RelationshipChanged(k, f, t) => PairAgain(db, k, f, t);
    case RelationshipRemoved(s) =>
  }

  // ---------- where the code and its comments part ----------

  /** A no-merge rule does not keep a blocked match out: it ends up in the source's cluster
      whenever any other match was not blocked, although the comments say it is filtered out. */
  lemma BlockedMatchIsMerged(db: Db, source: StagedId, matches: seq<Match>, i: nat)
    requires Inv(db) && MergeEntity(db, source, matches).Merged?
    requires i < |matches| && matches[i].blocked && StagedLive(db, matches[i].id) && matches[i].id != source
    ensures var Merged(d, id) := MergeEntity(db, source, matches);
      Active(d, id, matches[i].id) <==>
        (exists j :: 0 <= j < |matches| && !matches[j].blocked) || exists m :: Active(db, m, source) && Active(db, m, matches[i].id)
  {
    MatchesDecide(db, source, matches, matches[i].id);
  }

  /** source_count counts the entities of this step, which is the cluster's size only when the
      involved clusters held nothing else. */
  lemma SourceCountIsStepSize(db: Db, source: StagedId, matches: seq<Match>)
    requires Inv(db) && MergeEntity(db, source, matches).Merged?
    ensures var Merged(d, id) := MergeEntity(db, source, matches);
      && id in d.count && d.count[id] == |Joined(db, source, matches)| <= |Members(d, id)|
      && (d.count[id] == |Members(d, id)| <==>
           forall c, x :: c in Involved(db, source, matches) && Active(db, c, x) ==> x in Joined(db, source, matches))
  {
    MergeEffect(db, source, matches);
    var Merged(d, id) := MergeEntity(db, source, matches);
    var xs, ys := Joined(db, source, matches), Members(d, id);
    MembersAre(d, id);
    assert forall x :: x in ys <==> Grouped(db, source, matches, x);
    hide MergeEntity, Joined, Involved, Members, Inv;
    Subset(xs, ys);
    if xs != ys {
      var x :| x in ys && x !in xs;
      assert Grouped(db, source, matches, x);
    }
  }

  /** Consolidation can get stuck for good. x leaves the older cluster, comes back into a younger
      one, and is then matched with a remaining member: the stale row of the older cluster makes
      the move violate its unique constraint, and every retry fails the same way. */
  lemma ConsolidationCanGetStuck(x: StagedId, y: StagedId)
    requires x != y
    ensures Handle(Run(EMPTY, StuckEvents(x, y)), Rematch(x, y)).Abort?
  {
    StuckRun(x, y);
    RunKeepsInv(StuckEvents(x, y));
    StuckFails(Run(EMPTY, StuckEvents(x, y)), x, y);
  }

  function Rematch(x: StagedId, y: StagedId): Event {
    EntityChanged(y, [Match(x, false)], [], [])
  }

  function StuckEvents(x: StagedId, y: StagedId): seq<Event> {
    [StagedUpserted(x), StagedUpserted(y), Rematch(x, y)]
    + [StagedDeleted(x), EntityRemoved(x), StagedUpserted(x)]
    + [EntityChanged(x, [], [], [])]
  }

  lemma StuckRun(x: StagedId, y: StagedId)
    requires x != y
    ensures var db := Run(EMPTY, StuckEvents(x, y));
      && db.next == 2 && db.gone == {} && StagedLive(db, x)
      && db.rows == map[(0, x) := false, (0, y) := true, (1, x) := true]
  {
    var first := [StagedUpserted(x), StagedUpserted(y), Rematch(x, y)];
    var second := [StagedDeleted(x), EntityRemoved(x), StagedUpserted(x)];
    RunThen(EMPTY, first + second, EntityChanged(x, [], [], []));
    StuckFirst(x, y);
    StuckSecond(first, x, y);
    StuckReturn(Run(EMPTY, first + second), x, y);
  }

  lemma StuckFirst(x: StagedId, y: StagedId)
    requires x != y
    ensures var d := Run(EMPTY, [StagedUpserted(x), StagedUpserted(y), Rematch(x, y)]);
      d.next == 1 && d.gone == {} && d.rows == map[(0, x) := true, (0, y) := true] && d.rels == map[]
  {
    UnrollThree(EMPTY, [], StagedUpserted(x), StagedUpserted(y), Rematch(x, y));
    assert [] + [StagedUpserted(x), StagedUpserted(y), Rematch(x, y)]
        == [StagedUpserted(x), StagedUpserted(y), Rematch(x, y)];
    StuckJoin(EMPTY.(staged := map[x := true, y := true]), x, y);
  }

  lemma StuckSecond(es: seq<Event>, x: StagedId, y: StagedId)
    requires x != y && Run(EMPTY, es).next == 1 && Run(EMPTY, es).gone == {} && Run(EMPTY, es).rels == map[]
    requires Run(EMPTY, es).rows == map[(0, x) := true, (0, y) := true]
    ensures var d := Run(EMPTY, es + [StagedDeleted(x), EntityRemoved(x), StagedUpserted(x)]);
      d.next == 1 && d.gone == {} && StagedLive(d, x) && d.rows == map[(0, x) := false, (0, y) := true]
  {
    UnrollThree(EMPTY, es, StagedDeleted(x), EntityRemoved(x), StagedUpserted(x));
    StuckLeave(Step(Run(EMPTY, es), StagedDeleted(x)), x, y);
  }

  lemma StuckFails(db: Db, x: StagedId, y: StagedId)
    requires Inv(db) && x != y && db.next == 2 && db.gone == {} && StagedLive(db, x)
    requires db.rows == map[(0, x) := false, (0, y) := true, (1, x) := true]
    ensures MergeEntity(db, y, [Match(x, false)]).Failed?
  {
    StuckMatch(db, x, y);
    MergeFails(db, y, [Match(x, false)]);
  }

  lemma MergeFails(db: Db, source: StagedId, matches: seq<Match>)
    requires Inv(db) && StaleRow(db, source, matches)
    ensures MergeEntity(db, source, matches).Failed?
  {
    MergeEffect(db, source, matches);
  }

  lemma RunThen(db: Db, es: seq<Event>, e: Event)
    ensures Run(db, es + [e]) == Step(Run(db, es), e)
  {
    assert (es + [e])[..|es|] == es;
  }

  lemma UnrollThree(db: Db, es: seq<Event>, e: Event, f: Event, g: Event)
    ensures Run(db, es + [e, f, g]) == Step(Step(Step(Run(db, es), e), f), g)
  {
    hide Step, Run;
    RunThen(db, es, e);
    RunThen(db, es + [e], f);
    RunThen(db, es + [e] + [f], g);
    assert es + [e, f, g] == es + [e] + [f] + [g];
  }

  lemma StuckJoin(db: Db, x: StagedId, y: StagedId)
    requires x != y && db == EMPTY.(staged := map[x := true, y := true])
    ensures var d := Step(db, EntityChanged(y, [Match(x, false)], [], []));
      && d.staged == db.staged && d.next == 1 && d.gone == {}
      && d.rows == map[(0, x) := true, (0, y) := true] && d.rels == map[]
  {
    var ms := [Match(x, false)];
    PairCollected(db, x, y);
    NewForm(db, y, ms);
    hide MergeEntity, Joined, Involved, AddAll;
    AddTwo(Create(db, 2), x, y);
  }

  lemma PairCollected(db: Db, x: StagedId, y: StagedId)
    requires x != y && db == EMPTY.(staged := map[x := true, y := true])
    ensures var ms := [Match(x, false)]; Joined(db, y, ms) == {x, y} && |{x, y}| == 2 && Involved(db, y, ms) == []
  {
    var ms := [Match(x, false)];
    assert ms[0].id == x && !ms[0].blocked;
    var ids := Collected(y, ms);
    assert ids == {x, y} && Loaded(db, y, ids) == {x, y};
    assert |{x, y}| == 2;
    NoneContaining(db, ids);
  }

  lemma AddTwo(db: Db, x: StagedId, y: StagedId)
    requires db.rows == map[]
    ensures AddAll(db, 0, {x, y}) == Commit(db.(rows := map[(0, x) := true, (0, y) := true]))
  {
    assert (set z | z in {x, y} :: (0, z)) == {(0, x), (0, y)};
    assert AddAll(db, 0, {x, y}).db.rows == map[(0, x) := true, (0, y) := true];
  }

  lemma StuckLeave(db: Db, x: StagedId, y: StagedId)
    requires x != y && db.next == 1 && db.gone == {} && db.rels == map[]
    requires db.rows == map[(0, x) := true, (0, y) := true]
    ensures var d := Step(db, EntityRemoved(x));
      d.next == 1 && d.gone == {} && d.rows == map[(0, x) := false, (0, y) := true]
  {
    assert Active(db, 0, x);
    OnlyCluster(db, {x}, 0);
    var left := RemoveFromCluster(db, 0, x);
    assert Active(left, 0, y);
    MembersAre(left, 0);
    assert y in Members(left, 0);
  }

  lemma StuckReturn(db: Db, x: StagedId, y: StagedId)
    requires x != y && db.next == 1 && db.gone == {}
    requires db.rows == map[(0, x) := false, (0, y) := true]
    ensures var d := Step(db, EntityChanged(x, [], [], []));
      && d.next == 2 && d.gone == {} && d.staged == db.staged
      && d.rows == map[(0, x) := false, (0, y) := true, (1, x) := true]
  {
    NoneContaining(db, {x});
    assert AddToCluster(Create(db, 1), 1, x).Commit?;
  }

  lemma StuckMatch(db: Db, x: StagedId, y: StagedId)
    requires x != y && db.next == 2 && db.gone == {} && StagedLive(db, x)
    requires db.rows == map[(0, x) := false, (0, y) := true, (1, x) := true]
    ensures StaleRow(db, y, [Match(x, false)])
  {
    var ms := [Match(x, false)];
    assert !ms[0].blocked;
    var ids := Collected(y, ms);
    assert ids == {x, y} && x in Loaded(db, y, ids);
    Subset({x, y}, Loaded(db, y, ids));
    assert |{x, y}| == 2;
    assert Active(db, 0, y) && Active(db, 1, x);
    var cs := Involved(db, y, ms);
    assert 0 in cs && 1 in cs;
    assert forall i :: 0 <= i < |cs| ==> cs[i] in cs;
    assert cs[0] == 0 && cs[1] == 1;
  }
}
