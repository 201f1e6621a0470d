/** What merges, relationship events and rule completions do, told by blocked flags, staged rows, memberships and
    live edges alone. */
module ClusterMerges {
  import opened ClusterStore
  import opened MergeEngine
  import opened ClusterInvariants

  ghost predicate Matched(matches: seq<Match>, x: StagedId) { exists i :: 0 <= i < |matches| && matches[i].id == x }

  ghost predicate SomeUnblocked(matches: seq<Match>) { exists j :: 0 <= j < |matches| && !matches[j].blocked }

  /** Some match is not blocked, and some match, blocked or not, is another entity whose row is live. */
  ghost predicate HasCompany(db: Db, source: StagedId, matches: seq<Match>) {
    SomeUnblocked(matches) && exists x :: x != source && Matched(matches, x) && StagedLive(db, x)
  }

  /** x is put into the cluster of the source. */
  ghost predicate Takes(db: Db, source: StagedId, matches: seq<Match>, x: StagedId) {
    x == source || (SomeUnblocked(matches) && Matched(matches, x) && StagedLive(db, x))
  }

  ghost predicate AreTaken(db: Db, source: StagedId, matches: seq<Match>, xs: set<StagedId>) {
    forall x :: x in xs <==> Takes(db, source, matches, x)
  }

  /** Cluster c is folded in: it holds the source or, when the source has company, a matched entity. */
  ghost predicate Meets(db: Db, source: StagedId, matches: seq<Match>, c: MergedId) {
    Live(db, c) && exists y :: Active(db, c, y) && (y == source || (HasCompany(db, source, matches) && Matched(matches, y)))
  }

  ghost predicate Oldest(db: Db, source: StagedId, matches: seq<Match>, a: MergedId) {
    Meets(db, source, matches, a) && forall c :: Meets(db, source, matches, c) ==> a <= c
  }

  lemma CollectedAre(source: StagedId, matches: seq<Match>)
    ensures forall x :: x in Collected(source, matches) <==> x == source || Matched(matches, x)
  {
  }

  lemma LoadedAlone(db: Db, source: StagedId, matches: seq<Match>)
    ensures |Loaded(db, source, Collected(source, matches))| == 1 <==>
      forall x :: x != source && Matched(matches, x) ==> !StagedLive(db, x)
  {
    CollectedAre(source, matches);
    hide Collected, Matched;
    var xs := Loaded(db, source, Collected(source, matches));
    assert source in xs && xs == {source} + (xs - {source}) && |xs| == 1 + |xs - {source}|;
    if x :| x != source && Matched(matches, x) && StagedLive(db, x) {
      assert x in xs - {source};
    } else {
      assert xs - {source} == {};
    }
  }

  lemma AloneIs(db: Db, source: StagedId, matches: seq<Match>)
    ensures Alone(db, source, matches) <==> !HasCompany(db, source, matches)
  {
    LoadedAlone(db, source, matches);
    hide Loaded, Collected, Matched;
  }

  lemma JoinedAre(db: Db, source: StagedId, matches: seq<Match>)
    ensures forall x :: x in Joined(db, source, matches) <==> Takes(db, source, matches, x)
  {
    AloneIs(db, source, matches);
    CollectedAre(source, matches);
    hide Collected, Matched, Alone;
  }

  lemma InvolvedAre(db: Db, source: StagedId, matches: seq<Match>)
    ensures forall c :: c in Involved(db, source, matches) <==> Meets(db, source, matches, c)
  {
    AloneIs(db, source, matches);
    CollectedAre(source, matches);
    hide Collected, Matched, Alone, HasCompany;
    var ids := if Alone(db, source, matches) then {source} else Collected(source, matches);
    forall c ensures c in Involved(db, source, matches) <==> Meets(db, source, matches, c) {
      if Meets(db, source, matches, c) {
        var y :| Active(db, c, y) && (y == source || (HasCompany(db, source, matches) && Matched(matches, y)));
        assert y in ids;
      }
      if c in Involved(db, source, matches) {
        var y :| y in ids && Active(db, c, y);
      }
    }
  }

  lemma OldestIs(db: Db, source: StagedId, matches: seq<Match>)
    ensures var cs := Involved(db, source, matches); cs != [] ==> Oldest(db, source, matches, cs[0])
  {
    InvolvedAre(db, source, matches);
    hide Meets;
    var cs := Involved(db, source, matches);
    if cs != [] {
      assert cs[0] in cs;
      forall c | Meets(db, source, matches, c) ensures cs[0] <= c {
        assert c in cs;
      }
    }
  }

  /** The oldest cluster folded in holds a leftover row for a member of another. */
  ghost predicate RowInTheWay(db: Db, source: StagedId, matches: seq<Match>) {
    exists a: MergedId, c: MergedId, x: StagedId :: Oldest(db, source, matches, a) && Meets(db, source, matches, c) && c != a && Active(db, c, x) && (a, x) in db.rows
  }

  lemma StaleIs(db: Db, source: StagedId, matches: seq<Match>)
    ensures StaleRow(db, source, matches) <==> RowInTheWay(db, source, matches)
  {
    InvolvedAre(db, source, matches);
    OldestIs(db, source, matches);
    hide Meets, Involved;
    var cs := Involved(db, source, matches);
    if StaleRow(db, source, matches) {
      var c, x :| c in cs && c != cs[0] && Active(db, c, x) && (cs[0], x) in db.rows;
      assert Oldest(db, source, matches, cs[0]) && Meets(db, source, matches, c);
    }
    if a: MergedId, c: MergedId, x: StagedId :| Oldest(db, source, matches, a) && Meets(db, source, matches, c) && c != a && Active(db, c, x) && (a, x) in db.rows {
      assert c in cs;
      assert a == cs[0];
    }
  }

  ghost predicate Leftover(db: Db, r: (MergedId, StagedId)) { r in db.rows && !db.rows[r] }

  ghost predicate KeepsLeftovers(db: Db, d: Db) { forall r | Leftover(db, r) :: r in d.rows }

  lemma {:induction false} AbsorbKeepsLeftovers(db: Db, survivor: MergedId, others: seq<MergedId>)
    requires Absorb(db, survivor, others).Commit?
    ensures forall r | Leftover(db, r) :: Leftover(Absorb(db, survivor, others).db, r)
    decreases |others|
  {
    if others != [] {
      hide Leftover;
      AbsorbOneKeepsLeftovers(db, survivor, others[0]);
      AbsorbKeepsLeftovers(AbsorbOne(db, survivor, others[0]).db, survivor, others[1..]);
    }
  }

  lemma AbsorbOneKeepsLeftovers(db: Db, survivor: MergedId, other: MergedId)
    requires AbsorbOne(db, survivor, other).Commit?
    ensures forall r | Leftover(db, r) :: Leftover(AbsorbOne(db, survivor, other).db, r)
  {
    hide Rewire;
    assert AbsorbOne(db, survivor, other).db.rows == MoveClusterMembers(db, other, survivor).db.rows by { RewireKeepsRows(MoveClusterMembers(db, other, survivor).db, other, survivor); }
    MoveKeepsLeftovers(db, other, survivor);
  }

  lemma RewireKeepsRows(db: Db, from: MergedId, to: MergedId)
    ensures Rewire(db, from, to).rows == db.rows
  {
  }

  lemma MoveKeepsLeftovers(db: Db, from: MergedId, to: MergedId)
    requires MoveClusterMembers(db, from, to).Commit?
    ensures forall r | Leftover(db, r) :: Leftover(MoveClusterMembers(db, from, to).db, r)
  {
    assert forall s | s in db.rows && s.0 == from && db.rows[s] :: (to, s.1) !in db.rows;
  }

  lemma AddAllKeepsLeftovers(db: Db, m: MergedId, xs: set<StagedId>)
    requires AddAll(db, m, xs).Commit?
    ensures KeepsLeftovers(db, AddAll(db, m, xs).db)
  {
  }

  lemma SingleKeepsLeftovers(db: Db, source: StagedId)
    requires UpsertSingle(db, source).Merged?
    ensures KeepsLeftovers(db, UpsertSingle(db, source).db)
  {
  }

  lemma NewKeepsLeftovers(db: Db, loaded: set<StagedId>)
    requires CreateCluster(db, loaded).Merged?
    ensures KeepsLeftovers(db, CreateCluster(db, loaded).db)
  {
    AddAllKeepsLeftovers(Create(db, |loaded|), db.next, loaded);
    hide AddAll;
  }

  lemma GrownKeepsLeftovers(db: Db, m: MergedId, loaded: set<StagedId>)
    requires ExtendCluster(db, m, loaded).Merged?
    ensures KeepsLeftovers(db, ExtendCluster(db, m, loaded).db)
  {
    AddAllKeepsLeftovers(Update(db, m, |loaded|).db, m, loaded);
    hide AddAll;
  }

  lemma UnitedKeepsLeftovers(db: Db, existing: seq<MergedId>, loaded: set<StagedId>)
    requires existing != [] && Consolidate(db, existing, loaded).Merged?
    ensures KeepsLeftovers(db, Consolidate(db, existing, loaded).db)
  {
    AbsorbKeepsLeftovers(db, existing[0], existing[1..]);
    AddAllKeepsLeftovers(Absorb(db, existing[0], existing[1..]).db, existing[0], loaded);
    hide AddAll, Absorb;
  }

  lemma MergeKeepsLeftovers(db: Db, source: StagedId, matches: seq<Match>)
    requires MergeEntity(db, source, matches).Merged?
    ensures KeepsLeftovers(db, MergeEntity(db, source, matches).db)
  {
    hide KeepsLeftovers, UpsertSingle, CreateCluster, ExtendCluster, Consolidate, NothingToMerge, Loaded, Collected;
    var ids := Collected(source, matches);
    var loaded, existing := Loaded(db, source, ids), Containing(db, ids);
    if NothingToMerge(matches) || |loaded| == 1 {
      SingleKeepsLeftovers(db, source);
    } else if |existing| == 0 {
      NewKeepsLeftovers(db, loaded);
    } else if |existing| == 1 {
      GrownKeepsLeftovers(db, existing[0], loaded);
    } else {
      UnitedKeepsLeftovers(db, existing, loaded);
    }
  }

  /** A merge fails exactly on a leftover row in the way. Otherwise one cluster, the oldest folded in or else a new one,
      holds whoever is taken in and all members of the clusters folded in; those have no members left, every
      other cluster keeps its own, rows of former members stay, and the count is that of whoever is taken in. */
  lemma MergePlainly(db: Db, source: StagedId, matches: seq<Match>)
    requires Inv(db)
    ensures MergeEntity(db, source, matches).Failed? <==> RowInTheWay(db, source, matches)
    ensures MergeEntity(db, source, matches).Merged? ==>
      var Merged(d, id) := MergeEntity(db, source, matches);
      && d.staged == db.staged && Live(d, id)
      && (if exists c :: Meets(db, source, matches, c) then Oldest(db, source, matches, id) else id == db.next)
      && (forall x :: Active(d, id, x) <==>
            Takes(db, source, matches, x) || exists c :: Meets(db, source, matches, c) && Active(db, c, x))
      && (forall n, x :: n != id ==> (Active(d, n, x) <==> Active(db, n, x) && !Meets(db, source, matches, n)))
      && KeepsLeftovers(db, d)
      && forall xs {:trigger AreTaken(db, source, matches, xs)} :: AreTaken(db, source, matches, xs) ==> d.count == db.count[id := |xs|]
  {
    MergeEffect(db, source, matches);
    StaleIs(db, source, matches);
    InvolvedAre(db, source, matches);
    JoinedAre(db, source, matches);
    OldestIs(db, source, matches);
    hide MergeEntity, Involved, Joined, Meets, Takes, StaleRow, RowInTheWay, Inv, KeepsLeftovers;
    if MergeEntity(db, source, matches).Merged? {
      MergeKeepsLeftovers(db, source, matches);
      forall xs | AreTaken(db, source, matches, xs) ensures xs == Joined(db, source, matches) {}
    }
  }

  /** With one match that is not blocked every match with a live row, blocked or not, ends in the source's cluster;
      with none, nobody does who did not share a cluster with the source. */
  lemma MatchesDecide(db: Db, source: StagedId, matches: seq<Match>, x: StagedId)
    requires Inv(db) && MergeEntity(db, source, matches).Merged?
    ensures var Merged(d, id) := MergeEntity(db, source, matches); Active(d, id, source)
    ensures var Merged(d, id) := MergeEntity(db, source, matches);
      ((exists j :: 0 <= j < |matches| && !matches[j].blocked) && (exists i :: 0 <= i < |matches| && matches[i].id == x) && StagedLive(db, x))
      ==> Active(d, id, x)
    ensures var Merged(d, id) := MergeEntity(db, source, matches);
      (forall j :: 0 <= j < |matches| ==> matches[j].blocked) && x != source ==>
        (Active(d, id, x) <==> exists m :: Active(db, m, source) && Active(db, m, x))
  {
    MergePlainly(db, source, matches);
    hide MergeEntity, Oldest;
  }

  // ---------- edges ----------

  /** A relationship event adds an edge of its kind for each live cluster of a from-entity and each live cluster of a
      to-entity, and nothing else. */
  lemma RelationshipEdges(db: Db, kind: string, froms: set<StagedId>, tos: set<StagedId>)
    ensures var d := RelationshipSeen(db, kind, froms, tos);
      && d == db.(rels := d.rels)
      && forall k :: LiveRel(d, k) <==> LiveRel(db, k) || (k.kind == kind && HomeOfSome(db, k.from, froms) && Live(db, k.from)
                                                           && HomeOfSome(db, k.to, tos) && Live(db, k.to))
  {
    HomesAre(db, froms);
    HomesAre(db, tos);
    hide HomesOf, HomeOfSome;
    forall k ensures k in PairKeys(kind, LiveHomesOf(db, froms), LiveHomesOf(db, tos)) <==>
      k.kind == kind && k.from in LiveHomesOf(db, froms) && k.to in LiveHomesOf(db, tos)
    {
      PairIs(kind, LiveHomesOf(db, froms), LiveHomesOf(db, tos), k);
    }
  }

  ghost predicate HomeOfSome(db: Db, m: MergedId, xs: set<StagedId>) { exists x :: x in xs && Active(db, m, x) }

  lemma HomesAre(db: Db, xs: set<StagedId>)
    ensures forall m :: m in HomesOf(db, xs) <==> HomeOfSome(db, m, xs)
  {
    forall m, x | x in xs && Active(db, m, x) ensures m in HomesOf(db, xs) { assert (m, x) in db.rows && (m, x).1 == x; }
    forall m | m in HomesOf(db, xs) ensures HomeOfSome(db, m, xs) {
      var r :| r in db.rows && db.rows[r] && r.1 in xs && r.0 == m;
      assert r == (m, r.1) && Active(db, m, r.1);
    }
  }

  lemma PairIs(kind: string, froms: set<MergedId>, tos: set<MergedId>, k: RelKey)
    ensures k in PairKeys(kind, froms, tos) <==> k.kind == kind && k.from in froms && k.to in tos
  {
    if k.kind == kind && k.from in froms && k.to in tos { assert k == RelKey(kind, k.from, k.to); }
  }

  /** The edge k completes a rule for m on the from side, or on the to side. */
  ghost predicate CompletesFrom(db: Db, m: MergedId, r: Rule, k: RelKey) { k.kind == r.kind && k.from == m && HomeOfSome(db, k.to, r.others) }
  ghost predicate CompletesTo(db: Db, m: MergedId, r: Rule, k: RelKey) { k.kind == r.kind && k.to == m && HomeOfSome(db, k.from, r.others) }

  ghost predicate CompletesSomeFrom(db: Db, m: MergedId, rs: seq<Rule>, k: RelKey) { exists r :: r in rs && CompletesFrom(db, m, r, k) }
  ghost predicate CompletesSomeTo(db: Db, m: MergedId, rs: seq<Rule>, k: RelKey) { exists r :: r in rs && CompletesTo(db, m, r, k) }

  lemma FirstRule(db: Db, m: MergedId, rs: seq<Rule>)
    requires rs != []
    ensures forall k :: CompletesSomeFrom(db, m, rs, k) <==> CompletesFrom(db, m, rs[0], k) || CompletesSomeFrom(db, m, rs[1..], k)
    ensures forall k :: CompletesSomeTo(db, m, rs, k) <==> CompletesTo(db, m, rs[0], k) || CompletesSomeTo(db, m, rs[1..], k)
  {
    hide CompletesFrom, CompletesTo;
    assert rs == [rs[0]] + rs[1..];
  }

  lemma SameRules(db: Db, d: Db, m: MergedId)
    requires d.rows == db.rows
    ensures forall rs, k :: CompletesSomeFrom(d, m, rs, k) == CompletesSomeFrom(db, m, rs, k)
    ensures forall rs, k :: CompletesSomeTo(d, m, rs, k) == CompletesSomeTo(db, m, rs, k)
  {
    SameHomeOfSome(db, d);
    hide HomeOfSome;
    assert forall r, k :: CompletesFrom(d, m, r, k) == CompletesFrom(db, m, r, k) && CompletesTo(d, m, r, k) == CompletesTo(db, m, r, k);
  }

  /** Completing rules adds, for each, the edges between m and every cluster, live or not, of an entity that waits on
      its other side, and nothing else. */
  lemma {:induction false} CompletionEdges(db: Db, m: MergedId, asFrom: seq<Rule>, asTo: seq<Rule>)
    ensures var d := CompleteRules(db, m, asFrom, asTo);
      && d == db.(rels := d.rels)
      && forall k :: LiveRel(d, k) <==> LiveRel(db, k) || CompletesSomeFrom(db, m, asFrom, k) || CompletesSomeTo(db, m, asTo, k)
    decreases |asFrom| + |asTo|
  {
    hide HomesOf, UpsertPairs, CompletesSomeFrom, CompletesSomeTo, LiveRel;
    if asFrom != [] {
      var t := UpsertPairs(db, asFrom[0].kind, {m}, HomesOf(db, asFrom[0].others));
      FromAdded(db, m, asFrom[0]);
      CompletionEdges(t, m, asFrom[1..], asTo);
      SameRules(db, t, m);
      FirstRule(db, m, asFrom);
    } else if asTo != [] {
      var t := UpsertPairs(db, asTo[0].kind, HomesOf(db, asTo[0].others), {m});
      ToAdded(db, m, asTo[0]);
      CompletionEdges(t, m, [], asTo[1..]);
      SameRules(db, t, m);
      FirstRule(db, m, asTo);
    } else {
      NoRules(db, m);
    }
  }

  lemma NoRules(db: Db, m: MergedId)
    ensures forall k :: !CompletesSomeFrom(db, m, [], k) && !CompletesSomeTo(db, m, [], k)
  {
  }

  lemma FromAdded(db: Db, m: MergedId, r: Rule)
    ensures var d := UpsertPairs(db, r.kind, {m}, HomesOf(db, r.others));
      d == db.(rels := d.rels) && forall k :: LiveRel(d, k) <==> LiveRel(db, k) || CompletesFrom(db, m, r, k)
  {
    PairsAdded(db, r.kind, {m}, HomesOf(db, r.others));
    HomesAre(db, r.others);
    hide HomesOf, UpsertPairs, HomeOfSome;
  }

  lemma ToAdded(db: Db, m: MergedId, r: Rule)
    ensures var d := UpsertPairs(db, r.kind, HomesOf(db, r.others), {m});
      d == db.(rels := d.rels) && forall k :: LiveRel(d, k) <==> LiveRel(db, k) || CompletesTo(db, m, r, k)
  {
    PairsAdded(db, r.kind, HomesOf(db, r.others), {m});
    HomesAre(db, r.others);
    hide HomesOf, UpsertPairs, HomeOfSome;
  }

  lemma PairsAdded(db: Db, kind: string, froms: set<MergedId>, tos: set<MergedId>)
    ensures var d := UpsertPairs(db, kind, froms, tos);
      && d == db.(rels := d.rels)
      && forall k :: LiveRel(d, k) <==> LiveRel(db, k) || (k.kind == kind && k.from in froms && k.to in tos)
  {
    forall k ensures k in PairKeys(kind, froms, tos) <==> k.kind == kind && k.from in froms && k.to in tos {
      PairIs(kind, froms, tos, k);
    }
  }

  lemma SameHomeOfSome(db: Db, d: Db)
    requires d.rows == db.rows
    ensures forall m, xs :: HomeOfSome(d, m, xs) == HomeOfSome(db, m, xs)
  {
    forall m, xs ensures HomeOfSome(d, m, xs) == HomeOfSome(db, m, xs) {
      assert forall x :: Active(d, m, x) == Active(db, m, x);
    }
  }

  /** Row number s of relationship_clusters holds edge k up. */
  ghost predicate Supports(db: Db, s: string, k: RelKey) { s in db.relRows && db.relRows[s].active && db.relRows[s].rel == k }

  /** A relationship's deletion takes its row out, and its edge with it when no other row holds the edge up. */
  lemma RelationshipRowEffect(db: Db, s: string)
    ensures RelationshipDeleted(db, s).Commit?
    ensures var d := RelationshipDeleted(db, s).db;
      && d == db.(rels := d.rels, relRows := d.relRows)
      && (forall k :: LiveRel(d, k) <==>
            LiveRel(db, k) && !(Supports(db, s, k) && forall t :: Supports(db, t, k) ==> t == s))
      && (forall t, k :: Supports(d, t, k) <==> Supports(db, t, k) && !(t == s && LiveRel(db, k)))
  {
    if s in db.relRows && Supports(db, s, db.relRows[s].rel) && LiveRel(db, db.relRows[s].rel) {
      var k := db.relRows[s].rel;
      var left := db.(relRows := db.relRows[s := RelMember(k, false)]);
      assert forall t :: Supports(left, t, k) <==> Supports(db, t, k) && t != s;
      if t :| t in left.relRows && left.relRows[t].active && left.relRows[t].rel == k { assert Supports(left, t, k); }
    }
  }
}
