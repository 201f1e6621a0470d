/** What single steps do to clusters: the effect of a merge in terms of members, when it can
    fail, and what every step keeps. */
module ClusterInvariants {
  import opened ClusterStore
  import opened MergeEngine

  // ---------- the shape of a merge ----------

  /** True when the step treats the source alone: nothing unblocked, or nothing else loads. */
  predicate Alone(db: Db, source: StagedId, matches: seq<Match>) {
    NothingToMerge(matches) || |Loaded(db, source, Collected(source, matches))| == 1
  }

  /** The staged entities the step adds to the resulting cluster. */
  function Joined(db: Db, source: StagedId, matches: seq<Match>): set<StagedId> {
    if Alone(db, source, matches) then {source} else Loaded(db, source, Collected(source, matches))
  }

  /** The clusters the step folds together, oldest first. */
  function Involved(db: Db, source: StagedId, matches: seq<Match>): seq<MergedId> {
    Containing(db, if Alone(db, source, matches) then {source} else Collected(source, matches))
  }

  ghost predicate Grouped(db: Db, source: StagedId, matches: seq<Match>, x: StagedId) {
    x in Joined(db, source, matches) || exists c :: c in Involved(db, source, matches) && Active(db, c, x)
  }

  /** Some younger involved cluster has an active member for which the oldest one still holds a
      row. Under the invariant that row is a removed one. */
  ghost predicate StaleRow(db: Db, source: StagedId, matches: seq<Match>) {
    var cs := Involved(db, source, matches);
    cs != [] && exists c, x :: c in cs && c != cs[0] && Active(db, c, x) && (cs[0], x) in db.rows
  }

  lemma SourceJoins(db: Db, source: StagedId, matches: seq<Match>)
    ensures source in Joined(db, source, matches)
  {
  }

  // ---------- adding members ----------

  lemma AddAllCommits(db: Db, m: MergedId, xs: set<StagedId>)
    requires forall n, x :: Active(db, n, x) && x in xs ==> n == m
    ensures AddAll(db, m, xs).Commit?
  {
    if r :| r in db.rows && r.1 in xs && r.0 != m && db.rows[r] {
      assert Active(db, r.0, r.1);
    }
  }

  lemma AddOneIsAddAll(db: Db, m: MergedId, x: StagedId)
    ensures AddToCluster(db, m, x) == AddAll(db, m, {x})
  {
    AddOneAborts(db, m, x);
    if AddAll(db, m, {x}).Commit? { OneRow(db, m, x); }
    hide AllTrue, AddAll;
  }

  lemma OneRow(db: Db, m: MergedId, x: StagedId)
    requires AddAll(db, m, {x}).Commit?
    ensures AddAll(db, m, {x}) == Commit(db.(rows := db.rows[(m, x) := true]))
  {
    var r := AddAll(db, m, {x}).db.rows;
    assert forall k :: k in r <==> k in db.rows || k == (m, x);
    assert r == db.rows[(m, x) := true];
  }

  lemma AddOneAborts(db: Db, m: MergedId, x: StagedId)
    ensures AddToCluster(db, m, x).Abort? <==> AddAll(db, m, {x}).Abort?
  {
    assert forall r :: r in db.rows ==> (r.1 == x <==> r.1 in {x});
  }

  /** Adding members to a live cluster keeps the invariant; the cluster itself may be empty
      before. */
  lemma AddAllKeeps(db: Db, m: MergedId, xs: set<StagedId>)
    requires Live(db, m) && xs != {} && AddAll(db, m, xs).Commit?
    requires Owned(db) && OneHome(db) && Attached(db) && Keyed(db)
    requires forall n :: Live(db, n) && n != m ==> exists x :: Active(db, n, x)
    ensures Inv(AddAll(db, m, xs).db)
  {
    var d := AddAll(db, m, xs).db;
    AddAllRows(db, m, xs);
    assert forall k :: LiveRel(d, k) <==> LiveRel(db, k);
    forall n, x | Active(db, n, x) && x in xs ensures n == m {
      assert (n, x) in db.rows && db.rows[(n, x)] && (n, x).1 in xs;
    }
    forall n | Live(d, n) ensures exists x :: Active(d, n, x) {
      if n == m {
        var x :| x in xs;
        assert Active(d, m, x);
      } else {
        assert Live(db, n);
        var x :| Active(db, n, x);
        assert Active(d, n, x);
      }
    }
  }

  // ---------- absorbing clusters ----------

  /** d is db with the members of cs moved to s. */
  ghost predicate Pooled(db: Db, d: Db, s: MergedId, cs: seq<MergedId>) {
    forall n, x :: Active(d, n, x) <==>
      if n == s then Active(db, s, x) || exists c :: c in cs && Active(db, c, x)
      else n !in cs && Active(db, n, x)
  }

  lemma MoveAborts(db: Db, s: MergedId, c: MergedId)
    ensures MoveClusterMembers(db, c, s).Abort? <==> exists x :: Active(db, c, x) && (s, x) in db.rows
  {
    if r :| r in db.rows && r.0 == c && db.rows[r] && (s, r.1) in db.rows {
      assert r == (c, r.1) && Active(db, c, r.1);
    }
    if x :| Active(db, c, x) && (s, x) in db.rows {
      assert (c, x) in db.rows && (c, x).1 == x;
    }
  }

  lemma AbsorbOneRows(db: Db, s: MergedId, c: MergedId)
    requires s != c && AbsorbOne(db, s, c).Commit?
    ensures Live(db, c)
    ensures var d := AbsorbOne(db, s, c).db;
      && Pooled(db, d, s, [c])
      && (forall n, x :: (n, x) in d.rows ==> (n, x) in db.rows || (n == s && Active(db, c, x)))
      && (forall x :: (s, x) in db.rows ==> (s, x) in d.rows)
      && d.staged == db.staged && d.next == db.next && d.gone == db.gone + {c} && d.count == db.count
  {
    var d := AbsorbOne(db, s, c).db;
    var moved := MoveClusterMembers(db, c, s).db;
    MoveRows(db, c, s);
    assert d.rows == moved.rows;
    assert forall n, x :: Active(d, n, x) <==> Active(moved, n, x);
  }

  lemma AbsorbOneEdges(db: Db, s: MergedId, c: MergedId)
    requires s != c && AbsorbOne(db, s, c).Commit?
    ensures forall k :: LiveRel(AbsorbOne(db, s, c).db, k) <==>
      exists k0 :: LiveRel(db, k0) && k == RenameKey(k0, c, s)
  {
    var moved := MoveClusterMembers(db, c, s).db;
    assert forall k :: LiveRel(moved, k) <==> LiveRel(db, k);
    RewireEdges(moved, c, s);
    assert forall k :: LiveRel(AbsorbOne(db, s, c).db, k) <==> LiveRel(Rewire(moved, c, s), k);
  }

  lemma AbsorbOneKeeps(db: Db, s: MergedId, c: MergedId)
    requires Inv(db) && s != c && Live(db, s) && MoveClusterMembers(db, c, s).Commit? && Live(db, c)
    ensures AbsorbOne(db, s, c).Commit?
    ensures var d := AbsorbOne(db, s, c).db;
      && Inv(d) && d.staged == db.staged && d.next == db.next && d.gone == db.gone + {c} && d.count == db.count
  {
    AbsorbOneRows(db, s, c);
    AbsorbOneEdges(db, s, c);
    AbsorbedKeeps(db, AbsorbOne(db, s, c).db, s, c);
  }

  lemma AbsorbedKeeps(db: Db, d: Db, s: MergedId, c: MergedId)
    requires Inv(db) && s != c && Live(db, s)
    requires d.next == db.next && d.gone == db.gone + {c} && Pooled(db, d, s, [c]) && c < db.next
    requires forall n, x :: (n, x) in d.rows ==> (n, x) in db.rows || (n == s && Active(db, c, x))
    requires forall k :: LiveRel(d, k) <==> exists k0 :: LiveRel(db, k0) && k == RenameKey(k0, c, s)
    ensures Inv(d)
  {
    forall n | Live(d, n) ensures exists x :: Active(d, n, x) {
      assert Live(db, n);
      var x :| Active(db, n, x);
      assert Active(d, n, x);
    }
  }

  ghost predicate Stale(db: Db, s: MergedId, cs: seq<MergedId>) {
    exists c, x :: c in cs && Active(db, c, x) && (s, x) in db.rows
  }

  predicate NoDuplicates(cs: seq<MergedId>) {
    cs == [] || (cs[0] !in cs[1..] && NoDuplicates(cs[1..]))
  }

  /** Absorbing a list of clusters fails exactly on a stale row, checked before the first move. */
  lemma {:induction false} AbsorbAll(db: Db, s: MergedId, cs: seq<MergedId>)
    requires Inv(db) && Live(db, s) && NoDuplicates(cs)
    requires forall c :: c in cs ==> Live(db, c) && c != s
    ensures Absorb(db, s, cs).Abort? <==> Stale(db, s, cs)
    ensures Absorb(db, s, cs).Commit? ==>
      var d := Absorb(db, s, cs).db;
      && Inv(d) && Live(d, s) && Pooled(db, d, s, cs)
      && d.staged == db.staged && d.next == db.next && d.count == db.count
    decreases |cs|
  {
    if cs != [] {
      var c, rest := cs[0], cs[1..];
      assert cs == [c] + rest;
      assert c in cs && forall e :: e in rest ==> e in cs;
      if MoveClusterMembers(db, c, s).Abort? {
        MoveAborts(db, s, c);
      } else {
        AbsorbOneKeeps(db, s, c);
        var t := AbsorbOne(db, s, c).db;
        AbsorbAll(t, s, rest);
        AbsorbThen(db, s, c, rest, Absorb(t, s, rest));
      }
    }
  }

  /** From what absorbing the rest does after the first round to what both do together. */
  lemma AbsorbThen(db: Db, s: MergedId, c: MergedId, rest: seq<MergedId>, r: Tx)
    requires OneHome(db) && s != c && s !in rest && c !in rest && AbsorbOne(db, s, c).Commit?
    requires r.Abort? <==> Stale(AbsorbOne(db, s, c).db, s, rest)
    requires r.Commit? ==> Pooled(AbsorbOne(db, s, c).db, r.db, s, rest)
    ensures r.Abort? <==> Stale(db, s, [c] + rest)
    ensures r.Commit? ==> Pooled(db, r.db, s, [c] + rest)
  {
    MoveAborts(db, s, c);
    AbsorbOneRows(db, s, c);
    StaleLater(db, AbsorbOne(db, s, c).db, s, c, rest);
    if r.Commit? {
      PooledTwice(db, AbsorbOne(db, s, c).db, r.db, s, c, rest);
    }
  }

  /** Moving the first cluster neither creates nor removes a stale row for the others. */
  lemma StaleLater(db: Db, t: Db, s: MergedId, c: MergedId, rest: seq<MergedId>)
    requires OneHome(db) && c !in rest && s !in rest && s != c
    requires Pooled(db, t, s, [c]) && forall x :: Active(db, c, x) ==> (s, x) !in db.rows
    requires forall n, x :: (n, x) in t.rows ==> (n, x) in db.rows || (n == s && Active(db, c, x))
    requires forall x :: (s, x) in db.rows ==> (s, x) in t.rows
    ensures Stale(t, s, rest) <==> Stale(db, s, [c] + rest)
  {
    if e, x :| e in rest && Active(t, e, x) && (s, x) in t.rows {
      assert e in [c] + rest && Active(db, e, x);
    }
    if e, x :| e in [c] + rest && Active(db, e, x) && (s, x) in db.rows {
      assert e in rest && Active(t, e, x);
    }
  }

  lemma PooledTwice(db: Db, t: Db, d: Db, s: MergedId, c: MergedId, rest: seq<MergedId>)
    requires Pooled(db, t, s, [c]) && Pooled(t, d, s, rest) && s != c && s !in rest && c !in rest
    ensures Pooled(db, d, s, [c] + rest)
  {
    var cs := [c] + rest;
    forall x ensures Active(d, s, x) <==> Active(db, s, x) || exists c :: c in cs && Active(db, c, x) {
      if e :| e in cs && Active(db, e, x) {
        if e != c { assert e in rest && Active(t, e, x); }
      }
      if e :| e in rest && Active(t, e, x) { assert e in cs; }
    }
  }

  // ---------- the effect of a merge ----------

  /** What a successful merge leaves: one cluster holding the group, the others untouched. */
  ghost predicate Effect(db: Db, source: StagedId, matches: seq<Match>, d: Db, id: MergedId) {
    var cs := Involved(db, source, matches);
    && d.staged == db.staged && Live(d, id)
    && id == (if cs == [] then db.next else cs[0])
    && d.count == db.count[id := |Joined(db, source, matches)|]
    && (forall n, x :: Active(d, n, x) <==>
          if n == id then Grouped(db, source, matches, x) else n !in cs && Active(db, n, x))
  }

  lemma MembersJoinOrMove(db: Db, source: StagedId, matches: seq<Match>)
    requires Owned(db)
    ensures forall n, x :: Active(db, n, x) && x in Joined(db, source, matches) ==>
      n in Involved(db, source, matches)
  {
  }

  lemma NewForm(db: Db, source: StagedId, matches: seq<Match>)
    requires Involved(db, source, matches) == []
    ensures var xs := Joined(db, source, matches);
      MergeEntity(db, source, matches) == Finish(AddAll(Create(db, |xs|), db.next, xs), db.next)
  {
    hide AddAll, AddToCluster, Containing, Loaded, Collected;
    assert |{source}| == 1;
    AddOneIsAddAll(Create(db, 1), db.next, source);
  }

  lemma NewCluster(db: Db, source: StagedId, matches: seq<Match>)
    requires Inv(db) && Involved(db, source, matches) == []
    ensures MergeEntity(db, source, matches).Merged?
    ensures var Merged(d, id) := MergeEntity(db, source, matches);
      Inv(d) && Effect(db, source, matches, d, id)
  {
    NewForm(db, source, matches);
    hide MergeEntity, Joined, Involved;
    var xs := Joined(db, source, matches);
    var c := Create(db, |xs|);
    SourceJoins(db, source, matches);
    MembersJoinOrMove(db, source, matches);
    CreateKeeps(db, |xs|);
    AddAllCommits(c, db.next, xs);
    AddAllKeeps(c, db.next, xs);
    AddAllRows(c, db.next, xs);
  }

  lemma CreateKeeps(db: Db, sources: nat)
    requires Inv(db)
    ensures var c := Create(db, sources);
      && Owned(c) && OneHome(c) && Attached(c) && Keyed(c) && Live(c, db.next)
      && (forall n, x :: Active(c, n, x) <==> Active(db, n, x))
      && forall n :: Live(c, n) && n != db.next ==> exists x :: Active(c, n, x)
  {
    var c := Create(db, sources);
    assert forall n, x :: Active(c, n, x) <==> Active(db, n, x);
    assert forall k :: LiveRel(c, k) <==> LiveRel(db, k);
    forall n | Live(c, n) && n != db.next ensures exists x :: Active(c, n, x) {
      assert Live(db, n);
      var x :| Active(db, n, x);
      assert Active(c, n, x);
    }
  }

  lemma GrownForm(db: Db, source: StagedId, matches: seq<Match>)
    requires OneHome(db) && |Involved(db, source, matches)| == 1
    ensures var m, xs := Involved(db, source, matches)[0], Joined(db, source, matches);
      Live(db, m) && MergeEntity(db, source, matches) == Finish(AddAll(Update(db, m, |xs|).db, m, xs), m)
  {
    hide AddAll, AddToCluster, Loaded, Collected, OneHome;
    var m := Involved(db, source, matches)[0];
    assert m in Involved(db, source, matches);
    assert |{source}| == 1;
    if Alone(db, source, matches) {
      UpdateHomes(db, m, 1);
      AddNothing(Update(db, m, 1).db, m, source);
    }
  }

  lemma UpdateHomes(db: Db, m: MergedId, n: nat)
    requires OneHome(db) && Live(db, m)
    ensures OneHome(Update(db, m, n).db) && forall k, x :: Active(Update(db, m, n).db, k, x) <==> Active(db, k, x)
  {
    assert forall k, x :: Active(Update(db, m, n).db, k, x) <==> Active(db, k, x);
  }

  lemma GrownCluster(db: Db, source: StagedId, matches: seq<Match>)
    requires Inv(db) && |Involved(db, source, matches)| == 1
    ensures MergeEntity(db, source, matches).Merged?
    ensures var Merged(d, id) := MergeEntity(db, source, matches);
      Inv(d) && Effect(db, source, matches, d, id)
  {
    GrownForm(db, source, matches);
    hide MergeEntity, Joined, Involved, Inv, AddAll, Live;
    var xs := Joined(db, source, matches);
    var m := Involved(db, source, matches)[0];
    assert Involved(db, source, matches) == [m];
    SourceJoins(db, source, matches);
    assert Owned(db) by { InvOwned(db); }
    MembersJoinOrMove(db, source, matches);
    hide Owned, Effect, Update;
    UpdateAndAdd(db, m, xs);
    GrownEffect(db, source, matches, AddAll(Update(db, m, |xs|).db, m, xs).db, m);
  }

  lemma GrownEffect(db: Db, source: StagedId, matches: seq<Match>, d: Db, m: MergedId)
    requires Involved(db, source, matches) == [m] && Live(d, m) && d.staged == db.staged
    requires d.count == db.count[m := |Joined(db, source, matches)|]
    requires forall n, x :: Active(d, n, x) <==> Active(db, n, x) || (n == m && x in Joined(db, source, matches))
    ensures Effect(db, source, matches, d, m)
  {
    hide Involved, Joined, Live, Active;
  }

  lemma InvOwned(db: Db)
    requires Inv(db)
    ensures Owned(db)
  {
  }

  lemma UpdateAndAdd(db: Db, m: MergedId, xs: set<StagedId>)
    requires Inv(db) && Live(db, m) && xs != {} && forall n, x :: Active(db, n, x) && x in xs ==> n == m
    ensures var t := AddAll(Update(db, m, |xs|).db, m, xs);
      && t.Commit? && Inv(t.db) && Live(t.db, m) && t.db.staged == db.staged && t.db.count == db.count[m := |xs|]
      && forall n, x :: Active(t.db, n, x) <==> Active(db, n, x) || (n == m && x in xs)
  {
    var u := Update(db, m, |xs|).db;
    UpdateHomes(db, m, |xs|);
    UpdateKeeps(db, m, |xs|);
    AddAllCommits(u, m, xs);
    AddAllRows(u, m, xs);
    hide Owned, OneHome, Attached, Keyed, AddAll;
    AddAllKeeps(u, m, xs);
  }

  lemma UpdateKeeps(db: Db, m: MergedId, n: nat)
    requires Inv(db) && Live(db, m)
    ensures Inv(Update(db, m, n).db)
  {
    var u := Update(db, m, n).db;
    assert forall k :: LiveRel(u, k) <==> LiveRel(db, k);
    assert forall k, x :: Active(u, k, x) <==> Active(db, k, x);
    forall k | Live(u, k) ensures exists x :: Active(u, k, x) {
      assert Live(db, k);
      var x :| Active(db, k, x);
      assert Active(u, k, x);
    }
  }

  lemma AddNothing(db: Db, m: MergedId, x: StagedId)
    requires OneHome(db) && Active(db, m, x)
    ensures AddAll(db, m, {x}) == Commit(db)
  {
    AddAllCommits(db, m, {x});
    assert (set y | y in {x} :: (m, y)) == {(m, x)};
    assert db.rows + AllTrue({(m, x)}) == db.rows;
  }

  lemma UnitedCluster(db: Db, source: StagedId, matches: seq<Match>)
    requires Inv(db) && |Involved(db, source, matches)| > 1 && !Alone(db, source, matches)
    ensures var cs := Involved(db, source, matches);
      MergeEntity(db, source, matches).Failed? <==> Stale(db, cs[0], cs[1..])
    ensures MergeEntity(db, source, matches).Merged? ==>
      var Merged(d, id) := MergeEntity(db, source, matches);
      Inv(d) && Effect(db, source, matches, d, id)
  {
    hide Loaded, Collected, AddAll, Absorb, Effect, Stale, Containing, Owned, OneHome, Inhabited, Attached, Keyed, Pooled;
    var cs := Involved(db, source, matches);
    InvolvedDistinct(db, source, matches);
    AbsorbAll(db, cs[0], cs[1..]);
    var a := Absorb(db, cs[0], cs[1..]);
    if a.Commit? {
      UnitedMembers(db, a.db, source, matches);
    }
  }

  lemma InvolvedDistinct(db: Db, source: StagedId, matches: seq<Match>)
    requires Involved(db, source, matches) != []
    ensures var cs := Involved(db, source, matches);
      && Live(db, cs[0]) && NoDuplicates(cs[1..])
      && forall c :: c in cs[1..] ==> Live(db, c) && c != cs[0]
  {
    var cs := Involved(db, source, matches);
    assert forall i :: 0 <= i < |cs| ==> cs[i] in cs;
    AscendingDistinct(cs[1..]);
  }

  lemma {:induction false} AscendingDistinct(cs: seq<MergedId>)
    requires forall i, j :: 0 <= i < j < |cs| ==> cs[i] < cs[j]
    ensures NoDuplicates(cs)
  {
    if cs != [] { AscendingDistinct(cs[1..]); }
  }

  /** After the moves: add the joined entities and update the survivor. */
  lemma UnitedMembers(db: Db, a: Db, source: StagedId, matches: seq<Match>)
    requires Owned(db) && Inv(a) && Involved(db, source, matches) != []
    requires var cs := Involved(db, source, matches);
      Live(a, cs[0]) && Pooled(db, a, cs[0], cs[1..]) && a.staged == db.staged && a.count == db.count
    ensures var s, xs := Involved(db, source, matches)[0], Joined(db, source, matches);
      && AddAll(a, s, xs).Commit?
      && var t := Update(AddAll(a, s, xs).db, s, |xs|);
         t.Commit? && Inv(t.db) && Effect(db, source, matches, t.db, s)
  {
    var cs, xs := Involved(db, source, matches), Joined(db, source, matches);
    var s, rest := cs[0], cs[1..];
    assert cs == [s] + rest;
    MembersJoinOrMove(db, source, matches);
    AddAllCommits(a, s, xs);
    AddAllKeeps(a, s, xs);
    AddAllRows(a, s, xs);
    var b := AddAll(a, s, xs).db;
    UpdateKeeps(b, s, |xs|);
    var d := Update(b, s, |xs|).db;
    assert forall n, x :: Active(d, n, x) <==> Active(b, n, x);
    forall x ensures Active(d, s, x) <==> Grouped(db, source, matches, x) {
      if c :| c in cs && Active(db, c, x) { assert c == s || c in rest; }
      if Active(db, s, x) { assert s in cs; }
      if c :| c in rest && Active(db, c, x) { assert c in cs; }
    }
  }

  lemma AloneHasOneHome(db: Db, source: StagedId, matches: seq<Match>)
    requires Inv(db) && Alone(db, source, matches)
    ensures |Involved(db, source, matches)| <= 1
  {
    var cs := Involved(db, source, matches);
    assert |cs| > 1 ==> cs[0] != cs[1];
    forall i | 0 <= i < |cs| ensures Active(db, cs[i], source) {
      assert cs[i] in cs;
    }
  }

  /** A merge fails exactly when a stale row stands in the way of moving a member; otherwise it
      keeps the invariant, the resulting cluster is the union of the involved clusters and the
      joined entities, and every other cluster is untouched. */
  lemma MergeEffect(db: Db, source: StagedId, matches: seq<Match>)
    requires Inv(db)
    ensures MergeEntity(db, source, matches).Failed? <==> StaleRow(db, source, matches)
    ensures MergeEntity(db, source, matches).Merged? ==>
      var Merged(d, id) := MergeEntity(db, source, matches);
      Inv(d) && Effect(db, source, matches, d, id)
  {
    hide MergeEntity, Effect, Inv, Involved, StaleRow, Stale;
    var cs := Involved(db, source, matches);
    if |cs| <= 1 { NoStaleRow(db, source, matches); }
    if |cs| == 0 {
      NewCluster(db, source, matches);
    } else if |cs| == 1 {
      GrownCluster(db, source, matches);
    } else {
      if Alone(db, source, matches) { AloneHasOneHome(db, source, matches); }
      UnitedCluster(db, source, matches);
      StaleRowIsStale(db, source, matches);
    }
  }

  lemma NoStaleRow(db: Db, source: StagedId, matches: seq<Match>)
    requires |Involved(db, source, matches)| <= 1
    ensures !StaleRow(db, source, matches)
  {
  }

  lemma StaleRowIsStale(db: Db, source: StagedId, matches: seq<Match>)
    requires Involved(db, source, matches) != []
    ensures var cs := Involved(db, source, matches);
      StaleRow(db, source, matches) <==> Stale(db, cs[0], cs[1..])
  {
    var cs := Involved(db, source, matches);
    InvolvedDistinct(db, source, matches);
    assert cs == [cs[0]] + cs[1..];
  }
}
