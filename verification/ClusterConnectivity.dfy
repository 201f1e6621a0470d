/** Without deletions, clusters are the connected components of the graph whose edges link each
    merged entity to the entities collected with it. */
module ClusterConnectivity {
  import opened ClusterStore
  import opened MergeEngine
  import opened ClusterInvariants
  import opened ClusterRuns

  type Edges = set<(StagedId, StagedId)>

  predicate Adjacent(g: Edges, a: StagedId, b: StagedId) {
    (a, b) in g || (b, a) in g
  }

  ghost predicate IsPath(g: Edges, p: seq<StagedId>) {
    p != [] && forall i :: 0 <= i < |p| - 1 ==> Adjacent(g, p[i], p[i + 1])
  }

  ghost predicate PathBetween(g: Edges, p: seq<StagedId>, a: StagedId, b: StagedId) {
    IsPath(g, p) && p[0] == a && p[|p| - 1] == b
  }

  ghost predicate Connected(g: Edges, a: StagedId, b: StagedId) {
    exists p :: PathBetween(g, p, a, b)
  }

  predicate Known(g: Edges, a: StagedId) {
    (a, a) in g
  }

  ghost predicate Together(db: Db, a: StagedId, b: StagedId) {
    exists m :: Active(db, m, a) && Active(db, m, b)
  }

  ghost predicate Components(db: Db, g: Edges) {
    && (forall a, b :: (a, b) in g ==> Known(g, a) && Known(g, b))
    && forall a, b :: Together(db, a, b) <==> Known(g, a) && Known(g, b) && Connected(g, a, b)
  }

  // ---------- the edges of a run ----------

  /** Every entity the step puts in the resulting cluster, and every collected match that already
      sits in a cluster. */
  function Endpoints(db: Db, source: StagedId, matches: seq<Match>): set<StagedId> {
    Joined(db, source, matches)
    + if Alone(db, source, matches) then {}
      else set x | x in Collected(source, matches) && exists r :: r in db.rows && r.1 == x && db.rows[r]
  }

  function StarEdges(source: StagedId, ends: set<StagedId>): Edges {
    (set x | x in ends :: (source, x)) + (set x | x in ends :: (x, x))
  }

  function StepEdges(db: Db, e: Event): Edges {
    if e.EntityChanged? && Handle(db, e).Commit?
    then StarEdges(e.source, Endpoints(db, e.source, e.matches)) else {}
  }

  function RunEdges(es: seq<Event>): Edges {
    if es == [] then {}
    else RunEdges(es[..|es| - 1]) + StepEdges(Run(EMPTY, es[..|es| - 1]), es[|es| - 1])
  }

  // ---------- paths ----------

  lemma Join(g: Edges, a: StagedId, b: StagedId, c: StagedId)
    requires Connected(g, a, b) && Connected(g, b, c)
    ensures Connected(g, a, c)
  {
    var p :| PathBetween(g, p, a, b);
    var q :| PathBetween(g, q, b, c);
    assert PathBetween(g, p + q[1..], a, c);
  }

  lemma Flip(g: Edges, a: StagedId, b: StagedId)
    requires Connected(g, a, b)
    ensures Connected(g, b, a)
  {
    var p :| PathBetween(g, p, a, b);
    var q := seq(|p|, i requires 0 <= i < |p| => p[|p| - 1 - i]);
    forall i | 0 <= i < |q| - 1 ensures Adjacent(g, q[i], q[i + 1]) {
      var j := |p| - 2 - i;
      assert Adjacent(g, p[j], p[j + 1]);
    }
    assert PathBetween(g, q, b, a);
  }

  lemma Widen(g: Edges, h: Edges, a: StagedId, b: StagedId)
    requires Connected(g, a, b) && g <= h
    ensures Connected(h, a, b)
  {
    var p :| PathBetween(g, p, a, b);
    assert PathBetween(h, p, a, b);
  }

  lemma Edge(g: Edges, a: StagedId, b: StagedId)
    requires Adjacent(g, a, b)
    ensures Connected(g, a, b)
  {
    assert PathBetween(g, [a, b], a, b);
  }

  /** If the ends of every edge share a cluster, so do the ends of every path. */
  lemma {:induction false} AlongPath(db: Db, g: Edges, p: seq<StagedId>)
    requires OneHome(db) && IsPath(g, p) && Known(g, p[0])
    requires forall a, b :: (a, b) in g ==> Together(db, a, b)
    ensures Together(db, p[0], p[|p| - 1])
    decreases |p|
  {
    if |p| > 1 {
      var q := p[..|p| - 1];
      AlongPath(db, g, q);
      var a, b := p[|p| - 2], p[|p| - 1];
      assert a == q[|q| - 1] && Adjacent(g, p[|p| - 2], p[|p| - 2 + 1]);
      assert Together(db, a, b);
      var m :| Active(db, m, p[0]) && Active(db, m, a);
      var n :| Active(db, n, a) && Active(db, n, b);
    }
  }

  // ---------- one merge ----------

  lemma GroupReaches(db: Db, g: Edges, source: StagedId, matches: seq<Match>, x: StagedId)
    requires Components(db, g) && Grouped(db, source, matches, x)
    ensures var h := g + StarEdges(source, Endpoints(db, source, matches));
      Known(h, x) && Connected(h, source, x)
  {
    var ends := Endpoints(db, source, matches);
    var h := g + StarEdges(source, ends);
    if x in ends {
      Edge(h, source, x);
    } else {
      var cs := Involved(db, source, matches);
      var c :| c in cs && Active(db, c, x);
      var z := Anchor(db, source, matches, c);
      Edge(h, source, z);
      assert Together(db, z, x);
      Widen(g, h, z, x);
      Join(h, source, z, x);
    }
  }

  /** Each involved cluster holds one of the collected endpoints. */
  lemma Anchor(db: Db, source: StagedId, matches: seq<Match>, c: MergedId) returns (z: StagedId)
    requires c in Involved(db, source, matches)
    ensures Active(db, c, z) && z in Endpoints(db, source, matches)
  {
    var ids := if Alone(db, source, matches) then {source} else Collected(source, matches);
    z :| z in ids && Active(db, c, z);
    assert (c, z) in db.rows && (c, z).1 == z;
  }

  lemma EndpointsGrouped(db: Db, source: StagedId, matches: seq<Match>)
    requires Owned(db)
    ensures forall x :: x in Endpoints(db, source, matches) ==> Grouped(db, source, matches, x)
  {
    forall x | x in Endpoints(db, source, matches) && x !in Joined(db, source, matches)
      ensures Grouped(db, source, matches, x)
    {
      var r :| r in db.rows && r.1 == x && db.rows[r];
      assert Active(db, r.0, x) && x in Collected(source, matches);
      assert r.0 in Involved(db, source, matches);
    }
  }

  lemma TogetherAfter(db: Db, source: StagedId, matches: seq<Match>, d: Db, id: MergedId, a: StagedId, b: StagedId)
    requires Owned(db) && Effect(db, source, matches, d, id)
    ensures Together(d, a, b) <==>
      (Grouped(db, source, matches, a) && Grouped(db, source, matches, b)) || Together(db, a, b)
  {
    var cs := Involved(db, source, matches);
    if Grouped(db, source, matches, a) && Grouped(db, source, matches, b) {
      assert Active(d, id, a) && Active(d, id, b);
    }
    if m :| Active(db, m, a) && Active(db, m, b) {
      if m in cs {
        assert Active(d, id, a) && Active(d, id, b);
      } else {
        assert Active(d, m, a) && Active(d, m, b);
      }
    }
    if m :| Active(d, m, a) && Active(d, m, b) && m != id {
      assert Active(db, m, a) && Active(db, m, b);
    }
  }

  lemma MergeComponents(db: Db, g: Edges, source: StagedId, matches: seq<Match>)
    requires Inv(db) && Components(db, g) && MergeEntity(db, source, matches).Merged?
    ensures Components(MergeEntity(db, source, matches).db, g + StarEdges(source, Endpoints(db, source, matches)))
  {
    MergeEffect(db, source, matches);
    var Merged(d, id) := MergeEntity(db, source, matches);
    hide MergeEntity, Effect, Components;
    ComponentsAfter(db, g, source, matches, d, id);
  }

  lemma ComponentsAfter(db: Db, g: Edges, source: StagedId, matches: seq<Match>, d: Db, id: MergedId)
    requires Owned(db) && OneHome(d) && Components(db, g) && Effect(db, source, matches, d, id)
    ensures Components(d, g + StarEdges(source, Endpoints(db, source, matches)))
  {
    var h := g + StarEdges(source, Endpoints(db, source, matches));
    SourceJoins(db, source, matches);
    EndsKnown(g, source, Endpoints(db, source, matches));
    hide Effect, OneHome, Owned, Known, Connected, Together, StarEdges, Endpoints;
    EdgesTogether(db, g, source, matches, d, id);
    forall a, b ensures Together(d, a, b) <==> Known(h, a) && Known(h, b) && Connected(h, a, b) {
      if Together(d, a, b) {
        TogetherReaches(db, g, source, matches, d, id, a, b);
      }
      if Known(h, a) && Connected(h, a, b) {
        PathTogether(d, h, a, b);
      }
    }
  }

  lemma EndsKnown(g: Edges, source: StagedId, ends: set<StagedId>)
    requires source in ends && forall a, b :: (a, b) in g ==> Known(g, a) && Known(g, b)
    ensures var h := g + StarEdges(source, ends); forall a, b :: (a, b) in h ==> Known(h, a) && Known(h, b)
  {
  }

  lemma PathTogether(db: Db, g: Edges, a: StagedId, b: StagedId)
    requires OneHome(db) && Known(g, a) && Connected(g, a, b)
    requires forall a, b :: (a, b) in g ==> Together(db, a, b)
    ensures Together(db, a, b)
  {
    var p :| PathBetween(g, p, a, b);
    AlongPath(db, g, p);
  }

  lemma TogetherReaches(db: Db, g: Edges, source: StagedId, matches: seq<Match>, d: Db, id: MergedId,
                        a: StagedId, b: StagedId)
    requires Owned(db) && Components(db, g) && Effect(db, source, matches, d, id) && Together(d, a, b)
    ensures var h := g + StarEdges(source, Endpoints(db, source, matches));
      Known(h, a) && Known(h, b) && Connected(h, a, b)
  {
    var h := g + StarEdges(source, Endpoints(db, source, matches));
    TogetherAfter(db, source, matches, d, id, a, b);
    if Together(db, a, b) {
      Widen(g, h, a, b);
    } else {
      GroupReaches(db, g, source, matches, a);
      GroupReaches(db, g, source, matches, b);
      Flip(h, source, a);
      Join(h, a, source, b);
    }
  }

  lemma EdgesTogether(db: Db, g: Edges, source: StagedId, matches: seq<Match>, d: Db, id: MergedId)
    requires Owned(db) && Components(db, g) && Effect(db, source, matches, d, id)
    ensures var h := g + StarEdges(source, Endpoints(db, source, matches));
      forall a, b :: (a, b) in h ==> Together(d, a, b)
  {
    var h := g + StarEdges(source, Endpoints(db, source, matches));
    EndpointsGrouped(db, source, matches);
    SourceJoins(db, source, matches);
    forall a, b | (a, b) in h ensures Together(d, a, b) {
      TogetherAfter(db, source, matches, d, id, a, b);
      if (a, b) in g { Edge(g, a, b); }
    }
  }

  // ---------- whole runs ----------

  ghost predicate NoRemovals(es: seq<Event>) {
    forall i :: 0 <= i < |es| ==> !es[i].EntityRemoved?
  }

  lemma SameRowsSameComponents(db: Db, d: Db, g: Edges)
    requires Components(db, g) && d.rows == db.rows
    ensures Components(d, g)
  {
    forall a, b ensures Together(d, a, b) <==> Together(db, a, b) {
      if m :| Active(db, m, a) && Active(db, m, b) { assert Active(d, m, a) && Active(d, m, b); }
      if m :| Active(d, m, a) && Active(d, m, b) { assert Active(db, m, a) && Active(db, m, b); }
    }
  }

  lemma StepComponents(db: Db, g: Edges, e: Event)
    requires Inv(db) && Components(db, g) && !e.EntityRemoved?
    ensures Components(Step(db, e), g + StepEdges(db, e))
  {
    assert g + {} == g;
    if e.EntityChanged? && Handle(db, e).Commit? {
      var r := MergeEntity(db, e.source, e.matches);
      MergeComponents(db, g, e.source, e.matches);
      CompleteRows(r.db, r.id, e.asFrom, e.asTo);
      SameRowsSameComponents(r.db, Step(db, e), g + StepEdges(db, e));
    } else {
      SameRowsSameComponents(db, Step(db, e), g);
    }
  }

  /** Over every run without removals, two staged entities share a cluster exactly when both took
      part in some merge and a chain of collected pairs links them: creating, extending and
      consolidating together compute connected components. */
  lemma {:induction false} ClustersAreComponents(es: seq<Event>)
    requires NoRemovals(es)
    ensures Components(Run(EMPTY, es), RunEdges(es))
    decreases |es|
  {
    if es != [] {
      var before := es[..|es| - 1];
      ClustersAreComponents(before);
      RunKeepsInv(before);
      StepComponents(Run(EMPTY, before), RunEdges(before), es[|es| - 1]);
    }
  }

  /** Without removals there are no stale rows, so no merge of such a run ever fails. */
  lemma {:induction false} NoRemovalsNoFailure(es: seq<Event>)
    requires NoRemovals(es)
    ensures AllActive(Run(EMPTY, es))
    ensures forall e: Event :: !e.EntityRemoved? ==> Handle(Run(EMPTY, es), e).Commit?
    decreases |es|
  {
    hide AllActive, Inv, Step;
    RunKeepsInv(es);
    var db := Run(EMPTY, es);
    if es == [] {
      NothingActive();
    } else {
      var before := es[..|es| - 1];
      NoRemovalsNoFailure(before);
      RunKeepsInv(before);
      AllActiveStep(Run(EMPTY, before), es[|es| - 1]);
    }
    NothingFails(db);
  }

  lemma NothingActive()
    ensures AllActive(EMPTY)
  {
  }

  lemma NothingFails(db: Db)
    requires Inv(db) && AllActive(db)
    ensures forall e: Event :: !e.EntityRemoved? ==> Handle(db, e).Commit?
  {
    hide MergeEntity, CompleteRules, RelationshipSeen, AllActive, Inv;
    forall e: Event | !e.EntityRemoved? ensures Handle(db, e).Commit? {
      if e.EntityChanged? { MergeSucceeds(db, e.source, e.matches); }
    }
  }

  lemma MergeSucceeds(db: Db, source: StagedId, matches: seq<Match>)
    requires Inv(db) && AllActive(db)
    ensures MergeEntity(db, source, matches).Merged?
  {
    hide MergeEntity, StaleRow, AllActive;
    MergeEffect(db, source, matches);
    NothingStale(db, source, matches);
  }

  lemma NothingStale(db: Db, source: StagedId, matches: seq<Match>)
    requires OneHome(db) && AllActive(db)
    ensures !StaleRow(db, source, matches)
  {
    var cs := Involved(db, source, matches);
    forall c, x | c in cs && c != cs[0] && Active(db, c, x) ensures (cs[0], x) !in db.rows {}
  }

  ghost predicate AllActive(db: Db) {
    forall m, x :: (m, x) in db.rows ==> Active(db, m, x)
  }

  lemma AllActiveStep(db: Db, e: Event)
    requires Inv(db) && AllActive(db) && !e.EntityRemoved?
    ensures AllActive(Step(db, e))
  {
    if e.EntityChanged? {
      var r := MergeEntity(db, e.source, e.matches);
      if r.Merged? {
        AllActiveMerge(db, e.source, e.matches);
        CompleteRows(r.db, r.id, e.asFrom, e.asTo);
        assert forall m, x :: (m, x) in r.db.rows ==> Active(r.db, m, x);
      }
    } else {
      assert forall m, x :: (m, x) in db.rows ==> Active(db, m, x);
    }
  }

  lemma AllActiveMerge(db: Db, source: StagedId, matches: seq<Match>)
    requires AllActive(db) && MergeEntity(db, source, matches).Merged?
    ensures AllActive(MergeEntity(db, source, matches).db)
  {
    hide AddAll, AddToCluster, Absorb, Containing, Loaded, Collected, AllActive;
    var ids := Collected(source, matches);
    var xs := Loaded(db, source, ids);
    var cs := Containing(db, ids);
    SameRowsActive(db, Create(db, 1));
    SameRowsActive(db, Create(db, |xs|));
    if Alone(db, source, matches) {
      AllActiveAddOne(Create(db, 1), db.next, source);
      AllActiveUpdate(db);
    } else if |cs| == 0 {
      AllActiveAdd(Create(db, |xs|), db.next, xs);
    } else if |cs| == 1 {
      AllActiveUpdate(db);
      if Live(db, cs[0]) { AllActiveAdd(Update(db, cs[0], |xs|).db, cs[0], xs); }
    } else {
      AllActiveAbsorb(db, cs[0], cs[1..]);
      var a := Absorb(db, cs[0], cs[1..]);
      if a.Commit? {
        AllActiveAdd(a.db, cs[0], xs);
        if AddAll(a.db, cs[0], xs).Commit? { AllActiveUpdate(AddAll(a.db, cs[0], xs).db); }
      }
    }
  }

  lemma SameRowsActive(db: Db, d: Db)
    requires AllActive(db) && d.rows == db.rows
    ensures AllActive(d)
  {
    forall m, x | (m, x) in d.rows ensures Active(d, m, x) { assert Active(db, m, x); }
  }

  lemma AllActiveUpdate(db: Db)
    requires AllActive(db)
    ensures forall m, n :: Update(db, m, n).Commit? ==> AllActive(Update(db, m, n).db)
  {
    forall m, n | Update(db, m, n).Commit? ensures AllActive(Update(db, m, n).db) {
      SameRowsActive(db, Update(db, m, n).db);
    }
  }

  lemma AllActiveAddOne(db: Db, m: MergedId, x: StagedId)
    requires AllActive(db)
    ensures AddToCluster(db, m, x).Commit? ==> AllActive(AddToCluster(db, m, x).db)
  {
    AddOneIsAddAll(db, m, x);
    AllActiveAdd(db, m, {x});
  }

  lemma AllActiveAdd(db: Db, m: MergedId, xs: set<StagedId>)
    requires AllActive(db)
    ensures AddAll(db, m, xs).Commit? ==> AllActive(AddAll(db, m, xs).db)
  {
    if AddAll(db, m, xs).Commit? { AddAllRows(db, m, xs); }
  }

  lemma {:induction false} AllActiveAbsorb(db: Db, s: MergedId, cs: seq<MergedId>)
    requires AllActive(db)
    ensures Absorb(db, s, cs).Commit? ==> AllActive(Absorb(db, s, cs).db)
    decreases |cs|
  {
    if cs != [] && AbsorbOne(db, s, cs[0]).Commit? {
      var d := AbsorbOne(db, s, cs[0]).db;
      assert forall m, x :: (m, x) in d.rows ==> d.rows[(m, x)] by {
        forall m, x | (m, x) in d.rows ensures d.rows[(m, x)] {
          if (m, x) in db.rows { assert Active(db, m, x); }
        }
      }
      AllActiveAbsorb(d, s, cs[1..]);
    }
  }

  // ---------- edges told by the events alone ----------

  /** The source with each of its matches, if not all of them are blocked. */
  function EventEdge(e: Event): Edges {
    if !e.EntityChanged? then {}
    else if exists j :: 0 <= j < |e.matches| && !e.matches[j].blocked then
      StarEdges(e.source, {e.source} + set i | 0 <= i < |e.matches| :: e.matches[i].id)
    else StarEdges(e.source, {e.source})
  }

  function EventEdges(es: seq<Event>): Edges {
    if es == [] then {} else EventEdges(es[..|es| - 1]) + EventEdge(es[|es| - 1])
  }

  /** x was upserted in es. */
  ghost predicate Upserted(es: seq<Event>, x: StagedId) { exists j :: 0 <= j < |es| && es[j] == StagedUpserted(x) }

  /** Nothing is deleted or removed, and every collected match was upserted before. */
  ghost predicate Announced(es: seq<Event>) {
    && (forall i :: 0 <= i < |es| ==> !es[i].EntityRemoved? && !es[i].StagedDeleted?)
    && (forall k, x :: 0 <= k < |es| && es[k].EntityChanged? && x in Collected(es[k].source, es[k].matches) ==>
          x == es[k].source || Upserted(es[..k], x))
  }

  lemma {:induction false} UpsertedIsLive(es: seq<Event>, x: StagedId)
    requires Announced(es) && Upserted(es, x)
    ensures StagedLive(Run(EMPTY, es), x)
    decreases |es|
  {
    var n := |es| - 1;
    var before := es[..n];
    AnnouncedPrefix(es);
    if es[n] != StagedUpserted(x) {
      var j :| 0 <= j < |es| && es[j] == StagedUpserted(x);
      assert before[j] == StagedUpserted(x);
      UpsertedIsLive(before, x);
      RunKeepsInv(before);
      StagedStays(Run(EMPTY, before), es[n], x);
    }
  }

  lemma AnnouncedPrefix(es: seq<Event>)
    requires Announced(es) && es != []
    ensures Announced(es[..|es| - 1]) && NoRemovals(es)
  {
    var before := es[..|es| - 1];
    forall k, x | 0 <= k < |before| && before[k].EntityChanged? && x in Collected(before[k].source, before[k].matches)
      ensures x == before[k].source || Upserted(before[..k], x)
    {
      assert before[..k] == es[..k] && before[k] == es[k];
    }
  }

  lemma StagedStays(db: Db, e: Event, x: StagedId)
    requires Inv(db) && StagedLive(db, x) && !e.StagedDeleted? && !e.EntityRemoved?
    ensures StagedLive(Step(db, e), x)
  {
    if e.EntityChanged? {
      MergeEffect(db, e.source, e.matches);
      var r := MergeEntity(db, e.source, e.matches);
      if r.Merged? { CompleteRows(r.db, r.id, e.asFrom, e.asTo); }
    }
  }

  lemma EndpointsCollected(db: Db, source: StagedId, matches: seq<Match>)
    requires forall x :: x in Collected(source, matches) ==> x == source || StagedLive(db, x)
    ensures Endpoints(db, source, matches) == if NothingToMerge(matches) then {source} else Collected(source, matches)
  {
    var xs := Collected(source, matches);
    assert Loaded(db, source, xs) == xs;
    if |xs| == 1 {
      assert {source} <= xs;
      assert |xs - {source}| == 0;
      assert xs == {source};
    }
  }

  /** On runs that delete nothing and collect only entities upserted before, the graph is that of the collected
      pairs, whatever the tables held. */
  lemma {:induction false} EdgesOfEvents(es: seq<Event>)
    requires Announced(es)
    ensures RunEdges(es) == EventEdges(es)
    decreases |es|
  {
    if es != [] {
      var n := |es| - 1;
      var before, e := es[..n], es[n];
      AnnouncedPrefix(es);
      EdgesOfEvents(before);
      if e.EntityChanged? {
        var db := Run(EMPTY, before);
        NoRemovalsNoFailure(before);
        forall x | x in Collected(e.source, e.matches) ensures x == e.source || StagedLive(db, x) {
          if x != e.source { UpsertedIsLive(before, x); }
        }
        EndpointsCollected(db, e.source, e.matches);
      }
    }
  }

  lemma ComponentsOfEvents(es: seq<Event>)
    requires Announced(es)
    ensures Components(Run(EMPTY, es), EventEdges(es))
  {
    hide Components, Run, RunEdges, EventEdges, Announced;
    AnnouncedRemovesNothing(es);
    ClustersAreComponents(es);
    EdgesOfEvents(es);
  }

  lemma AnnouncedRemovesNothing(es: seq<Event>)
    requires Announced(es)
    ensures NoRemovals(es)
  {
  }
}
