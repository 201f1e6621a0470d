/** What a merge does to the relationships of the clusters it folds together. */
module ClusterEdges {
  import opened ClusterStore
  import opened MergeEngine
  import opened ClusterInvariants

  function Folded(m: MergedId, cs: seq<MergedId>, s: MergedId): MergedId { if m in cs then s else m }

  function FoldedKey(k: RelKey, cs: seq<MergedId>, s: MergedId): RelKey {
    RelKey(k.kind, Folded(k.from, cs, s), Folded(k.to, cs, s))
  }

  /** The live edges of d are those of db with the entities cs replaced by s. */
  ghost predicate EdgesFolded(db: Db, d: Db, cs: seq<MergedId>, s: MergedId) {
    forall k :: LiveRel(d, k) <==> ImageOf(db, k, cs, s)
  }

  ghost predicate ImageOf(db: Db, k: RelKey, cs: seq<MergedId>, s: MergedId) {
    exists k0 :: LiveRel(db, k0) && k == FoldedKey(k0, cs, s)
  }

  lemma {:induction false} AbsorbEdges(db: Db, s: MergedId, cs: seq<MergedId>)
    requires s !in cs && Absorb(db, s, cs).Commit?
    ensures EdgesFolded(db, Absorb(db, s, cs).db, cs, s)
    decreases |cs|
  {
    if cs == [] {
      forall k | LiveRel(db, k) ensures ImageOf(db, k, [], s) { assert k == FoldedKey(k, [], s); }
    } else {
      var c, rest := cs[0], cs[1..];
      assert cs == [c] + rest;
      var t := AbsorbOne(db, s, c).db;
      AbsorbOneEdges(db, s, c);
      AbsorbEdges(t, s, rest);
      FoldTwice(db, t, Absorb(t, s, rest).db, s, c, rest);
    }
  }

  lemma FoldTwice(db: Db, t: Db, d: Db, s: MergedId, c: MergedId, rest: seq<MergedId>)
    requires s != c && s !in rest && EdgesFolded(t, d, rest, s)
    requires forall k :: LiveRel(t, k) <==> exists k0 :: LiveRel(db, k0) && k == RenameKey(k0, c, s)
    ensures EdgesFolded(db, d, [c] + rest, s)
  {
    var cs := [c] + rest;
    assert forall m :: m in cs <==> m == c || m in rest;
    assert forall k :: FoldedKey(RenameKey(k, c, s), rest, s) == FoldedKey(k, cs, s);
    forall k ensures ImageOf(t, k, rest, s) <==> ImageOf(db, k, cs, s) {
      if ImageOf(t, k, rest, s) {
        var k1 :| LiveRel(t, k1) && k == FoldedKey(k1, rest, s);
        var k0 :| LiveRel(db, k0) && k1 == RenameKey(k0, c, s);
        assert k == FoldedKey(k0, cs, s);
      }
      if ImageOf(db, k, cs, s) {
        var k0 :| LiveRel(db, k0) && k == FoldedKey(k0, cs, s);
        assert LiveRel(t, RenameKey(k0, c, s));
      }
    }
  }

  lemma FewInvolved(db: Db, source: StagedId, matches: seq<Match>)
    requires MergeEntity(db, source, matches).Merged? && |Involved(db, source, matches)| <= 1
    ensures MergeEntity(db, source, matches).db.rels == db.rels
  {
    hide Containing, Loaded;
  }

  lemma ManyInvolved(db: Db, source: StagedId, matches: seq<Match>)
    requires MergeEntity(db, source, matches).Merged? && |Involved(db, source, matches)| > 1 && !Alone(db, source, matches)
    ensures var cs := Involved(db, source, matches);
      && MergeEntity(db, source, matches).id == cs[0] && Absorb(db, cs[0], cs[1..]).Commit?
      && MergeEntity(db, source, matches).db.rels == Absorb(db, cs[0], cs[1..]).db.rels
  {
    hide Containing, Loaded, Absorb;
  }

  lemma SameFold(db: Db, cs: seq<MergedId>, id: MergedId)
    requires forall c :: c in cs ==> c == id
    ensures EdgesFolded(db, db, cs, id)
  {
    forall k ensures LiveRel(db, k) <==> ImageOf(db, k, cs, id) {
      assert k == FoldedKey(k, cs, id);
    }
  }

  lemma SurvivorFolds(db: Db, d: Db, cs: seq<MergedId>)
    requires cs != [] && EdgesFolded(db, d, cs[1..], cs[0])
    ensures EdgesFolded(db, d, cs, cs[0])
  {
    assert cs == [cs[0]] + cs[1..];
    assert forall k :: FoldedKey(k, cs[1..], cs[0]) == FoldedKey(k, cs, cs[0]);
    forall k ensures ImageOf(db, k, cs[1..], cs[0]) <==> ImageOf(db, k, cs, cs[0]) {
      if ImageOf(db, k, cs[1..], cs[0]) {
        var k0 :| LiveRel(db, k0) && k == FoldedKey(k0, cs[1..], cs[0]);
        assert k == FoldedKey(k0, cs, cs[0]);
      }
      if ImageOf(db, k, cs, cs[0]) {
        var k0 :| LiveRel(db, k0) && k == FoldedKey(k0, cs, cs[0]);
        assert k == FoldedKey(k0, cs[1..], cs[0]);
      }
    }
  }

  lemma SameEdges(db: Db, d: Db, e: Db, cs: seq<MergedId>, s: MergedId)
    requires EdgesFolded(db, d, cs, s) && d.rels == e.rels
    ensures EdgesFolded(db, e, cs, s)
  {
    assert forall k :: LiveRel(d, k) <==> LiveRel(e, k);
  }

  lemma SurvivorIs(db: Db, source: StagedId, matches: seq<Match>)
    requires Inv(db) && MergeEntity(db, source, matches).Merged?
    ensures Involved(db, source, matches) != [] ==> MergeEntity(db, source, matches).id == Involved(db, source, matches)[0]
    ensures OneHome(db)
  {
    MergeEffect(db, source, matches);
  }

  /** A merge replaces the involved entities by the surviving one in every live edge, and touches no other. */
  lemma MergeFoldsEdges(db: Db, source: StagedId, matches: seq<Match>)
    requires Inv(db) && MergeEntity(db, source, matches).Merged?
    ensures var Merged(d, id) := MergeEntity(db, source, matches);
      EdgesFolded(db, d, Involved(db, source, matches), id)
  {
    hide MergeEntity, Absorb, EdgesFolded, Involved, Alone, Inv, OneHome;
    SurvivorIs(db, source, matches);
    var cs := Involved(db, source, matches);
    var Merged(d, id) := MergeEntity(db, source, matches);
    if |cs| <= 1 {
      FewInvolved(db, source, matches);
      assert cs != [] ==> cs == [cs[0]];
      SameFold(db, cs, id);
      SameEdges(db, db, d, cs, id);
    } else {
      if Alone(db, source, matches) { AloneHasOneHome(db, source, matches); }
      InvolvedDistinct(db, source, matches);
      ManyInvolved(db, source, matches);
      AbsorbEdges(db, cs[0], cs[1..]);
      var a := Absorb(db, cs[0], cs[1..]).db;
      SameEdges(db, a, d, cs[1..], id);
      SurvivorFolds(db, d, cs);
    }
  }

  /** So it leaves a relationship of the surviving entity with itself exactly when two of the involved entities,
      or one with itself, were so related: the rewiring drops no self-loop. */
  lemma SelfLoopExactly(db: Db, source: StagedId, matches: seq<Match>, kind: string)
    requires Inv(db) && MergeEntity(db, source, matches).Merged?
    ensures var Merged(d, id) := MergeEntity(db, source, matches);
      LiveRel(d, RelKey(kind, id, id)) <==>
        exists a, b :: a in Involved(db, source, matches) && b in Involved(db, source, matches) && LiveRel(db, RelKey(kind, a, b))
  {
    var cs := Involved(db, source, matches);
    var Merged(d, id) := MergeEntity(db, source, matches);
    MergeEffect(db, source, matches);
    MergeFoldsEdges(db, source, matches);
    assert cs != [] ==> cs[0] in cs && id == cs[0];
    if LiveRel(d, RelKey(kind, id, id)) {
      var k0 :| LiveRel(db, k0) && RelKey(kind, id, id) == FoldedKey(k0, cs, id);
      assert Live(db, k0.from) && Live(db, k0.to);
      assert k0 == RelKey(kind, k0.from, k0.to);
    }
    if a, b :| a in cs && b in cs && LiveRel(db, RelKey(kind, a, b)) {
      assert RelKey(kind, id, id) == FoldedKey(RelKey(kind, a, b), cs, id);
    }
  }
}
