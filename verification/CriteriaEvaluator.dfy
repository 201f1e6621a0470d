/** The two handlers of the join as they run on their own: write, read the other side, loop. */
module CriteriaEvaluator {
  import opened CriteriaJoin
  import opened CriteriaHistory
  import C = Criteria

  class Evaluator {
    const tx: C.Texts
    var entities: map<EntityId, Entity>
    var criteria: map<Criteria, bool>
    var matches: set<(Criteria, EntityId)>
    ghost var events: seq<Event>
    ghost var next: nat

    /** The tables are those of a run of statements after which every message has finished. */
    ghost predicate Valid()
      reads this
    {
      var s := Run(tx, events);
      && s.entities == entities && s.criteria == criteria && s.matches == matches
      && Settled(s) && forall w | w in s.messages :: w < next
    }

    constructor (tx: C.Texts)
      ensures Valid() && this.tx == tx && entities == map[] && criteria == map[] && matches == {}
    {
      this.tx := tx;
      entities, criteria, matches, events, next := map[], map[], {}, [], 0;
    }

    /** The tables while message w is at stage m and every other message has finished. */
    ghost predicate Busy(w: nat, m: Message)
      reads this
    {
      Checking(Run(tx, events), w, m, next, entities, criteria, matches)
    }

    /** processEntity: upsert, then evaluate. */
    method ProcessEntity(id: EntityId, patch: Data) returns (count: nat)
      requires Valid()
      modifies this
      ensures Valid() && criteria == old(criteria)
      ensures entities == old(entities)[id := Entity(Upserted(old(entities), id, patch), true)]
      ensures id in entities && entities[id].live && forall key | key in patch :: key in entities[id].data && entities[id].data[key] == patch[key]
      ensures id in old(entities) ==> forall key | key in old(entities)[id].data :: key in entities[id].data
      ensures forall key | key in entities[id].data && key !in patch ::
        id in old(entities) && key in old(entities)[id].data && entities[id].data[key] == old(entities)[id].data[key]
      ensures forall c, j :: (c, j) in matches <==> (c, j) in old(matches) || HitsNow(tx, criteria, entities, c, j, id)
      ensures matches == old(matches) + Hits(tx, CriteriaFor(criteria, id), id, entities[id].data)
      ensures count == |Hits(tx, CriteriaFor(criteria, id), id, entities[id].data)|
    {
      hide Run, Next, CriteriaFor, Hits, Upserted, C.Accepts, HitsNow;
      ghost var w := next;
      UpsertedExactly(entities, id, patch);
      var data := Upserted(entities, id, patch);
      entities := entities[id := Entity(data, true)];
      EntityStarts(tx, events, w, id, patch);
      events := events + [Arrive(w, EntityArrived(id, patch)), Advance(w)];
      next := next + 1;
      HitsExactly(tx, criteria, entities, id);
      count := EvaluateCriteriaForNewEntity(w, id, data);
    }

    method EvaluateCriteriaForNewEntity(ghost w: nat, id: EntityId, data: Data) returns (count: nat)
      requires Busy(w, EntityWritten(id, data))
      modifies this`matches, this`events
      ensures Valid()
      ensures matches == old(matches) + Hits(tx, CriteriaFor(criteria, id), id, data)
      ensures count == |Hits(tx, CriteriaFor(criteria, id), id, data)|
    {
      hide Run, Next, CriteriaFor, Hits, C.Accepts, Checking, Settled;
      BusyReads(tx, events, w, id, data, next, entities, criteria, matches);
      events := events + [Advance(w)];
      var todo := CriteriaFor(criteria, id);
      ghost var all := todo;
      count := 0;
      NoHits(tx, all, id, data);
      while todo != {}
        invariant todo <= all && Busy(w, EntityChecking(id, data, todo))
        invariant matches == old(matches) + Hits(tx, all - todo, id, data) && count == |Hits(tx, all - todo, id, data)|
      {
        var c :| c in todo;
        var accepted := C.MatchesCriteria(tx, c.conditions, data);
        HitsGrow(tx, all - todo, c, id, data);
        assert all - (todo - {c}) == all - todo + {c};
        BusyChecks(tx, events, w, id, data, todo, c, next, entities, criteria, matches);
        events := events + [CheckCriteria(w, c)];
        if accepted {
          matches := matches + {(c, id)};
          count := count + 1;
        }
        todo := todo - {c};
      }
      assert all - todo == all;
      BusyEnds(tx, events, w, EntityChecking(id, data, todo), next, entities, criteria, matches);
      events := events + [Advance(w)];
      BusyDone(Run(tx, events), w, next, entities, criteria, matches);
    }

    /** processCriteriaRelationship: upsert, then evaluate an inserted row. */
    method ProcessCriteria(c: Criteria) returns (count: nat)
      requires Valid()
      modifies this
      ensures Valid() && entities == old(entities)
      ensures criteria == if c.integration == "" then old(criteria) else old(criteria)[c := true]
      ensures matches == old(matches) + if c.integration == "" || c in old(criteria) then {} else Found(tx, c, EntitiesFor(entities, c))
      ensures count == if c.integration == "" || c in old(criteria) then 0 else |Found(tx, c, EntitiesFor(entities, c))|
      ensures forall d, j :: (d, j) in matches <==> (d, j) in old(matches) || (c.integration != "" && c !in old(criteria) && FindsNow(tx, entities, d, j, c))
    {
      hide Run, Next, EntitiesFor, Found, C.Accepts, FindsNow;
      FoundExactly(tx, entities, c);
      ghost var w := next;
      CriteriaStarts(tx, events, w, c);
      events := events + [Arrive(w, CriteriaArrived(c)), Advance(w)];
      next := next + 1;
      if c.integration == "" { return 0; }
      var isNew := c !in criteria;
      criteria := criteria[c := true];
      if !isNew { return 0; }
      count := EvaluateCriteriaForNewCriteria(w, c);
    }

    method EvaluateCriteriaForNewCriteria(ghost w: nat, c: Criteria) returns (count: nat)
      requires Busy(w, CriteriaWritten(c))
      modifies this`matches, this`events
      ensures Valid()
      ensures matches == old(matches) + Found(tx, c, EntitiesFor(entities, c))
      ensures count == |Found(tx, c, EntitiesFor(entities, c))|
    {
      hide Run, Next, EntitiesFor, Found, C.Accepts, Checking, Settled;
      BusyReadsEntities(tx, events, w, c, next, entities, criteria, matches);
      events := events + [Advance(w)];
      var found := EntitiesFor(entities, c);
      var todo := found.Keys;
      var checked: map<EntityId, Data> := map[];
      count := 0;
      NothingFound(tx, c);
      while todo != {}
        invariant todo <= found.Keys && Busy(w, CriteriaChecking(c, found, todo))
        invariant checked == found - todo
        invariant matches == old(matches) + Found(tx, c, checked) && count == |Found(tx, c, checked)|
      {
        var id :| id in todo;
        var accepted := C.MatchesCriteria(tx, c.conditions, found[id]);
        FoundGrow(tx, c, checked, id, found[id]);
        checked := checked[id := found[id]];
        BusyChecksEntity(tx, events, w, c, found, todo, id, next, entities, criteria, matches);
        events := events + [CheckEntity(w, id)];
        if accepted {
          matches := matches + {(c, id)};
          count := count + 1;
        }
        todo := todo - {id};
      }
      assert found - {} == found;
      BusyEnds(tx, events, w, CriteriaChecking(c, found, todo), next, entities, criteria, matches);
      events := events + [Advance(w)];
      BusyDone(Run(tx, events), w, next, entities, criteria, matches);
    }
  }

  // ---------- the run beside the tables ----------

  ghost predicate Checking(s: State, w: nat, m: Message, next: nat, entities: map<EntityId, Entity>, criteria: map<Criteria, bool>,
                           matches: set<(Criteria, EntityId)>) {
    && s.entities == entities && s.criteria == criteria && s.matches == matches
    && w in s.messages && s.messages[w] == m
    && (forall v | v in s.messages :: v < next) && forall v | v in s.messages && v != w :: s.messages[v].Finished?
  }

  lemma EntityStarts(tx: C.Texts, es: seq<Event>, w: nat, id: EntityId, patch: Data)
    requires w !in Run(tx, es).messages
    ensures var s, t := Run(tx, es), Run(tx, es + [Arrive(w, EntityArrived(id, patch)), Advance(w)]);
      var d := Upserted(s.entities, id, patch);
      && t.entities == s.entities[id := Entity(d, true)] && t.criteria == s.criteria && t.matches == s.matches
      && t.messages == s.messages[w := EntityWritten(id, d)]
  {
    hide Run, Upserted;
    var a, b := Arrive(w, EntityArrived(id, patch)), Advance(w);
    RunMore(tx, es, a);
    RunMore(tx, es + [a], b);
    assert es + [a] + [b] == es + [a, b];
  }

  lemma EntityReads(tx: C.Texts, es: seq<Event>, w: nat, id: EntityId, d: Data)
    requires w in Run(tx, es).messages && Run(tx, es).messages[w] == EntityWritten(id, d)
    ensures var s, t := Run(tx, es), Run(tx, es + [Advance(w)]);
      t == s.(messages := s.messages[w := EntityChecking(id, d, CriteriaFor(s.criteria, id))])
  {
    hide Run, CriteriaFor;
    RunMore(tx, es, Advance(w));
  }

  lemma CriteriaStarts(tx: C.Texts, es: seq<Event>, w: nat, c: Criteria)
    requires w !in Run(tx, es).messages
    ensures var s, t := Run(tx, es), Run(tx, es + [Arrive(w, CriteriaArrived(c)), Advance(w)]);
      && t.entities == s.entities && t.matches == s.matches
      && t.criteria == (if c.integration == "" then s.criteria else s.criteria[c := true])
      && t.messages == s.messages[w := if c.integration == "" || c in s.criteria then Finished else CriteriaWritten(c)]
  {
    hide Run;
    var a, b := Arrive(w, CriteriaArrived(c)), Advance(w);
    RunMore(tx, es, a);
    RunMore(tx, es + [a], b);
    assert es + [a] + [b] == es + [a, b];
  }

  lemma CriteriaReads(tx: C.Texts, es: seq<Event>, w: nat, c: Criteria)
    requires w in Run(tx, es).messages && Run(tx, es).messages[w] == CriteriaWritten(c)
    ensures var s, t := Run(tx, es), Run(tx, es + [Advance(w)]);
      var found := EntitiesFor(s.entities, c);
      t == s.(messages := s.messages[w := CriteriaChecking(c, found, found.Keys)])
  {
    hide Run, EntitiesFor;
    RunMore(tx, es, Advance(w));
  }

  lemma CriteriaChecked(tx: C.Texts, es: seq<Event>, w: nat, id: EntityId, d: Data, todo: set<Criteria>, c: Criteria)
    requires w in Run(tx, es).messages && Run(tx, es).messages[w] == EntityChecking(id, d, todo) && c in todo
    ensures var s, t := Run(tx, es), Run(tx, es + [CheckCriteria(w, c)]);
      t == s.(matches := Recorded(tx, s.matches, c, id, d), messages := s.messages[w := EntityChecking(id, d, todo - {c})])
  {
    hide Run, Recorded;
    RunMore(tx, es, CheckCriteria(w, c));
  }

  lemma EntityChecked(tx: C.Texts, es: seq<Event>, w: nat, c: Criteria, found: map<EntityId, Data>, todo: set<EntityId>, id: EntityId)
    requires w in Run(tx, es).messages && Run(tx, es).messages[w] == CriteriaChecking(c, found, todo) && id in todo && id in found
    ensures var s, t := Run(tx, es), Run(tx, es + [CheckEntity(w, id)]);
      t == s.(matches := Recorded(tx, s.matches, c, id, found[id]), messages := s.messages[w := CriteriaChecking(c, found, todo - {id})])
  {
    hide Run, Recorded;
    RunMore(tx, es, CheckEntity(w, id));
  }

  lemma LastStatement(tx: C.Texts, es: seq<Event>, w: nat)
    requires w in Run(tx, es).messages
    requires var m := Run(tx, es).messages[w]; (m.EntityChecking? && m.todo == {}) || (m.CriteriaChecking? && m.left == {})
    ensures var s, t := Run(tx, es), Run(tx, es + [Advance(w)]); t == s.(messages := s.messages[w := Finished])
  {
    hide Run;
    RunMore(tx, es, Advance(w));
  }

  type Entities = map<EntityId, Entity>
  type Rows = map<Criteria, bool>
  type Matches = set<(Criteria, EntityId)>

  lemma BusyReads(tx: C.Texts, es: seq<Event>, w: nat, id: EntityId, d: Data, next: nat, entities: Entities, criteria: Rows, matches: Matches)
    requires Checking(Run(tx, es), w, EntityWritten(id, d), next, entities, criteria, matches)
    ensures Checking(Run(tx, es + [Advance(w)]), w, EntityChecking(id, d, CriteriaFor(criteria, id)), next, entities, criteria, matches)
  {
    hide Run, CriteriaFor;
    EntityReads(tx, es, w, id, d);
  }

  lemma BusyReadsEntities(tx: C.Texts, es: seq<Event>, w: nat, c: Criteria, next: nat, entities: Entities, criteria: Rows, matches: Matches)
    requires Checking(Run(tx, es), w, CriteriaWritten(c), next, entities, criteria, matches)
    ensures var found := EntitiesFor(entities, c);
      Checking(Run(tx, es + [Advance(w)]), w, CriteriaChecking(c, found, found.Keys), next, entities, criteria, matches)
  {
    hide Run, EntitiesFor;
    CriteriaReads(tx, es, w, c);
  }

  lemma BusyChecks(tx: C.Texts, es: seq<Event>, w: nat, id: EntityId, d: Data, todo: set<Criteria>, c: Criteria,
                   next: nat, entities: Entities, criteria: Rows, matches: Matches)
    requires Checking(Run(tx, es), w, EntityChecking(id, d, todo), next, entities, criteria, matches) && c in todo
    ensures Checking(Run(tx, es + [CheckCriteria(w, c)]), w, EntityChecking(id, d, todo - {c}), next, entities, criteria,
                     Recorded(tx, matches, c, id, d))
  {
    hide Run, Recorded;
    CriteriaChecked(tx, es, w, id, d, todo, c);
  }

  lemma BusyChecksEntity(tx: C.Texts, es: seq<Event>, w: nat, c: Criteria, found: map<EntityId, Data>, todo: set<EntityId>, id: EntityId,
                         next: nat, entities: Entities, criteria: Rows, matches: Matches)
    requires Checking(Run(tx, es), w, CriteriaChecking(c, found, todo), next, entities, criteria, matches) && id in todo && id in found
    ensures Checking(Run(tx, es + [CheckEntity(w, id)]), w, CriteriaChecking(c, found, todo - {id}), next, entities, criteria,
                     Recorded(tx, matches, c, id, found[id]))
  {
    hide Run, Recorded;
    EntityChecked(tx, es, w, c, found, todo, id);
  }

  lemma BusyEnds(tx: C.Texts, es: seq<Event>, w: nat, m: Message, next: nat, entities: Entities, criteria: Rows, matches: Matches)
    requires Checking(Run(tx, es), w, m, next, entities, criteria, matches)
    requires (m.EntityChecking? && m.todo == {}) || (m.CriteriaChecking? && m.left == {})
    ensures Checking(Run(tx, es + [Advance(w)]), w, Finished, next, entities, criteria, matches)
  {
    hide Run;
    LastStatement(tx, es, w);
  }

  lemma BusyDone(s: State, w: nat, next: nat, entities: Entities, criteria: Rows, matches: Matches)
    requires Checking(s, w, Finished, next, entities, criteria, matches)
    ensures s.entities == entities && s.criteria == criteria && s.matches == matches
    ensures Settled(s) && forall v | v in s.messages :: v < next
  {
  }

  // ---------- what the loops collect ----------

  ghost function Hits(tx: C.Texts, cs: set<Criteria>, id: EntityId, d: Data): set<(Criteria, EntityId)> {
    set c | c in cs && C.Accepts(tx, c.conditions, d) :: (c, id)
  }

  ghost function Found(tx: C.Texts, c: Criteria, rows: map<EntityId, Data>): set<(Criteria, EntityId)> {
    set id | id in rows && C.Accepts(tx, c.conditions, rows[id]) :: (c, id)
  }

  /** The criteria is live, for the type and integration of entity id, and true of its data. */
  ghost predicate HitsNow(tx: C.Texts, criteria: Rows, es: Entities, c: Criteria, j: EntityId, id: EntityId) {
    && j == id && id in es && c in criteria && criteria[c]
    && c.kind == id.kind && c.integration == id.integration && C.Accepts(tx, c.conditions, es[id].data)
  }

  /** The entity is live, of the type and integration of criteria c, and satisfies it. */
  ghost predicate FindsNow(tx: C.Texts, es: Entities, d: Criteria, j: EntityId, c: Criteria) {
    && d == c && j in es && es[j].live
    && c.kind == j.kind && c.integration == j.integration && C.Accepts(tx, c.conditions, es[j].data)
  }

  lemma HitsExactly(tx: C.Texts, criteria: Rows, es: Entities, id: EntityId)
    requires id in es
    ensures forall c, j :: (c, j) in Hits(tx, CriteriaFor(criteria, id), id, es[id].data) <==> HitsNow(tx, criteria, es, c, j, id)
  {
    hide C.Accepts;
  }

  lemma FoundExactly(tx: C.Texts, es: Entities, c: Criteria)
    ensures forall d, j :: (d, j) in Found(tx, c, EntitiesFor(es, c)) <==> FindsNow(tx, es, d, j, c)
  {
    hide C.Accepts;
  }

  lemma NoHits(tx: C.Texts, cs: set<Criteria>, id: EntityId, d: Data)
    ensures Hits(tx, cs - cs, id, d) == {}
  {
    assert cs - cs == {};
  }

  lemma NothingFound(tx: C.Texts, c: Criteria)
    ensures Found(tx, c, map[]) == {}
  {
  }

  lemma HitsGrow(tx: C.Texts, cs: set<Criteria>, c: Criteria, id: EntityId, d: Data)
    requires c !in cs
    ensures (c, id) !in Hits(tx, cs, id, d)
    ensures Hits(tx, cs + {c}, id, d) == if C.Accepts(tx, c.conditions, d) then Hits(tx, cs, id, d) + {(c, id)} else Hits(tx, cs, id, d)
  {
    hide C.Accepts;
  }

  lemma FoundGrow(tx: C.Texts, c: Criteria, rows: map<EntityId, Data>, id: EntityId, d: Data)
    requires id !in rows
    ensures (c, id) !in Found(tx, c, rows)
    ensures Found(tx, c, rows[id := d]) == if C.Accepts(tx, c.conditions, d) then Found(tx, c, rows) + {(c, id)} else Found(tx, c, rows)
  {
    hide C.Accepts;
    assert forall x | x in rows :: rows[id := d][x] == rows[x];
  }
}
