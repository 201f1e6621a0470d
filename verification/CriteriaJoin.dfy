/** Criteria relationships as a two-sided join kept up to date by concurrent messages: each message
    first writes its own side and then reads the other, one statement at a time. */
module CriteriaJoin {
  import C = Criteria

  type Data = C.Fields

  /** Identity columns include type and integration, so only data and deletion ever change. */
  datatype EntityId = EntityId(kind: string, integration: string, source: string)
  datatype Entity = Entity(data: Data, live: bool)

  /** The identity of a criteria row includes its target and its condition. */
  datatype Criteria = Criteria(owner: string, kind: string, integration: string, conditions: C.Fields)

  /** A message in progress. */
  datatype Message =
    | EntityArrived(id: EntityId, patch: Data)
    | EntityWritten(id: EntityId, data: Data)
    | EntityChecking(id: EntityId, data: Data, todo: set<Criteria>)
    | CriteriaArrived(crit: Criteria)
    | CriteriaWritten(crit: Criteria)
    | CriteriaChecking(crit: Criteria, found: map<EntityId, Data>, left: set<EntityId>)
    | Finished

  datatype State = State(
    entities: map<EntityId, Entity>,
    criteria: map<Criteria, bool>,          // whether the row is live
    matches: set<(Criteria, EntityId)>,
    messages: map<nat, Message>,
    dropped: set<Criteria>,                 // rows soft-deleted at some time
    seen: set<(EntityId, Data)>)            // data an entity has had at some time

  datatype Event =
    | Arrive(w: nat, message: Message)
    | Advance(w: nat)                        // the next statement of message w, when it has only one
    | CheckCriteria(w: nat, crit: Criteria)  // the loop bodies, in whatever order rows are returned
    | CheckEntity(w: nat, id: EntityId)
    | DropEntity(id: EntityId)
    | DropCriteria(crit: Criteria)

  predicate Targets(c: Criteria, id: EntityId) { c.kind == id.kind && c.integration == id.integration }

  // ---------- statements ----------

  /** INSERT … ON CONFLICT: merge the data at the top level and revive the row. */
  function Upserted(es: map<EntityId, Entity>, id: EntityId, patch: Data): Data {
    if id in es then es[id].data + patch else patch
  }

  /** Every key of the patch has its value, every other key the one it had. */
  lemma UpsertedExactly(es: map<EntityId, Entity>, id: EntityId, patch: Data)
    ensures var d := Upserted(es, id, patch);
      && (forall key | key in patch :: key in d && d[key] == patch[key])
      && (id in es ==> forall key | key in es[id].data :: key in d)
      && forall key | key in d && key !in patch :: id in es && key in es[id].data && d[key] == es[id].data[key]
  {
  }

  /** FindByTarget */
  function CriteriaFor(criteria: map<Criteria, bool>, id: EntityId): set<Criteria> {
    set c | c in criteria && criteria[c] && Targets(c, id)
  }

  /** FindByTypeAndIntegration, with the data as it is now. */
  function EntitiesFor(es: map<EntityId, Entity>, c: Criteria): map<EntityId, Data> {
    map id | id in es && es[id].live && Targets(c, id) :: es[id].data
  }

  ghost function Recorded(tx: C.Texts, matches: set<(Criteria, EntityId)>, c: Criteria, id: EntityId, d: Data): set<(Criteria, EntityId)> {
    if C.Accepts(tx, c.conditions, d) then matches + {(c, id)} else matches
  }

  predicate Startable(m: Message) { m.EntityArrived? || m.CriteriaArrived? }

  ghost function Next(tx: C.Texts, s: State, e: Event): State {
    match e
    case Arrive(w, m) => if w !in s.messages && Startable(m) then s.(messages := s.messages[w := m]) else s
    case Advance(w) => if w in s.messages then Statement(s, w, s.messages[w]) else s
    case CheckCriteria(w, c) =>
      if w in s.messages && s.messages[w].EntityChecking? && c in s.messages[w].todo then
        var m := s.messages[w];
        s.(matches := Recorded(tx, s.matches, c, m.id, m.data), messages := s.messages[w := m.(todo := m.todo - {c})])
      else s
    case CheckEntity(w, id) =>
      if w in s.messages && s.messages[w].CriteriaChecking? && id in s.messages[w].left && id in s.messages[w].found then
        var m := s.messages[w];
        s.(matches := Recorded(tx, s.matches, m.crit, id, m.found[id]), messages := s.messages[w := m.(left := m.left - {id})])
      else s
    case DropEntity(id) =>
      if id in s.entities then s.(entities := s.entities[id := s.entities[id].(live := false)]) else s
    case DropCriteria(c) =>
      if c in s.criteria then s.(criteria := s.criteria[c := false], dropped := s.dropped + {c}) else s
  }

  function Statement(s: State, w: nat, m: Message): State {
    match m
    case EntityArrived(id, patch) =>
      var d := Upserted(s.entities, id, patch);
      s.(entities := s.entities[id := Entity(d, true)], messages := s.messages[w := EntityWritten(id, d)],
         seen := s.seen + {(id, d)})
    case EntityWritten(id, d) => s.(messages := s.messages[w := EntityChecking(id, d, CriteriaFor(s.criteria, id))])
    case EntityChecking(_, _, todo) => if todo == {} then s.(messages := s.messages[w := Finished]) else s
    case CriteriaArrived(c) =>
      if c.integration == "" then s.(messages := s.messages[w := Finished])
      else
        // only an inserted row is evaluated: an existing one, deleted or not, is merely revived
        s.(criteria := s.criteria[c := true],
           messages := s.messages[w := if c in s.criteria then Finished else CriteriaWritten(c)])
    case CriteriaWritten(c) =>
      var found := EntitiesFor(s.entities, c);
      s.(messages := s.messages[w := CriteriaChecking(c, found, found.Keys)])
    case CriteriaChecking(_, _, left) => if left == {} then s.(messages := s.messages[w := Finished]) else s
    case Finished => s
  }

  const Start := State(map[], map[], {}, map[], {}, {})

  ghost function Run(tx: C.Texts, es: seq<Event>): State {
    if es == [] then Start else Next(tx, Run(tx, es[..|es| - 1]), es[|es| - 1])
  }

  // ---------- completeness over every interleaving ----------

  /** Message m will still record criteria c against entity id with data d. */
  predicate WillRecord(m: Message, c: Criteria, id: EntityId, d: Data) {
    match m
    case EntityWritten(i, x) => i == id && x == d
    case EntityChecking(i, x, todo) => i == id && x == d && c in todo
    case CriteriaWritten(x) => x == c
    case CriteriaChecking(x, found, left) => x == c && id in left && id in found && found[id] == d
    case _ => false
  }

  /** The pair is a match as things stand. */
  ghost predicate Holds(tx: C.Texts, s: State, c: Criteria, id: EntityId) {
    && c in s.criteria && s.criteria[c] && id in s.entities && s.entities[id].live
    && c.kind == id.kind && c.integration == id.integration && C.Accepts(tx, c.conditions, s.entities[id].data)
  }

  ghost predicate Covered(s: State, c: Criteria, id: EntityId) {
    (c, id) in s.matches || exists w :: w in s.messages && id in s.entities && WillRecord(s.messages[w], c, id, s.entities[id].data)
  }

  ghost predicate Complete(tx: C.Texts, s: State) {
    && (forall c, id | Holds(tx, s, c, id) && c !in s.dropped :: Covered(s, c, id))
    && (forall c | c in s.criteria && !s.criteria[c] :: c in s.dropped)
  }

  lemma StillCovered(s: State, t: State, c: Criteria, id: EntityId, v: nat)
    requires Covered(s, c, id) && s.matches <= t.matches
    requires id in s.entities && id in t.entities && s.entities[id].data == t.entities[id].data
    requires forall w | w in s.messages && w != v :: w in t.messages && t.messages[w] == s.messages[w]
    requires v in s.messages && WillRecord(s.messages[v], c, id, s.entities[id].data) ==>
               (c, id) in t.matches || (v in t.messages && WillRecord(t.messages[v], c, id, s.entities[id].data))
    ensures Covered(t, c, id)
  {
    if (c, id) !in s.matches {
      var w :| w in s.messages && WillRecord(s.messages[w], c, id, s.entities[id].data);
      if w != v { assert WillRecord(t.messages[w], c, id, t.entities[id].data); }
    }
  }

  lemma StatementComplete(tx: C.Texts, s: State, w: nat)
    requires Complete(tx, s) && w in s.messages
    ensures Complete(tx, Statement(s, w, s.messages[w]))
  {
    hide Covered;
    var m := s.messages[w];
    var t := Statement(s, w, m);
    forall c, id | Holds(tx, t, c, id) && c !in t.dropped ensures Covered(t, c, id) {
      if m.EntityArrived? && m.id == id {
        NowCovered(t, w, c, id);
      } else if m.CriteriaArrived? && m.crit == c && c !in s.criteria {
        NowCovered(t, w, c, id);
      } else {
        assert Holds(tx, s, c, id);
        StillCovered(s, t, c, id, w);
      }
    }
  }

  lemma NowCovered(s: State, w: nat, c: Criteria, id: EntityId)
    requires w in s.messages && id in s.entities && WillRecord(s.messages[w], c, id, s.entities[id].data)
    ensures Covered(s, c, id)
  {
  }

  lemma StepComplete(tx: C.Texts, s: State, e: Event)
    requires Complete(tx, s)
    ensures Complete(tx, Next(tx, s, e))
  {
    hide Covered;
    var t := Next(tx, s, e);
    if e.Advance? {
      if e.w in s.messages { StatementComplete(tx, s, e.w); }
    } else if t != s {
      forall c, id | Holds(tx, t, c, id) && c !in t.dropped ensures Covered(t, c, id) {
        assert Holds(tx, s, c, id);
        StillCovered(s, t, c, id, if e.DropEntity? || e.DropCriteria? then 0 else e.w);
      }
    }
  }

  lemma {:induction false} RunComplete(tx: C.Texts, es: seq<Event>)
    ensures Complete(tx, Run(tx, es))
  {
    if es != [] {
      RunComplete(tx, es[..|es| - 1]);
      StepComplete(tx, Run(tx, es[..|es| - 1]), es[|es| - 1]);
    }
  }

  ghost predicate Settled(s: State) { forall w | w in s.messages :: s.messages[w].Finished? }

  /** Whatever the interleaving of statements, once every message has finished each criteria that was
      never deleted has a recorded match with each entity that satisfies it now. */
  lemma EveryMatchRecorded(tx: C.Texts, es: seq<Event>, c: Criteria, id: EntityId)
    requires Settled(Run(tx, es)) && Holds(tx, Run(tx, es), c, id) && c !in Run(tx, es).dropped
    ensures (c, id) in Run(tx, es).matches
  {
    RunComplete(tx, es);
    assert Covered(Run(tx, es), c, id);
  }

  /** Such a message can leave a match out for good: the entity came while the row was deleted. */
  lemma RevivalMissesMatches(tx: C.Texts, c: Criteria, source: string, d: Data)
    requires c.integration != "" && C.Accepts(tx, c.conditions, d)
    ensures var id := EntityId(c.kind, c.integration, source);
      exists es :: Settled(Run(tx, es)) && Holds(tx, Run(tx, es), c, id) && (c, id) !in Run(tx, es).matches
  {
    var id := EntityId(c.kind, c.integration, source);
    var es := [
      Arrive(0, CriteriaArrived(c)), Advance(0), Advance(0), Advance(0), DropCriteria(c),
      Arrive(1, EntityArrived(id, d)), Advance(1), Advance(1), Advance(1),
      Arrive(2, CriteriaArrived(c)), Advance(2)];
    MissingRun(tx, c, id, d, es);
    assert Settled(Run(tx, es)) && Holds(tx, Run(tx, es), c, id) && (c, id) !in Run(tx, es).matches;
  }

  ghost predicate Scenario(c: Criteria, id: EntityId, d: Data, es: seq<Event>) {
    && c.integration != "" && Targets(c, id)
    && es == [
         Arrive(0, CriteriaArrived(c)), Advance(0), Advance(0), Advance(0), DropCriteria(c),
         Arrive(1, EntityArrived(id, d)), Advance(1), Advance(1), Advance(1),
         Arrive(2, CriteriaArrived(c)), Advance(2)]
  }

  /** The rows a criteria reads while there is no entity. */
  function NoRows(): map<EntityId, Data> { map[] }

  lemma NoEntities(c: Criteria)
    ensures EntitiesFor(map[], c) == NoRows() && NoRows().Keys == {}
  {
  }

  lemma CriteriaWrites(tx: C.Texts, c: Criteria, id: EntityId, d: Data, es: seq<Event>)
    requires Scenario(c, id, d, es)
    ensures Run(tx, es[..2]) == State(map[], map[c := true], {}, map[0 := CriteriaWritten(c)], {}, {})
  {
    hide Run;
    RunStep(tx, es, 0);
    RunStep(tx, es, 1);
    assert Run(tx, es[..1]) == State(map[], map[], {}, map[0 := CriteriaArrived(c)], {}, {});
    RunStep(tx, es, 2);
  }

  lemma CriteriaAlone(tx: C.Texts, c: Criteria, id: EntityId, d: Data, es: seq<Event>)
    requires Scenario(c, id, d, es)
    ensures Run(tx, es[..5]) == State(map[], map[c := false], {}, map[0 := Finished], {c}, {})
  {
    hide Run, EntitiesFor, NoRows;
    CriteriaWrites(tx, c, id, d, es);
    NoEntities(c);
    RunStep(tx, es, 3);
    assert Run(tx, es[..3]) == State(map[], map[c := true], {}, map[0 := CriteriaChecking(c, NoRows(), {})], {}, {});
    RunStep(tx, es, 4);
    assert Run(tx, es[..4]) == State(map[], map[c := true], {}, map[0 := Finished], {}, {});
    RunStep(tx, es, 5);
  }

  lemma EntityWrites(tx: C.Texts, c: Criteria, id: EntityId, d: Data, es: seq<Event>)
    requires Scenario(c, id, d, es)
    ensures Run(tx, es[..7]) == State(map[id := Entity(d, true)], map[c := false], {},
                                      map[0 := Finished, 1 := EntityWritten(id, d)], {c}, {(id, d)})
  {
    hide Run;
    CriteriaAlone(tx, c, id, d, es);
    RunStep(tx, es, 6);
    assert Run(tx, es[..6]) == State(map[], map[c := false], {}, map[0 := Finished, 1 := EntityArrived(id, d)], {c}, {});
    RunStep(tx, es, 7);
  }

  lemma EntityMeanwhile(tx: C.Texts, c: Criteria, id: EntityId, d: Data, es: seq<Event>)
    requires Scenario(c, id, d, es)
    ensures Run(tx, es[..9]) == State(map[id := Entity(d, true)], map[c := false], {}, map[0 := Finished, 1 := Finished], {c}, {(id, d)})
  {
    hide Run;
    EntityWrites(tx, c, id, d, es);
    RunStep(tx, es, 8);
    assert CriteriaFor(map[c := false], id) == {};
    assert Run(tx, es[..8]) == State(map[id := Entity(d, true)], map[c := false], {}, map[0 := Finished, 1 := EntityChecking(id, d, {})], {c}, {(id, d)});
    RunStep(tx, es, 9);
  }

  lemma MissingRun(tx: C.Texts, c: Criteria, id: EntityId, d: Data, es: seq<Event>)
    requires Scenario(c, id, d, es)
    ensures Run(tx, es) == State(map[id := Entity(d, true)], map[c := true], {},
                                 map[0 := Finished, 1 := Finished, 2 := Finished], {c}, {(id, d)})
  {
    hide Run;
    EntityMeanwhile(tx, c, id, d, es);
    RunStep(tx, es, 10);
    assert Run(tx, es[..10]) == State(map[id := Entity(d, true)], map[c := false], {},
                                      map[0 := Finished, 1 := Finished, 2 := CriteriaArrived(c)], {c}, {(id, d)});
    RunStep(tx, es, 11);
    assert es[..11] == es;
  }

  lemma RunStep(tx: C.Texts, es: seq<Event>, k: nat)
    requires k <= |es|
    ensures Run(tx, es[..k]) == if k == 0 then Start else Next(tx, Run(tx, es[..k - 1]), es[k - 1])
  {
    if k > 0 { assert es[..k][..k - 1] == es[..k - 1]; }
  }

  // ---------- soundness ----------

  /** A snapshot a message works with is data its entity has had. */
  ghost predicate Snapshot(s: State, m: Message) {
    match m
    case EntityWritten(id, d) => (id, d) in s.seen
    case EntityChecking(id, d, todo) => (id, d) in s.seen && forall c | c in todo :: Targets(c, id)
    case CriteriaChecking(c, found, _) => forall id | id in found :: (id, found[id]) in s.seen && Targets(c, id)
    case _ => true
  }

  ghost predicate OnceTrue(tx: C.Texts, s: State, c: Criteria, id: EntityId) {
    c.kind == id.kind && c.integration == id.integration && exists d :: (id, d) in s.seen && C.Accepts(tx, c.conditions, d)
  }

  ghost predicate Sound(tx: C.Texts, s: State) {
    && (forall c, id | (c, id) in s.matches :: OnceTrue(tx, s, c, id))
    && (forall w | w in s.messages :: Snapshot(s, s.messages[w]))
    && (forall id | id in s.entities :: (id, s.entities[id].data) in s.seen)
  }

  lemma StillSound(tx: C.Texts, s: State, t: State, v: nat)
    requires Sound(tx, s) && s.seen <= t.seen
    requires forall w | w in t.messages && w != v :: w in s.messages && t.messages[w] == s.messages[w]
    requires v in t.messages ==> Snapshot(t, t.messages[v])
    requires forall c, id | (c, id) in t.matches :: (c, id) in s.matches || OnceTrue(tx, t, c, id)
    requires forall id | id in t.entities :: (id, t.entities[id].data) in t.seen
    ensures Sound(tx, t)
  {
    hide C.Accepts;
    forall w | w in t.messages ensures Snapshot(t, t.messages[w]) {
      if w != v { assert Snapshot(s, s.messages[w]); }
    }
    forall c, id | (c, id) in t.matches ensures OnceTrue(tx, t, c, id) {
      if (c, id) in s.matches { assert OnceTrue(tx, s, c, id); }
    }
  }

  lemma StatementSound(tx: C.Texts, s: State, w: nat)
    requires Sound(tx, s) && w in s.messages
    ensures Sound(tx, Statement(s, w, s.messages[w]))
  {
    hide OnceTrue, Upserted, CriteriaFor, EntitiesFor, Targets;
    var t := Statement(s, w, s.messages[w]);
    assert Snapshot(s, s.messages[w]);
    if s.messages[w].EntityWritten? { CriteriaForTarget(s.criteria, s.messages[w].id); }
    if s.messages[w].CriteriaWritten? { EntitiesForTarget(s.entities, s.messages[w].crit); }
    if s.messages[w].EntityArrived? { SameOnce(tx, s, t); } else { SameSeen(tx, s, t); }
    StillSound(tx, s, t, w);
  }

  lemma SameOnce(tx: C.Texts, s: State, t: State)
    requires s.seen <= t.seen
    ensures forall c, id | OnceTrue(tx, s, c, id) :: OnceTrue(tx, t, c, id)
  {
    hide C.Accepts;
  }

  lemma CriteriaForTarget(criteria: map<Criteria, bool>, id: EntityId)
    ensures forall c | c in CriteriaFor(criteria, id) :: c in criteria && Targets(c, id)
  {
  }

  lemma EntitiesForTarget(es: map<EntityId, Entity>, c: Criteria)
    ensures forall id | id in EntitiesFor(es, c) :: id in es && Targets(c, id) && EntitiesFor(es, c)[id] == es[id].data
  {
  }

  lemma RecordedSound(tx: C.Texts, s: State, c: Criteria, id: EntityId, d: Data)
    requires (id, d) in s.seen && Targets(c, id)
    ensures forall x, y | (x, y) in Recorded(tx, s.matches, c, id, d) :: (x, y) in s.matches || OnceTrue(tx, s, x, y)
  {
    hide C.Accepts;
  }

  lemma StepSound(tx: C.Texts, s: State, e: Event)
    requires Sound(tx, s)
    ensures Sound(tx, Next(tx, s, e))
  {
    hide OnceTrue, Recorded;
    var t := Next(tx, s, e);
    if t != s {
      match e
      case Arrive(w, _) => StillSound(tx, s, t, w);
      case Advance(w) => StatementSound(tx, s, w);
      case CheckCriteria(w, c) =>
        var m := s.messages[w];
        assert Snapshot(s, m);
        RecordedSound(tx, s, c, m.id, m.data);
        SameSeen(tx, s, t);
        StillSound(tx, s, t, w);
      case CheckEntity(w, id) =>
        var m := s.messages[w];
        assert Snapshot(s, m);
        RecordedSound(tx, s, m.crit, id, m.found[id]);
        SameSeen(tx, s, t);
        StillSound(tx, s, t, w);
      case DropEntity(_) => StillSound(tx, s, t, 0);
      case DropCriteria(_) => StillSound(tx, s, t, 0);
    }
  }

  lemma SameSeen(tx: C.Texts, s: State, t: State)
    requires s.seen == t.seen
    ensures forall c, id :: OnceTrue(tx, s, c, id) == OnceTrue(tx, t, c, id)
  {
  }

  /** A recorded match has the right target, and was true of the entity at some time. */
  lemma {:induction false} EveryMatchWasTrue(tx: C.Texts, es: seq<Event>)
    ensures Sound(tx, Run(tx, es))
  {
    if es != [] {
      EveryMatchWasTrue(tx, es[..|es| - 1]);
      StepSound(tx, Run(tx, es[..|es| - 1]), es[|es| - 1]);
    }
  }

}
