/** Which pairs a finished run has recorded: exactly those some read statement found. */
module CriteriaHistory {
  import opened LotusSteps
  import opened CriteriaJoin
  import C = Criteria

  /** The next statement reads the other side and finds the pair: the row live, of the right target, and
      the condition true of the data the message works with. */
  ghost predicate Offers(tx: C.Texts, s: State, e: Event, c: Criteria, id: EntityId) {
    e.Advance? && e.w in s.messages &&
    match s.messages[e.w]
    case EntityWritten(i, d) =>
      i == id && c in s.criteria && s.criteria[c] && c.kind == id.kind && c.integration == id.integration && C.Accepts(tx, c.conditions, d)
    case CriteriaWritten(x) =>
      && x == c && id in s.entities && s.entities[id].live && c.kind == id.kind && c.integration == id.integration
      && C.Accepts(tx, c.conditions, s.entities[id].data)
    case _ => false
  }

  ghost predicate OffersAt(tx: C.Texts, es: seq<Event>, k: nat, c: Criteria, id: EntityId) {
    k < |es| && Offers(tx, Run(tx, es[..k]), es[k], c, id)
  }

  /** Some statement of the run found the pair. */
  ghost predicate Offered(tx: C.Texts, es: seq<Event>, c: Criteria, id: EntityId) {
    exists k: nat :: OffersAt(tx, es, k, c, id)
  }

  /** The pair was found and is still to be recorded. */
  ghost predicate Pending(tx: C.Texts, m: Message, c: Criteria, id: EntityId) {
    match m
    case EntityChecking(i, d, todo) => i == id && c in todo && C.Accepts(tx, c.conditions, d)
    case CriteriaChecking(x, found, left) => x == c && id in left && id in found && C.Accepts(tx, c.conditions, found[id])
    case _ => false
  }

  ghost predicate RecordedOrPending(tx: C.Texts, s: State, c: Criteria, id: EntityId) {
    (c, id) in s.matches || exists w :: w in s.messages && Pending(tx, s.messages[w], c, id)
  }

  /** One message changes: what it recorded and still has to record accounts for what it had. */
  lemma OneMessage(tx: C.Texts, s: State, t: State, v: nat, c: Criteria, id: EntityId, offered: bool)
    requires v in t.messages && s.matches <= t.matches
    requires forall w | w != v :: (w in t.messages <==> w in s.messages) && (w in s.messages ==> t.messages[w] == s.messages[w])
    requires ((c, id) in t.matches || Pending(tx, t.messages[v], c, id)) <==>
      ((c, id) in s.matches || (v in s.messages && Pending(tx, s.messages[v], c, id)) || offered)
    ensures RecordedOrPending(tx, t, c, id) <==> RecordedOrPending(tx, s, c, id) || offered
  {
    hide Pending;
    if w :| w in s.messages && Pending(tx, s.messages[w], c, id) {
      if w != v { assert w in t.messages && Pending(tx, t.messages[w], c, id); }
    }
    if w :| w in t.messages && Pending(tx, t.messages[w], c, id) {
      if w != v { assert w in s.messages && Pending(tx, s.messages[w], c, id); }
    }
  }

  lemma StatementAccounts(tx: C.Texts, s: State, w: nat, c: Criteria, id: EntityId)
    requires w in s.messages
    ensures RecordedOrPending(tx, Statement(s, w, s.messages[w]), c, id) <==>
      RecordedOrPending(tx, s, c, id) || Offers(tx, s, Advance(w), c, id)
  {
    hide C.Accepts, RecordedOrPending, Upserted;
    var t := Statement(s, w, s.messages[w]);
    OneMessage(tx, s, t, w, c, id, Offers(tx, s, Advance(w), c, id));
  }

  lemma NextAccounts(tx: C.Texts, s: State, e: Event, c: Criteria, id: EntityId)
    ensures RecordedOrPending(tx, Next(tx, s, e), c, id) <==> RecordedOrPending(tx, s, c, id) || Offers(tx, s, e, c, id)
  {
    hide C.Accepts, RecordedOrPending;
    var t := Next(tx, s, e);
    if t != s {
      match e
      case Arrive(w, _) => OneMessage(tx, s, t, w, c, id, false);
      case Advance(w) => StatementAccounts(tx, s, w, c, id);
      case CheckCriteria(w, _) => OneMessage(tx, s, t, w, c, id, false);
      case CheckEntity(w, _) => OneMessage(tx, s, t, w, c, id, false);
      case DropEntity(_) => SameMessages(tx, s, t, c, id);
      case DropCriteria(_) => SameMessages(tx, s, t, c, id);
    } else if e.Advance? && e.w in s.messages {
      StatementAccounts(tx, s, e.w, c, id);
    }
  }

  lemma SameMessages(tx: C.Texts, s: State, t: State, c: Criteria, id: EntityId)
    requires s.messages == t.messages && s.matches == t.matches
    ensures RecordedOrPending(tx, t, c, id) == RecordedOrPending(tx, s, c, id)
  {
  }

  lemma OfferedMore(tx: C.Texts, es: seq<Event>, c: Criteria, id: EntityId)
    requires es != []
    ensures var n := |es| - 1;
      Offered(tx, es, c, id) <==> Offered(tx, es[..n], c, id) || Offers(tx, Run(tx, es[..n]), es[n], c, id)
  {
    hide Offers, Run;
    var n := |es| - 1;
    if k: nat :| OffersAt(tx, es, k, c, id) {
      if k < n {
        assert es[..n][..k] == es[..k];
        assert OffersAt(tx, es[..n], k, c, id);
      }
    }
    if k: nat :| OffersAt(tx, es[..n], k, c, id) {
      assert es[..n][..k] == es[..k];
      assert OffersAt(tx, es, k, c, id);
    }
    if Offers(tx, Run(tx, es[..n]), es[n], c, id) { assert OffersAt(tx, es, n, c, id); }
  }

  lemma {:induction false} RunAccounts(tx: C.Texts, es: seq<Event>, c: Criteria, id: EntityId)
    ensures RecordedOrPending(tx, Run(tx, es), c, id) <==> Offered(tx, es, c, id)
  {
    if es != [] {
      hide RecordedOrPending, Offered, Offers, Next;
      var n := |es| - 1;
      RunAccounts(tx, es[..n], c, id);
      NextAccounts(tx, Run(tx, es[..n]), es[n], c, id);
      OfferedMore(tx, es, c, id);
    }
  }

  /** Once every message has finished, a pair is recorded exactly when some read statement of the run found it,
      whatever the interleaving, and whatever was deleted or revived in between. */
  lemma MatchesAreOffers(tx: C.Texts, es: seq<Event>, c: Criteria, id: EntityId)
    requires Settled(Run(tx, es))
    ensures (c, id) in Run(tx, es).matches <==> Offered(tx, es, c, id)
  {
    hide Offered, Run;
    RunAccounts(tx, es, c, id);
  }

  /** After a criteria message that merely revived its row, its matches are complete exactly when every live entity
      that satisfies it now was found before: by a read of an entity message while the row was live and the data
      then satisfied it, or by the read that followed the insertion of the row. */
  lemma RevivedCriteriaExactly(tx: C.Texts, es: seq<Event>, w: nat, c: Criteria)
    requires Settled(Run(tx, es)) && w !in Run(tx, es).messages
    requires c in Run(tx, es).criteria && c.integration != ""
    ensures var s, t := Run(tx, es), Run(tx, es + [Arrive(w, CriteriaArrived(c)), Advance(w)]);
      && Settled(t) && c in t.criteria && t.criteria[c] && t.entities == s.entities
      && ((forall id | Holds(tx, t, c, id) :: (c, id) in t.matches) <==>
          (forall id | Holds(tx, t, c, id) :: Offered(tx, es, c, id)))
  {
    hide Run, Offered, C.Accepts;
    var s := Run(tx, es);
    var a, b := Arrive(w, CriteriaArrived(c)), Advance(w);
    RunMore(tx, es, a);
    RunMore(tx, es + [a], b);
    assert es + [a] + [b] == es + [a, b];
    var t := Run(tx, es + [a, b]);
    assert t.matches == s.matches;
    forall id ensures (c, id) in t.matches <==> Offered(tx, es, c, id) {
      MatchesAreOffers(tx, es, c, id);
    }
  }

  lemma {:induction false} RunMore(tx: C.Texts, es: seq<Event>, e: Event)
    ensures Run(tx, es + [e]) == Next(tx, Run(tx, es), e)
  {
    assert (es + [e])[..|es|] == es;
  }

  // ---------- the data of an entity ----------

  /** The next statement is the write of an entity message. */
  ghost predicate Writes(s: State, e: Event, id: EntityId, patch: Data) {
    e.Advance? && e.w in s.messages && s.messages[e.w] == EntityArrived(id, patch)
  }

  /** Event number k of the run is one that carries the key. */
  ghost predicate Carries(tx: C.Texts, es: seq<Event>, k: nat, id: EntityId, key: string) {
    k < |es| && exists patch :: Writes(Run(tx, es[..k]), es[k], id, patch) && key in patch
  }

  /** And it gives it the value v. */
  ghost predicate Gives(tx: C.Texts, es: seq<Event>, k: nat, id: EntityId, key: string, v: Value) {
    k < |es| && exists patch :: Writes(Run(tx, es[..k]), es[k], id, patch) && key in patch && patch[key] == v
  }

  ghost predicate GivesLast(tx: C.Texts, es: seq<Event>, k: nat, id: EntityId, key: string, v: Value) {
    Gives(tx, es, k, id, key, v) && forall j: nat :: k < j ==> !Carries(tx, es, j, id, key)
  }

  ghost predicate Given(tx: C.Texts, es: seq<Event>, id: EntityId, key: string, v: Value) { exists k: nat :: GivesLast(tx, es, k, id, key, v) }

  ghost predicate Reads(s: State, id: EntityId, key: string, v: Value) {
    id in s.entities && key in s.entities[id].data && s.entities[id].data[key] == v
  }

  lemma NextReads(tx: C.Texts, s: State, e: Event, id: EntityId, key: string, v: Value)
    ensures Reads(Next(tx, s, e), id, key, v) <==>
      || (exists patch :: Writes(s, e, id, patch) && key in patch && patch[key] == v)
      || (Reads(s, id, key, v) && !exists patch :: Writes(s, e, id, patch) && key in patch)
  {
    hide C.Accepts, Upserted, CriteriaFor, EntitiesFor, Recorded;
    if e.Advance? && e.w in s.messages && s.messages[e.w].EntityArrived? {
      UpsertedExactly(s.entities, s.messages[e.w].id, s.messages[e.w].patch);
    }
  }

  lemma EarlierSame(tx: C.Texts, es: seq<Event>, k: nat, id: EntityId, key: string, v: Value)
    requires es != [] && k < |es| - 1
    ensures Carries(tx, es, k, id, key) <==> Carries(tx, es[..|es| - 1], k, id, key)
    ensures Gives(tx, es, k, id, key, v) <==> Gives(tx, es[..|es| - 1], k, id, key, v)
  {
    assert es[..|es| - 1][..k] == es[..k];
  }

  /** Whatever the interleaving, each key of an entity reads what the last write that carries it gave it, and there are
      no other keys. */
  lemma {:induction false} LastWriteWins(tx: C.Texts, es: seq<Event>, id: EntityId, key: string, v: Value)
    ensures Reads(Run(tx, es), id, key, v) <==> Given(tx, es, id, key, v)
  {
    if es != [] {
      var n := |es| - 1;
      LastWriteWins(tx, es[..n], id, key, v);
      NextReads(tx, Run(tx, es[..n]), es[n], id, key, v);
      hide Next, Reads, Writes;
      forall k: nat | k < n
        ensures Carries(tx, es, k, id, key) <==> Carries(tx, es[..n], k, id, key)
        ensures Gives(tx, es, k, id, key, v) <==> Gives(tx, es[..n], k, id, key, v)
      {
        EarlierSame(tx, es, k, id, key, v);
      }
      OneMoreWrite(tx, es, id, key, v);
    }
  }

  lemma OneMoreWrite(tx: C.Texts, es: seq<Event>, id: EntityId, key: string, v: Value)
    requires es != []
    requires forall k: nat | k < |es| - 1 :: Carries(tx, es, k, id, key) <==> Carries(tx, es[..|es| - 1], k, id, key)
    requires forall k: nat | k < |es| - 1 :: Gives(tx, es, k, id, key, v) <==> Gives(tx, es[..|es| - 1], k, id, key, v)
    ensures Given(tx, es, id, key, v) <==>
      || Gives(tx, es, |es| - 1, id, key, v)
      || (!Carries(tx, es, |es| - 1, id, key) && Given(tx, es[..|es| - 1], id, key, v))
  {
    var n := |es| - 1;
    InRun(tx, es, id, key, v);
    InRun(tx, es[..n], id, key, v);
    hide Carries, Gives;
    if k: nat :| GivesLast(tx, es, k, id, key, v) {
      if k < n {
        forall j: nat | k < j ensures !Carries(tx, es[..n], j, id, key) {
          if j < n { assert !Carries(tx, es, j, id, key); }
        }
        assert GivesLast(tx, es[..n], k, id, key, v);
      }
    }
    if Gives(tx, es, n, id, key, v) {
      assert GivesLast(tx, es, n, id, key, v);
    } else if !Carries(tx, es, n, id, key) {
      if k: nat :| GivesLast(tx, es[..n], k, id, key, v) { assert GivesLast(tx, es, k, id, key, v); }
    }
  }

  lemma InRun(tx: C.Texts, es: seq<Event>, id: EntityId, key: string, v: Value)
    ensures forall k: nat :: Carries(tx, es, k, id, key) ==> k < |es|
    ensures forall k: nat :: Gives(tx, es, k, id, key, v) ==> k < |es|
  {
    hide Run, Writes;
  }
}
