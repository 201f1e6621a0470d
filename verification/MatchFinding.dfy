/** Finding the matches of an entity, and what candidate generation may leave out. */
module MatchFinding {
  import opened Basics
  import opened Matching

  /** The indexed rows of the other entities of the same tenant and type. */
  type World = map<string, Index>

  // ---------- generation ----------

  ghost function Selected(similar: Similarity, src: Index, world: World, r: Rule): set<string> {
    set id | id in world && Anchored(similar, src, world[id], r)
  }

  ghost function Generated(similar: Similarity, src: Index, world: World, rules: seq<Rule>): set<string> {
    if rules == [] then {}
    else Generated(similar, src, world, rules[..|rules| - 1]) + Selected(similar, src, world, rules[|rules| - 1])
  }

  ghost function QueriedRows(similar: Similarity, src: Index, world: World, rules: seq<Rule>): nat {
    if rules == [] then 0
    else QueriedRows(similar, src, world, rules[..|rules| - 1]) + |Selected(similar, src, world, rules[|rules| - 1])|
  }

  ghost predicate Selects(similar: Similarity, src: Index, cand: Index, cs: seq<Condition>) {
    forall c <- cs :: RowMatches(similar, src, cand, c)
  }

  method MeetsAll(similar: Similarity, src: Index, cand: Index, cs: seq<Condition>) returns (met: bool)
    ensures met == Selects(similar, src, cand, cs)
  {
    hide RowMatches;
    for k := 0 to |cs|
      invariant forall j :: 0 <= j < k ==> RowMatches(similar, src, cand, cs[j])
    {
      if !RowMatches(similar, src, cand, cs[k]) {
        assert cs[k] in cs;
        return false;
      }
    }
    met := true;
  }

  /** A query with a limit: any of the rows it selects, all of them when they are few enough. */
  method Query(similar: Similarity, src: Index, world: World, cs: seq<Condition>, limit: nat) returns (ids: set<string>)
    ensures ids <= AllRows(similar, src, world, cs) && |ids| <= limit
    ensures |AllRows(similar, src, world, cs)| <= limit ==> ids == AllRows(similar, src, world, cs)
  {
    hide Selects;
    ids := {};
    var rest := world.Keys;
    ghost var all := AllRows(similar, src, world, cs);
    while rest != {} && |ids| < limit
      invariant rest <= world.Keys && |ids| <= limit
      invariant forall id :: id in ids <==> id in all && id !in rest
    {
      var id :| id in rest;
      rest := rest - {id};
      var met := MeetsAll(similar, src, world[id], cs);
      if met { ids := ids + {id}; }
    }
    assert rest == {} ==> ids == all;
    Subset(ids, all);
  }

  ghost function AllRows(similar: Similarity, src: Index, world: World, cs: seq<Condition>): set<string> {
    set id | id in world && Selects(similar, src, world[id], cs)
  }

  method GenerateCandidatesForRule(similar: Similarity, src: Index, world: World, r: Rule, limit: nat) returns (ids: set<string>)
    ensures ids <= Selected(similar, src, world, r) && |ids| <= limit
    ensures |Selected(similar, src, world, r)| <= limit ==> ids == Selected(similar, src, world, r)
  {
    hide RowMatches, HasValue, SourceHas;
    var indexable, fuzzy: seq<Condition> := [], [];
    for i := 0 to |r.conditions|
      invariant indexable == Chosen(r.conditions[..i], c => Indexable(src, c))
      invariant fuzzy == Chosen(r.conditions[..i], c => UsableFuzzy(src, c))
      invariant forall j :: 0 <= j < i ==> !Hopeless(src, r.conditions[j])
    {
      var c := r.conditions[i];
      assert r.conditions[..i + 1][..i] == r.conditions[..i];
      if !c.noMerge && !c.invert {
        if !SourceHas(src, c) {
          if c.required {
            assert Hopeless(src, r.conditions[i]);
            return {};
          }
        } else {
          match c.kind {
            case Exact => indexable := indexable + [c];
            case Phonetic => indexable := indexable + [c];
            case Fuzzy => fuzzy := fuzzy + [c];
            case _ =>
          }
        }
      }
    }
    assert r.conditions[..|r.conditions|] == r.conditions;
    if |indexable| > 0 {
      ids := Query(similar, src, world, indexable, limit);
      assert AllRows(similar, src, world, indexable) == Selected(similar, src, world, r);
    } else if |fuzzy| > 0 {
      var best := SelectBestFuzzyAnchor(fuzzy);
      ids := Query(similar, src, world, [best], limit);
      assert forall c :: c in [best] <==> c == best;
      assert AllRows(similar, src, world, [best]) == Selected(similar, src, world, r);
    } else {
      ids := {};
    }
  }

  /** The union over the rules, unless the cap is reached. */
  method GenerateCandidates(similar: Similarity, src: Index, world: World, rules: seq<Rule>, cap: nat) returns (ids: set<string>)
    ensures ids <= Generated(similar, src, world, rules)
    ensures QueriedRows(similar, src, world, rules) <= cap ==> ids == Generated(similar, src, world, rules)
  {
    hide Selected;
    ids := {};
    for i := 0 to |rules|
      invariant Progress(similar, src, world, rules, cap, i, ids)
    {
      if |ids| >= cap {
        AtCap(similar, src, world, rules, cap, i, ids);
        return;
      }
      RoomForRule(similar, src, world, rules, cap, i, ids);
      var more := GenerateCandidatesForRule(similar, src, world, rules[i], cap - |ids|);
      OneMoreRule(similar, src, world, rules, cap, i, ids, more);
      ids := ids + more;
    }
    assert rules[..|rules|] == rules;
  }

  /** ids come from the first i rules, and from all their rows where the cap leaves room for every query. */
  ghost predicate Progress(similar: Similarity, src: Index, world: World, rules: seq<Rule>, cap: nat, i: nat, ids: set<string>) {
    && i <= |rules| && |ids| <= cap
    && ids <= Generated(similar, src, world, rules[..i])
    && (QueriedRows(similar, src, world, rules) <= cap ==>
          ids == Generated(similar, src, world, rules[..i]) && |ids| <= QueriedRows(similar, src, world, rules[..i]))
  }

  lemma AtCap(similar: Similarity, src: Index, world: World, rules: seq<Rule>, cap: nat, i: nat, ids: set<string>)
    requires Progress(similar, src, world, rules, cap, i, ids) && |ids| >= cap
    ensures ids <= Generated(similar, src, world, rules)
    ensures QueriedRows(similar, src, world, rules) <= cap ==> ids == Generated(similar, src, world, rules)
  {
    hide QueriedRows, Generated;
    FewerRules(similar, src, world, rules, i);
  }

  lemma RoomForRule(similar: Similarity, src: Index, world: World, rules: seq<Rule>, cap: nat, i: nat, ids: set<string>)
    requires Progress(similar, src, world, rules, cap, i, ids) && i < |rules|
    ensures QueriedRows(similar, src, world, rules) <= cap ==> |Selected(similar, src, world, rules[i])| <= cap - |ids|
    ensures Generated(similar, src, world, rules[..i + 1]) == Generated(similar, src, world, rules[..i]) + Selected(similar, src, world, rules[i])
    ensures QueriedRows(similar, src, world, rules[..i + 1]) == QueriedRows(similar, src, world, rules[..i]) + |Selected(similar, src, world, rules[i])|
  {
    hide Selected;
    assert rules[..i + 1][..i] == rules[..i];
    FewerRules(similar, src, world, rules, i + 1);
  }

  lemma OneMoreRule(similar: Similarity, src: Index, world: World, rules: seq<Rule>, cap: nat, i: nat, ids: set<string>, more: set<string>)
    requires Progress(similar, src, world, rules, cap, i, ids) && i < |rules|
    requires more <= Selected(similar, src, world, rules[i]) && |more| <= cap - |ids|
    requires |Selected(similar, src, world, rules[i])| <= cap - |ids| ==> more == Selected(similar, src, world, rules[i])
    ensures Progress(similar, src, world, rules, cap, i + 1, ids + more)
  {
    RoomForRule(similar, src, world, rules, cap, i, ids);
    hide Selected, QueriedRows, Generated;
    Joined(ids, more);
  }

  lemma Joined(a: set<string>, b: set<string>)
    ensures |a + b| <= |a| + |b|
  {
    assert a + b == a + (b - a);
    Subset(b - a, b);
  }

  lemma {:induction false} FewerRules(similar: Similarity, src: Index, world: World, rules: seq<Rule>, k: nat)
    requires k <= |rules|
    ensures QueriedRows(similar, src, world, rules[..k]) <= QueriedRows(similar, src, world, rules)
    ensures Generated(similar, src, world, rules[..k]) <= Generated(similar, src, world, rules)
    ensures QueriedRows(similar, src, world, rules[..k]) == QueriedRows(similar, src, world, rules) ==>
              Generated(similar, src, world, rules[..k]) == Generated(similar, src, world, rules)
  {
    hide Selected;
    if k == |rules| {
      assert rules[..k] == rules;
    } else {
      var front := rules[..|rules| - 1];
      FewerRules(similar, src, world, front, k);
      assert front[..k] == rules[..k];
    }
  }

  lemma {:induction false} GeneratedIs(similar: Similarity, src: Index, world: World, rules: seq<Rule>, id: string)
    ensures id in Generated(similar, src, world, rules) <==>
      id in world && exists r :: r in rules && Anchored(similar, src, world[id], r)
  {
    hide Anchored;
    if rules != [] {
      GeneratedIs(similar, src, world, rules[..|rules| - 1], id);
      assert rules == rules[..|rules| - 1] + [rules[|rules| - 1]];
    }
  }

  // ---------- matches ----------

  /** What evaluating every entity against every rule would report as an unblocked match. */
  ghost predicate Matches(similar: Similarity, src: Index, world: World, rules: seq<Rule>, min: real, id: string) {
    id in world && world[id] != map[] && !Blocked(similar, src, world[id], rules) && Accepted(similar, src, world[id], rules, min)
  }

  ghost predicate Reported(os: seq<Outcome>, id: string) { exists o :: o in os && o.id == id && !o.blocked }

  /** The outcome is what evaluating its candidate against every rule gives, and is kept. */
  ghost predicate IsOutcome(similar: Similarity, src: Index, world: World, rules: seq<Rule>, min: real, autoMerge: real, o: Outcome) {
    && o.id in world && world[o.id] != map[] && o.blocked == Blocked(similar, src, world[o.id], rules)
    && (if o.blocked then o.score == 0.0 && !o.autoMerge
        else IsBest(similar, src, world[o.id], rules, o.score) && o.score >= min && o.autoMerge == (o.score >= autoMerge))
  }

  /** Blocked, or with a best score that is enough. */
  ghost predicate Kept(similar: Similarity, src: Index, world: World, rules: seq<Rule>, min: real, id: string) {
    && id in world && world[id] != map[]
    && (Blocked(similar, src, world[id], rules) || exists best :: best >= min && IsBest(similar, src, world[id], rules, best))
  }

  /** No entity has two outcomes. */
  ghost predicate Once(os: seq<Outcome>) {
    && (forall o, p | o in os && p in os && o.id == p.id :: o == p)
    && forall o | o in os :: multiset(os)[o] == 1
  }

  ghost predicate HasOutcome(os: seq<Outcome>, id: string) { exists o :: o in os && o.id == id }

  /** The outcomes of the candidates: one for each that is kept, and no other. */
  ghost predicate Evaluated(similar: Similarity, src: Index, world: World, rules: seq<Rule>, min: real, autoMerge: real,
                            candidates: set<string>, os: seq<Outcome>) {
    && Once(os)
    && (forall o <- os :: IsOutcome(similar, src, world, rules, min, autoMerge, o))
    && forall id :: HasOutcome(os, id) <==> id in candidates && Kept(similar, src, world, rules, min, id)
  }

  ghost predicate NoCap(similar: Similarity, src: Index, world: World, rules: seq<Rule>, cap: nat) {
    QueriedRows(similar, src, world, rules) <= cap
  }

  ghost predicate Descending(os: seq<Outcome>) { forall i, j :: 0 <= i < j < |os| ==> os[i].score >= os[j].score }

  function InsertByScore(o: Outcome, os: seq<Outcome>): seq<Outcome> {
    if os == [] || o.score > os[0].score then [o] + os else [os[0]] + InsertByScore(o, os[1..])
  }

  lemma {:induction false} InsertAdds(o: Outcome, os: seq<Outcome>)
    ensures multiset(InsertByScore(o, os)) == multiset(os) + multiset{o}
  {
    if os != [] && o.score <= os[0].score {
      InsertAdds(o, os[1..]);
      assert os == [os[0]] + os[1..];
    }
  }

  lemma {:induction false} InsertKeepsOrder(o: Outcome, os: seq<Outcome>)
    requires Descending(os)
    ensures Descending(InsertByScore(o, os))
    ensures InsertByScore(o, os)[0].score == if os == [] || o.score > os[0].score then o.score else os[0].score
  {
    if os != [] && o.score <= os[0].score {
      InsertKeepsOrder(o, os[1..]);
      BelowFirst(os[0], InsertByScore(o, os[1..]));
    } else if os != [] {
      BelowFirst(o, os);
    }
  }

  lemma BelowFirst(o: Outcome, os: seq<Outcome>)
    requires Descending(os) && (os != [] ==> o.score >= os[0].score)
    ensures Descending([o] + os)
  {
  }

  lemma NoneDescends()
    ensures Descending([])
  {
  }

  /** Sorting by score, highest first. */
  method SortByScore(os: seq<Outcome>) returns (r: seq<Outcome>)
    ensures Descending(r) && multiset(r) == multiset(os)
  {
    hide InsertByScore, Descending;
    r := [];
    NoneDescends();
    for i := 0 to |os|
      invariant Descending(r) && multiset(r) == multiset(os[..i])
    {
      InsertKeepsOrder(os[i], r);
      InsertAdds(os[i], r);
      r := InsertByScore(os[i], r);
      assert os[..i + 1] == os[..i] + [os[i]];
    }
    assert os[..|os|] == os;
  }

  lemma Permuted(os: seq<Outcome>, rs: seq<Outcome>)
    requires multiset(rs) == multiset(os)
    ensures forall o :: o in rs <==> o in os
    ensures Once(os) ==> Once(rs)
  {
    forall o ensures o in rs <==> o in os { assert o in rs <==> o in multiset(rs); }
  }

  lemma EvaluatedReports(similar: Similarity, src: Index, world: World, rules: seq<Rule>, min: real, autoMerge: real,
                         candidates: set<string>, os: seq<Outcome>)
    requires Evaluated(similar, src, world, rules, min, autoMerge, candidates, os) && min > 0.0
    ensures forall id :: Reported(os, id) <==> id in candidates && Matches(similar, src, world, rules, min, id)
  {
    hide Blocked, Accepted, IsBest;
    forall id ensures Reported(os, id) <==> id in candidates && Matches(similar, src, world, rules, min, id) {
      if Reported(os, id) {
        var o :| o in os && o.id == id && !o.blocked;
        assert HasOutcome(os, id);
        BestReaches(similar, src, world[id], rules, o.score, min);
      }
      if id in candidates && Matches(similar, src, world, rules, min, id) {
        MatchIsKept(similar, src, world, rules, min, id);
        var o :| o in os && o.id == id;
      }
    }
  }

  lemma MatchIsKept(similar: Similarity, src: Index, world: World, rules: seq<Rule>, min: real, id: string)
    requires Matches(similar, src, world, rules, min, id) && min > 0.0
    ensures Kept(similar, src, world, rules, min, id)
  {
    hide Blocked, IsBest;
    var best := SomeBest(similar, src, world[id], rules);
    BestReaches(similar, src, world[id], rules, best, min);
  }

  lemma {:induction false} SomeBest(similar: Similarity, src: Index, cand: Index, rules: seq<Rule>) returns (best: real)
    ensures IsBest(similar, src, cand, rules, best)
  {
    hide Score;
    if rules == [] {
      best := 0.0;
    } else {
      var n := |rules| - 1;
      var b := SomeBest(similar, src, cand, rules[..n]);
      assert rules == rules[..n] + [rules[n]];
      var s := Score(similar, src, cand, rules[n]);
      best := if s.Some? && s.value > b then s.value else b;
      if best == b {
        assert best > 0.0 ==> exists r :: r in rules[..n] && Score(similar, src, cand, r) == Some(best);
      } else {
        assert rules[n] in rules && s == Some(best);
      }
    }
  }

  lemma BestIsOne(similar: Similarity, src: Index, cand: Index, rules: seq<Rule>, a: real, b: real)
    requires IsBest(similar, src, cand, rules, a) && IsBest(similar, src, cand, rules, b)
    ensures a == b
  {
    hide Score;
  }

  /** Generate, then evaluate, sort and cut; candidates come back in any order. */
  method FindMatches(similar: Similarity, src: Index, world: World, rules: seq<Rule>, min: real, autoMerge: real, cap: nat, maxCandidates: nat)
    returns (outcomes: seq<Outcome>, ghost all: seq<Outcome>, ghost candidates: set<string>)
    ensures Descending(all) && outcomes == if |all| > maxCandidates then all[..maxCandidates] else all
    ensures Evaluated(similar, src, world, rules, min, autoMerge, candidates, all)
    ensures candidates <= Generated(similar, src, world, rules)
    ensures NoCap(similar, src, world, rules, cap) ==> candidates == Generated(similar, src, world, rules)
    ensures min > 0.0 ==> forall id :: Reported(all, id) ==> Matches(similar, src, world, rules, min, id)
    ensures min > 0.0 && NoCap(similar, src, world, rules, cap) ==> Uncapped(similar, src, world, rules, min, all)
  {
    hide Anchored, Blocked, Accepted, IsBest, QueriedRows, Generated, Evaluated, Once;
    outcomes, all, candidates := [], [], {};
    NoneEvaluated(similar, src, world, rules, min, autoMerge);
    if src == map[] {
      NothingGenerated(similar, world, rules);
    } else if |rules| == 0 {
      NoRules(similar, src, world);
    } else {
      var ids := GenerateCandidates(similar, src, world, rules, cap);
      candidates := ids;
      if |ids| > 0 {
        GeneratedWithin(similar, src, world, rules);
        var evaluated := EvaluateCandidates(similar, src, world, rules, min, autoMerge, ids);
        var sorted := SortByScore(evaluated);
        PermutedEvaluated(similar, src, world, rules, min, autoMerge, ids, evaluated, sorted);
        all := sorted;
        outcomes := if |sorted| > maxCandidates then sorted[..maxCandidates] else sorted;
      }
    }
    if min > 0.0 {
      EvaluatedReports(similar, src, world, rules, min, autoMerge, candidates, all);
      forall id ensures id in Generated(similar, src, world, rules) <==>
        id in world && exists r :: r in rules && Anchored(similar, src, world[id], r)
      {
        GeneratedIs(similar, src, world, rules, id);
      }
    }
  }

  lemma NoneEvaluated(similar: Similarity, src: Index, world: World, rules: seq<Rule>, min: real, autoMerge: real)
    ensures Evaluated(similar, src, world, rules, min, autoMerge, {}, [])
  {
  }

  lemma NoRules(similar: Similarity, src: Index, world: World)
    ensures Generated(similar, src, world, []) == {}
  {
  }

  lemma NothingGenerated(similar: Similarity, world: World, rules: seq<Rule>)
    ensures Generated(similar, map[], world, rules) == {}
  {
    hide Anchored, Generated;
    forall id ensures id !in Generated(similar, map[], world, rules) {
      GeneratedIs(similar, map[], world, rules, id);
      if id in world {
        forall r ensures !Anchored(similar, map[], world[id], r) { NothingFromNothing(similar, world[id], r); }
      }
    }
  }

  lemma GeneratedWithin(similar: Similarity, src: Index, world: World, rules: seq<Rule>)
    ensures Generated(similar, src, world, rules) <= world.Keys
  {
    hide Generated;
    forall id | id in Generated(similar, src, world, rules) ensures id in world { GeneratedIs(similar, src, world, rules, id); }
  }

  lemma PermutedEvaluated(similar: Similarity, src: Index, world: World, rules: seq<Rule>, min: real, autoMerge: real,
                          candidates: set<string>, os: seq<Outcome>, rs: seq<Outcome>)
    requires Evaluated(similar, src, world, rules, min, autoMerge, candidates, os) && multiset(rs) == multiset(os)
    ensures Evaluated(similar, src, world, rules, min, autoMerge, candidates, rs)
  {
    hide IsOutcome, Kept, Once;
    Permuted(os, rs);
  }

  /** Candidates without rows are skipped; the rest is kept when it scores enough, or is blocked. */
  method EvaluateCandidates(similar: Similarity, src: Index, world: World, rules: seq<Rule>, min: real, autoMerge: real, candidates: set<string>)
    returns (outcomes: seq<Outcome>)
    requires candidates <= world.Keys
    ensures Evaluated(similar, src, world, rules, min, autoMerge, candidates, outcomes)
    ensures min > 0.0 ==> forall id :: Reported(outcomes, id) <==> id in candidates && Matches(similar, src, world, rules, min, id)
  {
    hide Blocked, IsBest, Evaluated, IsOutcome;
    outcomes := [];
    var rest := candidates;
    NoneEvaluated(similar, src, world, rules, min, autoMerge);
    assert candidates - rest == {};
    while rest != {}
      invariant rest <= candidates
      invariant Evaluated(similar, src, world, rules, min, autoMerge, candidates - rest, outcomes)
    {
      var id :| id in rest;
      ghost var done := candidates - rest;
      rest := rest - {id};
      assert candidates - rest == done + {id} && id !in done;
      if world[id] != map[] {
        var o := EvaluateSingleCandidate(similar, src, id, world[id], rules, autoMerge);
        OneEvaluated(similar, src, world, rules, min, autoMerge, done, outcomes, o);
        if o.score >= min || o.blocked {
          outcomes := outcomes + [o];
        }
      } else {
        NotKept(similar, src, world, rules, min, autoMerge, done, outcomes, id);
      }
    }
    assert candidates - rest == candidates;
    if min > 0.0 { EvaluatedReports(similar, src, world, rules, min, autoMerge, candidates, outcomes); }
  }

  lemma NotKept(similar: Similarity, src: Index, world: World, rules: seq<Rule>, min: real, autoMerge: real,
                done: set<string>, os: seq<Outcome>, id: string)
    requires Evaluated(similar, src, world, rules, min, autoMerge, done, os) && !Kept(similar, src, world, rules, min, id)
    ensures Evaluated(similar, src, world, rules, min, autoMerge, done + {id}, os)
  {
    hide Kept, IsOutcome, Once;
  }

  lemma OneEvaluated(similar: Similarity, src: Index, world: World, rules: seq<Rule>, min: real, autoMerge: real,
                     done: set<string>, os: seq<Outcome>, o: Outcome)
    requires Evaluated(similar, src, world, rules, min, autoMerge, done, os) && o.id !in done
    requires o.id in world && world[o.id] != map[] && o.blocked == Blocked(similar, src, world[o.id], rules)
    requires o.blocked ==> o.score == 0.0 && !o.autoMerge
    requires !o.blocked ==> IsBest(similar, src, world[o.id], rules, o.score) && o.autoMerge == (o.score >= autoMerge)
    ensures Evaluated(similar, src, world, rules, min, autoMerge, done + {o.id}, if o.score >= min || o.blocked then os + [o] else os)
  {
    hide Blocked, IsBest;
    if o.score >= min || o.blocked {
      assert IsOutcome(similar, src, world, rules, min, autoMerge, o) && Kept(similar, src, world, rules, min, o.id);
      hide IsOutcome, Kept;
      OneMoreOutcome(done, os, o);
    } else {
      forall best | IsBest(similar, src, world[o.id], rules, best) ensures best < min {
        BestIsOne(similar, src, world[o.id], rules, best, o.score);
      }
      NotKept(similar, src, world, rules, min, autoMerge, done, os, o.id);
    }
  }

  lemma OneMoreOutcome(done: set<string>, os: seq<Outcome>, o: Outcome)
    requires Once(os) && !HasOutcome(os, o.id)
    ensures Once(os + [o]) && forall id :: HasOutcome(os + [o], id) <==> HasOutcome(os, id) || id == o.id
  {
    var more := os + [o];
    assert forall x :: x in more <==> x in os || x == o;
    assert o !in os && multiset(more) == multiset(os) + multiset{o};
    assert o in more;
  }

  lemma NothingFromNothing(similar: Similarity, cand: Index, r: Rule)
    ensures !Anchored(similar, map[], cand, r)
  {
    assert forall c: Condition :: !Usable(map[], c);
    NoneChosen(r.conditions, c => Indexable(map[], c));
    NoneChosen(r.conditions, c => UsableFuzzy(map[], c));
  }

  lemma {:induction false} NoneChosen(cs: seq<Condition>, keep: Condition -> bool)
    requires forall c <- cs :: !keep(c)
    ensures Chosen(cs, keep) == []
  {
    if cs != [] {
      assert cs[|cs| - 1] in cs;
      NoneChosen(cs[..|cs| - 1], keep);
    }
  }

  // ---------- when nothing is lost ----------

  ghost predicate NoInverted(r: Rule) { forall c <- r.conditions :: c.invert ==> c.noMerge }

  /** All usable exact and phonetic conditions are required, and fuzzy ones never stand alone. */
  ghost predicate Safe(src: Index, r: Rule) {
    && NoInverted(r)
    && (forall c <- IndexablesOf(src, r) :: c.required)
    && (IndexablesOf(src, r) == [] ==> FuzziesOf(src, r) == [])
  }

  lemma NoFailure(similar: Similarity, src: Index, cand: Index, r: Rule, min: real)
    requires Scores(similar, src, cand, r, min)
    ensures forall c <- r.conditions :: Judge(similar, src, cand, c) != Fail
  {
    hide Judge;
    var vs := Verdicts(similar, src, cand, r);
    forall c | c in r.conditions ensures Judge(similar, src, cand, c) != Fail {
      var i :| 0 <= i < |r.conditions| && r.conditions[i] == c;
      assert vs[i] in vs;
    }
  }

  lemma NotHopeless(similar: Similarity, src: Index, cand: Index, r: Rule, min: real)
    requires Scores(similar, src, cand, r, min)
    ensures forall i :: 0 <= i < |r.conditions| ==> !Hopeless(src, r.conditions[i])
  {
    NoFailure(similar, src, cand, r, min);
    forall i | 0 <= i < |r.conditions| ensures !Hopeless(src, r.conditions[i]) {
      assert Judge(similar, src, cand, r.conditions[i]) != Fail;
    }
  }

  lemma {:induction false} NoPoints(vs: seq<Verdict>)
    requires forall v <- vs :: v.Counts? ==> v.points == 0.0
    ensures TotalPoints(vs) == 0.0
  {
    if vs != [] {
      assert vs[|vs| - 1] in vs;
      NoPoints(vs[..|vs| - 1]);
    }
  }

  /** Without an inverted, exact, phonetic or fuzzy condition to count, a rule scores nothing. */
  lemma NothingCounts(similar: Similarity, src: Index, cand: Index, r: Rule, min: real)
    requires NoInverted(r) && IndexablesOf(src, r) == [] && FuzziesOf(src, r) == [] && min > 0.0
    ensures !Scores(similar, src, cand, r, min)
  {
    var vs := Verdicts(similar, src, cand, r);
    ChosenAre(r.conditions, c => Indexable(src, c));
    ChosenAre(r.conditions, c => UsableFuzzy(src, c));
    forall v | v in vs ensures v.Counts? ==> v.points == 0.0 {
      var i :| 0 <= i < |vs| && vs[i] == v;
      var c := r.conditions[i];
      assert c in r.conditions;
      assert c !in IndexablesOf(src, r) && c !in FuzziesOf(src, r);
    }
    NoPoints(vs);
    if TotalWeight(vs) != 0.0 { ZeroWeighted(TotalWeight(vs), r.weight); }
  }

  lemma ZeroWeighted(total: real, weight: real)
    requires total != 0.0
    ensures Weighted(0.0, total, weight) == 0.0
  {
  }

  /** The stored values the query for a condition compares. */
  predicate SameValue(src: Index, cand: Index, c: Condition) {
    var k := KeyOf(c);
    if c.kind.Phonetic? then Token(cand, k) == Token(src, k) else Text(cand, k) == Text(src, k)
  }

  /** Of a rule with exact and phonetic conditions, the query selects an accepted candidate exactly when the
      candidate has the value of the source also on every optional one of them. */
  lemma OptionalConditionsDecide(similar: Similarity, src: Index, cand: Index, r: Rule, min: real)
    requires NoInverted(r) && IndexablesOf(src, r) != [] && Scores(similar, src, cand, r, min)
    ensures Anchored(similar, src, cand, r) <==>
      forall c <- IndexablesOf(src, r) :: !c.required ==> SameValue(src, cand, c)
  {
    NotHopeless(similar, src, cand, r, min);
    NoFailure(similar, src, cand, r, min);
    ChosenAre(r.conditions, c => Indexable(src, c));
    hide Scores, Hopeless;
    forall c | c in IndexablesOf(src, r)
      ensures RowMatches(similar, src, cand, c) <==> SameValue(src, cand, c)
      ensures c.required ==> RowMatches(similar, src, cand, c)
    {
      assert Indexable(src, c) && c in r.conditions;
      assert Judge(similar, src, cand, c) != Fail;
    }
  }

  /** A candidate a safe rule accepts is among the rows its query selects. */
  lemma SafeLosesNothing(similar: Similarity, src: Index, cand: Index, r: Rule, min: real)
    requires Safe(src, r) && Scores(similar, src, cand, r, min) && min > 0.0
    ensures Anchored(similar, src, cand, r)
  {
    hide Scores, Anchored, IndexablesOf, FuzziesOf;
    if IndexablesOf(src, r) == [] {
      NothingCounts(similar, src, cand, r, min);
    } else {
      OptionalConditionsDecide(similar, src, cand, r, min);
    }
  }

  /** Thresholds are at most one, and a text is fully similar to itself. */
  ghost predicate Sensible(similar: Similarity, src: Index, r: Rule) {
    (forall c <- FuzziesOf(src, r) :: c.threshold <= 1.0) && forall x :: similar.between(x, x) == 1.0
  }

  /** The source text is similar enough to what the fuzzy query compares with. */
  predicate PassesQuery(similar: Similarity, src: Index, c: Condition) {
    var k := KeyOf(c);
    k in src && src[k].text.Some? && similar.between(src[k].text.value, similar.operand(k.normalizer, src[k].text.value)) >= Threshold(c)
  }

  /** As it is when the query compares with the source text itself. */
  lemma SourcePasses(similar: Similarity, src: Index, r: Rule, c: Condition)
    requires Sensible(similar, src, r) && c in FuzziesOf(src, r) && forall n, x :: similar.operand(n, x) == x
    ensures PassesQuery(similar, src, c)
  {
    ChosenAre(r.conditions, c => UsableFuzzy(src, c));
    assert KeyOf(c).(kind := Fuzzy) == KeyOf(c);
  }

  /** Of a rule with fuzzy conditions only, the query selects an accepted candidate exactly when its text on the
      anchor is that of the source, although similarity is what the rule asks for, and that text passes the query. */
  lemma FuzzyNeedsEqualText(similar: Similarity, src: Index, cand: Index, r: Rule, min: real)
    requires NoInverted(r) && IndexablesOf(src, r) == []
    requires Scores(similar, src, cand, r, min) && min > 0.0
    ensures FuzziesOf(src, r) != []
    ensures var anchor := BestAnchor(FuzziesOf(src, r));
      && (Anchored(similar, src, cand, r) <==> SameValue(src, cand, anchor) && PassesQuery(similar, src, anchor))
      && (Sensible(similar, src, r) && (exists c :: c in FuzziesOf(src, r) && c.required) ==>
            Sim(similar, src, cand, anchor) >= Threshold(anchor))
  {
    var fs := FuzziesOf(src, r);
    if fs == [] { NothingCounts(similar, src, cand, r, min); }
    var anchor := BestAnchor(fs);
    ChosenAre(r.conditions, c => UsableFuzzy(src, c));
    BestAnchorIsBest(fs);
    NotHopeless(similar, src, cand, r, min);
    NoFailure(similar, src, cand, r, min);
    assert Judge(similar, src, cand, anchor) != Fail;
    assert KeyOf(anchor).(kind := Fuzzy) == KeyOf(anchor);
    if Sensible(similar, src, r) && exists c :: c in fs && c.required { AnchorIsRequired(fs); }
  }

  /** The stored values on which the query of an accepting rule turns: those of its optional exact and phonetic
      conditions, or that of its fuzzy anchor. */
  predicate Reaches(similar: Similarity, src: Index, cand: Index, r: Rule) {
    if IndexablesOf(src, r) != [] then forall c <- IndexablesOf(src, r) :: !c.required ==> SameValue(src, cand, c)
    else
      var fs := FuzziesOf(src, r);
      fs != [] && SameValue(src, cand, BestAnchor(fs)) && PassesQuery(similar, src, BestAnchor(fs))
  }

  lemma AcceptedIsReached(similar: Similarity, src: Index, cand: Index, r: Rule, min: real)
    requires NoInverted(r) && Scores(similar, src, cand, r, min) && min > 0.0
    ensures Anchored(similar, src, cand, r) <==> Reaches(similar, src, cand, r)
  {
    hide Scores, Anchored, IndexablesOf, FuzziesOf, SameValue;
    if IndexablesOf(src, r) != [] {
      OptionalConditionsDecide(similar, src, cand, r, min);
    } else {
      FuzzyNeedsEqualText(similar, src, cand, r, min);
    }
  }

  ghost predicate Complete(similar: Similarity, src: Index, world: World, rules: seq<Rule>, min: real, os: seq<Outcome>) {
    forall id :: Reported(os, id) <==> Matches(similar, src, world, rules, min, id)
  }

  /** What FindMatches reports below its caps. */
  ghost predicate Uncapped(similar: Similarity, src: Index, world: World, rules: seq<Rule>, min: real, os: seq<Outcome>) {
    forall id :: Reported(os, id) <==>
      Matches(similar, src, world, rules, min, id) && exists r :: r in rules && Anchored(similar, src, world[id], r)
  }

  /** The rule brings a match in: it accepts it and has equal values where its query looks, or else its query
      happens to select it. */
  ghost predicate Brings(similar: Similarity, src: Index, cand: Index, r: Rule, min: real) {
    if Scores(similar, src, cand, r, min) then Reaches(similar, src, cand, r) else Anchored(similar, src, cand, r)
  }

  /** Below the caps every match is reported exactly when each has, for some rule that accepts it, the value of the
      source on the optional exact and phonetic conditions, or on the fuzzy anchor; or the query of a rule
      that does not accept it happens to select it. */
  lemma NothingLost(similar: Similarity, src: Index, world: World, rules: seq<Rule>, min: real, os: seq<Outcome>)
    requires min > 0.0 && Uncapped(similar, src, world, rules, min, os)
    requires forall r <- rules :: NoInverted(r)
    ensures Complete(similar, src, world, rules, min, os) <==>
      forall id | Matches(similar, src, world, rules, min, id) :: exists r :: r in rules && Brings(similar, src, world[id], r, min)
  {
    hide Anchored, Scores, Reaches, Blocked, NoInverted;
    forall id, r | id in world && r in rules && Scores(similar, src, world[id], r, min)
      ensures Anchored(similar, src, world[id], r) <==> Reaches(similar, src, world[id], r)
    {
      AcceptedIsReached(similar, src, world[id], r, min);
    }
  }

  /** With one rule nothing else can select a match. */
  lemma NothingLostByOneRule(similar: Similarity, src: Index, world: World, r: Rule, min: real, os: seq<Outcome>)
    requires min > 0.0 && Uncapped(similar, src, world, [r], min, os) && NoInverted(r)
    ensures Complete(similar, src, world, [r], min, os) <==>
      forall id | Matches(similar, src, world, [r], min, id) :: Reaches(similar, src, world[id], r)
  {
    hide Anchored, Scores, Reaches, Blocked, NoInverted;
    assert forall x :: x in [r] <==> x == r;
    forall id | Matches(similar, src, world, [r], min, id)
      ensures Anchored(similar, src, world[id], r) <==> Reaches(similar, src, world[id], r)
    {
      AcceptedIsReached(similar, src, world[id], r, min);
    }
  }

  /** Safe rules lose nothing. */
  lemma SafeRulesLoseNothing(similar: Similarity, src: Index, world: World, rules: seq<Rule>, min: real, os: seq<Outcome>)
    requires min > 0.0 && Uncapped(similar, src, world, rules, min, os) && forall r <- rules :: Safe(src, r)
    ensures Complete(similar, src, world, rules, min, os)
  {
    hide Anchored, Scores, Safe, Blocked;
    forall id, r | id in world && r in rules && Scores(similar, src, world[id], r, min)
      ensures Anchored(similar, src, world[id], r)
    {
      SafeLosesNothing(similar, src, world[id], r, min);
    }
  }

  // ---------- what is lost otherwise ----------

  function One(field: string, kind: Kind, required: bool): Condition {
    Condition(field, kind, 1.0, required, 0.0, "", false, false)
  }

  function TextRow(s: string): Row { Row(Some(s), None, None, None) }

  /** An optional exact condition is ANDed into the query: a candidate that differs there scores one half
      and is not selected. */
  lemma OptionalConditionDrops(similar: Similarity)
    ensures var r := Rule("r", 1.0, [One("email", Exact, true), One("city", Exact, false)]);
      var e, c := KeyOf(One("email", Exact, true)), KeyOf(One("city", Exact, false));
      var src := map[e := TextRow("x"), c := TextRow("y")];
      var cand := map[e := TextRow("x"), c := TextRow("z")];
      Score(similar, src, cand, r) == Some(0.5) && !Anchored(similar, src, cand, r)
  {
    var email, city := One("email", Exact, true), One("city", Exact, false);
    var r := Rule("r", 1.0, [email, city]);
    var src := map[KeyOf(email) := TextRow("x"), KeyOf(city) := TextRow("y")];
    var cand := map[KeyOf(email) := TextRow("x"), KeyOf(city) := TextRow("z")];
    assert "x" != "y" && "y" != "z" && "email" != "city";
    var vs := Verdicts(similar, src, cand, r);
    assert vs == [Counts(1.0, 1.0), Counts(1.0, 0.0)];
    SumOfTwo(vs);
    ChosenAre(r.conditions, c => Indexable(src, c));
    assert city in r.conditions && city in IndexablesOf(src, r);
    assert !RowMatches(similar, src, cand, city);
  }

  lemma SumOfTwo(vs: seq<Verdict>)
    requires |vs| == 2 && vs[0].Counts? && vs[1].Counts?
    ensures TotalWeight(vs) == vs[0].weight + vs[1].weight && TotalPoints(vs) == vs[0].points + vs[1].points
  {
    SumOfOne(vs[..1]);
    assert vs[..1][0] == vs[0] && vs[..|vs| - 1] == vs[..1];
  }

  lemma SumOfOne(vs: seq<Verdict>)
    requires |vs| == 1 && vs[0].Counts?
    ensures TotalWeight(vs) == vs[0].weight && TotalPoints(vs) == vs[0].points
  {
    assert vs[..0] == [];
  }

  /** A purely fuzzy rule never reaches an entity that is merely similar. */
  lemma SimilarTextDropped(similar: Similarity, a: string, b: string)
    requires a != b && similar.between(b, a) == 0.9
    ensures var f := One("name", Fuzzy, true);
      var r := Rule("r", 1.0, [f]);
      var src, cand := map[KeyOf(f) := TextRow(a)], map[KeyOf(f) := TextRow(b)];
      Score(similar, src, cand, r) == Some(0.9) && !Anchored(similar, src, cand, r)
  {
    var f := One("name", Fuzzy, true);
    var r := Rule("r", 1.0, [f]);
    var src, cand := map[KeyOf(f) := TextRow(a)], map[KeyOf(f) := TextRow(b)];
    var vs := Verdicts(similar, src, cand, r);
    assert vs == [Counts(1.0, 0.9)];
    SumOfOne(vs);
    NoneChosen(r.conditions, c => Indexable(src, c));
    ChosenAre(r.conditions, c => UsableFuzzy(src, c));
    var fs := FuzziesOf(src, r);
    if fs != [] { BestAnchorIsBest(fs); }
  }
}
