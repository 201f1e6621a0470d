/** Link processing as a function: the links processed and the results recorded, in the order of the code. */
module Processing {
  import opened LotusSteps
  import opened Scheduler

  datatype Ran = Ran(trace: Trace, results: Results) | Stuck

  ghost predicate Unprocessed(p: Plan, t: Trace, i: nat) {
    ValidTrace(p, t) && i < |p.links| && i !in Processed(t) && |t| < |p.links|
  }

  ghost function Left(p: Plan, t: Trace): nat { if |t| < |p.links| then |p.links| - |t| else 0 }

  ghost predicate Due(p: Plan, t: Trace, s: string, r: Results)
    requires ValidTrace(p, t)
  {
    AllIn(p, t, s) && GatherAt(p, t, s, r) != []
  }

  /** Processing link i after the links t. */
  ghost function RunLink(p: Plan, t: Trace, r: Results, i: nat): (o: Ran)
    ensures o.Ran? ==> |t| < |o.trace|
    decreases Left(p, t), 0, 0
  {
    if !Unprocessed(p, t, i) then Stuck
    else
      var l, u := p.links[i], t + [i];
      Extend(p, t, i);
      if l.tgtField != "" then if LinkOk(p, l, r) then Ran(u, r) else Stuck
      else if l.tgtStep !in p.steps then Stuck
      else if !Due(p, u, l.tgtStep, r) then Ran(u, r)
      else
        match Execute(p.steps[l.tgtStep], GatherAt(p, u, l.tgtStep, r))
        case Error => Stuck
        case Done(out) => RunChildren(p, u, r[l.tgtStep := out], l.tgtStep, 0)
  }

  /** Processing the links from step s, from link number c on. */
  ghost function RunChildren(p: Plan, t: Trace, r: Results, s: string, c: nat): (o: Ran)
    ensures o.Ran? ==> |t| <= |o.trace|
    decreases Left(p, t), 1, |p.links| - c
  {
    if c >= |p.links| then Ran(t, r)
    else if p.links[c].srcStep != s then RunChildren(p, t, r, s, c + 1)
    else
      match RunLink(p, t, r, c)
      case Stuck => Stuck
      case Ran(u, q) => RunChildren(p, u, q, s, c + 1)
  }

  /** Processing the source links, from link number c on. */
  ghost function RunSources(p: Plan, t: Trace, r: Results, c: nat): Ran
    decreases |p.links| - c
  {
    if c >= |p.links| then Ran(t, r)
    else if !IsSourceLink(p.links[c]) then RunSources(p, t, r, c + 1)
    else
      match RunLink(p, t, r, c)
      case Stuck => Stuck
      case Ran(u, q) => RunSources(p, u, q, c + 1)
  }

  /** What executing a plan processes and records: a function of the plan. */
  ghost function RunPlan(p: Plan): Ran { RunSources(p, [], map[], 0) }

  // ---------- one turn at a time ----------

  lemma {:induction false} FieldTurn(p: Plan, t: Trace, r: Results, i: nat)
    requires Unprocessed(p, t, i) && p.links[i].tgtField != ""
    ensures RunLink(p, t, r, i) == if LinkOk(p, p.links[i], r) then Ran(t + [i], r) else Stuck
  {
  }

  lemma {:induction false} UnknownTurn(p: Plan, t: Trace, r: Results, i: nat)
    requires Unprocessed(p, t, i) && p.links[i].tgtField == "" && p.links[i].tgtStep !in p.steps
    ensures RunLink(p, t, r, i) == Stuck
  {
  }

  lemma {:induction false} StepTurn(p: Plan, t: Trace, r: Results, i: nat)
    requires Unprocessed(p, t, i) && p.links[i].tgtField == "" && p.links[i].tgtStep in p.steps && ValidTrace(p, t + [i])
    ensures var s, u := p.links[i].tgtStep, t + [i];
      RunLink(p, t, r, i) ==
        if !Due(p, u, s, r) then Ran(u, r)
        else match Execute(p.steps[s], GatherAt(p, u, s, r))
          case Error => Stuck
          case Done(out) => RunChildren(p, u, r[s := out], s, 0)
  {
  }

  lemma {:induction false} ChildTurn(p: Plan, t: Trace, r: Results, s: string, c: nat)
    requires c < |p.links|
    ensures p.links[c].srcStep != s ==> RunChildren(p, t, r, s, c) == RunChildren(p, t, r, s, c + 1)
    ensures p.links[c].srcStep == s && RunLink(p, t, r, c) == Stuck ==> RunChildren(p, t, r, s, c) == Stuck
    ensures p.links[c].srcStep == s && RunLink(p, t, r, c).Ran? ==>
      RunChildren(p, t, r, s, c) == RunChildren(p, RunLink(p, t, r, c).trace, RunLink(p, t, r, c).results, s, c + 1)
  {
  }

  lemma {:induction false} ChildrenEnd(p: Plan, t: Trace, r: Results, s: string)
    ensures RunChildren(p, t, r, s, |p.links|) == Ran(t, r)
  {
  }

  lemma {:induction false} SourceTurn(p: Plan, t: Trace, r: Results, c: nat)
    requires c < |p.links|
    ensures !IsSourceLink(p.links[c]) ==> RunSources(p, t, r, c) == RunSources(p, t, r, c + 1)
    ensures IsSourceLink(p.links[c]) && RunLink(p, t, r, c) == Stuck ==> RunSources(p, t, r, c) == Stuck
    ensures IsSourceLink(p.links[c]) && RunLink(p, t, r, c).Ran? ==>
      RunSources(p, t, r, c) == RunSources(p, RunLink(p, t, r, c).trace, RunLink(p, t, r, c).results, c + 1)
  {
  }

  lemma {:induction false} SourcesEnd(p: Plan, t: Trace, r: Results)
    ensures RunSources(p, t, r, |p.links|) == Ran(t, r)
  {
  }
}
