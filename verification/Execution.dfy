/** One execution of a compiled mapping. */
module Execution {
  import opened Basics
  import opened LotusSteps
  import opened Scheduler
  import opened Processing

  const NoPlan := Plan([], map[], [], {}, _ => false)

  class Mapping {
    var plan: Plan
    var results: Results
    var inputs: map<string, seq<Value>>
    var pending: map<string, int>
    var writes: seq<Write>      // target writes performed, in order
    ghost var trace: Trace

    ghost predicate IsSteady()
      reads this
    {
      Steady(plan, trace, results, pending, inputs) && writes == WritesAlong(plan, trace, results)
    }

    ghost predicate IsBlank()
      reads this
    {
      plan == NoPlan && results == map[] && inputs == map[] && pending == map[] && writes == [] && trace == []
    }

    constructor ()
      ensures IsBlank()
    {
      plan, results, inputs, pending, writes, trace := NoPlan, map[], map[], map[], [], [];
    }

    /** Taking on a plan: the links into each step are counted into the map of pending inputs as it is. */
    method Begin(p: Plan)
      requires ValidPlan(p) && IsBlank()
      modifies this
      ensures plan == p && IsSteady() && trace == [] && results == map[] && writes == []
    {
      hide Counted, Steady;
      plan := p;
      assert WritesAlong(p, [], map[]) == [];
      CountStart(p);
      for i := 0 to |p.links|
        invariant plan == p && results == map[] && inputs == map[] && writes == [] && trace == [] && Counted(p, i, pending)
      {
        var s := p.links[i].tgtStep;
        CountOne(p, i, pending);
        if s != "" {
          pending := pending[s := (if s in pending then pending[s] else 0) + 1];
        }
      }
      StartSteady(p, pending);
    }

    /** Clearing everything, the maps key by key. */
    method Reset()
      modifies this
      ensures IsBlank()
    {
      plan := NoPlan;
      results := Emptied(results);
      inputs := Emptied(inputs);
      pending := Emptied(pending);
      writes := writes[..0];
      trace := [];
    }

    /** ExecuteLink */
    method ExecuteLink(i: nat) returns (ok: bool)
      requires ValidPlan(plan) && IsSteady() && i < |plan.links| && Ready(plan, trace, results, i)
      modifies this`results, this`inputs, this`pending, this`writes, this`trace
      ensures ok ==> IsSteady() && Grown(plan, old(trace) + [i], old(results), trace, results)
      ensures ok ==> ChildrenDone(plan, trace, results.Keys - old(results).Keys)
      ensures !ok ==> Failed(plan, trace, results)
      ensures RunLink(plan, old(trace), old(results), i) == if ok then Ran(trace, results) else Stuck
      decreases |plan.links| - |trace|, 0
    {
      hide Steady, Ready, Failed, LinkOk, Execute, LinkInputs, LinkWrites, WritesAlong, RunLink, Unprocessed, ValidPlan, ValidTrace, Into, Grown, ChildrenDone;
      var link := plan.links[i];
      ghost var t0 := trace;
      LinkBegins(plan, t0, results, pending, inputs, i);
      trace := trace + [i];
      if link.tgtField != "" {
        FieldTurn(plan, t0, results, i);
        ok := WriteTarget(link);
        if ok {
          FieldLinkSteady(plan, t0, results, pending, inputs, i);
          NextWrites(plan, t0, results, pending, inputs, i);
        }
        return;
      }
      if link.tgtStep !in plan.steps {
        UnknownTurn(plan, t0, results, i);
        return false;
      }
      ok := ReachStep(i, t0);
    }

    /** The part of ExecuteLink for a link to a known step: its inputs are collected, and the step executes when
        they are complete. */
    method ReachStep(i: nat, ghost t0: Trace) returns (ok: bool)
      requires ValidPlan(plan) && i < |plan.links| && plan.links[i].tgtField == "" && plan.links[i].tgtStep != "" && plan.links[i].tgtStep in plan.steps
      requires Steady(plan, t0, results, pending, inputs) && writes == WritesAlong(plan, t0, results)
      requires plan.links[i].tgtStep in pending && Ready(plan, t0, results, i) && Unprocessed(plan, t0, i) && trace == t0 + [i]
      modifies this`results, this`inputs, this`pending, this`writes, this`trace
      ensures ok ==> IsSteady() && Grown(plan, t0 + [i], old(results), trace, results)
      ensures ok ==> ChildrenDone(plan, trace, results.Keys - old(results).Keys)
      ensures !ok ==> Failed(plan, trace, results)
      ensures RunLink(plan, t0, old(results), i) == if ok then Ran(trace, results) else Stuck
      decreases |plan.links| - |trace|, 2
    {
      hide Steady, Ready, Failed, Execute, LinkInputs, WritesAlong, RunLink, RunChildren, Unprocessed, ValidPlan, Grown, ChildrenDone, NoneFrom;
      var s := plan.links[i].tgtStep;
      var more := LinkInputs(plan.values, plan.links[i], results);
      ghost var pending0, inputs0, r0 := pending, inputs, results;
      if more != [] {
        inputs := inputs[s := (if s in inputs then inputs[s] else []) + more];
      }
      pending := pending[s := pending[s] - 1];
      StepLink(plan, t0, results, pending0, inputs0, i, s, pending, inputs);
      StepLinkTurn(plan, t0, results, pending0, inputs0, i, s, pending, inputs);
      NextWrites(plan, t0, results, pending0, inputs0, i);
      if pending[s] > 0 { return true; }
      var collected := if s in inputs then inputs[s] else [];
      if collected == [] { return true; }
      var executed := Execute(plan.steps[s], collected);
      if executed.Error? { return false; }
      SameWrites(plan, t0, results, pending0, inputs0, i, s, executed.out);
      results := results[s := executed.out];
      ok := ExecuteChildren(s, r0);
    }

    /** The loop over the links that start from a step that has just fired. */
    method ExecuteChildren(s: string, ghost r0: Results) returns (ok: bool)
      requires ValidPlan(plan) && IsSteady() && s in results && s != "" && s !in r0
      requires results == r0[s := results[s]]
      requires NoneFrom(plan, trace, s)
      modifies this`results, this`inputs, this`pending, this`writes, this`trace
      ensures ok ==> IsSteady() && Grown(plan, old(trace), r0, trace, results)
      ensures ok ==> ChildrenDone(plan, trace, results.Keys - r0.Keys)
      ensures !ok ==> Failed(plan, trace, results)
      ensures RunChildren(plan, old(trace), old(results), s, 0) == if ok then Ran(trace, results) else Stuck
      decreases |plan.links| - |trace|, 1
    {
      hide Steady, Failed, ChildLoop, Ready, Grown, ChildrenDone, WritesAlong, RunLink, RunChildren;
      ghost var t1 := trace;
      ChildLoopStart(plan, trace, r0, results, s);
      for c := 0 to |plan.links|
        invariant IsSteady() && ChildLoop(plan, t1, r0, s, trace, results, c) && |t1| <= |trace|
        invariant RunChildren(plan, old(trace), old(results), s, 0) == RunChildren(plan, trace, results, s, c)
      {
        ChildTurn(plan, trace, results, s, c);
        if plan.links[c].srcStep == s {
          ghost var t2, r2 := trace, results;
          ChildReady(plan, t1, r0, s, trace, results, pending, inputs, c);
          ok := ExecuteLink(c);
          if !ok { return; }
          ChildLoopStep(plan, t1, r0, s, t2, r2, trace, results, c);
        } else {
          ChildLoopSkip(plan, t1, r0, s, trace, results, c);
        }
      }
      ok := true;
      ChildrenEnd(plan, trace, results, s);
      ChildLoopEnd(plan, t1, r0, s, trace, results);
    }

    /** The writes of a link to a target field, stopping at the first one refused. */
    method WriteTarget(link: Link) returns (ok: bool)
      requires link.tgtField != "" && ValidLink(link)
      modifies this`writes
      ensures ok <==> LinkOk(plan, link, results)
      ensures ok ==> writes == old(writes) + LinkWrites(plan, link, results)
      ensures ok ==> |old(writes)| <= |writes| && writes[..|old(writes)|] == old(writes)
      ensures ok ==> WritesOf(plan, link, results, writes[|old(writes)|..])
      ensures !ok ==> RefusesOne(plan, link, results)
    {
      LinkWritesExactly(plan, link, results);
      hide LinkWrites, WritesAlong, Steady, WritesOf, RefusesOne, LinkOk, ValidLink;
      var todo := LinkWrites(plan, link, results);
      for k := 0 to |todo|
        invariant writes == old(writes) + todo[..k]
        invariant forall j :: 0 <= j < k ==> !plan.refuses(todo[j])
      {
        if plan.refuses(todo[k]) {
          OneRefused(plan, link, results, todo, k);
          return false;
        }
        writes := writes + [todo[k]];
        OneMore(old(writes), todo, k);
      }
      AllAccepted(plan, link, results, todo);
      Appended(old(writes), todo);
      ok := true;
    }

    /** ExecuteMapping: all source links, in order. */
    method Run() returns (ok: bool)
      requires ValidPlan(plan) && IsSteady() && trace == [] && results == map[]
      modifies this`results, this`inputs, this`pending, this`writes, this`trace
      ensures ok ==> Complete(plan, trace, results) && writes == WritesAlong(plan, trace, results)
      ensures !ok ==> Failed(plan, trace, results)
      ensures RunPlan(plan) == if ok then Ran(trace, results) else Stuck
    {
      hide Steady, Failed, SourceLoop, Ready, Grown, ChildrenDone, Complete, WritesAlong, RunLink, RunSources;
      SourceLoopStart(plan);
      for c := 0 to |plan.links|
        invariant IsSteady() && SourceLoop(plan, trace, results, c)
        invariant RunPlan(plan) == RunSources(plan, trace, results, c)
      {
        SourceTurn(plan, trace, results, c);
        ghost var t2, r2 := trace, results;
        if IsSourceLink(plan.links[c]) {
          SourceReady(plan, trace, results, pending, inputs, c);
          ok := ExecuteLink(c);
          if !ok { return; }
          SourceLoopStep(plan, t2, r2, trace, results, c);
        } else {
          SourceLoopSkip(plan, trace, results, c);
        }
      }
      ok := true;
      SourcesEnd(plan, trace, results);
      SourceLoopEnd(plan, trace, results, pending, inputs);
    }
  }

  lemma Appended(before: seq<Write>, more: seq<Write>)
    ensures (before + more)[..|before|] == before && (before + more)[|before|..] == more && more[..|more|] == more
  {
  }

  lemma OneMore(before: seq<Write>, more: seq<Write>, k: nat)
    requires k < |more|
    ensures (before + more[..k]) + [more[k]] == before + more[..k + 1]
  {
  }

  lemma AllAccepted(p: Plan, l: Link, results: Results, ws: seq<Write>)
    requires ValidLink(l) && l.tgtField != "" && ws == LinkWrites(p, l, results) && forall j :: 0 <= j < |ws| ==> !p.refuses(ws[j])
    ensures LinkOk(p, l, results)
  {
    hide LinkWrites;
  }

  lemma OneRefused(p: Plan, l: Link, results: Results, ws: seq<Write>, k: nat)
    requires ws == LinkWrites(p, l, results)
    requires WritesOf(p, l, results, ws) && k < |ws| && p.refuses(ws[k])
    ensures RefusesOne(p, l, results) && !LinkOk(p, l, results)
  {
    assert ws[k] in ws;
    hide WritesOf, LinkWrites;
  }

  // ---------- counting the links of each step ----------

  ghost function IntoBelow(p: Plan, s: string, i: nat): set<nat> {
    set j | j in Into(p, s) && j < i
  }

  ghost predicate Counted(p: Plan, i: nat, pending: map<string, int>) {
    && (forall s :: IntoBelow(p, s, i) != {} ==> s in pending)
    && (forall s :: s in pending ==> pending[s] == |IntoBelow(p, s, i)|)
  }

  lemma CountStart(p: Plan)
    ensures Counted(p, 0, map[])
  {
    forall s ensures IntoBelow(p, s, 0) == {} {}
  }

  lemma CountOne(p: Plan, i: nat, pending: map<string, int>)
    requires i < |p.links| && Counted(p, i, pending)
    ensures var s := p.links[i].tgtStep;
      Counted(p, i + 1, if s == "" then pending else pending[s := (if s in pending then pending[s] else 0) + 1])
  {
    var t := p.links[i].tgtStep;
    forall s ensures i !in IntoBelow(p, s, i) && IntoBelow(p, s, i + 1) == if s != "" && s == t then IntoBelow(p, s, i) + {i} else IntoBelow(p, s, i) {
      IntoOne(p, s, i);
    }
    hide IntoBelow;
    if t !in pending { assert IntoBelow(p, t, i) == {}; }
  }

  lemma IntoOne(p: Plan, s: string, i: nat)
    requires i < |p.links|
    ensures IntoBelow(p, s, i + 1) ==
      (if s != "" && s == p.links[i].tgtStep then IntoBelow(p, s, i) + {i} else IntoBelow(p, s, i))
    ensures i !in IntoBelow(p, s, i)
  {
  }

  lemma StartSteady(p: Plan, pending: map<string, int>)
    requires Counted(p, |p.links|, pending)
    ensures Steady(p, [], map[], pending, map[])
  {
    assert Processed([]) == {};
    forall s ensures IntoBelow(p, s, |p.links|) == Into(p, s) == Into(p, s) - {} {}
  }

  // ---------- one link ----------

  lemma PendingTarget(p: Plan, t: Trace, pending: map<string, int>, i: nat)
    requires Counters(p, t, pending) && i < |p.links|
    ensures p.links[i].tgtStep != "" ==> p.links[i].tgtStep in pending
  {
    if p.links[i].tgtStep != "" { assert i in Into(p, p.links[i].tgtStep); }
  }

  lemma LinkBegins(p: Plan, t: Trace, results: Results, pending: map<string, int>,
                   inputs: map<string, seq<Value>>, i: nat)
    requires ValidPlan(p) && Steady(p, t, results, pending, inputs) && Ready(p, t, results, i)
    ensures i < |p.links| && |t| < |p.links| && ValidTrace(p, t + [i]) && Unprocessed(p, t, i) && ValidLink(p.links[i])
    ensures !LinkOk(p, p.links[i], results) ==> Failed(p, t + [i], results)
    ensures p.links[i].tgtStep != "" && p.links[i].tgtStep !in p.steps ==> Failed(p, t + [i], results)
    ensures p.links[i].tgtStep != "" ==> p.links[i].tgtStep in pending
  {
    hide Ordered, Fired, NonePending, Buffers, Counters, Into, LinkWrites, StepFails, Accepted;
    SoundExtends(p, t, results, i);
    AcceptedExtends(p, t, results, i);
    TraceBound(p, t + [i]);
    PendingTarget(p, t, pending, i);
  }

  lemma NextWrites(p: Plan, t: Trace, results: Results, pending: map<string, int>,
                   inputs: map<string, seq<Value>>, i: nat)
    requires Steady(p, t, results, pending, inputs) && i < |p.links| && Ready(p, t, results, i)
    ensures WritesAlong(p, t + [i], results) == WritesAlong(p, t, results) + LinkWrites(p, p.links[i], results)
    ensures p.links[i].tgtField == "" ==> WritesAlong(p, t + [i], results) == WritesAlong(p, t, results)
  {
    WritesExtend(p, t, i, results);
  }

  lemma SameWrites(p: Plan, t: Trace, results: Results, pending: map<string, int>, inputs: map<string, seq<Value>>,
                   i: nat, s: string, out: StepOutput)
    requires Steady(p, t, results, pending, inputs) && Ready(p, t, results, i) && s !in results
    ensures WritesAlong(p, t + [i], results[s := out]) == WritesAlong(p, t + [i], results)
  {
    SoundExtends(p, t, results, i);
    hide *;
    WritesRecorded(p, t + [i], results, s, out);
  }

  lemma FieldLinkSteady(p: Plan, t: Trace, results: Results, pending: map<string, int>,
                        inputs: map<string, seq<Value>>, i: nat)
    requires ValidPlan(p) && Steady(p, t, results, pending, inputs) && Ready(p, t, results, i)
    requires p.links[i].tgtField != "" && LinkOk(p, p.links[i], results)
    ensures Steady(p, t + [i], results, pending, inputs)
    ensures Grown(p, t + [i], results, t + [i], results) && ChildrenDone(p, t + [i], results.Keys - results.Keys)
  {
    SoundExtends(p, t, results, i);
    AcceptedExtends(p, t, results, i);
    CountersExtend(p, t, pending, i);
    BuffersExtend(p, t, results, inputs, i);
    forall s | AllIn(p, t + [i], s) && GatherAt(p, t + [i], s, results) != [] ensures s in results {
      DueExtends(p, t, results, i, s);
    }
  }

  /** A step after one of its links has been processed: it waits, or it fails, or it fires. */
  ghost predicate WaitsFailsOrFires(p: Plan, t: Trace, results: Results, pending: map<string, int>,
                                    inputs: map<string, seq<Value>>, s: string) {
    && s in p.steps && s in pending
    && var collected := if s in inputs then inputs[s] else [];
       if pending[s] > 0 || collected == [] then Steady(p, t, results, pending, inputs)
       else match Execute(p.steps[s], collected)
         case Error => Failed(p, t, results)
         case Done(out) => Fires(p, t, results, pending, inputs, s, out)
  }

  /** No processed link starts from the step. */
  ghost predicate NoneFrom(p: Plan, t: Trace, s: string) {
    forall k :: 0 <= k < |t| ==> t[k] < |p.links| && p.links[t[k]].srcStep != s
  }

  ghost predicate Fires(p: Plan, t: Trace, results: Results, pending: map<string, int>,
                        inputs: map<string, seq<Value>>, s: string, out: StepOutput) {
    && s !in results && Steady(p, t, results[s := out], pending, inputs)
    && NoneFrom(p, t, s)
  }

  /** A link to a known step. */
  lemma StepLink(p: Plan, t: Trace, results: Results, pending: map<string, int>, inputs: map<string, seq<Value>>,
                 i: nat, s: string, pending': map<string, int>, inputs': map<string, seq<Value>>)
    requires i < |p.links| && s == p.links[i].tgtStep && p.links[i].tgtField == "" && s in p.steps && s in pending
    requires pending' == pending[s := pending[s] - 1]
    requires var more := LinkInputs(p.values, p.links[i], results);
      inputs' == if more == [] then inputs else inputs[s := (if s in inputs then inputs[s] else []) + more]
    requires ValidPlan(p) && Steady(p, t, results, pending, inputs) && Ready(p, t, results, i)
    ensures Grown(p, t + [i], results, t + [i], results) && ChildrenDone(p, t + [i], results.Keys - results.Keys)
    ensures WaitsFailsOrFires(p, t + [i], results, pending', inputs', s)
  {
    StepLinkAdvances(p, t, results, pending, inputs, i, s, pending', inputs');
    StepLinkDecides(p, t, results, pending, inputs, i, s, pending', inputs');
  }

  /** The same decision, as the function of the links makes it. */
  lemma StepLinkTurn(p: Plan, t: Trace, results: Results, pending: map<string, int>, inputs: map<string, seq<Value>>,
                     i: nat, s: string, pending': map<string, int>, inputs': map<string, seq<Value>>)
    requires i < |p.links| && s == p.links[i].tgtStep && p.links[i].tgtField == "" && s in p.steps && s in pending
    requires pending' == pending[s := pending[s] - 1]
    requires var more := LinkInputs(p.values, p.links[i], results);
      inputs' == if more == [] then inputs else inputs[s := (if s in inputs then inputs[s] else []) + more]
    requires ValidPlan(p) && Steady(p, t, results, pending, inputs) && Ready(p, t, results, i) && Unprocessed(p, t, i)
    ensures var collected := if s in inputs' then inputs'[s] else [];
      && s in pending'
      && (pending'[s] > 0 || collected == [] ==> RunLink(p, t, results, i) == Ran(t + [i], results))
      && (pending'[s] <= 0 && collected != [] && Execute(p.steps[s], collected).Error? ==> RunLink(p, t, results, i) == Stuck)
      && (pending'[s] <= 0 && collected != [] && Execute(p.steps[s], collected).Done? ==>
            RunLink(p, t, results, i) == RunChildren(p, t + [i], results[s := Execute(p.steps[s], collected).out], s, 0))
  {
    StepLinkAdvances(p, t, results, pending, inputs, i, s, pending', inputs');
    hide Execute, LinkInputs, GatherAt, AllIn, Counters, Buffers, RunLink, RunChildren, Ready, Unprocessed, Accepted, NonePending, Ordered, Fired;
    StepLinkDue(p, t, results, pending', inputs', i);
    StepTurn(p, t, results, i);
  }

  lemma StepLinkAdvances(p: Plan, t: Trace, results: Results, pending: map<string, int>, inputs: map<string, seq<Value>>,
                         i: nat, s: string, pending': map<string, int>, inputs': map<string, seq<Value>>)
    requires i < |p.links| && s == p.links[i].tgtStep && p.links[i].tgtField == "" && s in p.steps && s in pending
    requires pending' == pending[s := pending[s] - 1] && s != ""
    requires var more := LinkInputs(p.values, p.links[i], results);
      inputs' == if more == [] then inputs else inputs[s := (if s in inputs then inputs[s] else []) + more]
    requires Steady(p, t, results, pending, inputs) && Ready(p, t, results, i)
    ensures Sound(p, t + [i], results) && Accepted(p, t + [i], results)
    ensures Counters(p, t + [i], pending') && Buffers(p, t + [i], results, inputs')
  {
    SoundExtends(p, t, results, i);
    hide LinkInputs, Execute, LinkOk, Ordered, Fired, NonePending, Into, GatherAt, Counters, Buffers, Accepted, ValidLink;
    CountersExtend(p, t, pending, i);
    BuffersExtend(p, t, results, inputs, i);
    AcceptedExtends(p, t, results, i);
    StepLinkOk(p, p.links[i], results);
  }

  lemma StepLinkDecides(p: Plan, t: Trace, results: Results, pending: map<string, int>, inputs: map<string, seq<Value>>,
                        i: nat, s: string, pending': map<string, int>, inputs': map<string, seq<Value>>)
    requires i < |p.links| && s == p.links[i].tgtStep && s != "" && s in p.steps
    requires Steady(p, t, results, pending, inputs) && Ready(p, t, results, i)
    requires Sound(p, t + [i], results) && Accepted(p, t + [i], results)
    requires Counters(p, t + [i], pending') && Buffers(p, t + [i], results, inputs')
    ensures Grown(p, t + [i], results, t + [i], results) && ChildrenDone(p, t + [i], results.Keys - results.Keys)
    ensures WaitsFailsOrFires(p, t + [i], results, pending', inputs', s)
  {
    hide Execute, LinkOk, Ordered, Fired, NonePending, Into, AllIn, GatherAt, Counters, Buffers, Accepted, Ready,
      ValidTrace, Fires, StepFails;
    StepLinkDue(p, t, results, pending', inputs', i);
    var collected := if s in inputs' then inputs'[s] else [];
    if pending'[s] > 0 || collected == [] {
      StepLinkWaits(p, t, results, pending', inputs', i);
    } else {
      match Execute(p.steps[s], collected)
      case Error => StepFailsBy(p, t + [i], results, s);
      case Done(out) => StepFires(p, t, results, pending', inputs', i, out);
    }
  }

  lemma StepFailsBy(p: Plan, t: Trace, results: Results, s: string)
    requires ValidTrace(p, t) && s in p.steps && AllIn(p, t, s) && GatherAt(p, t, s, results) != []
    requires Execute(p.steps[s], GatherAt(p, t, s, results)).Error?
    ensures StepFails(p, t, results)
  {
  }

  lemma StepLinkOk(p: Plan, l: Link, results: Results)
    requires l.tgtField == "" && l.tgtStep in p.steps
    ensures LinkOk(p, l, results)
  {
  }

  lemma StepLinkWaits(p: Plan, t: Trace, results: Results, pending: map<string, int>,
                      inputs: map<string, seq<Value>>, i: nat)
    requires Sound(p, t, results) && NonePending(p, t, results) && Ready(p, t, results, i)
    requires Sound(p, t + [i], results) && Accepted(p, t + [i], results)
    requires Counters(p, t + [i], pending) && Buffers(p, t + [i], results, inputs)
    requires var s := p.links[i].tgtStep;
      s != "" && s in pending && (AllIn(p, t + [i], s) ==> (if s in inputs then inputs[s] else []) == [])
    ensures Steady(p, t + [i], results, pending, inputs)
  {
    forall x | AllIn(p, t + [i], x) && GatherAt(p, t + [i], x, results) != [] ensures x in results {
      DueExtends(p, t, results, i, x);
    }
  }

  /** The counter says exactly whether all links are processed, and the buffer is what they
      delivered. */
  lemma StepLinkDue(p: Plan, t: Trace, results: Results, pending: map<string, int>,
                    inputs: map<string, seq<Value>>, i: nat)
    requires Sound(p, t, results) && Ready(p, t, results, i) && p.links[i].tgtStep != ""
    requires ValidTrace(p, t + [i]) && Counters(p, t + [i], pending) && Buffers(p, t + [i], results, inputs)
    ensures var s := p.links[i].tgtStep;
      && s in pending && s !in results
      && (pending[s] <= 0 <==> AllIn(p, t + [i], s))
      && (if s in inputs then inputs[s] else []) == GatherAt(p, t + [i], s, results)
  {
    hide Execute, GatherAt, Ordered;
    var s := p.links[i].tgtStep;
    assert i in Into(p, s);
    assert s in results ==> AllIn(p, t, s);
    Gap(Into(p, s), Processed(t + [i]));
  }

  lemma Gap(a: set<nat>, b: set<nat>)
    ensures |a - b| == 0 <==> a <= b
  {
    if a <= b {
      assert a - b == {};
    } else {
      var j :| j in a && j !in b;
      assert j in a - b;
    }
  }

  lemma StepFires(p: Plan, t: Trace, results: Results, pending: map<string, int>,
                  inputs: map<string, seq<Value>>, i: nat, out: StepOutput)
    requires Sound(p, t, results) && NonePending(p, t, results) && Ready(p, t, results, i)
    requires Sound(p, t + [i], results) && Accepted(p, t + [i], results)
    requires Counters(p, t + [i], pending) && Buffers(p, t + [i], results, inputs)
    requires var s := p.links[i].tgtStep; s != "" && s in p.steps && s !in results
    requires var s := p.links[i].tgtStep;
      AllIn(p, t + [i], s) && s in inputs && inputs[s] != [] && Execute(p.steps[s], inputs[s]) == Done(out)
    ensures Fires(p, t + [i], results, pending, inputs, p.links[i].tgtStep, out)
  {
    hide Execute, LinkOk, Ordered, Fired, Accepted, Counters, NonePending, GatherAt, AllIn, Into, ValidTrace;
    var s := p.links[i].tgtStep;
    RecordOne(p, t + [i], results, s, out);
    AcceptedRecorded(p, t + [i], results, results[s := out]);
    NoneDue(p, t, results, i, out);
    NotYetFrom(p, t + [i], results, s);
  }

  lemma NoneDue(p: Plan, t: Trace, results: Results, i: nat, out: StepOutput)
    requires Sound(p, t, results) && NonePending(p, t, results) && Ready(p, t, results, i) && ValidTrace(p, t + [i])
    requires var q := results[p.links[i].tgtStep := out]; forall x :: GatherAt(p, t + [i], x, q) == GatherAt(p, t + [i], x, results)
    ensures NonePending(p, t + [i], results[p.links[i].tgtStep := out])
  {
    hide Sound, GatherAt, AllIn, ValidTrace;
    var s := p.links[i].tgtStep;
    forall x | AllIn(p, t + [i], x) && GatherAt(p, t + [i], x, results[s := out]) != []
      ensures x in results[s := out]
    {
      if x != s { DueExtends(p, t, results, i, x); }
    }
  }

  lemma NotYetFrom(p: Plan, t: Trace, results: Results, s: string)
    requires Sound(p, t, results) && s !in results && s != ""
    ensures NoneFrom(p, t, s)
  {
    hide Fired, AllIn;
  }

  // ---------- the loop over child links ----------

  /** t extends t0, r extends r0, and the further links processed start from newly fired steps. */
  ghost predicate Grown(p: Plan, t0: Trace, r0: Results, t: Trace, r: Results) {
    && t0 <= t
    && (forall x :: x in r0 ==> x in r && r[x] == r0[x])
    && (forall k :: |t0| <= k < |t| ==>
          t[k] < |p.links| && p.links[t[k]].srcStep != "" && p.links[t[k]].srcStep in r.Keys - r0.Keys)
  }

  ghost predicate ChildLoop(p: Plan, t1: Trace, r0: Results, s: string, t: Trace, r: Results, c: nat) {
    && Grown(p, t1, r0, t, r) && s in r && s !in r0
    && (forall k :: 0 <= k < |t| ==> t[k] < |p.links| && (p.links[t[k]].srcStep == s ==> t[k] < c))
    && (forall j :: 0 <= j < c && j < |p.links| && p.links[j].srcStep == s ==> j in Processed(t))
    && ChildrenDone(p, t, r.Keys - r0.Keys - {s})
  }

  lemma ProcessedGrows(t: Trace, u: Trace)
    requires t <= u
    ensures Processed(t) <= Processed(u)
  {
    assert forall k :: 0 <= k < |t| ==> u[k] == t[k];
  }

  lemma ChildLoopStart(p: Plan, t: Trace, r0: Results, r: Results, s: string)
    requires s in r && s !in r0 && r == r0[s := r[s]]
    requires NoneFrom(p, t, s)
    ensures ChildLoop(p, t, r0, s, t, r, 0)
  {
  }

  lemma ChildReady(p: Plan, t1: Trace, r0: Results, s: string, t: Trace, r: Results,
                   pending: map<string, int>, inputs: map<string, seq<Value>>, c: nat)
    requires Steady(p, t, r, pending, inputs) && ChildLoop(p, t1, r0, s, t, r, c)
    requires c < |p.links| && p.links[c].srcStep == s
    ensures Ready(p, t, r, c) && |t| < |p.links|
  {
    Extend(p, t, c);
    TraceBound(p, t + [c]);
  }

  lemma ChildLoopStep(p: Plan, t1: Trace, r0: Results, s: string, t: Trace, r: Results, u: Trace, q: Results, c: nat)
    requires ChildLoop(p, t1, r0, s, t, r, c) && c < |p.links| && p.links[c].srcStep == s && s != ""
    requires Grown(p, t + [c], r, u, q) && ChildrenDone(p, u, q.Keys - r.Keys)
    ensures ChildLoop(p, t1, r0, s, u, q, c + 1) && |t| <= |u|
  {
    assert forall k :: 0 <= k < |t| ==> u[k] == (t + [c])[k] == t[k];
    assert u[|t|] == (t + [c])[|t|] == c;
    ProcessedGrows(t, u);
    assert c in Processed(u);
    assert t1 <= u;
  }

  lemma ChildLoopSkip(p: Plan, t1: Trace, r0: Results, s: string, t: Trace, r: Results, c: nat)
    requires ChildLoop(p, t1, r0, s, t, r, c) && c < |p.links| && p.links[c].srcStep != s
    ensures ChildLoop(p, t1, r0, s, t, r, c + 1)
  {
  }

  lemma ChildLoopEnd(p: Plan, t1: Trace, r0: Results, s: string, t: Trace, r: Results)
    requires ChildLoop(p, t1, r0, s, t, r, |p.links|)
    ensures Grown(p, t1, r0, t, r) && ChildrenDone(p, t, r.Keys - r0.Keys)
  {
  }

  // ---------- the loop over source links ----------

  ghost predicate SourceLoop(p: Plan, t: Trace, r: Results, c: nat) {
    && ChildrenDone(p, t, r.Keys)
    && (forall j :: 0 <= j < c && j < |p.links| && IsSourceLink(p.links[j]) ==> j in Processed(t))
    && (forall k :: 0 <= k < |t| ==> t[k] < |p.links| && (IsSourceLink(p.links[t[k]]) ==> t[k] < c))
  }

  lemma SourceLoopStart(p: Plan)
    ensures SourceLoop(p, [], map[], 0)
  {
  }

  lemma SourceReady(p: Plan, t: Trace, r: Results, pending: map<string, int>, inputs: map<string, seq<Value>>, c: nat)
    requires ValidPlan(p) && Steady(p, t, r, pending, inputs) && SourceLoop(p, t, r, c)
    requires c < |p.links| && IsSourceLink(p.links[c])
    ensures Ready(p, t, r, c)
  {
  }

  lemma SourceLoopStep(p: Plan, t: Trace, r: Results, u: Trace, q: Results, c: nat)
    requires ValidPlan(p) && SourceLoop(p, t, r, c) && c < |p.links|
    requires Grown(p, t + [c], r, u, q) && ChildrenDone(p, u, q.Keys - r.Keys)
    ensures SourceLoop(p, u, q, c + 1)
  {
    assert forall k :: 0 <= k < |t| ==> u[k] == (t + [c])[k] == t[k];
    assert u[|t|] == (t + [c])[|t|] == c;
    ProcessedGrows(t, u);
    assert c in Processed(u);
  }

  lemma SourceLoopSkip(p: Plan, t: Trace, r: Results, c: nat)
    requires SourceLoop(p, t, r, c) && c < |p.links| && !IsSourceLink(p.links[c])
    ensures SourceLoop(p, t, r, c + 1)
  {
  }

  lemma SourceLoopEnd(p: Plan, t: Trace, r: Results, pending: map<string, int>, inputs: map<string, seq<Value>>)
    requires Steady(p, t, r, pending, inputs) && SourceLoop(p, t, r, |p.links|)
    ensures Complete(p, t, r)
  {
  }
}
