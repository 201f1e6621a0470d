/** What a finished execution means: which steps ran, on what, and why the order of links does not
    matter. None of it needs the step graph to be acyclic: steps on a cycle simply never become
    due. */
module Dataflow {
  import opened Basics
  import opened LotusSteps
  import opened Scheduler

  /** Link i delivers at least one value. */
  ghost predicate Delivers(p: Plan, i: nat, results: Results) {
    i < |p.links| && LinkInputs(p.values, p.links[i], results) != []
  }

  /** Everything the links of the plan deliver to step s, as a multiset. */
  ghost function Feed(p: Plan, s: string, results: Results): multiset<Value> {
    multiset(Gather(p.values, p.links, s, results))
  }

  ghost predicate Available(p: Plan, i: nat, results: Results) {
    i < |p.links| && (p.links[i].srcStep == "" || p.links[i].srcStep in results)
  }

  // ---------- gathering and reordering ----------

  lemma {:induction false} GatherSplit(values: seq<SourceValue>, a: seq<Link>, b: seq<Link>, s: string, r: Results)
    ensures Gather(values, a + b, s, r) == Gather(values, a, s, r) + Gather(values, b, s, r)
    decreases |b|
  {
    hide LinkInputs;
    if b == [] {
      assert a + b == a;
    } else {
      var c := b[..|b| - 1];
      GatherSplit(values, a, c, s, r);
      assert (a + b)[..|a + b| - 1] == a + c;
      assert (a + b)[|a + b| - 1] == b[|b| - 1];
    }
  }

  lemma RemoveAt<T>(b: seq<T>, j: nat)
    requires j < |b|
    ensures multiset(b) == multiset(b[..j] + b[j + 1..]) + multiset{b[j]}
    ensures multiset(b[..j] + b[j + 1..]) == multiset(b) - multiset{b[j]}
  {
    assert b == b[..j] + [b[j]] + b[j + 1..];
  }

  /** The multiset gathered depends only on the multiset of links. */
  lemma {:induction false} GatherReordered(values: seq<SourceValue>, a: seq<Link>, b: seq<Link>, s: string, r: Results)
    requires multiset(a) == multiset(b)
    ensures multiset(Gather(values, a, s, r)) == multiset(Gather(values, b, s, r))
    decreases |a|
  {
    hide LinkInputs;
    if a == [] {
      assert |multiset(b)| == 0;
    } else {
      var n := |a| - 1;
      RemoveAt(a, n);
      assert a[..n] + a[n + 1..] == a[..n];
      assert a[n] in multiset(b);
      var j :| 0 <= j < |b| && b[j] == a[n];
      RemoveAt(b, j);
      GatherReordered(values, a[..n], b[..j] + b[j + 1..], s, r);
      GatherWithout(values, b, j, s, r);
    }
  }

  lemma GatherWithout(values: seq<SourceValue>, b: seq<Link>, j: nat, s: string, r: Results)
    requires j < |b|
    ensures multiset(Gather(values, b, s, r)) == multiset(Gather(values, b[..j] + b[j + 1..], s, r))
      + multiset(if b[j].tgtStep == s then LinkInputs(values, b[j], r) else [])
  {
    hide LinkInputs;
    assert b == b[..j + 1] + b[j + 1..] && b[..j + 1][..j] == b[..j];
    GatherSplit(values, b[..j], b[j + 1..], s, r);
    GatherSplit(values, b[..j + 1], b[j + 1..], s, r);
  }

  /** Dropping links that do not feed s changes nothing. */
  lemma {:induction false} GatherIgnores(values: seq<SourceValue>, a: seq<Link>, s: string, r: Results)
    requires forall k :: 0 <= k < |a| ==> a[k].tgtStep != s
    ensures Gather(values, a, s, r) == []
  {
    if a != [] { GatherIgnores(values, a[..|a| - 1], s, r); }
  }

  // ---------- a trace holding all links into s gathers the whole feed ----------

  ghost function Missing(t: Trace, n: nat): (m: seq<nat>)
    ensures forall k :: 0 <= k < |m| ==> m[k] < n && m[k] !in Processed(t)
    ensures forall i :: 0 <= i < n && i !in Processed(t) ==> i in m
    ensures forall j, k :: 0 <= j < k < |m| ==> m[j] < m[k]
  {
    if n == 0 then [] else Missing(t, n - 1) + if n - 1 in Processed(t) then [] else [n - 1]
  }

  /** t lists the numbers below n, each once. */
  ghost predicate Permutes(t: seq<nat>, n: nat) {
    && (forall k :: 0 <= k < |t| ==> t[k] < n)
    && (forall j, k :: 0 <= j < k < |t| ==> t[j] != t[k])
    && forall i: nat | i < n :: i in t
  }

  lemma PermutesBelow(t: seq<nat>, n: nat, k: nat)
    requires Permutes(t, n) && k < |t|
    ensures t[k] < n
  {
  }

  lemma DropLargest(t: seq<nat>, n: nat) returns (j: nat)
    requires Permutes(t, n + 1)
    ensures j < |t| && t[j] == n && Permutes(t[..j] + t[j + 1..], n)
  {
    assert n in t;
    j :| 0 <= j < |t| && t[j] == n;
    var u := t[..j] + t[j + 1..];
    forall i: nat | i < n ensures i in u {
      assert i in t;
      var k :| 0 <= k < |t| && t[k] == i;
      assert u[if k < j then k else k - 1] == i;
    }
  }

  lemma {:induction false} PickPermuted(links: seq<Link>, t: seq<nat>)
    requires Permutes(t, |links|)
    ensures multiset(Pick(links, t)) == multiset(links)
    decreases |links|
  {
    if links == [] {
      if t != [] { PermutesBelow(t, |links|, 0); }
    } else {
      var n := |links| - 1;
      var j := DropLargest(t, n);
      var u := t[..j] + t[j + 1..];
      var front := links[..n];
      PickPermuted(front, u);
      assert links == front + [links[n]];
      assert Pick(front, u) == Pick(links, t)[..j] + Pick(links, t)[j + 1..];
      RemoveAt(Pick(links, t), j);
    }
  }

  ghost function Pick(links: seq<Link>, t: seq<nat>): (ls: seq<Link>)
    requires forall k :: 0 <= k < |t| ==> t[k] < |links|
    ensures |ls| == |t| && forall k :: 0 <= k < |t| ==> ls[k] == links[t[k]]
  {
    seq(|t|, k requires 0 <= k < |t| => links[t[k]])
  }

  lemma WholeFeed(p: Plan, t: Trace, s: string, r: Results)
    requires ValidTrace(p, t) && Into(p, s) <= Processed(t) && s != ""
    ensures multiset(GatherAt(p, t, s, r)) == Feed(p, s, r)
  {
    var m := Missing(t, |p.links|);
    var u := t + m;
    forall i | 0 <= i < |p.links| ensures i in u {
      if i in Processed(t) { var k :| 0 <= k < |t| && t[k] == i; assert u[k] == i; }
    }
    forall j, k | 0 <= j < k < |u| ensures u[j] != u[k] {
      if j < |t| <= k { assert t[j] in Processed(t) && m[k - |t|] !in Processed(t); }
    }
    PickPermuted(p.links, u);
    assert Pick(p.links, u) == Picked(p, t) + Pick(p.links, m);
    forall k | 0 <= k < |m| ensures Pick(p.links, m)[k].tgtStep != s {
      assert m[k] !in Into(p, s);
    }
    GatherIgnores(p.values, Pick(p.links, m), s, r);
    GatherSplit(p.values, Picked(p, t), Pick(p.links, m), s, r);
    GatherReordered(p.values, Pick(p.links, u), p.links, s, r);
  }

  lemma {:induction false} GatherSome(values: seq<SourceValue>, ls: seq<Link>, s: string, r: Results)
    ensures Gather(values, ls, s, r) != [] <==>
      exists k :: 0 <= k < |ls| && ls[k].tgtStep == s && LinkInputs(values, ls[k], r) != []
  {
    if ls != [] {
      var n := |ls| - 1;
      GatherSome(values, ls[..n], s, r);
      if k :| 0 <= k < |ls| && ls[k].tgtStep == s && LinkInputs(values, ls[k], r) != [] {
        assert k == n || ls[..n][k] == ls[k];
      }
    }
  }

  // ---------- which steps ran ----------

  /** A link is processed exactly when its source is available; each is processed once, since a
      trace has no repetitions. */
  lemma ProcessedWhenAvailable(p: Plan, t: Trace, r: Results, i: nat)
    requires ValidPlan(p) && Complete(p, t, r) && i < |p.links|
    ensures i in Processed(t) <==> Available(p, i, r)
  {
    if i in Processed(t) {
      var k :| 0 <= k < |t| && t[k] == i;
    }
  }

  /** A step runs exactly when it has links, every step feeding it ran, and something was
      delivered; it runs once, on exactly the delivered values. */
  lemma RunsExactlyWhenFed(p: Plan, t: Trace, r: Results, s: string)
    requires ValidPlan(p) && Complete(p, t, r) && s != ""
    ensures s in r <==>
      && (forall i :: i in Into(p, s) ==> Available(p, i, r))
      && (exists i :: i in Into(p, s) && Delivers(p, i, r))
    ensures s in r ==>
      && s in p.steps && multiset(GatherAt(p, t, s, r)) == Feed(p, s, r)
      && Execute(p.steps[s], GatherAt(p, t, s, r)) == Done(r[s])
  {
    forall i | i in Into(p, s) ensures i in Processed(t) <==> Available(p, i, r) {
      ProcessedWhenAvailable(p, t, r, i);
    }
    if Into(p, s) <= Processed(t) {
      WholeFeed(p, t, s, r);
      GatherSome(p.values, p.links, s, r);
      FeedSome(p, s, r);
      assert GatherAt(p, t, s, r) != [] <==> multiset(GatherAt(p, t, s, r)) != multiset{};
    }
  }

  lemma FeedSome(p: Plan, s: string, r: Results)
    requires s != ""
    ensures Feed(p, s, r) != multiset{} <==> exists i :: i in Into(p, s) && Delivers(p, i, r)
  {
    GatherSome(p.values, p.links, s, r);
    var g := Gather(p.values, p.links, s, r);
    if g != [] { assert g[0] in multiset(g); }
    if k :| 0 <= k < |p.links| && p.links[k].tgtStep == s && LinkInputs(p.values, p.links[k], r) != [] {
      assert k in Into(p, s) && Delivers(p, k, r);
    }
  }

  /** A step that received nothing starves every step it feeds, however many other values those
      receive, because it returns before its child links are processed. */
  lemma SilentStepStarves(p: Plan, t: Trace, r: Results, i: nat)
    requires ValidPlan(p) && Complete(p, t, r) && i < |p.links|
    requires p.links[i].srcStep != "" && p.links[i].srcStep !in r && p.links[i].tgtStep != ""
    ensures p.links[i].tgtStep !in r
  {
    assert i in Into(p, p.links[i].tgtStep);
    assert !Available(p, i, r);
    RunsExactlyWhenFed(p, t, r, p.links[i].tgtStep);
  }

  // ---------- order does not matter ----------

  /** The same links in some other order, and everything else the same. */
  ghost predicate SamePlan(p: Plan, q: Plan) {
    && multiset(p.links) == multiset(q.links) && p.values == q.values && p.steps == q.steps
    && p.itemFields == q.itemFields && p.refuses == q.refuses
  }

  /** What the step makes of the inputs m does not depend on their order. */
  ghost predicate OrderFreeOn(step: Step, m: multiset<Value>) {
    forall a, b :: multiset(a) == m && multiset(b) == m ==> Execute(step, a) == Execute(step, b)
  }

  /** So it is for every step that ran, on what it was fed. */
  ghost predicate OrderFree(p: Plan, r: Results) {
    forall s :: s in r && s in p.steps ==> OrderFreeOn(p.steps[s], Feed(p, s, r))
  }

  lemma SamePlanSymmetric(p: Plan, q: Plan)
    requires SamePlan(p, q)
    ensures SamePlan(q, p)
  {
  }

  lemma SameLinks(p: Plan, q: Plan, i: nat) returns (j: nat)
    requires multiset(p.links) == multiset(q.links) && i < |p.links|
    ensures j < |q.links| && q.links[j] == p.links[i]
  {
    assert p.links[i] in multiset(q.links);
    j :| 0 <= j < |q.links| && q.links[j] == p.links[i];
  }

  ghost predicate Agree(r: Results, q: Results, s: string) {
    s in r && s in q && r[s] == q[s]
  }

  /** If the sources of all links into s have equal results in both, so has the feed. */
  lemma SameFeed(p: Plan, q: Plan, s: string, rp: Results, rq: Results)
    requires SamePlan(p, q) && s != ""
    requires forall i :: i in Into(p, s) && p.links[i].srcStep != "" ==> Agree(rp, rq, p.links[i].srcStep)
    ensures Feed(p, s, rp) == Feed(q, s, rq)
  {
    GatherAgree(p.values, p.links, s, rp, rq);
    GatherReordered(p.values, p.links, q.links, s, rq);
  }

  lemma {:induction false} GatherAgree(values: seq<SourceValue>, ls: seq<Link>, s: string, r: Results, q: Results)
    requires forall k :: 0 <= k < |ls| && ls[k].tgtStep == s && ls[k].srcStep != "" ==> Agree(r, q, ls[k].srcStep)
    ensures Gather(values, ls, s, r) == Gather(values, ls, s, q)
  {
    if ls != [] { GatherAgree(values, ls[..|ls| - 1], s, r, q); }
  }

  /** Every result of a sound, possibly partial execution reappears in every complete one, whatever
      the order of its links. By induction on the point of the trace where the step was due. */
  lemma {:induction false} ResultsReappear(p: Plan, t: Trace, rp: Results, q: Plan, u: Trace, rq: Results,
                                           n: nat, s: string)
    requires ValidPlan(p) && ValidPlan(q) && SamePlan(p, q) && OrderFree(q, rq)
    requires Sound(p, t, rp) && Complete(q, u, rq)
    requires n <= |t| && s in rp && Into(p, s) <= Processed(t[..n]) && s != ""
    ensures Agree(rp, rq, s)
    decreases n
  {
    forall i | i in Into(p, s) && p.links[i].srcStep != "" ensures Agree(rp, rq, p.links[i].srcStep) {
      var k :| 0 <= k < n && t[..n][k] == i;
      assert t[k] == i;
      ResultsReappear(p, t, rp, q, u, rq, k, p.links[i].srcStep);
    }
    CompleteFires(p, rp, q, u, rq, s);
    WholeFeed(p, t, s, rp);
    WholeFeed(q, u, s, rq);
    var a, b := GatherAt(p, t, s, rp), GatherAt(q, u, s, rq);
    assert multiset(a) == multiset(b) == Feed(q, s, rq);
    assert OrderFreeOn(q.steps[s], Feed(q, s, rq));
    assert Execute(p.steps[s], a) == Execute(q.steps[s], b);
  }

  /** A step whose sources all have their results in a complete execution, and which is fed
      something, ran there, on the same multiset of inputs. */
  lemma CompleteFires(p: Plan, rp: Results, q: Plan, u: Trace, rq: Results, s: string)
    requires ValidPlan(q) && SamePlan(p, q) && Complete(q, u, rq) && s != ""
    requires forall i :: i in Into(p, s) && p.links[i].srcStep != "" ==> Agree(rp, rq, p.links[i].srcStep)
    ensures Into(p, s) != {} ==> AllIn(q, u, s)
    ensures Into(p, s) != {} ==> multiset(GatherAt(q, u, s, rq)) == Feed(p, s, rp)
    ensures Into(p, s) != {} && Feed(p, s, rp) != multiset{} ==> s in rq
  {
    if i :| i in Into(p, s) {
      var j := SameLinks(p, q, i);
      assert j in Into(q, s);
      forall j | j in Into(q, s) ensures j in Processed(u) {
        var k := SameLinks(q, p, j);
        assert k in Into(p, s);
        ProcessedWhenAvailable(q, u, rq, j);
      }
      WholeFeed(q, u, s, rq);
      SameFeed(p, q, s, rp, rq);
    }
  }

  lemma AllReappear(p: Plan, t: Trace, rp: Results, q: Plan, u: Trace, rq: Results)
    requires ValidPlan(p) && ValidPlan(q) && SamePlan(p, q) && OrderFree(q, rq) && Sound(p, t, rp) && Complete(q, u, rq)
    ensures forall s :: s in rp ==> Agree(rp, rq, s)
  {
    hide Complete, SamePlan, ValidPlan, Sound, OrderFree;
    forall s | s in rp ensures Agree(rp, rq, s) {
      assert t[..|t|] == t;
      NamedStep(p, t, rp, s);
      ResultsReappear(p, t, rp, q, u, rq, |t|, s);
    }
  }

  /** If what ran in one execution does not depend on the order of what it was fed, all priority orders
      give the same results. */
  lemma OrderIrrelevant(p: Plan, t: Trace, rp: Results, q: Plan, u: Trace, rq: Results)
    requires ValidPlan(p) && ValidPlan(q) && SamePlan(p, q) && OrderFree(q, rq)
    requires Complete(p, t, rp) && Complete(q, u, rq)
    ensures rp == rq
  {
    hide Complete, SamePlan, OrderFree, ValidPlan, Sound;
    CompleteIsSound(p, t, rp);
    CompleteIsSound(q, u, rq);
    AllReappear(p, t, rp, q, u, rq);
    OrderFreeToo(p, t, rp, q, rq);
    SamePlanSymmetric(p, q);
    AllReappear(q, u, rq, p, t, rp);
    assert forall s :: s in rp <==> s in rq;
  }

  lemma CompleteIsSound(p: Plan, t: Trace, r: Results)
    requires Complete(p, t, r)
    ensures Sound(p, t, r)
  {
  }

  /** Where results agree, steps were fed the same. */
  lemma OrderFreeToo(p: Plan, t: Trace, rp: Results, q: Plan, rq: Results)
    requires SamePlan(p, q) && OrderFree(q, rq) && Sound(p, t, rp)
    requires forall s :: s in rp ==> Agree(rp, rq, s)
    ensures OrderFree(p, rp)
  {
    hide OrderFreeOn, Execute, Agree;
    forall s | s in rp && s in p.steps ensures OrderFreeOn(p.steps[s], Feed(p, s, rp)) {
      NamedStep(p, t, rp, s);
      SourcesAgree(p, t, rp, rq, s);
      SameFeed(p, q, s, rp, rq);
      assert Agree(rp, rq, s);
      AgreeIn(rp, rq, s);
    }
  }

  lemma AgreeIn(rp: Results, rq: Results, s: string)
    requires Agree(rp, rq, s)
    ensures s in rq
  {
  }

  lemma SourcesAgree(p: Plan, t: Trace, rp: Results, rq: Results, s: string)
    requires Sound(p, t, rp) && Into(p, s) <= Processed(t)
    requires forall s :: s in rp ==> Agree(rp, rq, s)
    ensures forall i :: i in Into(p, s) && p.links[i].srcStep != "" ==> Agree(rp, rq, p.links[i].srcStep)
  {
    forall i | i in Into(p, s) && p.links[i].srcStep != "" ensures Agree(rp, rq, p.links[i].srcStep) {
      assert i in Processed(t);
      var k :| 0 <= k < |t| && t[k] == i;
    }
  }

  lemma NamedStep(p: Plan, t: Trace, r: Results, s: string)
    requires Sound(p, t, r) && s in r
    ensures s != "" && Into(p, s) != {} && Into(p, s) <= Processed(t)
  {
    assert AllIn(p, t, s);
    var i :| i in Into(p, s);
  }

  /** And if one order succeeds, no other order fails, at whatever point it may be. */
  lemma FailureIrrelevant(p: Plan, t: Trace, rp: Results, q: Plan, u: Trace, rq: Results)
    requires ValidPlan(p) && ValidPlan(q) && SamePlan(p, q) && OrderFree(q, rq)
    requires Sound(p, t, rp) && Complete(q, u, rq)
    ensures !Failed(p, t, rp)
  {
    AllReappear(p, t, rp, q, u, rq);
    forall k | 0 <= k < |t| ensures LinkOk(p, p.links[t[k]], rp) {
      NoRefusal(p, t, rp, q, u, rq, k);
    }
    forall s | s in p.steps && AllIn(p, t, s) && GatherAt(p, t, s, rp) != []
      ensures Execute(p.steps[s], GatherAt(p, t, s, rp)).Done?
    {
      NoStepError(p, t, rp, q, u, rq, s);
    }
  }

  lemma NoRefusal(p: Plan, t: Trace, rp: Results, q: Plan, u: Trace, rq: Results, k: nat)
    requires ValidPlan(q) && SamePlan(p, q) && Sound(p, t, rp) && Complete(q, u, rq) && k < |t|
    requires forall s :: s in rp ==> Agree(rp, rq, s)
    ensures LinkOk(p, p.links[t[k]], rp)
  {
    hide LinkInputs, AllIn, Fired, NonePending;
    var l := p.links[t[k]];
    var j := SameLinks(p, q, t[k]);
    assert l.srcStep != "" ==> l.srcStep in rp;
    ProcessedWhenAvailable(q, u, rq, j);
    var i :| 0 <= i < |u| && u[i] == j;
    assert LinkOk(q, l, rq);
    SameInputs(p.values, l, rp, rq);
  }

  lemma SameInputs(values: seq<SourceValue>, l: Link, r: Results, q: Results)
    requires l.srcStep != "" ==> Agree(r, q, l.srcStep)
    ensures LinkInputs(values, l, r) == LinkInputs(values, l, q)
  {
  }

  lemma NoStepError(p: Plan, t: Trace, rp: Results, q: Plan, u: Trace, rq: Results, s: string)
    requires ValidPlan(q) && SamePlan(p, q) && OrderFree(q, rq) && Sound(p, t, rp) && Complete(q, u, rq)
    requires forall s :: s in rp ==> Agree(rp, rq, s)
    requires s in p.steps && AllIn(p, t, s) && GatherAt(p, t, s, rp) != []
    ensures Execute(p.steps[s], GatherAt(p, t, s, rp)).Done?
  {
    var i0 :| i0 in Into(p, s);
    SourcesAgree(p, t, rp, rq, s);
    CompleteFires(p, rp, q, u, rq, s);
    WholeFeed(p, t, s, rp);
    WholeFeed(q, u, s, rq);
    var a, b := GatherAt(p, t, s, rp), GatherAt(q, u, s, rq);
    assert a[0] in multiset(a);
    assert multiset(a) == multiset(b) == Feed(q, s, rq);
    assert OrderFreeOn(q.steps[s], Feed(q, s, rq));
    assert Execute(q.steps[s], b) == Done(rq[s]);
  }

  // ---------- actions and order ----------

  ghost predicate ActionIgnoresOrder(step: Step) {
    forall a, b :: multiset(a) == multiset(b) ==> step.action(a) == step.action(b)
  }

  /** A condition or validator that holds hands on its first input. */
  predicate PassesFirst(step: Step, inputs: seq<Value>) {
    && !step.kind.Transformer? && inputs != []
    && var r := step.action(inputs);
    && r.Some? && Truth(r.value).Some? && Truth(r.value).value != step.invert
  }

  ghost predicate OneValue(inputs: seq<Value>) { forall i, j :: 0 <= i < |inputs| && 0 <= j < |inputs| ==> inputs[i] == inputs[j] }

  /** For an action that ignores order, the step does so on given inputs exactly when it does not hand on
      its first input, or all inputs are the same value. */
  lemma OrderFreeExactly(step: Step, a: seq<Value>)
    requires ActionIgnoresOrder(step)
    ensures OrderFreeOn(step, multiset(a)) <==> !PassesFirst(step, a) || OneValue(a)
  {
    forall b, c | multiset(b) == multiset(a) && multiset(c) == multiset(a) && (!PassesFirst(step, a) || OneValue(a))
      ensures Execute(step, b) == Execute(step, c)
    {
      assert step.action(a) == step.action(b) == step.action(c);
      SameFirst(a, b);
      SameFirst(a, c);
    }
    if PassesFirst(step, a) && !OneValue(a) {
      var i, j :| 0 <= i < |a| && 0 <= j < |a| && a[i] != a[j];
      var b, c := BringFirst(a, i), BringFirst(a, j);
      assert step.action(a) == step.action(b) == step.action(c);
      assert Execute(step, b) != Execute(step, c);
    }
  }

  lemma SameFirst(a: seq<Value>, b: seq<Value>)
    requires multiset(a) == multiset(b)
    ensures a == [] <==> b == []
    ensures a != [] && OneValue(a) ==> a[0] == b[0]
  {
    assert |a| == |multiset(a)| == |b|;
    if b != [] {
      assert b[0] in multiset(a);
      assert b[0] in a;
    }
  }

  function BringFirst(a: seq<Value>, i: nat): (b: seq<Value>)
    requires i < |a|
    ensures b != [] && b[0] == a[i] && multiset(b) == multiset(a)
  {
    assert a == a[..i] + [a[i]] + a[i + 1..];
    [a[i]] + (a[..i] + a[i + 1..])
  }

  /** No step that ran handed on the first of several different values. */
  ghost predicate NoChoice(p: Plan, t: Trace, r: Results)
    requires ValidTrace(p, t)
  {
    forall s :: s in r && s in p.steps ==> !PassesFirst(p.steps[s], GatherAt(p, t, s, r)) || OneValue(GatherAt(p, t, s, r))
  }

  /** With actions that ignore order, that is exactly when an execution does not depend on the order in
      which its steps were fed. */
  lemma NoChoiceExactly(p: Plan, t: Trace, r: Results)
    requires Sound(p, t, r)
    requires forall s :: s in p.steps ==> ActionIgnoresOrder(p.steps[s])
    ensures OrderFree(p, r) <==> NoChoice(p, t, r)
  {
    hide ActionIgnoresOrder, OrderFreeOn, PassesFirst, OneValue, Execute;
    forall s | s in r && s in p.steps
      ensures OrderFreeOn(p.steps[s], Feed(p, s, r)) <==>
        !PassesFirst(p.steps[s], GatherAt(p, t, s, r)) || OneValue(GatherAt(p, t, s, r))
    {
      NamedStep(p, t, r, s);
      WholeFeed(p, t, s, r);
      OrderFreeExactly(p.steps[s], GatherAt(p, t, s, r));
    }
  }

  /** If actions ignore order, all priority orders give the same results as soon as in one of them no step
      handed on the first of several different values. */
  lemma ActionsIgnoreOrder(p: Plan, t: Trace, rp: Results, q: Plan, u: Trace, rq: Results)
    requires ValidPlan(p) && ValidPlan(q) && SamePlan(p, q)
    requires forall s :: s in q.steps ==> ActionIgnoresOrder(q.steps[s])
    requires Complete(p, t, rp) && Complete(q, u, rq) && NoChoice(q, u, rq)
    ensures rp == rq
  {
    NoChoiceExactly(q, u, rq);
    OrderIrrelevant(p, t, rp, q, u, rq);
  }

  // ---------- a condition fed by two links ----------

  function TwoLinks(a: Value, b: Value): Plan {
    Plan([Link("", "", a, "", "c"), Link("", "", b, "", "c")],
         map["c" := Step(Condition, false, _ => Some(Bool(true)))], [], {}, _ => false)
  }

  lemma TwoLinksGather(a: Value, b: Value, r: Results, s: string)
    requires a != Nil && b != Nil
    ensures var p := TwoLinks(a, b);
      && ValidTrace(p, [0, 1]) && Into(p, s) == (if s == "c" then {0, 1} else {})
      && GatherAt(p, [0, 1], s, r) == (if s == "c" then [a, b] else [])
  {
    var p := TwoLinks(a, b);
    var t: Trace := [0, 1];
    assert t[0] == 0 && t[1] == 1;
    var ls := Picked(p, t);
    assert ls == p.links && ls[..1] == [p.links[0]] && ls[..1][..0] == [];
    assert LinkInputs([], p.links[0], r) == [a] && LinkInputs([], p.links[1], r) == [b];
    assert Gather([], ls[..1], s, r) == if s == "c" then [a] else [];
  }

  lemma TwoLinksComplete(a: Value, b: Value)
    requires a != Nil && b != Nil
    ensures var p := TwoLinks(a, b); ValidPlan(p) && Complete(p, [0, 1], map["c" := StepOutput(a, false, false)])
  {
    hide GatherAt, LinkInputs, Into;
    var p := TwoLinks(a, b);
    var t: Trace := [0, 1];
    var r: Results := map["c" := StepOutput(a, false, false)];
    assert t[0] == 0 && t[1] == 1;
    assert Processed(t) == {0, 1};
    forall s: string
      ensures ValidTrace(p, t) && Into(p, s) == if s == "c" then {0, 1} else {}
      ensures GatherAt(p, t, s, r) == if s == "c" then [a, b] else []
    {
      TwoLinksGather(a, b, r, s);
    }
    assert 0 in Into(p, "c");
  }

  /** Although its action ignores order, a condition that always holds gives different results when its
      two links change places. */
  lemma ConditionHandsOnFirst(a: Value, b: Value)
    requires a != b && a != Nil && b != Nil
    ensures var p, q := TwoLinks(a, b), TwoLinks(b, a);
      && ValidPlan(p) && ValidPlan(q) && SamePlan(p, q)
      && (forall s :: s in q.steps ==> ActionIgnoresOrder(q.steps[s]))
      && exists t, u, rp, rq :: Complete(p, t, rp) && Complete(q, u, rq) && rp != rq
  {
    hide Complete;
    var p, q := TwoLinks(a, b), TwoLinks(b, a);
    TwoLinksComplete(a, b);
    TwoLinksComplete(b, a);
    var rp: Results, rq: Results := map["c" := StepOutput(a, false, false)], map["c" := StepOutput(b, false, false)];
    assert rp["c"] != rq["c"];
    assert p.links == [p.links[0]] + [p.links[1]] && q.links == [p.links[1]] + [p.links[0]];
  }
}
