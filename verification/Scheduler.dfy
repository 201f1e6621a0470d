/** The link scheduler of the mapping engine: pending counters per step, a step fires when its
    last link has been processed, and its child links are processed recursively. */
module Scheduler {
  import opened LotusSteps

  /** An absent field or step id is the empty string, an absent constant is Nil. */
  datatype Link = Link(srcField: string, srcStep: string, srcConst: Value, tgtField: string, tgtStep: string)

  datatype SourceValue = SourceValue(field: string, index: nat, value: Value)

  datatype Write = Write(field: string, value: Value, index: int)

  /** A compiled mapping together with the values extracted from one document. Whether a target
      write is refused depends on the write alone: field lookup, required, type. */
  datatype Plan = Plan(
    links: seq<Link>,
    steps: map<string, Step>,
    values: seq<SourceValue>,
    itemFields: set<string>,
    refuses: Write -> bool)

  type Results = map<string, StepOutput>

  predicate ValidLink(l: Link) {
    && (l.srcField != "" ==> l.srcStep == "" && l.srcConst == Nil)
    && (l.srcStep != "" ==> l.srcConst == Nil)
    && (l.srcField != "" || l.srcStep != "" || l.srcConst != Nil)
    && (l.tgtField == "" <==> l.tgtStep != "")
  }

  predicate ValidPlan(p: Plan) {
    forall i :: 0 <= i < |p.links| ==> ValidLink(p.links[i])
  }

  predicate IsSourceLink(l: Link) {
    l.srcField != "" || l.srcConst != Nil
  }

  function FieldValues(values: seq<SourceValue>, field: string): seq<SourceValue> {
    if values == [] then []
    else (if values[0].field == field then [values[0]] else []) + FieldValues(values[1..], field)
  }

  function Bare(values: seq<SourceValue>): seq<Value> {
    seq(|values|, i requires 0 <= i < |values| => values[i].value)
  }

  /** getLinkInputs */
  function LinkInputs(values: seq<SourceValue>, l: Link, results: Results): seq<Value> {
    (if l.srcField != "" then Bare(FieldValues(values, l.srcField)) else [])
    + (if l.srcStep != "" && l.srcStep in results then Delivered(results[l.srcStep]) else [])
    + (if l.srcConst != Nil then [l.srcConst] else [])
  }

  /** The target writes of a link to a field: one scalar write, or one per item of an array. */
  function LinkWrites(p: Plan, l: Link, results: Results): seq<Write> {
    var inputs := LinkInputs(p.values, l, results);
    if l.tgtField == "" || inputs == [] then []
    else if l.srcField != "" && l.srcField in p.itemFields then ItemWrites(l.tgtField, FieldValues(p.values, l.srcField))
    else [Write(l.tgtField, inputs[0], -1)]
  }

  function ItemWrites(field: string, values: seq<SourceValue>): seq<Write> {
    seq(|values|, i requires 0 <= i < |values| => Write(field, values[i].value, values[i].index))
  }

  // ---------- what a link brings ----------

  /** pos lists the positions of the values of a field, in order. */
  ghost predicate Positions(values: seq<SourceValue>, field: string, pos: seq<nat>) {
    && (forall n :: 0 <= n < |pos| ==> pos[n] < |values| && values[pos[n]].field == field)
    && (forall m, n :: 0 <= m < n < |pos| ==> pos[m] < pos[n])
    && (forall i :: 0 <= i < |values| && values[i].field == field ==> i in pos)
  }

  /** vs are the values at these positions. */
  ghost predicate Picks(values: seq<SourceValue>, pos: seq<nat>, vs: seq<SourceValue>) {
    |vs| == |pos| && forall n :: 0 <= n < |pos| ==> pos[n] < |values| && vs[n] == values[pos[n]]
  }

  lemma {:induction false} FieldValuesAre(values: seq<SourceValue>, field: string) returns (pos: seq<nat>)
    ensures Positions(values, field, pos) && Picks(values, pos, FieldValues(values, field))
  {
    if values == [] {
      pos := [];
    } else {
      hide Positions, Picks, FieldValues;
      var n := |values| - 1;
      pos := FieldValuesAre(values[..n], field);
      LastValue(values, field);
      LastPosition(values, field, pos);
      LastPicked(values, pos, FieldValues(values[..n], field));
      if values[n].field == field { pos := pos + [n]; }
    }
  }

  lemma LastPicked(values: seq<SourceValue>, pos: seq<nat>, vs: seq<SourceValue>)
    requires values != [] && Picks(values[..|values| - 1], pos, vs)
    ensures Picks(values, pos, vs + []) && Picks(values, pos + [|values| - 1], vs + [values[|values| - 1]])
  {
    assert vs + [] == vs;
  }

  lemma FirstValue(values: seq<SourceValue>, field: string)
    ensures values != [] ==> FieldValues(values, field) == ValueHere(values[0], field) + FieldValues(values[1..], field)
    ensures values == [] ==> FieldValues(values, field) == []
  {
  }

  ghost function ValueHere(v: SourceValue, field: string): seq<SourceValue> { if v.field == field then [v] else [] }

  lemma {:induction false} LastValue(values: seq<SourceValue>, field: string)
    requires values != []
    ensures FieldValues(values, field) == FieldValues(values[..|values| - 1], field) + ValueHere(values[|values| - 1], field)
  {
    hide FieldValues, ValueHere;
    var n := |values| - 1;
    FirstValue(values, field);
    FirstValue(values[..n], field);
    if n > 0 {
      LastValue(values[1..], field);
      assert values[1..][..n - 1] == values[..n][1..];
    } else {
      FirstValue(values[1..], field);
    }
  }

  lemma LastPosition(values: seq<SourceValue>, field: string, pos: seq<nat>)
    requires values != [] && Positions(values[..|values| - 1], field, pos)
    ensures var n := |values| - 1;
      Positions(values, field, if values[n].field == field then pos + [n] else pos)
  {
    var n := |values| - 1;
    assert forall i :: 0 <= i < n ==> values[..n][i] == values[i];
    var more := if values[n].field == field then pos + [n] else pos;
    forall i | 0 <= i < |values| && values[i].field == field ensures i in more {
      if i < n { assert values[..n][i].field == field; }
    }
  }

  /** The value a link carries on its own: the first of its field, what its step handed on, or its constant. */
  ghost predicate Carries(p: Plan, l: Link, results: Results, v: Value) {
    if l.srcField != "" then
      exists i :: 0 <= i < |p.values| && p.values[i].field == l.srcField && p.values[i].value == v
                  && forall j :: 0 <= j < i ==> p.values[j].field != l.srcField
    else if l.srcStep != "" then
      l.srcStep in results && !results[l.srcStep].broke && results[l.srcStep].output == v && v != Nil
    else v == l.srcConst
  }

  ghost predicate ItemWritesAt(p: Plan, l: Link, ws: seq<Write>, pos: seq<nat>) {
    && Positions(p.values, l.srcField, pos) && |ws| == |pos|
    && forall n :: 0 <= n < |pos| ==> ws[n] == Write(l.tgtField, p.values[pos[n]].value, p.values[pos[n]].index)
  }

  /** A link from an item field writes each of its values at its own index, in order; any other writes the value it
      carries, without an index, or nothing when it carries none. */
  ghost predicate WritesOf(p: Plan, l: Link, results: Results, ws: seq<Write>) {
    if l.srcField != "" && l.srcField in p.itemFields then exists pos :: ItemWritesAt(p, l, ws, pos)
    else
      && (forall v :: Carries(p, l, results, v) ==> ws == [Write(l.tgtField, v, -1)])
      && ((forall v :: !Carries(p, l, results, v)) ==> ws == [])
  }

  /** Some write of the link is refused. */
  ghost predicate RefusesOne(p: Plan, l: Link, results: Results) {
    exists ws, w :: WritesOf(p, l, results, ws) && w in ws && p.refuses(w)
  }

  lemma LinkWritesExactly(p: Plan, l: Link, results: Results)
    requires ValidLink(l) && l.tgtField != ""
    ensures WritesOf(p, l, results, LinkWrites(p, l, results))
  {
    var pos := FieldValuesAre(p.values, l.srcField);
    var ws := LinkWrites(p, l, results);
    if l.srcField != "" && l.srcField in p.itemFields {
      assert ItemWritesAt(p, l, ws, pos);
    } else if l.srcField != "" {
      FieldCarries(p, l, results, pos);
      hide Carries, FieldValues, Positions;
    } else {
      hide FieldValues;
      OthersCarry(p, l, results);
      hide Carries;
      var vs := LinkInputs(p.values, l, results);
      if vs != [] { assert Carries(p, l, results, vs[0]); }
    }
  }

  lemma FieldCarries(p: Plan, l: Link, results: Results, pos: seq<nat>)
    requires l.srcField != "" && Positions(p.values, l.srcField, pos)
    ensures pos != [] ==> pos[0] < |p.values| && Carries(p, l, results, p.values[pos[0]].value)
    ensures forall v :: Carries(p, l, results, v) ==> pos != [] && pos[0] < |p.values| && p.values[pos[0]].value == v
  {
    if pos != [] { FirstPosition(p.values, l.srcField, pos); }
    forall v | Carries(p, l, results, v) ensures pos != [] && pos[0] < |p.values| && p.values[pos[0]].value == v {
      var i :| 0 <= i < |p.values| && p.values[i].field == l.srcField && p.values[i].value == v
        && forall j :: 0 <= j < i ==> p.values[j].field != l.srcField;
      assert i in pos;
    }
  }

  lemma OthersCarry(p: Plan, l: Link, results: Results)
    requires ValidLink(l) && l.srcField == ""
    ensures var vs := LinkInputs(p.values, l, results); |vs| <= 1 && forall v :: Carries(p, l, results, v) <==> vs != [] && vs[0] == v
  {
  }

  lemma FirstPosition(values: seq<SourceValue>, field: string, pos: seq<nat>)
    requires Positions(values, field, pos) && pos != []
    ensures forall i :: 0 <= i < |values| && values[i].field == field ==> pos[0] <= i
  {
    forall i | 0 <= i < |values| && values[i].field == field ensures pos[0] <= i {
      var n :| 0 <= n < |pos| && pos[n] == i;
    }
  }

  /** What a link delivers to a step: all values of its field in order, what its step handed on, or its constant. */
  lemma LinkInputsExactly(p: Plan, l: Link, results: Results) returns (pos: seq<nat>)
    requires ValidLink(l)
    ensures Positions(p.values, l.srcField, pos)
    ensures var vs := LinkInputs(p.values, l, results);
      && (l.srcField != "" ==> |vs| == |pos| && forall n :: 0 <= n < |pos| ==> vs[n] == p.values[pos[n]].value)
      && (l.srcField == "" ==> |vs| <= 1 && forall v :: v in vs <==> Carries(p, l, results, v))
  {
    pos := FieldValuesAre(p.values, l.srcField);
  }

  // ---------- the state as a function of the processed links ----------

  /** The processed links, in order. */
  type Trace = seq<nat>

  ghost predicate ValidTrace(p: Plan, t: Trace) {
    && (forall k :: 0 <= k < |t| ==> t[k] < |p.links|)
    && (forall j, k :: 0 <= j < k < |t| ==> t[j] != t[k])
  }

  ghost function Into(p: Plan, s: string): set<nat> {
    set i | 0 <= i < |p.links| && p.links[i].tgtStep == s && s != ""
  }

  ghost function Processed(t: Trace): set<nat> {
    set k | 0 <= k < |t| :: t[k]
  }

  ghost function Picked(p: Plan, t: Trace): (ls: seq<Link>)
    requires ValidTrace(p, t)
    ensures |ls| == |t| && forall k :: 0 <= k < |t| ==> ls[k] == p.links[t[k]]
  {
    seq(|t|, k requires 0 <= k < |t| => p.links[t[k]])
  }

  /** The inputs links ls deliver to step s, in order. */
  ghost function Gather(values: seq<SourceValue>, ls: seq<Link>, s: string, results: Results): seq<Value> {
    if ls == [] then []
    else
      var l := ls[|ls| - 1];
      Gather(values, ls[..|ls| - 1], s, results) + (if l.tgtStep == s then LinkInputs(values, l, results) else [])
  }

  ghost function GatherAt(p: Plan, t: Trace, s: string, results: Results): seq<Value>
    requires ValidTrace(p, t)
  {
    Gather(p.values, Picked(p, t), s, results)
  }

  ghost predicate AllIn(p: Plan, t: Trace, s: string) {
    Into(p, s) != {} && Into(p, s) <= Processed(t)
  }

  /** Each processed link whose source is a step came after all links into that step. */
  ghost predicate Ordered(p: Plan, t: Trace, results: Results)
    requires ValidTrace(p, t)
  {
    forall k :: 0 <= k < |t| && p.links[t[k]].srcStep != "" ==>
      p.links[t[k]].srcStep in results && AllIn(p, t[..k], p.links[t[k]].srcStep)
  }

  /** Recorded results are what their steps make of everything delivered to them. */
  ghost predicate Fired(p: Plan, t: Trace, results: Results)
    requires ValidTrace(p, t)
  {
    forall s :: s in results ==>
      && s in p.steps && AllIn(p, t, s) && GatherAt(p, t, s, results) != []
      && Execute(p.steps[s], GatherAt(p, t, s, results)) == Done(results[s])
  }

  /** A step all of whose links are processed, with some input, has fired. */
  ghost predicate NonePending(p: Plan, t: Trace, results: Results)
    requires ValidTrace(p, t)
  {
    forall s :: AllIn(p, t, s) && GatherAt(p, t, s, results) != [] ==> s in results
  }

  ghost predicate Sound(p: Plan, t: Trace, results: Results) {
    ValidTrace(p, t) && Ordered(p, t, results) && Fired(p, t, results)
  }

  ghost predicate Counters(p: Plan, t: Trace, pending: map<string, int>) {
    forall s :: Into(p, s) != {} ==> s in pending && pending[s] == |Into(p, s) - Processed(t)|
  }

  ghost predicate Buffers(p: Plan, t: Trace, results: Results, inputs: map<string, seq<Value>>)
    requires ValidTrace(p, t)
  {
    forall s :: s != "" ==> (if s in inputs then inputs[s] else []) == GatherAt(p, t, s, results)
  }

  /** No processed link names an unknown step or was refused a write. */
  ghost predicate Accepted(p: Plan, t: Trace, results: Results)
    requires ValidTrace(p, t)
  {
    forall k :: 0 <= k < |t| ==> LinkOk(p, p.links[t[k]], results)
  }

  ghost predicate LinkOk(p: Plan, l: Link, results: Results) {
    && (l.tgtStep != "" ==> l.tgtStep in p.steps)
    && (forall w :: w in LinkWrites(p, l, results) ==> !p.refuses(w))
  }

  /** Every child link of the given steps is processed. */
  ghost predicate ChildrenDone(p: Plan, t: Trace, steps: set<string>) {
    forall i :: 0 <= i < |p.links| && p.links[i].srcStep in steps && p.links[i].srcStep != "" ==> i in Processed(t)
  }

  /** What a successful execution leaves. */
  ghost predicate Complete(p: Plan, t: Trace, results: Results) {
    && Sound(p, t, results) && NonePending(p, t, results) && Accepted(p, t, results)
    && ChildrenDone(p, t, results.Keys)
    && forall i :: 0 <= i < |p.links| && IsSourceLink(p.links[i]) ==> i in Processed(t)
  }

  /** What a failing execution leaves: a sound prefix and a reason. */
  ghost predicate Failed(p: Plan, t: Trace, results: Results) {
    Sound(p, t, results) && (!Accepted(p, t, results) || StepFails(p, t, results))
  }

  ghost predicate StepFails(p: Plan, t: Trace, results: Results)
    requires ValidTrace(p, t)
  {
    exists s :: s in p.steps && AllIn(p, t, s) && GatherAt(p, t, s, results) != []
      && Execute(p.steps[s], GatherAt(p, t, s, results)).Error?
  }

  // ---------- facts about traces ----------

  lemma TraceBound(p: Plan, t: Trace)
    requires ValidTrace(p, t)
    ensures |t| == |Processed(t)| <= |p.links|
  {
    ProcessedSize(t);
    var all := Below(|p.links|);
    assert Processed(t) <= all;
    assert all == Processed(t) + (all - Processed(t));
  }

  ghost function Below(n: nat): (r: set<nat>)
    ensures |r| == n && forall i :: i in r <==> 0 <= i < n
  {
    if n == 0 then {} else Below(n - 1) + {n - 1}
  }

  lemma {:induction false} ProcessedSize(t: Trace)
    requires forall j, k :: 0 <= j < k < |t| ==> t[j] != t[k]
    ensures |Processed(t)| == |t|
  {
    if t != [] {
      var u := t[..|t| - 1];
      ProcessedSize(u);
      assert Processed(t) == Processed(u) + {t[|t| - 1]};
    }
  }

  lemma Extend(p: Plan, t: Trace, i: nat)
    requires ValidTrace(p, t) && i < |p.links| && i !in Processed(t)
    ensures ValidTrace(p, t + [i]) && Processed(t + [i]) == Processed(t) + {i}
    ensures Picked(p, t + [i]) == Picked(p, t) + [p.links[i]]
    ensures (t + [i])[..|t|] == t
  {
    assert forall k :: 0 <= k < |t| ==> t[k] in Processed(t);
    assert (t + [i])[|t|] == i;
    assert forall k :: 0 <= k < |t| ==> (t + [i])[k] == t[k];
  }

  lemma GatherExtend(p: Plan, t: Trace, i: nat, s: string, results: Results)
    requires ValidTrace(p, t) && i < |p.links| && i !in Processed(t)
    ensures ValidTrace(p, t + [i])
    ensures GatherAt(p, t + [i], s, results) ==
      GatherAt(p, t, s, results) + if p.links[i].tgtStep == s then LinkInputs(p.values, p.links[i], results) else []
  {
    Extend(p, t, i);
    var ls := Picked(p, t + [i]);
    assert ls[..|ls| - 1] == Picked(p, t);
  }

  /** Recording a further result changes nothing already gathered. */
  lemma {:induction false} GatherStable(values: seq<SourceValue>, ls: seq<Link>, s: string, r: Results, q: Results)
    requires forall k :: 0 <= k < |ls| && ls[k].srcStep != "" ==>
      ls[k].srcStep in r && ls[k].srcStep in q && r[ls[k].srcStep] == q[ls[k].srcStep]
    ensures Gather(values, ls, s, r) == Gather(values, ls, s, q)
  {
    if ls != [] {
      GatherStable(values, ls[..|ls| - 1], s, r, q);
    }
  }

  lemma GatherRecorded(p: Plan, t: Trace, s: string, r: Results, q: Results)
    requires ValidTrace(p, t) && Ordered(p, t, r)
    requires forall x :: x in r ==> x in q && q[x] == r[x]
    ensures GatherAt(p, t, s, q) == GatherAt(p, t, s, r)
  {
    GatherStable(p.values, Picked(p, t), s, r, q);
  }

  // ---------- one link ----------

  /** What holds between link executions. */
  ghost predicate Steady(p: Plan, t: Trace, results: Results, pending: map<string, int>, inputs: map<string, seq<Value>>) {
    && Sound(p, t, results) && NonePending(p, t, results) && Accepted(p, t, results)
    && Counters(p, t, pending) && Buffers(p, t, results, inputs)
  }

  ghost predicate Ready(p: Plan, t: Trace, results: Results, i: nat) {
    && i < |p.links| && i !in Processed(t)
    && (p.links[i].srcStep != "" ==> p.links[i].srcStep in results)
  }

  lemma SoundExtends(p: Plan, t: Trace, results: Results, i: nat)
    requires Sound(p, t, results) && Ready(p, t, results, i)
    ensures Sound(p, t + [i], results)
  {
    Extend(p, t, i);
    hide ValidTrace, Ordered, Fired;
    OrderedExtends(p, t, results, i);
    FiredExtends(p, t, results, i);
  }

  lemma OrderedExtends(p: Plan, t: Trace, results: Results, i: nat)
    requires Sound(p, t, results) && Ready(p, t, results, i)
    ensures ValidTrace(p, t + [i]) && Ordered(p, t + [i], results)
  {
    hide GatherAt;
    Extend(p, t, i);
    forall k | 0 <= k < |t + [i]| && p.links[(t + [i])[k]].srcStep != ""
      ensures p.links[(t + [i])[k]].srcStep in results && AllIn(p, (t + [i])[..k], p.links[(t + [i])[k]].srcStep)
    {
      assert (t + [i])[..k] == t[..k];
      if k == |t| { assert t[..k] == t; }
    }
  }

  lemma FiredExtends(p: Plan, t: Trace, results: Results, i: nat)
    requires Sound(p, t, results) && Ready(p, t, results, i)
    ensures ValidTrace(p, t + [i]) && Fired(p, t + [i], results)
  {
    hide Ordered, GatherAt, Execute;
    Extend(p, t, i);
    forall s | s in results
      ensures AllIn(p, t + [i], s) && GatherAt(p, t + [i], s, results) == GatherAt(p, t, s, results)
    {
      assert i !in Into(p, s);
      GatherExtend(p, t, i, s, results);
    }
  }

  lemma CountersExtend(p: Plan, t: Trace, pending: map<string, int>, i: nat)
    requires ValidTrace(p, t) && Counters(p, t, pending) && i < |p.links| && i !in Processed(t)
    ensures var s := p.links[i].tgtStep;
      if s == "" then Counters(p, t + [i], pending)
      else s in pending && Counters(p, t + [i], pending[s := pending[s] - 1])
  {
    hide ValidTrace, Into, Processed;
    var tgt := p.links[i].tgtStep;
    TargetOf(p, i);
    forall s | Into(p, s) != {} ensures |Into(p, s) - Processed(t + [i])| == |Into(p, s) - Processed(t)| - if s == tgt then 1 else 0 {
      OneCounter(p, t, i, s);
    }
    if tgt == "" {
      SameCounters(p, t, t + [i], pending);
    } else {
      LessCounters(p, t, t + [i], pending, tgt);
    }
  }

  lemma TargetOf(p: Plan, i: nat)
    requires i < |p.links|
    ensures p.links[i].tgtStep != "" ==> Into(p, p.links[i].tgtStep) != {}
    ensures Into(p, "") == {}
  {
    if p.links[i].tgtStep != "" { assert i in Into(p, p.links[i].tgtStep); }
  }

  lemma SameCounters(p: Plan, t: Trace, u: Trace, pending: map<string, int>)
    requires Counters(p, t, pending) && forall s | Into(p, s) != {} :: |Into(p, s) - Processed(u)| == |Into(p, s) - Processed(t)|
    ensures Counters(p, u, pending)
  {
    hide Into, Processed;
  }

  lemma LessCounters(p: Plan, t: Trace, u: Trace, pending: map<string, int>, x: string)
    requires Counters(p, t, pending) && Into(p, x) != {}
    requires forall s | Into(p, s) != {} :: |Into(p, s) - Processed(u)| == |Into(p, s) - Processed(t)| - if s == x then 1 else 0
    ensures x in pending && Counters(p, u, pending[x := pending[x] - 1])
  {
    hide Into, Processed;
  }

  lemma OneCounter(p: Plan, t: Trace, i: nat, s: string)
    requires ValidTrace(p, t) && i < |p.links| && i !in Processed(t)
    ensures |Into(p, s) - Processed(t + [i])| == |Into(p, s) - Processed(t)| - if s != "" && s == p.links[i].tgtStep then 1 else 0
  {
    Extend(p, t, i);
    OneLess(Into(p, s), Processed(t), i);
  }

  lemma OneLess(a: set<nat>, b: set<nat>, i: nat)
    requires i !in b
    ensures |a - (b + {i})| == |a - b| - if i in a then 1 else 0
  {
    if i in a {
      assert a - b == (a - (b + {i})) + {i};
    } else {
      assert a - b == a - (b + {i});
    }
  }

  lemma BuffersExtend(p: Plan, t: Trace, results: Results, inputs: map<string, seq<Value>>, i: nat)
    requires ValidTrace(p, t) && Buffers(p, t, results, inputs) && i < |p.links| && i !in Processed(t)
    ensures ValidTrace(p, t + [i])
    ensures var s, more := p.links[i].tgtStep, LinkInputs(p.values, p.links[i], results);
      Buffers(p, t + [i], results,
        if s == "" || more == [] then inputs else inputs[s := (if s in inputs then inputs[s] else []) + more])
  {
    Extend(p, t, i);
    hide GatherAt, LinkInputs, ValidTrace;
    forall s | s != "" ensures GatherAt(p, t + [i], s, results) ==
      GatherAt(p, t, s, results) + if p.links[i].tgtStep == s then LinkInputs(p.values, p.links[i], results) else []
    {
      GatherExtend(p, t, i, s, results);
    }
  }

  /** After one more link only its target step may have become due. */
  lemma DueExtends(p: Plan, t: Trace, results: Results, i: nat, s: string)
    requires Sound(p, t, results) && NonePending(p, t, results) && Ready(p, t, results, i)
    requires ValidTrace(p, t + [i]) && s != p.links[i].tgtStep
    requires AllIn(p, t + [i], s) && GatherAt(p, t + [i], s, results) != []
    ensures s in results
  {
    Extend(p, t, i);
    GatherExtend(p, t, i, s, results);
    assert i !in Into(p, s);
  }

  lemma AcceptedExtends(p: Plan, t: Trace, results: Results, i: nat)
    requires ValidTrace(p, t) && Accepted(p, t, results) && i < |p.links| && i !in Processed(t)
    ensures ValidTrace(p, t + [i])
    ensures Accepted(p, t + [i], results) <==> LinkOk(p, p.links[i], results)
  {
    Extend(p, t, i);
    assert (t + [i])[|t|] == i;
    forall k | 0 <= k < |t| ensures (t + [i])[k] == t[k] {}
  }

  // ---------- recording a result ----------

  lemma RecordOne(p: Plan, t: Trace, results: Results, s: string, out: StepOutput)
    requires Sound(p, t, results) && s !in results && s in p.steps && AllIn(p, t, s)
    requires GatherAt(p, t, s, results) != [] && Execute(p.steps[s], GatherAt(p, t, s, results)) == Done(out)
    ensures Sound(p, t, results[s := out])
    ensures forall x :: GatherAt(p, t, x, results[s := out]) == GatherAt(p, t, x, results)
  {
    var q := results[s := out];
    forall x ensures GatherAt(p, t, x, q) == GatherAt(p, t, x, results) {
      GatherRecorded(p, t, x, results, q);
    }
  }

  lemma AcceptedRecorded(p: Plan, t: Trace, r: Results, q: Results)
    requires ValidTrace(p, t) && Ordered(p, t, r) && Accepted(p, t, r)
    requires forall x :: x in r ==> x in q && q[x] == r[x]
    ensures Accepted(p, t, q)
  {
    forall k | 0 <= k < |t| ensures LinkOk(p, p.links[t[k]], q) {
      assert LinkOk(p, p.links[t[k]], r);
      assert LinkInputs(p.values, p.links[t[k]], q) == LinkInputs(p.values, p.links[t[k]], r);
    }
  }

  // ---------- the writes performed ----------

  /** The target writes of the links ls, in order. */
  ghost function AllWrites(p: Plan, ls: seq<Link>, results: Results): seq<Write> {
    if ls == [] then []
    else AllWrites(p, ls[..|ls| - 1], results) + LinkWrites(p, ls[|ls| - 1], results)
  }

  ghost function WritesAlong(p: Plan, t: Trace, results: Results): seq<Write> {
    if ValidTrace(p, t) then AllWrites(p, Picked(p, t), results) else []
  }

  lemma WritesExtend(p: Plan, t: Trace, i: nat, results: Results)
    requires ValidTrace(p, t) && i < |p.links| && i !in Processed(t)
    ensures WritesAlong(p, t + [i], results) == WritesAlong(p, t, results) + LinkWrites(p, p.links[i], results)
  {
    hide LinkWrites;
    Extend(p, t, i);
    var ls := Picked(p, t + [i]);
    assert ls[..|ls| - 1] == Picked(p, t);
  }

  lemma {:induction false} WritesStable(p: Plan, ls: seq<Link>, r: Results, q: Results)
    requires forall k :: 0 <= k < |ls| && ls[k].srcStep != "" ==>
      ls[k].srcStep in r && ls[k].srcStep in q && r[ls[k].srcStep] == q[ls[k].srcStep]
    ensures AllWrites(p, ls, r) == AllWrites(p, ls, q)
  {
    if ls != [] {
      WritesStable(p, ls[..|ls| - 1], r, q);
      assert LinkInputs(p.values, ls[|ls| - 1], r) == LinkInputs(p.values, ls[|ls| - 1], q);
    }
  }

  lemma WritesRecorded(p: Plan, t: Trace, r: Results, s: string, out: StepOutput)
    requires Sound(p, t, r) && s !in r
    ensures WritesAlong(p, t, r[s := out]) == WritesAlong(p, t, r)
  {
    var q, ls := r[s := out], Picked(p, t);
    forall k | 0 <= k < |ls| && ls[k].srcStep != "" ensures ls[k].srcStep in r && q[ls[k].srcStep] == r[ls[k].srcStep] {
      assert p.links[t[k]].srcStep in r;
    }
    hide LinkWrites, Sound;
    WritesStable(p, ls, r, q);
  }
}
