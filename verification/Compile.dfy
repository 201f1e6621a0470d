/** Compiling a mapping definition: every link is validated, and every step a link names is built
    once, after the steps that feed it, in a memo. */
module Compile {
  import opened Basics
  import opened LotusSteps
  import opened Scheduler

  datatype Type = AnyType | BoolType | Other(name: string)

  datatype StepDef = StepDef(kind: StepKind, action: string)

  datatype CompiledStep = CompiledStep(def: StepDef, inputs: seq<Type>, action: Type)

  /** The definition, with the type functions of fields, constants and actions. */
  datatype Schema = Schema(
    links: seq<Link>,
    defs: map<string, StepDef>,
    sourceTypes: map<string, Type>,
    targetTypes: map<string, Type>,
    constType: Value -> Type,
    actionType: (string, seq<Type>) -> Option<Type>,
    accepts: (Type, Type) -> bool)

  /** NewStep: the action must accept the inputs, and validators and conditions need a bool one. */
  function NewStep(sc: Schema, def: StepDef, inputs: seq<Type>): Option<CompiledStep> {
    match sc.actionType(def.action, inputs)
    case None => None
    case Some(t) => if !def.kind.Transformer? && t != BoolType then None else Some(CompiledStep(def, inputs, t))
  }

  function OutputType(step: CompiledStep): Type {
    if step.def.kind.Transformer? then step.action
    else if step.inputs != [] then step.inputs[0]
    else AnyType
  }

  /** A step hands on what its action makes or, as a condition or validator, its first input; then its action must
      answer with a bool. */
  lemma StepTypes(sc: Schema, def: StepDef, inputs: seq<Type>)
    ensures NewStep(sc, def, inputs).Some? <==>
      sc.actionType(def.action, inputs).Some? && (def.kind != Transformer ==> sc.actionType(def.action, inputs) == Some(BoolType))
    ensures forall step | NewStep(sc, def, inputs) == Some(step) ::
      && (def.kind == Transformer ==> Some(OutputType(step)) == sc.actionType(def.action, inputs))
      && (def.kind != Transformer && inputs != [] ==> OutputType(step) == inputs[0])
      && (def.kind != Transformer && inputs == [] ==> OutputType(step) == AnyType)
  {
  }

  /** The counts say what well-formedness of a link is. */
  lemma CountsAre(l: Link)
    ensures ValidLink(l) <==> SourceCount(l) == 1 && TargetCount(l) == 1
  {
  }

  // ---------- the meaning of a step id, without a memo ----------

  /** Links between steps lead upwards: the step graph is acyclic. */
  ghost predicate Acyclic(sc: Schema, rank: string -> nat) {
    forall i :: 0 <= i < |sc.links| && sc.links[i].srcStep != "" && sc.links[i].tgtStep != "" ==>
      rank(sc.links[i].srcStep) < rank(sc.links[i].tgtStep)
  }

  function Parents(ls: seq<Link>, id: string): (r: seq<Link>)
    ensures forall l :: l in r <==> l in ls && l.tgtStep == id
  {
    if ls == [] then []
    else (if ls[0].tgtStep == id then [ls[0]] else []) + Parents(ls[1..], id)
  }

  ghost function StepOf(sc: Schema, rank: string -> nat, id: string): Option<CompiledStep>
    requires Acyclic(sc, rank)
    decreases if id == "" then 0 else rank(id) + 1, 1, 0
  {
    if id == "" || id !in sc.defs || Parents(sc.links, id) == [] then None
    else
      match InputsOf(sc, rank, id, Parents(sc.links, id))
      case None => None
      case Some(ts) => NewStep(sc, sc.defs[id], ts)
  }

  ghost function InputsOf(sc: Schema, rank: string -> nat, id: string, ls: seq<Link>): Option<seq<Type>>
    requires Acyclic(sc, rank) && id != "" && forall l :: l in ls ==> l in sc.links && l.tgtStep == id
    decreases rank(id) + 1, 0, |ls|
  {
    if ls == [] then Some([])
    else
      match InputsOf(sc, rank, id, ls[..|ls| - 1])
      case None => None
      case Some(before) =>
        match LinkTypes(sc, rank, id, ls[|ls| - 1])
        case None => None
        case Some(more) => Some(before + more)
  }

  /** What one parent link contributes; links not yet validated may name several sources. */
  ghost function LinkTypes(sc: Schema, rank: string -> nat, id: string, l: Link): Option<seq<Type>>
    requires Acyclic(sc, rank) && id != "" && l in sc.links && l.tgtStep == id
    decreases rank(id), 2, 0
  {
    if l.srcField != "" && l.srcField !in sc.sourceTypes then None
    else
      var a := if l.srcField != "" then [sc.sourceTypes[l.srcField]] else [];
      var c := if l.srcConst != Nil then [sc.constType(l.srcConst)] else [];
      if l.srcStep == "" then Some(a + c)
      else
        match StepOf(sc, rank, l.srcStep)
        case None => None
        case Some(step) => Some(a + [OutputType(step)] + c)
  }

  function SourceCount(l: Link): nat {
    (if l.srcField != "" then 1 else 0) + (if l.srcStep != "" then 1 else 0) + (if l.srcConst != Nil then 1 else 0)
  }

  function TargetCount(l: Link): nat {
    (if l.tgtField != "" then 1 else 0) + (if l.tgtStep != "" then 1 else 0)
  }

  /** The type a valid link carries, if its source is well formed. */
  ghost function FromType(sc: Schema, rank: string -> nat, l: Link): Option<Type>
    requires Acyclic(sc, rank)
  {
    if l.srcField != "" then (if l.srcField in sc.sourceTypes then Some(sc.sourceTypes[l.srcField]) else None)
    else if l.srcStep != "" then
      match StepOf(sc, rank, l.srcStep) case None => None case Some(step) => Some(OutputType(step))
    else Some(sc.constType(l.srcConst))
  }

  ghost predicate LinkFits(sc: Schema, rank: string -> nat, l: Link)
    requires Acyclic(sc, rank)
  {
    && SourceCount(l) == 1 && TargetCount(l) == 1
    && FromType(sc, rank, l).Some?
    && (l.tgtField != "" ==> l.tgtField in sc.targetTypes)
    && (l.tgtField != "" ==> sc.accepts(FromType(sc, rank, l).value, sc.targetTypes[l.tgtField]))
    && (l.tgtStep != "" ==> StepOf(sc, rank, l.tgtStep).Some?)
  }

  // ---------- the compiler ----------

  ghost predicate MemoRight(sc: Schema, rank: string -> nat, memo: map<string, CompiledStep>)
    requires Acyclic(sc, rank)
  {
    forall id :: id in memo ==> StepOf(sc, rank, id) == Some(memo[id])
  }

  /** A memoised step's feeding steps are memoised. */
  ghost predicate MemoClosed(sc: Schema, memo: map<string, CompiledStep>) {
    forall i :: 0 <= i < |sc.links| && sc.links[i].tgtStep in memo && sc.links[i].srcStep != "" ==>
      sc.links[i].srcStep in memo
  }

  class Compiler {
    const sc: Schema
    var steps: map<string, CompiledStep>

    constructor (schema: Schema)
      ensures sc == schema && steps == map[]
    {
      sc := schema;
      steps := map[];
    }

    ghost predicate Good(rank: string -> nat)
      reads this
    {
      && Acyclic(sc, rank) && "" !in steps
      && MemoRight(sc, rank, steps) && MemoClosed(sc, steps)
    }

    /** createStep */
    method CreateStep(id: string, ghost rank: string -> nat) returns (r: Option<CompiledStep>)
      requires Good(rank) && id != ""
      modifies this
      ensures Good(rank) && r == StepOf(sc, rank, id)
      ensures forall k :: k in old(steps) ==> k in steps && steps[k] == old(steps)[k]
      ensures r.Some? ==> id in steps
      decreases rank(id), 2
    {
      hide StepOf, InputsOf, LinkTypes, NewStep, MemoClosed, Acyclic;
      StepOfIs(sc, rank, id);
      if id !in sc.defs { return None; }
      if id in steps { return Some(steps[id]); }
      var parents := Parents(sc.links, id);
      if parents == [] { return None; }
      var types := ParentTypes(id, parents, rank);
      if types.None? { return None; }
      r := NewStep(sc, sc.defs[id], types.value);
      if r.Some? {
        ParentsMemoised(sc, id, parents, steps, r.value);
        steps := steps[id := r.value];
      }
    }

    /** The loop over the parent links of a step. */
    method ParentTypes(id: string, parents: seq<Link>, ghost rank: string -> nat) returns (r: Option<seq<Type>>)
      requires Good(rank) && id != "" && forall l :: l in parents ==> l in sc.links && l.tgtStep == id
      modifies this
      ensures Good(rank) && r == InputsOf(sc, rank, id, parents)
      ensures forall k :: k in old(steps) ==> k in steps && steps[k] == old(steps)[k]
      ensures r.Some? ==> forall j :: 0 <= j < |parents| && parents[j].srcStep != "" ==> parents[j].srcStep in steps
      decreases rank(id), 1
    {
      hide StepOf, InputsOf, LinkTypes, MemoClosed, MemoRight;
      var types: seq<Type> := [];
      InputsStart(sc, rank, id, parents);
      for k := 0 to |parents|
        invariant Good(rank) && InputsOf(sc, rank, id, parents[..k]) == Some(types)
        invariant forall k :: k in old(steps) ==> k in steps && steps[k] == old(steps)[k]
        invariant forall j :: 0 <= j < k && parents[j].srcStep != "" ==> parents[j].srcStep in steps
      {
        assert parents[k] in parents;
        InputsNext(sc, rank, id, parents, k);
        var more := AddLinkTypes(parents[k], id, rank);
        if more.None? {
          InputsStop(sc, rank, id, parents, k + 1);
          return None;
        }
        types := types + more.value;
      }
      assert parents[..|parents|] == parents;
      r := Some(types);
    }

    /** The body of the loop over parent links. */
    method AddLinkTypes(l: Link, id: string, ghost rank: string -> nat) returns (more: Option<seq<Type>>)
      requires Good(rank) && id != "" && l in sc.links && l.tgtStep == id
      modifies this
      ensures Good(rank) && more == LinkTypes(sc, rank, id, l)
      ensures forall k :: k in old(steps) ==> k in steps && steps[k] == old(steps)[k]
      ensures more.Some? && l.srcStep != "" ==> l.srcStep in steps
      decreases rank(id), 0
    {
      var types := [];
      if l.srcField != "" {
        if l.srcField !in sc.sourceTypes { return None; }
        types := [sc.sourceTypes[l.srcField]];
      }
      ghost var a := types;
      if l.srcStep != "" {
        var step := CreateStep(l.srcStep, rank);
        if step.None? { return None; }
        types := types + [OutputType(step.value)];
      }
      if l.srcConst != Nil {
        types := types + [sc.constType(l.srcConst)];
      }
      more := Some(types);
      assert a + [] == a && types + [] == types;
    }

    /** validateLink */
    method ValidateLink(l: Link, ghost rank: string -> nat) returns (ok: bool)
      requires Good(rank)
      modifies this
      ensures Good(rank) && ok == LinkFits(sc, rank, l)
      ensures forall k :: k in old(steps) ==> k in steps && steps[k] == old(steps)[k]
      ensures ok && l.srcStep != "" ==> l.srcStep in steps
      ensures ok && l.tgtStep != "" ==> l.tgtStep in steps
    {
      if SourceCount(l) != 1 || TargetCount(l) != 1 { return false; }
      var from := AnyType;
      if l.srcField != "" {
        if l.srcField !in sc.sourceTypes { return false; }
        from := sc.sourceTypes[l.srcField];
      }
      if l.srcStep != "" {
        var step := CreateStep(l.srcStep, rank);
        if step.None? { return false; }
        from := OutputType(step.value);
      }
      if l.srcConst != Nil {
        from := sc.constType(l.srcConst);
      }
      if l.tgtField != "" {
        if l.tgtField !in sc.targetTypes || !sc.accepts(from, sc.targetTypes[l.tgtField]) { return false; }
      }
      if l.tgtStep != "" {
        var step := CreateStep(l.tgtStep, rank);
        if step.None? { return false; }
      }
      ok := true;
    }

    /** GenerateMappingPlan: on an acyclic definition it terminates and succeeds exactly when every
        link fits on its own; then every step a link names is memoised with its direct meaning,
        so no execution meets an undefined step. It succeeds exactly when steps and links can be given types that
        fit, and the memo then holds them. */
    method GenerateMappingPlan(ghost rank: string -> nat) returns (ok: bool)
      requires Acyclic(sc, rank)
      modifies this
      ensures ok <==> forall i :: 0 <= i < |sc.links| ==> LinkFits(sc, rank, sc.links[i])
      ensures ok <==> exists w :: WellTyped(sc, w)
      ensures ok ==> WellTyped(sc, steps)
      ensures MemoRight(sc, rank, steps) && MemoClosed(sc, steps)
      ensures ok ==> forall i :: 0 <= i < |sc.links| ==>
        && ValidLink(sc.links[i])
        && (sc.links[i].srcStep != "" ==> sc.links[i].srcStep in steps)
        && (sc.links[i].tgtStep != "" ==> sc.links[i].tgtStep in steps)
    {
      hide MemoRight, MemoClosed, LinkFits, ValidLink, WellTyped;
      if w :| WellTyped(sc, w) { TypedFits(sc, rank, w); }
      steps := map[];
      StartRight(sc, rank);
      for i := 0 to |sc.links|
        invariant Good(rank)
        invariant forall j :: 0 <= j < i ==>
          && LinkFits(sc, rank, sc.links[j]) && ValidLink(sc.links[j])
          && (sc.links[j].srcStep != "" ==> sc.links[j].srcStep in steps)
          && (sc.links[j].tgtStep != "" ==> sc.links[j].tgtStep in steps)
      {
        ok := ValidateLink(sc.links[i], rank);
        if !ok { return; }
        FitIsValid(sc, rank, sc.links[i]);
      }
      MemoWellTyped(sc, rank, steps);
      ok := true;
    }
  }

  lemma StartRight(sc: Schema, rank: string -> nat)
    requires Acyclic(sc, rank)
    ensures MemoRight(sc, rank, map[]) && MemoClosed(sc, map[])
  {
  }

  lemma FitIsValid(sc: Schema, rank: string -> nat, l: Link)
    requires Acyclic(sc, rank) && LinkFits(sc, rank, l)
    ensures ValidLink(l)
  {
  }

  lemma InputsNext(sc: Schema, rank: string -> nat, id: string, ls: seq<Link>, k: nat)
    requires Acyclic(sc, rank) && id != "" && (forall l :: l in ls ==> l in sc.links && l.tgtStep == id) && k < |ls|
    ensures ls[..k + 1][..k] == ls[..k]
    ensures InputsOf(sc, rank, id, ls[..k]).Some? ==>
      InputsOf(sc, rank, id, ls[..k + 1]) ==
        match LinkTypes(sc, rank, id, ls[k])
        case None => None
        case Some(more) => Some(InputsOf(sc, rank, id, ls[..k]).value + more)
  {
    assert ls[..k + 1][..k] == ls[..k];
  }

  lemma {:induction false} InputsStop(sc: Schema, rank: string -> nat, id: string, ls: seq<Link>, k: nat)
    requires Acyclic(sc, rank) && id != "" && (forall l :: l in ls ==> l in sc.links && l.tgtStep == id) && k <= |ls|
    requires InputsOf(sc, rank, id, ls[..k]).None?
    ensures InputsOf(sc, rank, id, ls).None?
    decreases |ls|
  {
    if k < |ls| {
      assert ls[..|ls| - 1][..k] == ls[..k];
      InputsStop(sc, rank, id, ls[..|ls| - 1], k);
    } else {
      assert ls[..k] == ls;
    }
  }

  lemma StepOfIs(sc: Schema, rank: string -> nat, id: string)
    requires Acyclic(sc, rank) && id != ""
    ensures id !in sc.defs || Parents(sc.links, id) == [] ==> StepOf(sc, rank, id).None?
    ensures id in sc.defs && Parents(sc.links, id) != [] ==>
      StepOf(sc, rank, id) ==
        match InputsOf(sc, rank, id, Parents(sc.links, id)) case None => None case Some(ts) => NewStep(sc, sc.defs[id], ts)
  {
  }

  lemma InputsStart(sc: Schema, rank: string -> nat, id: string, ls: seq<Link>)
    requires Acyclic(sc, rank) && id != ""
    ensures ls[..0] == [] && InputsOf(sc, rank, id, []) == Some([])
  {
  }

  lemma ParentsMemoised(sc: Schema, id: string, parents: seq<Link>, memo: map<string, CompiledStep>, step: CompiledStep)
    requires parents == Parents(sc.links, id) && MemoClosed(sc, memo)
    requires forall j :: 0 <= j < |parents| && parents[j].srcStep != "" ==> parents[j].srcStep in memo
    ensures MemoClosed(sc, memo[id := step])
  {
    forall i | 0 <= i < |sc.links| && sc.links[i].tgtStep == id && sc.links[i].srcStep != ""
      ensures sc.links[i].srcStep in memo
    {
      assert sc.links[i] in parents;
    }
  }

  // ---------- what is compiled, told by types ----------

  /** The type of what a step hands on. */
  ghost predicate Hands(step: CompiledStep, t: Type) {
    if step.def.kind == Transformer then t == step.action else step.inputs != [] && t == step.inputs[0]
  }

  /** The type of what a link with one source brings, the steps being as in w. */
  ghost predicate Brings(sc: Schema, w: map<string, CompiledStep>, l: Link, t: Type) {
    if l.srcField != "" then l.srcField in sc.sourceTypes && sc.sourceTypes[l.srcField] == t
    else if l.srcStep != "" then l.srcStep in w && Hands(w[l.srcStep], t)
    else sc.constType(l.srcConst) == t
  }

  /** pos lists the links into a step, in order. */
  ghost predicate LinksInto(ls: seq<Link>, id: string, pos: seq<nat>) { Lead(ls, id, pos) && Climbs(pos) && Cover(ls, id, pos) }

  ghost predicate Lead(ls: seq<Link>, id: string, pos: seq<nat>) { forall n :: 0 <= n < |pos| ==> pos[n] < |ls| && ls[pos[n]].tgtStep == id }
  ghost predicate Climbs(pos: seq<nat>) { forall m, n :: 0 <= m < n < |pos| ==> pos[m] < pos[n] }
  ghost predicate Cover(ls: seq<Link>, id: string, pos: seq<nat>) { forall i :: 0 <= i < |ls| && ls[i].tgtStep == id ==> i in pos }

  ghost predicate InputsAt(sc: Schema, w: map<string, CompiledStep>, id: string, inputs: seq<Type>, pos: seq<nat>) {
    && LinksInto(sc.links, id, pos) && |inputs| == |pos|
    && forall n :: 0 <= n < |pos| ==> pos[n] < |sc.links| && Brings(sc, w, sc.links[pos[n]], inputs[n])
  }

  /** A step takes one input of the right type from each link into it, and there is one; its action takes those and, unless
      the step is a transformer, answers with a bool. */
  ghost predicate StepTyped(sc: Schema, w: map<string, CompiledStep>, id: string)
    requires id in w
  {
    var step := w[id];
    && id in sc.defs && step.def == sc.defs[id]
    && step.inputs != [] && (exists pos :: InputsAt(sc, w, id, step.inputs, pos))
    && sc.actionType(step.def.action, step.inputs) == Some(step.action)
    && (step.def.kind != Transformer ==> step.action == BoolType)
  }

  ghost predicate LinkTyped(sc: Schema, w: map<string, CompiledStep>, l: Link) {
    && ValidLink(l)
    && (l.tgtStep != "" ==> l.tgtStep in w)
    && exists t :: Brings(sc, w, l, t) && (l.tgtField != "" ==> l.tgtField in sc.targetTypes && sc.accepts(t, sc.targetTypes[l.tgtField]))
  }

  /** w gives every step types that fit, and so do all links. */
  ghost predicate WellTyped(sc: Schema, w: map<string, CompiledStep>) {
    && (forall i :: 0 <= i < |sc.links| ==> LinkTyped(sc, w, sc.links[i]))
    && forall id | id in w && id != "" :: StepTyped(sc, w, id)
  }

  lemma FirstParent(ls: seq<Link>, id: string)
    ensures ls != [] ==> Parents(ls, id) == Here(ls[0], id) + Parents(ls[1..], id)
    ensures ls == [] ==> Parents(ls, id) == []
  {
  }

  ghost function Here(l: Link, id: string): seq<Link> { if l.tgtStep == id then [l] else [] }

  lemma {:induction false} LastParent(ls: seq<Link>, id: string)
    requires ls != []
    ensures Parents(ls, id) == Parents(ls[..|ls| - 1], id) + Here(ls[|ls| - 1], id)
  {
    hide Parents, Here;
    var n := |ls| - 1;
    FirstParent(ls, id);
    FirstParent(ls[..n], id);
    if n > 0 {
      LastParent(ls[1..], id);
      assert ls[1..][..n - 1] == ls[..n][1..];
    } else {
      FirstParent(ls[1..], id);
    }
  }

  /** All but the last of the links, and of the positions when that is one of them. */
  lemma LastInto(ls: seq<Link>, id: string, pos: seq<nat>)
    requires ls != [] && LinksInto(ls, id, pos)
    ensures var n := |ls| - 1;
      if ls[n].tgtStep == id then pos != [] && pos[|pos| - 1] == n && LinksInto(ls[..n], id, pos[..|pos| - 1])
      else LinksInto(ls[..n], id, pos)
  {
    hide Lead, Climbs, Cover;
    var n := |ls| - 1;
    if ls[n].tgtStep == id {
      LastLeads(ls, id, pos);
      FrontLeads(ls, id, pos);
      FrontCovers(ls, id, pos);
    } else {
      AllLeadBefore(ls, id, pos);
    }
  }

  lemma LastLeads(ls: seq<Link>, id: string, pos: seq<nat>)
    requires ls != [] && ls[|ls| - 1].tgtStep == id && Lead(ls, id, pos) && Climbs(pos) && Cover(ls, id, pos)
    ensures pos != [] && pos[|pos| - 1] == |ls| - 1
  {
    var k :| 0 <= k < |pos| && pos[k] == |ls| - 1;
    assert pos[k] <= pos[|pos| - 1];
  }

  lemma FrontLeads(ls: seq<Link>, id: string, pos: seq<nat>)
    requires ls != [] && pos != [] && pos[|pos| - 1] == |ls| - 1 && Lead(ls, id, pos) && Climbs(pos)
    ensures Lead(ls[..|ls| - 1], id, pos[..|pos| - 1]) && Climbs(pos[..|pos| - 1])
  {
  }

  lemma FrontCovers(ls: seq<Link>, id: string, pos: seq<nat>)
    requires ls != [] && pos != [] && pos[|pos| - 1] == |ls| - 1 && Cover(ls, id, pos)
    ensures Cover(ls[..|ls| - 1], id, pos[..|pos| - 1])
  {
    assert pos == pos[..|pos| - 1] + [|ls| - 1];
    forall i | 0 <= i < |ls| - 1 && ls[i].tgtStep == id ensures i in pos[..|pos| - 1] {
      assert i in pos;
    }
  }

  lemma AllLeadBefore(ls: seq<Link>, id: string, pos: seq<nat>)
    requires ls != [] && ls[|ls| - 1].tgtStep != id && Lead(ls, id, pos) && Cover(ls, id, pos)
    ensures Lead(ls[..|ls| - 1], id, pos) && Cover(ls[..|ls| - 1], id, pos)
  {
  }

  ghost predicate Picked(ls: seq<Link>, pos: seq<nat>, picked: seq<Link>) {
    |picked| == |pos| && forall n :: 0 <= n < |pos| ==> pos[n] < |ls| && picked[n] == ls[pos[n]]
  }

  lemma {:induction false} ParentsAt(ls: seq<Link>, id: string, pos: seq<nat>)
    requires LinksInto(ls, id, pos)
    ensures Picked(ls, pos, Parents(ls, id))
  {
    hide Parents, LinksInto, Picked, Here;
    if ls == [] {
      NonePicked(ls, id, pos);
    } else if ls[|ls| - 1].tgtStep == id {
      LastInto(ls, id, pos);
      ParentsAt(ls[..|ls| - 1], id, pos[..|pos| - 1]);
      PickedHere(ls, id, pos);
    } else {
      LastInto(ls, id, pos);
      ParentsAt(ls[..|ls| - 1], id, pos);
      PickedBefore(ls, id, pos);
    }
  }

  lemma PickedHere(ls: seq<Link>, id: string, pos: seq<nat>)
    requires ls != [] && pos != [] && ls[|ls| - 1].tgtStep == id && pos[|pos| - 1] == |ls| - 1
    requires Picked(ls[..|ls| - 1], pos[..|pos| - 1], Parents(ls[..|ls| - 1], id))
    ensures Picked(ls, pos, Parents(ls, id))
  {
    hide Parents;
    LastParent(ls, id);
  }

  lemma PickedBefore(ls: seq<Link>, id: string, pos: seq<nat>)
    requires ls != [] && ls[|ls| - 1].tgtStep != id && Picked(ls[..|ls| - 1], pos, Parents(ls[..|ls| - 1], id))
    ensures Picked(ls, pos, Parents(ls, id))
  {
    hide Parents;
    LastParent(ls, id);
  }

  lemma NonePicked(ls: seq<Link>, id: string, pos: seq<nat>)
    requires ls == [] && LinksInto(ls, id, pos)
    ensures Picked(ls, pos, Parents(ls, id))
  {
    if pos != [] { FirstInto(ls, id, pos); }
  }

  lemma FirstInto(ls: seq<Link>, id: string, pos: seq<nat>)
    requires LinksInto(ls, id, pos) && pos != []
    ensures pos[0] < |ls|
  {
  }

  lemma {:induction false} SomeLinksInto(ls: seq<Link>, id: string) returns (pos: seq<nat>)
    ensures LinksInto(ls, id, pos)
  {
    pos := [];
    if ls != [] {
      hide LinksInto;
      pos := SomeLinksInto(ls[..|ls| - 1], id);
      OneMoreInto(ls, id, pos);
      if ls[|ls| - 1].tgtStep == id { pos := pos + [|ls| - 1]; }
    }
  }

  lemma OneMoreInto(ls: seq<Link>, id: string, pos: seq<nat>)
    requires ls != [] && LinksInto(ls[..|ls| - 1], id, pos)
    ensures LinksInto(ls, id, if ls[|ls| - 1].tgtStep == id then pos + [|ls| - 1] else pos)
  {
    var n := |ls| - 1;
    var more := if ls[n].tgtStep == id then pos + [n] else pos;
    forall i | 0 <= i < |ls| && ls[i].tgtStep == id ensures i in more {
      if i < n { assert ls[..n][i].tgtStep == id && i in pos; }
    }
  }

  /** A valid link contributes one type. */
  lemma OneType(sc: Schema, rank: string -> nat, id: string, l: Link)
    requires Acyclic(sc, rank) && id != "" && l in sc.links && l.tgtStep == id && ValidLink(l)
    ensures LinkTypes(sc, rank, id, l) == match FromType(sc, rank, l) case None => None case Some(t) => Some([t])
  {
    hide StepOf;
    assert l.srcField != "" && l.srcField in sc.sourceTypes ==> [sc.sourceTypes[l.srcField]] + [] == [sc.sourceTypes[l.srcField]];
    assert [] + [sc.constType(l.srcConst)] == [sc.constType(l.srcConst)];
    if l.srcField == "" && l.srcStep != "" && StepOf(sc, rank, l.srcStep).Some? {
      var t := OutputType(StepOf(sc, rank, l.srcStep).value);
      assert [] + [t] + [] == [t];
    }
  }

  lemma {:induction false} InputsAreTypes(sc: Schema, rank: string -> nat, id: string, ls: seq<Link>)
    requires Acyclic(sc, rank) && id != "" && forall l :: l in ls ==> l in sc.links && l.tgtStep == id && ValidLink(l)
    ensures InputsOf(sc, rank, id, ls).Some? <==> forall l :: l in ls ==> FromType(sc, rank, l).Some?
    ensures InputsOf(sc, rank, id, ls).Some? ==>
      var ts := InputsOf(sc, rank, id, ls).value;
      |ts| == |ls| && forall n :: 0 <= n < |ls| ==> FromType(sc, rank, ls[n]) == Some(ts[n])
    decreases |ls|
  {
    hide StepOf, FromType, LinkTypes, ValidLink, Acyclic;
    if ls != [] {
      var n := |ls| - 1;
      InputsAreTypes(sc, rank, id, ls[..n]);
      assert ls[n] in ls && ls == ls[..n] + [ls[n]];
      OneType(sc, rank, id, ls[n]);
    }
  }

  lemma MemoBrings(sc: Schema, rank: string -> nat, memo: map<string, CompiledStep>, l: Link, t: Type)
    requires Acyclic(sc, rank) && MemoRight(sc, rank, memo) && ValidLink(l) && FromType(sc, rank, l) == Some(t)
    requires l.srcStep != "" ==> l.srcStep in memo && memo[l.srcStep].inputs != []
    ensures Brings(sc, memo, l, t)
  {
    hide StepOf;
  }

  lemma MemoStep(sc: Schema, rank: string -> nat, memo: map<string, CompiledStep>, id: string)
    requires Acyclic(sc, rank) && MemoRight(sc, rank, memo) && id != "" && id in memo
    requires forall l :: l in sc.links ==> ValidLink(l)
    ensures Parents(sc.links, id) != [] && id in sc.defs
    ensures InputsOf(sc, rank, id, Parents(sc.links, id)) == Some(memo[id].inputs)
    ensures NewStep(sc, sc.defs[id], memo[id].inputs) == Some(memo[id])
    ensures memo[id].inputs != []
  {
    hide ValidLink, InputsOf, Parents;
    StepOfIs(sc, rank, id);
    InputsAreTypes(sc, rank, id, Parents(sc.links, id));
  }

  lemma MemoStepTyped(sc: Schema, rank: string -> nat, memo: map<string, CompiledStep>, id: string)
    requires Acyclic(sc, rank) && MemoRight(sc, rank, memo) && MemoClosed(sc, memo) && id != "" && id in memo && "" !in memo
    requires forall l :: l in sc.links ==> ValidLink(l)
    ensures StepTyped(sc, memo, id)
  {
    hide ValidLink, InputsOf, Parents, FromType, LinksInto, MemoRight, Acyclic;
    MemoStep(sc, rank, memo, id);
    var parents, inputs := Parents(sc.links, id), memo[id].inputs;
    InputsAreTypes(sc, rank, id, parents);
    var pos := SomeLinksInto(sc.links, id);
    ParentsAt(sc.links, id, pos);
    forall n | 0 <= n < |pos| ensures pos[n] < |sc.links| && Brings(sc, memo, sc.links[pos[n]], inputs[n]) {
      var l := parents[n];
      assert l in parents && l == sc.links[pos[n]];
      if l.srcStep != "" { MemoStep(sc, rank, memo, l.srcStep); }
      MemoBrings(sc, rank, memo, l, inputs[n]);
    }
    assert InputsAt(sc, memo, id, inputs, pos);
  }

  lemma FitIsTyped(sc: Schema, rank: string -> nat, memo: map<string, CompiledStep>, l: Link)
    requires Acyclic(sc, rank) && MemoRight(sc, rank, memo) && LinkFits(sc, rank, l)
    requires forall k :: k in sc.links ==> ValidLink(k)
    requires (l.srcStep != "" ==> l.srcStep in memo) && (l.tgtStep != "" ==> l.tgtStep in memo)
    ensures LinkTyped(sc, memo, l)
  {
    hide StepOf, FromType, MemoRight, Acyclic, Brings;
    FitIsValid(sc, rank, l);
    if l.srcStep != "" { MemoStep(sc, rank, memo, l.srcStep); }
    MemoBrings(sc, rank, memo, l, FromType(sc, rank, l).value);
  }

  ghost predicate AllFit(sc: Schema, rank: string -> nat)
    requires Acyclic(sc, rank)
  {
    forall i :: 0 <= i < |sc.links| ==> LinkFits(sc, rank, sc.links[i])
  }

  /** The memo of a successful compilation gives every step and link types that fit. */
  lemma MemoWellTyped(sc: Schema, rank: string -> nat, memo: map<string, CompiledStep>)
    requires Acyclic(sc, rank) && MemoRight(sc, rank, memo) && MemoClosed(sc, memo) && AllFit(sc, rank) && "" !in memo
    requires forall i :: 0 <= i < |sc.links| ==>
      (sc.links[i].srcStep != "" ==> sc.links[i].srcStep in memo) && (sc.links[i].tgtStep != "" ==> sc.links[i].tgtStep in memo)
    ensures WellTyped(sc, memo)
  {
    hide MemoRight, MemoClosed, Acyclic, StepTyped, LinkTyped, LinkFits, ValidLink;
    forall l | l in sc.links ensures ValidLink(l) { FitIsValid(sc, rank, l); }
    forall i | 0 <= i < |sc.links| ensures LinkTyped(sc, memo, sc.links[i]) { FitIsTyped(sc, rank, memo, sc.links[i]); }
    forall id | id in memo && id != "" ensures StepTyped(sc, memo, id) { MemoStepTyped(sc, rank, memo, id); }
  }

  /** And types that fit are the ones the compiler finds. */
  lemma {:induction false} TypedIsBuilt(sc: Schema, rank: string -> nat, w: map<string, CompiledStep>, id: string)
    requires Acyclic(sc, rank) && WellTyped(sc, w) && id != "" && id in w
    ensures StepOf(sc, rank, id) == Some(w[id])
    decreases rank(id)
  {
    hide StepOf, InputsOf, Parents, FromType, LinksInto, ValidLink;
    StepOfIs(sc, rank, id);
    assert StepTyped(sc, w, id);
    var parents, inputs := Parents(sc.links, id), w[id].inputs;
    var pos :| InputsAt(sc, w, id, inputs, pos);
    ParentsAt(sc.links, id, pos);
    forall l | l in parents ensures ValidLink(l) { assert LinkTyped(sc, w, l); }
    InputsAreTypes(sc, rank, id, parents);
    forall n | 0 <= n < |pos| ensures FromType(sc, rank, parents[n]) == Some(inputs[n]) {
      var l := parents[n];
      assert l in parents && l == sc.links[pos[n]] && Brings(sc, w, l, inputs[n]);
      if l.srcField == "" && l.srcStep != "" { TypedIsBuilt(sc, rank, w, l.srcStep); }
      BringsIs(sc, rank, w, l, inputs[n]);
    }
    assert InputsOf(sc, rank, id, parents).value == inputs;
  }

  lemma BringsIs(sc: Schema, rank: string -> nat, w: map<string, CompiledStep>, l: Link, t: Type)
    requires Acyclic(sc, rank) && Brings(sc, w, l, t)
    requires l.srcField == "" && l.srcStep != "" ==> l.srcStep in w && StepOf(sc, rank, l.srcStep) == Some(w[l.srcStep])
    ensures FromType(sc, rank, l) == Some(t)
  {
    hide StepOf;
  }

  lemma TypedFits(sc: Schema, rank: string -> nat, w: map<string, CompiledStep>)
    requires Acyclic(sc, rank) && WellTyped(sc, w)
    ensures AllFit(sc, rank)
  {
    hide StepOf, FromType, Acyclic, StepTyped, Brings;
    forall i | 0 <= i < |sc.links| ensures LinkFits(sc, rank, sc.links[i]) {
      var l := sc.links[i];
      assert LinkTyped(sc, w, l);
      var t :| Brings(sc, w, l, t) && (l.tgtField != "" ==> l.tgtField in sc.targetTypes && sc.accepts(t, sc.targetTypes[l.tgtField]));
      CountsAre(l);
      if l.srcField == "" && l.srcStep != "" {
        StepIn(sc, w, l, t);
        TypedIsBuilt(sc, rank, w, l.srcStep);
      }
      if l.tgtStep != "" { TypedIsBuilt(sc, rank, w, l.tgtStep); }
      BringsIs(sc, rank, w, l, t);
    }
  }

  lemma StepIn(sc: Schema, w: map<string, CompiledStep>, l: Link, t: Type)
    requires Brings(sc, w, l, t) && l.srcField == "" && l.srcStep != ""
    ensures l.srcStep in w
  {
  }

  // ---------- cyclic definitions ----------

  type Memo = map<string, CompiledStep>

  datatype Attempt = Built(step: CompiledStep, memo: Memo) | Rejected | Unfinished

  datatype Typing = Typed(types: seq<Type>, memo: Memo) | Untyped | Halted

  predicate FieldKnown(sc: Schema, l: Link) { l.srcField != "" ==> l.srcField in sc.sourceTypes }

  /** createStep with a bound on the depth of recursion, the memo being filled only after the recursion;
      unfinished when the bound is too low. */
  function BuildWithin(sc: Schema, memo: Memo, id: string, depth: nat): Attempt
    decreases depth, 1, 0
  {
    if id !in sc.defs then Rejected
    else if id in memo then Built(memo[id], memo)
    else if Parents(sc.links, id) == [] then Rejected
    else if depth == 0 then Unfinished
    else
      match ParentsWithin(sc, memo, Parents(sc.links, id), depth)
      case Halted => Unfinished
      case Untyped => Rejected
      case Typed(ts, m) =>
        match NewStep(sc, sc.defs[id], ts)
        case None => Rejected
        case Some(step) => Built(step, m[id := step])
  }

  /** The loop over the parent links ls, up to the first that fails. */
  function ParentsWithin(sc: Schema, memo: Memo, ls: seq<Link>, depth: nat): Typing
    requires depth > 0
    decreases depth, 0, |ls|
  {
    if ls == [] then Typed([], memo)
    else
      match ParentsWithin(sc, memo, ls[..|ls| - 1], depth)
      case Halted => Halted
      case Untyped => Untyped
      case Typed(ts, m) =>
        var l := ls[|ls| - 1];
        if !FieldKnown(sc, l) then Untyped
        else if l.srcStep == "" then Typed(ts + OwnTypes(sc, l, []), m)
        else
          match BuildWithin(sc, m, l.srcStep, depth - 1)
          case Unfinished => Halted
          case Rejected => Untyped
          case Built(step, m') => Typed(ts + OwnTypes(sc, l, [OutputType(step)]), m')
  }

  function OwnTypes(sc: Schema, l: Link, step: seq<Type>): seq<Type>
    requires FieldKnown(sc, l)
  {
    (if l.srcField != "" then [sc.sourceTypes[l.srcField]] else []) + step + (if l.srcConst != Nil then [sc.constType(l.srcConst)] else [])
  }

  /** The recursion returns: some depth is enough. */
  ghost predicate Returns(sc: Schema, memo: Memo, id: string) { exists depth: nat :: BuildWithin(sc, memo, id, depth) != Unfinished }

  /** A depth that is enough stays enough, with the same outcome. */
  lemma {:induction false} DeeperSame(sc: Schema, memo: Memo, id: string, d: nat, e: nat)
    requires d <= e && BuildWithin(sc, memo, id, d) != Unfinished
    ensures BuildWithin(sc, memo, id, e) == BuildWithin(sc, memo, id, d)
    decreases d, 1, 0
  {
    if d > 0 { DeeperTyped(sc, memo, Parents(sc.links, id), d, e); }
  }

  lemma {:induction false} DeeperTyped(sc: Schema, memo: Memo, ls: seq<Link>, d: nat, e: nat)
    requires 0 < d <= e
    ensures ParentsWithin(sc, memo, ls, d) != Halted ==> ParentsWithin(sc, memo, ls, e) == ParentsWithin(sc, memo, ls, d)
    decreases d, 0, |ls|
  {
    hide BuildWithin, NewStep, OwnTypes, OutputType;
    if ls != [] && ParentsWithin(sc, memo, ls, d) != Halted {
      var l := ls[|ls| - 1];
      DeeperTyped(sc, memo, ls[..|ls| - 1], d, e);
      var before := ParentsWithin(sc, memo, ls[..|ls| - 1], d);
      if before.Typed? && FieldKnown(sc, l) && l.srcStep != "" {
        DeeperSame(sc, before.memo, l.srcStep, d - 1, e - 1);
      }
    }
  }

  /** A set of steps each of which has some parent in the set. */
  ghost predicate Cyclic(sc: Schema, cycle: set<string>) {
    "" !in cycle && forall c {:trigger ParentWithin(sc, c, cycle)} :: c in cycle ==> ParentWithin(sc, c, cycle)
  }

  ghost predicate ParentWithin(sc: Schema, id: string, cycle: set<string>) {
    exists l :: l in Parents(sc.links, id) && l.srcStep in cycle
  }

  lemma {:induction false} BuiltFrom(sc: Schema, memo: Memo, id: string, depth: nat)
    requires BuildWithin(sc, memo, id, depth).Built?
    ensures id in memo ==> BuildWithin(sc, memo, id, depth).memo == memo
    ensures id !in memo ==> depth > 0 && ParentsWithin(sc, memo, Parents(sc.links, id), depth).Typed?
    ensures id !in memo ==>
      BuildWithin(sc, memo, id, depth).memo.Keys == ParentsWithin(sc, memo, Parents(sc.links, id), depth).memo.Keys + {id}
  {
  }

  lemma {:induction false} TypedFrom(sc: Schema, memo: Memo, ls: seq<Link>, depth: nat)
    requires depth > 0 && ls != [] && ParentsWithin(sc, memo, ls, depth).Typed?
    ensures var a, before, l := ParentsWithin(sc, memo, ls, depth), ParentsWithin(sc, memo, ls[..|ls| - 1], depth), ls[|ls| - 1];
      && before.Typed?
      && (l.srcStep == "" ==> a.memo == before.memo)
      && (l.srcStep != "" ==> BuildWithin(sc, before.memo, l.srcStep, depth - 1).Built?)
      && (l.srcStep != "" ==> a.memo == BuildWithin(sc, before.memo, l.srcStep, depth - 1).memo)
  {
  }

  lemma CycleParent(sc: Schema, cycle: set<string>, id: string) returns (l: Link)
    requires Cyclic(sc, cycle) && id in cycle
    ensures l in Parents(sc.links, id) && l.srcStep in cycle && l.srcStep != ""
  {
    assert ParentWithin(sc, id, cycle);
    l :| l in Parents(sc.links, id) && l.srcStep in cycle;
  }

  lemma CycleNamed(sc: Schema, cycle: set<string>)
    requires Cyclic(sc, cycle)
    ensures "" !in cycle
  {
  }

  /** No step of such a set is ever built, whatever its other parents and at whatever depth. */
  lemma {:induction false} CycleNeverBuilt(sc: Schema, memo: Memo, cycle: set<string>, id: string, depth: nat)
    requires Cyclic(sc, cycle) && cycle !! memo.Keys
    ensures var a := BuildWithin(sc, memo, id, depth); a.Built? ==> id !in cycle && cycle !! a.memo.Keys
    decreases depth, 1, 0
  {
    hide BuildWithin, ParentsWithin, Cyclic;
    if BuildWithin(sc, memo, id, depth).Built? {
      BuiltFrom(sc, memo, id, depth);
      if id !in memo {
        ParentsOutside(sc, memo, cycle, Parents(sc.links, id), depth);
        if id in cycle { var l := CycleParent(sc, cycle, id); }
      }
    }
  }

  lemma {:induction false} ParentsOutside(sc: Schema, memo: Memo, cycle: set<string>, ls: seq<Link>, depth: nat)
    requires Cyclic(sc, cycle) && cycle !! memo.Keys && depth > 0
    ensures var a := ParentsWithin(sc, memo, ls, depth);
      a.Typed? ==> cycle !! a.memo.Keys && forall l :: l in ls ==> l.srcStep !in cycle
    decreases depth, 0, |ls|
  {
    hide BuildWithin, Cyclic;
    if ls != [] && ParentsWithin(sc, memo, ls, depth).Typed? {
      hide ParentsWithin;
      CycleNamed(sc, cycle);
      var n := |ls| - 1;
      TypedFrom(sc, memo, ls, depth);
      ParentsOutside(sc, memo, cycle, ls[..n], depth);
      if ls[n].srcStep != "" {
        CycleNeverBuilt(sc, ParentsWithin(sc, memo, ls[..n], depth).memo, cycle, ls[n].srcStep, depth - 1);
      }
      assert ls == ls[..n] + [ls[n]];
    }
  }

  // ---------- the exact condition ----------

  /** createStep with a guard: a step that is being built already is not entered again. */
  function BuildGuarded(sc: Schema, memo: Memo, id: string, open: set<string>): Attempt
    decreases |sc.defs.Keys - open|, 1, 0
  {
    if id !in sc.defs then Rejected
    else if id in memo then Built(memo[id], memo)
    else if Parents(sc.links, id) == [] then Rejected
    else if id in open then Unfinished
    else
      OneMoreOpen(sc.defs.Keys, open, id);
      match ParentsGuarded(sc, memo, Parents(sc.links, id), open + {id})
      case Halted => Unfinished
      case Untyped => Rejected
      case Typed(ts, m) =>
        match NewStep(sc, sc.defs[id], ts)
        case None => Rejected
        case Some(step) => Built(step, m[id := step])
  }

  function ParentsGuarded(sc: Schema, memo: Memo, ls: seq<Link>, open: set<string>): Typing
    decreases |sc.defs.Keys - open|, 2, |ls|
  {
    if ls == [] then Typed([], memo)
    else
      match ParentsGuarded(sc, memo, ls[..|ls| - 1], open)
      case Halted => Halted
      case Untyped => Untyped
      case Typed(ts, m) =>
        var l := ls[|ls| - 1];
        if !FieldKnown(sc, l) then Untyped
        else if l.srcStep == "" then Typed(ts + OwnTypes(sc, l, []), m)
        else
          match BuildGuarded(sc, m, l.srcStep, open)
          case Unfinished => Halted
          case Rejected => Untyped
          case Built(step, m') => Typed(ts + OwnTypes(sc, l, [OutputType(step)]), m')
  }

  lemma OneMoreOpen(all: set<string>, open: set<string>, id: string)
    requires id in all && id !in open
    ensures |all - (open + {id})| < |all - open|
  {
    assert all - open == (all - (open + {id})) + {id};
  }

  /** Where the guard stays silent, as many steps as there are definitions are depth enough, with the same outcome. */
  lemma {:induction false} SilentGuard(sc: Schema, memo: Memo, id: string, open: set<string>, depth: nat)
    requires BuildGuarded(sc, memo, id, open) != Unfinished && depth >= |sc.defs.Keys - open|
    ensures BuildWithin(sc, memo, id, depth) == BuildGuarded(sc, memo, id, open)
    decreases |sc.defs.Keys - open|, 1, 0
  {
    if id in sc.defs && id !in memo && Parents(sc.links, id) != [] {
      OneMoreOpen(sc.defs.Keys, open, id);
      SilentParents(sc, memo, Parents(sc.links, id), open + {id}, depth);
    }
  }

  lemma {:induction false} SilentParents(sc: Schema, memo: Memo, ls: seq<Link>, open: set<string>, depth: nat)
    requires ParentsGuarded(sc, memo, ls, open) != Halted && depth > |sc.defs.Keys - open|
    ensures ParentsWithin(sc, memo, ls, depth) == ParentsGuarded(sc, memo, ls, open)
    decreases |sc.defs.Keys - open|, 2, |ls|
  {
    hide BuildWithin, BuildGuarded, NewStep, OwnTypes, OutputType, FieldKnown;
    if ls != [] {
      var l := ls[|ls| - 1];
      SilentParents(sc, memo, ls[..|ls| - 1], open, depth);
      var before := ParentsGuarded(sc, memo, ls[..|ls| - 1], open);
      if before.Typed? && FieldKnown(sc, l) && l.srcStep != "" {
        SilentGuard(sc, before.memo, l.srcStep, open, depth - 1);
      }
    }
  }

  /** What is built goes into the memo, and no step that is open does. */
  lemma {:induction false} GuardedKeeps(sc: Schema, memo: Memo, id: string, open: set<string>)
    requires memo.Keys !! open && BuildGuarded(sc, memo, id, open).Built?
    ensures var m := BuildGuarded(sc, memo, id, open).memo; memo.Keys <= m.Keys && m.Keys !! open && id in m && id in sc.defs
    decreases |sc.defs.Keys - open|, 1, 0
  {
    if id !in memo {
      OneMoreOpen(sc.defs.Keys, open, id);
      ParentsKeep(sc, memo, Parents(sc.links, id), open + {id});
    }
  }

  lemma {:induction false} ParentsKeep(sc: Schema, memo: Memo, ls: seq<Link>, open: set<string>)
    requires memo.Keys !! open && ParentsGuarded(sc, memo, ls, open).Typed?
    ensures var m := ParentsGuarded(sc, memo, ls, open).memo;
      && memo.Keys <= m.Keys && m.Keys !! open
      && forall j :: 0 <= j < |ls| ==> Passed(sc, m, ls[j])
    decreases |sc.defs.Keys - open|, 2, |ls|
  {
    hide BuildGuarded, OwnTypes, OutputType;
    if ls != [] {
      var n := |ls| - 1;
      ParentsKeep(sc, memo, ls[..n], open);
      var m := ParentsGuarded(sc, memo, ls[..n], open).memo;
      if ls[n].srcStep != "" { GuardedKeeps(sc, m, ls[n].srcStep, open); }
      forall j | 0 <= j < n ensures Passed(sc, m, ls[j]) { assert ls[..n][j] == ls[j]; }
    }
  }

  /** A parent link that takes nothing but the memo. */
  predicate Passed(sc: Schema, memo: Memo, l: Link) {
    FieldKnown(sc, l) && (l.srcStep != "" ==> l.srcStep in memo && l.srcStep in sc.defs)
  }

  /** Building id has come to its parent number k. */
  predicate WaitsAt(sc: Schema, memo: Memo, id: string, next: string, k: nat) {
    var ps := Parents(sc.links, id);
    && k < |ps| && ps[k].srcStep == next && next != "" && FieldKnown(sc, ps[k])
    && forall j :: 0 <= j < k ==> Passed(sc, memo, ps[j])
  }

  ghost predicate Waits(sc: Schema, memo: Memo, id: string, next: string) { exists k: nat :: WaitsAt(sc, memo, id, next, k) }

  ghost predicate Turns(sc: Schema, memo: Memo, cycle: set<string>, c: string) {
    exists next :: next in cycle && Waits(sc, memo, c, next)
  }

  /** Steps each of which waits for another of them are never finished. */
  lemma {:induction false} RoundAndRound(sc: Schema, memo: Memo, cycle: set<string>, id: string, depth: nat)
    requires id in cycle && cycle !! memo.Keys && cycle <= sc.defs.Keys
    requires forall c {:trigger Turns(sc, memo, cycle, c)} :: c in cycle ==> Turns(sc, memo, cycle, c)
    ensures BuildWithin(sc, memo, id, depth) == Unfinished
    decreases depth
  {
    hide BuildWithin, ParentsWithin, Parents;
    assert Turns(sc, memo, cycle, id);
    var next :| next in cycle && Waits(sc, memo, id, next);
    var k: nat :| WaitsAt(sc, memo, id, next, k);
    var ps := Parents(sc.links, id);
    if depth > 0 {
      PassedParents(sc, memo, ps[..k], depth);
      RoundAndRound(sc, memo, cycle, next, depth - 1);
      assert ps[..k + 1][..k] == ps[..k];
      StuckAt(sc, memo, ps[..k + 1], depth);
      if ParentsWithin(sc, memo, ps, depth) != Halted { PrefixReturns(sc, memo, ps, depth, k + 1); }
    }
    StuckParents(sc, memo, id, depth);
  }

  lemma {:induction false} PassedParents(sc: Schema, memo: Memo, ls: seq<Link>, depth: nat)
    requires depth > 0 && forall j :: 0 <= j < |ls| ==> Passed(sc, memo, ls[j])
    ensures ParentsWithin(sc, memo, ls, depth).Typed? && ParentsWithin(sc, memo, ls, depth).memo == memo
    decreases |ls|
  {
    if ls != [] { PassedParents(sc, memo, ls[..|ls| - 1], depth); }
  }

  lemma {:induction false} StuckAt(sc: Schema, memo: Memo, ls: seq<Link>, depth: nat)
    requires depth > 0 && ls != [] && ParentsWithin(sc, memo, ls[..|ls| - 1], depth).Typed?
    requires var l := ls[|ls| - 1];
      && FieldKnown(sc, l) && l.srcStep != ""
      && BuildWithin(sc, ParentsWithin(sc, memo, ls[..|ls| - 1], depth).memo, l.srcStep, depth - 1) == Unfinished
    ensures ParentsWithin(sc, memo, ls, depth) == Halted
  {
  }

  lemma {:induction false} StuckParents(sc: Schema, memo: Memo, id: string, depth: nat)
    requires id in sc.defs && id !in memo && Parents(sc.links, id) != []
    requires depth > 0 ==> ParentsWithin(sc, memo, Parents(sc.links, id), depth) == Halted
    ensures BuildWithin(sc, memo, id, depth) == Unfinished
  {
  }

  /** The open steps in the order they were entered, each waiting for the next, the last for id. */
  ghost predicate Trail(sc: Schema, memo: Memo, trail: seq<string>, id: string) {
    forall i :: 0 <= i < |trail| ==>
      trail[i] in sc.defs && trail[i] !in memo && Waits(sc, memo, trail[i], After(trail, i, id))
  }

  function After(trail: seq<string>, i: nat, id: string): string { if i + 1 < |trail| then trail[i + 1] else id }

  ghost function Names(trail: seq<string>): set<string> { set x | x in trail }

  lemma TrailCloses(sc: Schema, memo: Memo, trail: seq<string>, id: string, depth: nat)
    requires Trail(sc, memo, trail, id) && id in trail
    ensures BuildWithin(sc, memo, id, depth) == Unfinished
  {
    hide BuildWithin, Waits;
    var p :| 0 <= p < |trail| && trail[p] == id;
    var cycle := set i | p <= i < |trail| :: trail[i];
    forall c | c in cycle ensures Turns(sc, memo, cycle, c) {
      var i :| p <= i < |trail| && trail[i] == c;
      var next := After(trail, i, id);
      assert trail[if i + 1 < |trail| then i + 1 else p] in cycle;
      assert next in cycle && Waits(sc, memo, c, next);
    }
    RoundAndRound(sc, memo, cycle, id, depth);
  }

  lemma TrailGrows(sc: Schema, memo: Memo, m: Memo, trail: seq<string>, id: string, next: string)
    requires Trail(sc, memo, trail, id) && memo.Keys <= m.Keys && m.Keys !! Names(trail + [id])
    requires id in sc.defs && Waits(sc, m, id, next)
    ensures Trail(sc, m, trail + [id], next)
  {
    hide Parents, Waits;
    var longer := trail + [id];
    forall i | 0 <= i < |longer|
      ensures longer[i] in sc.defs && longer[i] !in m && Waits(sc, m, longer[i], After(longer, i, next))
    {
      assert longer[i] in Names(longer);
      if i < |trail| {
        assert longer[i] == trail[i];
        StillWaits(sc, memo, m, trail[i], After(trail, i, id));
      }
    }
  }

  lemma StillWaits(sc: Schema, memo: Memo, m: Memo, id: string, next: string)
    requires Waits(sc, memo, id, next) && memo.Keys <= m.Keys
    ensures Waits(sc, m, id, next)
  {
    hide Parents;
    var k: nat :| WaitsAt(sc, memo, id, next, k);
    assert WaitsAt(sc, m, id, next, k);
  }

  /** Where the guard strikes, the recursion has no end. */
  lemma {:induction false} GuardStrikes(sc: Schema, memo: Memo, id: string, trail: seq<string>, depth: nat)
    requires BuildGuarded(sc, memo, id, Names(trail)) == Unfinished && Trail(sc, memo, trail, id)
    ensures BuildWithin(sc, memo, id, depth) == Unfinished
    decreases |sc.defs.Keys - Names(trail)|, 1, 0
  {
    hide BuildWithin, BuildGuarded, ParentsGuarded, ParentsWithin, Trail, Parents;
    if id in trail {
      TrailCloses(sc, memo, trail, id, depth);
    } else {
      OneMoreName(trail, id);
      GuardOpens(sc, memo, id, Names(trail));
      OneMoreOpen(sc.defs.Keys, Names(trail), id);
      var ps := Parents(sc.links, id);
      assert ps[..|ps|] == ps;
      if depth > 0 { ParentStrikes(sc, memo, id, trail, |ps|, depth); }
      StuckParents(sc, memo, id, depth);
    }
  }

  lemma OneMoreName(trail: seq<string>, id: string)
    ensures Names(trail + [id]) == Names(trail) + {id}
  {
  }

  lemma GuardOpens(sc: Schema, memo: Memo, id: string, open: set<string>)
    requires BuildGuarded(sc, memo, id, open) == Unfinished && id !in open
    ensures id in sc.defs && id !in memo && Parents(sc.links, id) != []
    ensures ParentsGuarded(sc, memo, Parents(sc.links, id), open + {id}) == Halted
  {
  }

  lemma {:induction false} ParentStrikes(sc: Schema, memo: Memo, id: string, trail: seq<string>, k: nat, depth: nat)
    requires Trail(sc, memo, trail, id) && id in sc.defs && id !in memo && depth > 0
    requires k <= |Parents(sc.links, id)| && ParentsGuarded(sc, memo, Parents(sc.links, id)[..k], Names(trail + [id])) == Halted
    ensures ParentsWithin(sc, memo, Parents(sc.links, id)[..k], depth) == Halted
    decreases |sc.defs.Keys - Names(trail + [id])|, 2, k
  {
    hide BuildWithin, BuildGuarded, Waits, Parents, NewStep, OwnTypes, OutputType, Trail;
    var ps, open := Parents(sc.links, id), Names(trail + [id]);
    var front, l := ps[..k - 1], ps[k - 1];
    assert ps[..k][..k - 1] == front;
    if ParentsGuarded(sc, memo, front, open) == Halted {
      ParentStrikes(sc, memo, id, trail, k - 1, depth);
    } else {
      var m := ParentsGuarded(sc, memo, front, open).memo;
      NotOnTrail(sc, memo, trail, id);
      ParentsKeep(sc, memo, front, open);
      forall j | 0 <= j < k - 1 ensures Passed(sc, m, ps[j]) { assert front[j] == ps[j]; }
      assert Waits(sc, m, id, l.srcStep) by { NowWaits(sc, m, id, k - 1); }
      TrailGrows(sc, memo, m, trail, id, l.srcStep);
      GuardStrikes(sc, m, l.srcStep, trail + [id], depth - 1);
      var enough := depth + |sc.defs.Keys - open| + 1;
      SilentParents(sc, memo, front, open, enough);
      if ParentsWithin(sc, memo, front, depth) != Halted { SameMemo(sc, memo, front, depth, enough); }
    }
  }

  lemma NotOnTrail(sc: Schema, memo: Memo, trail: seq<string>, id: string)
    requires Trail(sc, memo, trail, id) && id !in memo
    ensures memo.Keys !! Names(trail + [id])
  {
    hide Waits;
    forall x | x in Names(trail + [id]) ensures x !in memo {
      var i :| 0 <= i < |trail + [id]| && (trail + [id])[i] == x;
    }
  }

  lemma NowWaits(sc: Schema, memo: Memo, id: string, k: nat)
    requires var ps := Parents(sc.links, id);
      && k < |ps| && ps[k].srcStep != "" && FieldKnown(sc, ps[k])
      && forall j :: 0 <= j < k ==> Passed(sc, memo, ps[j])
    ensures Waits(sc, memo, id, Parents(sc.links, id)[k].srcStep)
  {
    hide Parents;
    assert WaitsAt(sc, memo, id, Parents(sc.links, id)[k].srcStep, k);
  }

  /** The recursion ends exactly when no step is entered again while it is being built; then it does what it would
      do with a guard against that. */
  lemma DivergesExactly(sc: Schema, memo: Memo, id: string)
    ensures Returns(sc, memo, id) <==> BuildGuarded(sc, memo, id, {}) != Unfinished
    ensures forall depth: nat :: BuildWithin(sc, memo, id, depth) != Unfinished ==> BuildWithin(sc, memo, id, depth) == BuildGuarded(sc, memo, id, {})
  {
    hide BuildWithin, BuildGuarded;
    var enough := |sc.defs.Keys - {}|;
    if BuildGuarded(sc, memo, id, {}) != Unfinished {
      SilentGuard(sc, memo, id, {}, enough);
      forall depth: nat | BuildWithin(sc, memo, id, depth) != Unfinished
        ensures BuildWithin(sc, memo, id, depth) == BuildGuarded(sc, memo, id, {})
      {
        if depth <= enough { DeeperSame(sc, memo, id, depth, enough); } else { DeeperSame(sc, memo, id, enough, depth); }
      }
    } else {
      assert Names([]) == {};
      forall depth: nat ensures BuildWithin(sc, memo, id, depth) == Unfinished {
        GuardStrikes(sc, memo, id, [], depth);
      }
    }
  }

  lemma SameMemo(sc: Schema, memo: Memo, ls: seq<Link>, d: nat, e: nat)
    requires d > 0 && e > 0 && ParentsWithin(sc, memo, ls, d) != Halted && ParentsWithin(sc, memo, ls, e) != Halted
    ensures ParentsWithin(sc, memo, ls, d) == ParentsWithin(sc, memo, ls, e)
  {
    if d <= e { DeeperTyped(sc, memo, ls, d, e); } else { DeeperTyped(sc, memo, ls, e, d); }
  }

  lemma {:induction false} PrefixReturns(sc: Schema, memo: Memo, ls: seq<Link>, d: nat, k: nat)
    requires d > 0 && k <= |ls| && ParentsWithin(sc, memo, ls, d) != Halted
    ensures ParentsWithin(sc, memo, ls[..k], d) != Halted
    decreases |ls|
  {
    if k == |ls| {
      assert ls[..k] == ls;
    } else {
      PrefixReturns(sc, memo, ls[..|ls| - 1], d, k);
      assert ls[..|ls| - 1][..k] == ls[..k];
    }
  }

  /** A step on a cycle is either rejected, which ends the recursion, or entered again. */
  lemma CycleReturnsOnlyRejected(sc: Schema, memo: Memo, cycle: set<string>, id: string)
    requires Cyclic(sc, cycle) && cycle !! memo.Keys && id in cycle
    ensures Returns(sc, memo, id) <==> BuildGuarded(sc, memo, id, {}) == Rejected
  {
    hide BuildWithin, BuildGuarded, Cyclic;
    DivergesExactly(sc, memo, id);
    if Returns(sc, memo, id) {
      var d: nat :| BuildWithin(sc, memo, id, d) != Unfinished;
      CycleNeverBuilt(sc, memo, cycle, id, d);
    }
  }

  // ---------- definitions that reject nothing ----------

  ghost predicate Named(sc: Schema, id: string) {
    id != "" && exists l :: l in sc.links && (l.srcStep == id || l.tgtStep == id)
  }

  /** Every field is known, every step that a link names is defined and has a parent, and every action takes its inputs. */
  ghost predicate RejectsNothing(sc: Schema) {
    && (forall l <- sc.links :: FieldKnown(sc, l))
    && (forall id | Named(sc, id) :: id in sc.defs && Parents(sc.links, id) != [])
    && forall id, ts | id in sc.defs :: NewStep(sc, sc.defs[id], ts).Some?
  }

  lemma {:induction false} NeverRejected(sc: Schema, memo: Memo, id: string, depth: nat)
    requires RejectsNothing(sc) && Named(sc, id)
    ensures BuildWithin(sc, memo, id, depth) != Rejected
    decreases depth, 1, 0
  {
    hide NewStep;
    if depth > 0 { NeverUntyped(sc, memo, Parents(sc.links, id), depth); }
  }

  lemma {:induction false} NeverUntyped(sc: Schema, memo: Memo, ls: seq<Link>, depth: nat)
    requires RejectsNothing(sc) && depth > 0 && forall l <- ls :: l in sc.links
    ensures ParentsWithin(sc, memo, ls, depth) != Untyped
    decreases depth, 0, |ls|
  {
    hide NewStep, BuildWithin, OwnTypes, OutputType;
    if ls != [] {
      var n := |ls| - 1;
      assert ls[n] in ls;
      NeverUntyped(sc, memo, ls[..n], depth);
      var before := ParentsWithin(sc, memo, ls[..n], depth);
      if before.Typed? && ls[n].srcStep != "" { NeverRejected(sc, before.memo, ls[n].srcStep, depth - 1); }
    }
  }

  /** Where nothing is rejected, no depth is enough for a step on a cycle. */
  lemma CycleDiverges(sc: Schema, memo: Memo, cycle: set<string>, id: string, depth: nat)
    requires RejectsNothing(sc) && Cyclic(sc, cycle) && cycle !! memo.Keys && id in cycle
    ensures BuildWithin(sc, memo, id, depth) == Unfinished
  {
    hide BuildWithin, RejectsNothing;
    var l := CycleParent(sc, cycle, id);
    CycleNamed(sc, cycle);
    assert l in sc.links && l.tgtStep == id;
    NeverRejected(sc, memo, id, depth);
    CycleNeverBuilt(sc, memo, cycle, id, depth);
  }

  ghost predicate RankedIn(sc: Schema, names: set<string>, rank: string -> nat) {
    forall l <- sc.links :: l.srcStep in names && l.tgtStep in names ==> rank(l.srcStep) < rank(l.tgtStep)
  }

  lemma NoParentIn(sc: Schema, l: Link, names: set<string>)
    requires l in sc.links && !ParentWithin(sc, l.tgtStep, names)
    ensures l.srcStep !in names
  {
    assert l in Parents(sc.links, l.tgtStep);
  }

  /** Steps without a parent among the rest are put first, one by one, until none is left or a cycle is. */
  lemma {:induction false} CycleOrRank(sc: Schema, names: set<string>) returns (cycle: set<string>, rank: string -> nat)
    requires "" !in names
    ensures cycle <= names
    ensures if cycle != {} then Cyclic(sc, cycle) else RankedIn(sc, names, rank)
    decreases |names|
  {
    if forall c {:trigger ParentWithin(sc, c, names)} :: c in names ==> ParentWithin(sc, c, names) {
      cycle, rank := names, _ => 0;
    } else {
      var first :| first in names && !ParentWithin(sc, first, names);
      var rest := names - {first};
      var r;
      cycle, r := CycleOrRank(sc, rest);
      rank := x => if x == first then 0 else r(x) + 1;
      forall l | l in sc.links && l.srcStep in names && l.tgtStep in names && cycle == {} ensures rank(l.srcStep) < rank(l.tgtStep) {
        if l.tgtStep == first { NoParentIn(sc, l, names); }
      }
    }
  }

  lemma NoCycle(sc: Schema, cycle: set<string>)
    requires RejectsNothing(sc) && Cyclic(sc, cycle) && cycle != {}
    ensures exists id :: Named(sc, id) && !Returns(sc, map[], id)
  {
    hide BuildWithin, RejectsNothing;
    var id :| id in cycle;
    var l := CycleParent(sc, cycle, id);
    CycleNamed(sc, cycle);
    assert l in sc.links && l.tgtStep == id;
    forall d: nat ensures BuildWithin(sc, map[], id, d) == Unfinished { CycleDiverges(sc, map[], cycle, id, d); }
    assert Named(sc, id) && !Returns(sc, map[], id);
  }

  /** Where nothing is rejected, building every step that a link names returns exactly when the definition is acyclic. */
  lemma ReturnsIffAcyclic(sc: Schema)
    requires RejectsNothing(sc)
    ensures (forall id | Named(sc, id) :: Returns(sc, map[], id)) <==> exists rank :: Acyclic(sc, rank)
  {
    hide BuildWithin, RejectsNothing;
    if rank :| Acyclic(sc, rank) {
      forall id | Named(sc, id) ensures Returns(sc, map[], id) {
        AcyclicReturns(sc, rank, map[], id, rank(id) + 1);
      }
    }
    if forall id | Named(sc, id) :: Returns(sc, map[], id) {
      var sources := set l | l in sc.links && l.srcStep != "" :: l.srcStep;
      var targets := set l | l in sc.links && l.tgtStep != "" :: l.tgtStep;
      var cycle, rank := CycleOrRank(sc, sources + targets);
      if cycle != {} { NoCycle(sc, cycle); }
      assert Acyclic(sc, rank);
    }
  }

  /** On an acyclic definition the rank of a step bounds the depth needed. */
  lemma {:induction false} AcyclicReturns(sc: Schema, rank: string -> nat, memo: Memo, id: string, depth: nat)
    requires Acyclic(sc, rank) && id != "" && depth > rank(id)
    ensures BuildWithin(sc, memo, id, depth) != Unfinished
    decreases depth, 1, 0
  {
    if id in sc.defs && id !in memo {
      AcyclicTyped(sc, rank, memo, id, Parents(sc.links, id), depth);
    }
  }

  lemma RankFalls(sc: Schema, rank: string -> nat, l: Link)
    requires Acyclic(sc, rank) && l in sc.links && l.tgtStep != "" && l.srcStep != ""
    ensures rank(l.srcStep) < rank(l.tgtStep)
  {
    var i :| 0 <= i < |sc.links| && sc.links[i] == l;
  }

  lemma {:induction false} AcyclicTyped(sc: Schema, rank: string -> nat, memo: Memo, id: string, ls: seq<Link>, depth: nat)
    requires Acyclic(sc, rank) && id != "" && depth > rank(id) && forall l :: l in ls ==> l in sc.links && l.tgtStep == id
    ensures ParentsWithin(sc, memo, ls, depth) != Halted
    decreases depth, 0, |ls|
  {
    if ls != [] {
      var n := |ls| - 1;
      assert ls[n] in ls && ls[n] in sc.links;
      if ls[n].srcStep != "" { RankFalls(sc, rank, ls[n]); }
      hide Acyclic, BuildWithin, ParentsWithin;
      AcyclicTyped(sc, rank, memo, id, ls[..n], depth);
      var before := ParentsWithin(sc, memo, ls[..n], depth);
      if before.Typed? && ls[n].srcStep != "" {
        AcyclicReturns(sc, rank, before.memo, ls[n].srcStep, depth - 1);
      }
      OneMoreTyped(sc, memo, ls, depth);
    }
  }

  lemma {:induction false} OneMoreTyped(sc: Schema, memo: Memo, ls: seq<Link>, depth: nat)
    requires depth > 0 && ls != []
    requires var before, l := ParentsWithin(sc, memo, ls[..|ls| - 1], depth), ls[|ls| - 1];
      before != Halted && (before.Typed? && l.srcStep != "" ==> BuildWithin(sc, before.memo, l.srcStep, depth - 1) != Unfinished)
    ensures ParentsWithin(sc, memo, ls, depth) != Halted
  {
    hide BuildWithin, OwnTypes, OutputType;
  }
}
