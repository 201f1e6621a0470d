/** Values, and what executing one compiled step delivers. */
module LotusSteps {
  import opened Basics

  datatype Value =
    | Nil
    | Bool(b: bool)
    | Num(n: real)
    | Str(s: string)
    | Arr(items: seq<Value>)
    | Obj(fields: map<string, Value>)

  datatype StepKind = Transformer | Validator | Condition

  /** An action is known only by its result: a value, or None for an error. */
  datatype Step = Step(kind: StepKind, invert: bool, action: seq<Value> -> Option<Value>)

  datatype StepOutput = StepOutput(output: Value, broke: bool, failed: bool)

  datatype Executed = Done(out: StepOutput) | Error

  /** Conversion of an action result to bool: nil reads as false, other types are an error. */
  function Truth(v: Value): Option<bool> {
    match v
    case Nil => Some(false)
    case Bool(b) => Some(b)
    case _ => None
  }

  function Execute(step: Step, inputs: seq<Value>): Executed {
    if inputs == [] then Done(StepOutput(Nil, false, false))
    else
      match step.action(inputs)
      case None => Error
      case Some(result) =>
        if step.kind.Transformer? then Done(StepOutput(result, false, false))
        else
          match Truth(result)
          case None => Error
          case Some(b) =>
            if b != step.invert then Done(StepOutput(inputs[0], false, false))
            else if step.kind.Validator? then
              // the error goes into the output; the returned error is the nil one of the conversion
              Done(StepOutput(Nil, false, true))
            else Done(StepOutput(Nil, true, false))
  }

  /** What downstream links read from an executed step. */
  function Delivered(out: StepOutput): seq<Value> {
    if !out.broke && out.output != Nil then [out.output] else []
  }

  /** The action of a step answers b on these inputs: a bool, or null for false. */
  ghost predicate Says(step: Step, inputs: seq<Value>, b: bool) {
    step.action(inputs) == Some(Bool(b)) || (!b && step.action(inputs) == Some(Nil))
  }

  /** What an executed step hands on: a transformer what its action makes, unless null; a condition or validator its first
      input when the action says so or, inverted, when it denies it. An action that fails, or answers a
      condition or validator with anything but a bool, is an error. */
  lemma HandsOn(step: Step, inputs: seq<Value>)
    requires inputs != []
    ensures Execute(step, inputs).Error? <==>
      step.action(inputs) == None || (step.kind != Transformer && !Says(step, inputs, true) && !Says(step, inputs, false))
    ensures forall out | Execute(step, inputs) == Done(out) ::
      && (step.kind == Transformer ==> forall v :: v in Delivered(out) <==> v != Nil && step.action(inputs) == Some(v))
      && (step.kind != Transformer ==> forall v :: v in Delivered(out) <==> v != Nil && v == inputs[0] && Says(step, inputs, !step.invert))
      && |Delivered(out)| <= 1
  {
  }

  /** Without inputs a step hands on nothing. */
  lemma HandsOnNothing(step: Step)
    ensures Execute(step, []).Done? && Delivered(Execute(step, []).out) == []
  {
  }

  /** A failing validator never stops the mapping: on inputs where a condition with the same action
      would break the chain, it too returns without an error and delivers nothing. */
  lemma FailingValidatorActsAsCondition(step: Step, inputs: seq<Value>)
    requires step.kind.Validator? && inputs != []
    ensures var asCondition := step.(kind := Condition);
      && (Execute(step, inputs).Error? <==> Execute(asCondition, inputs).Error?)
      && (Execute(step, inputs).Done? ==>
            Delivered(Execute(step, inputs).out) == Delivered(Execute(asCondition, inputs).out))
  {
    match step.action(inputs)
    case None =>
    case Some(r) => match Truth(r) case None => case Some(_) =>
  }
}
