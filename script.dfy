/**
 * The scripted-step engine: a cursor over a fixed list of steps and the answers
 * collected so far. `Assign` parses one raw reply against the current step's
 * type, runs its validators in order, and either stores the value and moves on
 * by one step or leaves everything as it was and says why.
 *
 * The class `Script` is the object the agents hold; its `Assign` is proved
 * against `AssignStep`, a function on the engine's state, and the engine's
 * properties are proved about that function.
 */
module ScriptEngine {
  import opened Wrappers
  import opened Text
  import opened Numbers
  import opened Values
  import opened Validators
  import opened Steps

  /** What `assign` and `next_prompt` answer once every step is done. */
  const AllDone := "\U{1F389} All steps completed. Free chat may begin."

  /** Prefix of every failure message. */
  const Cross := "\U{274C} "

  /** The words that parse as `True` for a boolean step, after lower-casing. */
  const Affirmatives := ["yes", "true", "1", "oui"]

  // ---------------------------------------------------------------------------
  // Parsing a raw reply

  /** `_parse(raw, expected_type)`: the parsed value, or `None` where the conversion raises. */
  function Parse(raw: string, ty: ValueType): (r: Option<Value>)
    ensures r.Some? ==> TypeOf(r.value) == ty
    ensures r.None? ==> ty == Int || ty == Float
  {
    match ty
    case Bool => Some(BoolV(Lower(raw) in Affirmatives))
    case Int => (match ParseInt(raw) case Some(i) => Some(IntV(i)) case None => None)
    case Float => (match ParseDecimal(raw) case Some(d) => Some(FloatV(d)) case None => None)
    case Str => Some(StrV(raw))
  }

  /** Boolean replies never fail: the affirmative words in any letter case give `True`, anything else `False`. */
  lemma ParseBool(raw: string)
    ensures Parse(raw, Bool) == Some(BoolV(Lower(raw) in Affirmatives))
    ensures Parse("YES", Bool) == Some(BoolV(true)) && Parse("Oui", Bool) == Some(BoolV(true))
    ensures Parse("yse", Bool) == Some(BoolV(false)) && Parse("", Bool) == Some(BoolV(false))
  {
    assert Lower("YES") == "yes";
    assert Lower("Oui") == "oui";
    assert Lower("yse") == "yse";
  }

  /** A text reply is kept exactly as typed, the empty reply included. */
  lemma ParseStr(raw: string)
    ensures Parse(raw, Str) == Some(StrV(raw))
    ensures Parse("", Str) == Some(StrV(""))
  {
  }

  /** Whatever `str()` prints for a value reads back as that same value, for every type. */
  lemma ParseShow(v: Value)
    ensures Parse(Show(v), TypeOf(v)) == Some(v)
  {
    match v
    case BoolV(b) => ParseShowBool(b);
    case IntV(i) => ParseIntOfIntToString(i);
    case FloatV(d) => ParseDecimalOfShowDecimal(d);
    case StrV(s) =>
  }

  lemma ParseShowBool(b: bool)
    ensures Parse(if b then "True" else "False", Bool) == Some(BoolV(b))
  {
    if b {
      assert Lower("True") == "true";
    } else {
      assert Lower("False") == "false";
      assert "false" !in Affirmatives;
    }
  }

  // ---------------------------------------------------------------------------
  // Running a step's validators

  /** What the `for` loop over the validators ends in. */
  datatype Check = AllPassed | FailedWith(message: string) | RaisedBy(error: string)

  predicate Passes(v: Validator, value: Value) {
    Validate(v, value).Checked? && Validate(v, value).ok
  }

  /** The validators in list order: the first that fails or raises decides, later ones are not consulted. */
  function FirstFailure(vs: seq<Validator>, value: Value): Check {
    if vs == [] then AllPassed
    else match Validate(vs[0], value)
      case TypeError(e) => RaisedBy(e)
      case Checked(ok, msg) => if ok then FirstFailure(vs[1..], value) else FailedWith(msg)
  }

  /** Validator `k` is the first one that does not pass. */
  ghost predicate FirstNotPassing(vs: seq<Validator>, value: Value, k: int) {
    0 <= k < |vs| && !Passes(vs[k], value) && forall j :: 0 <= j < k ==> Passes(vs[j], value)
  }

  /** All validators pass exactly when no validator fails. */
  lemma {:induction false} FirstFailurePassed(vs: seq<Validator>, value: Value)
    ensures FirstFailure(vs, value) == AllPassed <==> forall k :: 0 <= k < |vs| ==> Passes(vs[k], value)
  {
    if vs != [] {
      FirstFailurePassed(vs[1..], value);
      if Passes(vs[0], value) {
        forall k | 0 <= k < |vs| && (forall j :: 0 <= j < |vs| - 1 ==> Passes(vs[1..][j], value))
          ensures Passes(vs[k], value)
        {
          if k > 0 { assert vs[k] == vs[1..][k - 1]; }
        }
      }
    }
  }

  /** When the validators do not all pass, the answer is that of the first validator that does not. */
  lemma {:induction false} FirstFailureDecides(vs: seq<Validator>, value: Value)
    requires FirstFailure(vs, value) != AllPassed
    ensures exists k :: (FirstNotPassing(vs, value, k) &&
      FirstFailure(vs, value) == match Validate(vs[k], value)
        case TypeError(e) => RaisedBy(e)
        case Checked(_, msg) => FailedWith(msg))
  {
    if Passes(vs[0], value) {
      FirstFailureDecides(vs[1..], value);
      var k :| FirstNotPassing(vs[1..], value, k) &&
        FirstFailure(vs[1..], value) == match Validate(vs[1..][k], value)
          case TypeError(e) => RaisedBy(e)
          case Checked(_, msg) => FailedWith(msg);
      assert vs[k + 1] == vs[1..][k];
      forall j | 0 <= j < k + 1 ensures Passes(vs[j], value) {
        if j > 0 { assert vs[j] == vs[1..][j - 1]; }
      }
      assert FirstNotPassing(vs, value, k + 1);
    } else {
      assert FirstNotPassing(vs, value, 0);
    }
  }

  // ---------------------------------------------------------------------------
  // The engine's state and one `assign`

  /** The cursor and the collected answers. */
  datatype State = State(index: nat, values: map<string, Value>)

  /** A fresh script: at the first step, nothing collected. */
  const Fresh := State(0, map[])

  /** What `assign` gives back: the status string, or the exception it lets through. */
  datatype Reply = Answer(text: string) | Raised(error: string)

  datatype Transition = Transition(reply: Reply, next: State)

  /** `current_step()` */
  function CurrentStepAt(steps: seq<Step>, st: State): (r: Option<Step>)
    ensures r.None? <==> st.index >= |steps|
    ensures r.Some? ==> r.value == steps[st.index]
  {
    if st.index < |steps| then Some(steps[st.index]) else None
  }

  /** `next_prompt()` */
  function PromptAt(steps: seq<Step>, st: State): (r: string)
    ensures st.index < |steps| ==> r == steps[st.index].prompt
    ensures st.index >= |steps| ==> r == AllDone
  {
    match CurrentStepAt(steps, st)
    case Some(step) => step.prompt
    case None => AllDone
  }

  function ExpectedMessage(ty: ValueType): string {
    Cross + "Expected a " + TypeName(ty) + "."
  }

  function AddedMessage(variable: string, v: Value): string {
    "Added: " + variable + " = " + Show(v)
  }

  /** `next` holds an answer for the current step's variable, every other answer kept, and the cursor on the next step. */
  predicate StoredAndAdvanced(steps: seq<Step>, st: State, next: State) {
    st.index < |steps| && next.index == st.index + 1 &&
    steps[st.index].variable in next.values &&
    next.values == st.values[steps[st.index].variable := next.values[steps[st.index].variable]]
  }

  /**
   * `assign(user_input)` as a function of the state before it: either nothing
   * changes, or the current step's variable is written and the cursor moves to
   * the next step, with every other answer kept.
   */
  function AssignStep(steps: seq<Step>, st: State, raw: string): (t: Transition)
    ensures t.next == st || StoredAndAdvanced(steps, st, t.next)
  {
    match CurrentStepAt(steps, st)
    case None => Transition(Answer(AllDone), st)
    case Some(step) =>
      match Parse(raw, step.ty)
      case None => Transition(Answer(ExpectedMessage(step.ty)), st)
      case Some(v) =>
        match FirstFailure(step.validators, v)
        case RaisedBy(e) => Transition(Raised(e), st)
        case FailedWith(msg) => Transition(Answer(Cross + msg), st)
        case AllPassed =>
          Transition(Answer(AddedMessage(step.variable, v)), State(st.index + 1, st.values[step.variable := v]))
  }

  /** The reply confirms a stored answer. */
  predicate IsConfirmation(r: Reply) {
    r.Answer? && StartsWith(r.text, "Added: ")
  }

  /** A completed script answers the sentinel and changes nothing. */
  lemma AssignWhenComplete(steps: seq<Step>, st: State, raw: string)
    requires st.index >= |steps|
    ensures AssignStep(steps, st, raw) == Transition(Answer(AllDone), st)
  {
  }

  /** A reply that does not parse names the expected type and changes nothing. */
  lemma AssignParseFailure(steps: seq<Step>, st: State, raw: string)
    requires st.index < |steps| && Parse(raw, steps[st.index].ty).None?
    ensures AssignStep(steps, st, raw) == Transition(Answer(ExpectedMessage(steps[st.index].ty)), st)
    ensures steps[st.index].ty == Int || steps[st.index].ty == Float
  {
  }

  /** A parsed reply refused by a validator gets a cross and the validator's message. */
  lemma AssignRefused(steps: seq<Step>, st: State, raw: string, v: Value, msg: string)
    requires st.index < |steps| && Parse(raw, steps[st.index].ty) == Some(v)
    requires FirstFailure(steps[st.index].validators, v) == FailedWith(msg)
    ensures AssignStep(steps, st, raw) == Transition(Answer(Cross + msg), st)
  {
  }

  /** A parsed reply that a validator rejects gets that validator's message, and changes nothing. */
  lemma AssignRejected(steps: seq<Step>, st: State, raw: string)
    requires st.index < |steps| && Parse(raw, steps[st.index].ty).Some?
    requires !forall k :: 0 <= k < |steps[st.index].validators| ==>
               Passes(steps[st.index].validators[k], Parse(raw, steps[st.index].ty).value)
    ensures AssignStep(steps, st, raw).next == st
    ensures exists k :: (FirstNotPassing(steps[st.index].validators, Parse(raw, steps[st.index].ty).value, k) &&
      AssignStep(steps, st, raw).reply ==
        match Validate(steps[st.index].validators[k], Parse(raw, steps[st.index].ty).value)
        case TypeError(e) => Raised(e)
        case Checked(_, msg) => Answer(Cross + msg))
  {
    var step := steps[st.index];
    var v := Parse(raw, step.ty).value;
    FirstFailurePassed(step.validators, v);
    FirstFailureDecides(step.validators, v);
  }

  /** A reply that parses and passes every validator is stored under the step's name, and the cursor moves on by one. */
  lemma AssignAccepted(steps: seq<Step>, st: State, raw: string)
    requires st.index < |steps| && Parse(raw, steps[st.index].ty).Some?
    requires forall k :: 0 <= k < |steps[st.index].validators| ==>
               Passes(steps[st.index].validators[k], Parse(raw, steps[st.index].ty).value)
    ensures AssignStep(steps, st, raw) ==
      var v := Parse(raw, steps[st.index].ty).value;
      Transition(Answer(AddedMessage(steps[st.index].variable, v)),
                 State(st.index + 1, st.values[steps[st.index].variable := v]))
  {
    FirstFailurePassed(steps[st.index].validators, Parse(raw, steps[st.index].ty).value);
  }

  /**
   * The cursor never moves back and never passes the end; it moves, by exactly
   * one, iff the reply is a confirmation, and otherwise nothing changes.
   */
  lemma AssignProgress(steps: seq<Step>, st: State, raw: string)
    requires st.index <= |steps|
    ensures var t := AssignStep(steps, st, raw);
      st.index <= t.next.index <= |steps| &&
      (t.next.index == st.index + 1 <==> IsConfirmation(t.reply)) &&
      (!IsConfirmation(t.reply) ==> t.next == st)
  {
    if st.index < |steps| {
      var step := steps[st.index];
      match Parse(raw, step.ty)
      case None => CrossNotConfirmation("Expected a " + TypeName(step.ty) + ".");
      case Some(v) =>
        match FirstFailure(step.validators, v)
        case RaisedBy(_) =>
        case FailedWith(msg) => CrossNotConfirmation(msg);
        case AllPassed => AddedIsConfirmation(step.variable, v);
    } else {
      assert AllDone[0] == '\U{1F389}';
    }
  }

  lemma AddedIsConfirmation(variable: string, v: Value)
    ensures IsConfirmation(Answer(AddedMessage(variable, v)))
  {
    assert AddedMessage(variable, v)[..7] == "Added: ";
  }

  lemma CrossNotConfirmation(msg: string)
    ensures !IsConfirmation(Answer(Cross + msg))
  {
    assert (Cross + msg)[0] == '\U{274C}';
  }

  /** The cursor moves on iff there is a current step and the reply parses to a value that step accepts. */
  lemma AssignAdvances(steps: seq<Step>, st: State, raw: string)
    ensures AssignStep(steps, st, raw).next.index == st.index + 1 <==>
      (st.index < |steps| && Parse(raw, steps[st.index].ty).Some? &&
       Acceptable(steps[st.index], Parse(raw, steps[st.index].ty).value))
  {
    if st.index < |steps| && Parse(raw, steps[st.index].ty).Some? {
      FirstFailurePassed(steps[st.index].validators, Parse(raw, steps[st.index].ty).value);
    }
  }

  /** A text step without validators accepts the empty reply. */
  lemma AssignEmptyText(steps: seq<Step>, st: State)
    requires st.index < |steps| && steps[st.index].ty == Str && steps[st.index].validators == []
    ensures AssignStep(steps, st, "") ==
      Transition(Answer("Added: " + steps[st.index].variable + " = "),
                 State(st.index + 1, st.values[steps[st.index].variable := StrV("")]))
  {
    assert Show(StrV("")) == "";
    assert AddedMessage(steps[st.index].variable, StrV("")) == "Added: " + steps[st.index].variable + " = ";
  }

  // ---------------------------------------------------------------------------
  // What the collected answers satisfy

  /** Each step stores under its own name (the scripts are written that way). */
  ghost predicate DistinctVariables(steps: seq<Step>) {
    forall i, j :: 0 <= i < j < |steps| ==> steps[i].variable != steps[j].variable
  }

  /** The value has the step's type and passes all of its validators. */
  ghost predicate Acceptable(step: Step, v: Value) {
    TypeOf(v) == step.ty && forall k :: 0 <= k < |step.validators| ==> Passes(step.validators[k], v)
  }

  /**
   * Exactly the steps before the cursor have an answer, and each answer is
   * one its step accepts.
   */
  ghost predicate Collected(steps: seq<Step>, st: State) {
    st.index <= |steps| &&
    st.values.Keys == (set k | 0 <= k < st.index :: steps[k].variable) &&
    forall k :: 0 <= k < st.index ==> Acceptable(steps[k], st.values[steps[k].variable])
  }

  lemma FreshCollected(steps: seq<Step>)
    ensures Collected(steps, Fresh)
  {
  }

  /** `assign` keeps the collected answers consistent with the steps. */
  lemma AssignKeepsCollected(steps: seq<Step>, st: State, raw: string)
    requires DistinctVariables(steps) && Collected(steps, st)
    ensures Collected(steps, AssignStep(steps, st, raw).next)
  {
    var t := AssignStep(steps, st, raw);
    if t.next != st {
      var step := steps[st.index];
      var v := Parse(raw, step.ty).value;
      FirstFailurePassed(step.validators, v);
      assert t.next == State(st.index + 1, st.values[step.variable := v]);
      StoreKeepsCollected(steps, st, v);
    }
  }

  /** Storing an acceptable answer for the current step keeps the answers collected. */
  lemma StoreKeepsCollected(steps: seq<Step>, st: State, v: Value)
    requires DistinctVariables(steps) && Collected(steps, st) && st.index < |steps|
    requires Acceptable(steps[st.index], v)
    ensures Collected(steps, State(st.index + 1, st.values[steps[st.index].variable := v]))
  {
    var step := steps[st.index];
    var values := st.values[step.variable := v];
    assert values.Keys == (set k | 0 <= k < st.index + 1 :: steps[k].variable) by {
      assert (set k | 0 <= k < st.index + 1 :: steps[k].variable) ==
             (set k | 0 <= k < st.index :: steps[k].variable) + {step.variable};
    }
    forall k | 0 <= k < st.index + 1 ensures Acceptable(steps[k], values[steps[k].variable]) {
      if k < st.index {
        assert steps[k].variable != step.variable;
      }
    }
  }

  // ---------------------------------------------------------------------------
  // A sequence of replies

  /** The state after answering `raws` one after the other. */
  function Run(steps: seq<Step>, st: State, raws: seq<string>): (r: State)
    ensures st.index <= r.index
    ensures st.index <= |steps| ==> r.index <= |steps|
    ensures st.values.Keys <= r.values.Keys
    decreases |raws|
  {
    if raws == [] then st else Run(steps, AssignStep(steps, st, raws[0]).next, raws[1..])
  }

  /** How many of those replies were stored. */
  function Confirmations(steps: seq<Step>, st: State, raws: seq<string>): nat
    decreases |raws|
  {
    if raws == [] then 0
    else
      var t := AssignStep(steps, st, raws[0]);
      (if IsConfirmation(t.reply) then 1 else 0) + Confirmations(steps, t.next, raws[1..])
  }

  /**
   * Over any sequence of replies the cursor only moves forward, by one per
   * confirmation, and stays within the steps.
   */
  lemma {:induction false} RunProgress(steps: seq<Step>, st: State, raws: seq<string>)
    requires st.index <= |steps|
    ensures Run(steps, st, raws).index == st.index + Confirmations(steps, st, raws) <= |steps|
    decreases |raws|
  {
    if raws != [] {
      AssignProgress(steps, st, raws[0]);
      RunProgress(steps, AssignStep(steps, st, raws[0]).next, raws[1..]);
    }
  }

  /** After as many confirmations as there are steps, a fresh script is complete. */
  lemma RunCompletes(steps: seq<Step>, raws: seq<string>)
    requires Confirmations(steps, Fresh, raws) == |steps|
    ensures CurrentStepAt(steps, Run(steps, Fresh, raws)).None?
    ensures PromptAt(steps, Run(steps, Fresh, raws)) == AllDone
  {
    RunProgress(steps, Fresh, raws);
  }

  lemma {:induction false} RunKeepsCollected(steps: seq<Step>, st: State, raws: seq<string>)
    requires DistinctVariables(steps) && Collected(steps, st)
    ensures Collected(steps, Run(steps, st, raws))
    decreases |raws|
  {
    if raws != [] {
      AssignKeepsCollected(steps, st, raws[0]);
      RunKeepsCollected(steps, AssignStep(steps, st, raws[0]).next, raws[1..]);
    }
  }

  // ---------------------------------------------------------------------------
  // The object

  class Script {
    const steps: seq<Step>
    var index: nat
    var values: map<string, Value>

    /** The cursor is within the steps; with distinct names, the answers are the accepted ones. */
    ghost predicate Valid()
      reads this
    {
      index <= |steps| && (DistinctVariables(steps) ==> Collected(steps, Snapshot()))
    }

    function Snapshot(): State
      reads this
    {
      State(index, values)
    }

    /** `Script(steps)` */
    constructor (steps: seq<Step>)
      ensures this.steps == steps && Snapshot() == Fresh && Valid()
    {
      this.steps := steps;
      index := 0;
      values := map[];
    }

    /** `current_step()`: the step at the cursor, or `None` once complete. */
    function CurrentStep(): (r: Option<Step>)
      reads this
      ensures r.None? <==> index >= |steps|
      ensures r.Some? ==> r.value == steps[index]
    {
      CurrentStepAt(steps, Snapshot())
    }

    /** `next_prompt()`: a read, so two calls in a row give the same answer. */
    function NextPrompt(): (r: string)
      reads this
      ensures index < |steps| ==> r == steps[index].prompt
      ensures index >= |steps| ==> r == AllDone
    {
      PromptAt(steps, Snapshot())
    }

    /** `assign(user_input)` */
    method Assign(raw: string) returns (reply: Reply)
      requires Valid()
      modifies this
      ensures Valid()
      ensures Transition(reply, Snapshot()) == AssignStep(steps, old(Snapshot()), raw)
    {
      ghost var before := Snapshot();
      var current := CurrentStep();
      if current.None? {
        assert AssignStep(steps, before, raw) == Transition(Answer(AllDone), before);
        return Answer(AllDone);
      }
      var step := current.value;
      var parsed := Parse(raw, step.ty);
      if parsed.None? {
        assert AssignStep(steps, before, raw) == Transition(Answer(ExpectedMessage(step.ty)), before);
        return Answer(ExpectedMessage(step.ty));
      }
      var value := parsed.value;
      var i := 0;
      while i < |step.validators|
        invariant 0 <= i <= |step.validators|
        invariant FirstFailure(step.validators, value) == FirstFailure(step.validators[i..], value)
      {
        var outcome := Validate(step.validators[i], value);
        assert step.validators[i..][1..] == step.validators[i + 1..];
        if outcome.TypeError? {
          return Raised(outcome.message);
        }
        if !outcome.ok {
          return Answer(Cross + outcome.message);
        }
        i := i + 1;
      }
      assert AssignStep(steps, before, raw).next == State(index + 1, values[step.variable := value]);
      if DistinctVariables(steps) {
        AssignKeepsCollected(steps, before, raw);
      }
      values := values[step.variable := value];
      index := index + 1;
      return Answer(AddedMessage(step.variable, value));
    }
  }
}
