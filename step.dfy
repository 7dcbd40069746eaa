/** One scripted question: what to ask, where to store the answer, its type and its checks. */
module Steps {
  import opened Wrappers
  import opened Values
  import opened Validators

  /** `Step.var` is `variable` here, since `var` is a Dafny keyword. */
  datatype Step = Step(prompt: string, variable: string, ty: ValueType, validators: seq<Validator>)

  /**
   * `Step(prompt, var, type_, validators=None)`: the first three are stored as
   * given; a missing or empty validator list becomes the empty list (`validators or []`).
   */
  function NewStep(prompt: string, variable: string, ty: ValueType,
                   validators: Option<seq<Validator>> := None): (s: Step)
    ensures s.prompt == prompt && s.variable == variable && s.ty == ty
    ensures validators.None? ==> s.validators == []
    ensures validators.Some? ==> s.validators == validators.value
  {
    Step(prompt, variable, ty, validators.GetOr([]))
  }
}
