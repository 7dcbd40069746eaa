/**
 * The calculator tool: an operator name chosen from four, applied to two
 * numbers, with the two exceptions it raises given back as values.
 */
module Calculations {

  /** What `_calculate` raises. */
  datatype Error = ValueError(message: string) | ZeroDivisionError(message: string)

  datatype Result = Ok(value: real) | Raised(error: Error)

  /** The keys of the operations table, in their order. */
  const Operators := ["add", "subtract", "multiply", "divide"]

  /** The text of `list(operations.keys())`. */
  const OperatorList := "['add', 'subtract', 'multiply', 'divide']"

  const ZeroDivisionMessage := "Cannot divide by zero."

  function UnsupportedMessage(operator: string): string {
    "Unsupported operator: '" + operator + "'. Expected one of " + OperatorList + "."
  }

  /** `_raise_zero_division()` */
  function RaiseZeroDivision(): (r: Result)
    ensures r.Raised? && r.error.ZeroDivisionError? && r.error.message == ZeroDivisionMessage
  {
    Raised(ZeroDivisionError(ZeroDivisionMessage))
  }

  /** `_calculate(operator, a, b)`, on exact reals. */
  function Calculate(operator: string, a: real, b: real): (r: Result)
    ensures operator == "add" ==> r == Ok(a + b)
    ensures operator == "subtract" ==> r == Ok(a - b)
    ensures operator == "multiply" ==> r == Ok(a * b)
    ensures operator == "divide" && b != 0.0 ==> r == Ok(a / b)
    ensures r.Raised? && r.error.ValueError? <==> operator !in Operators
    ensures r.Raised? && r.error.ZeroDivisionError? <==> operator == "divide" && b == 0.0
    ensures r.Raised? && r.error.ValueError? ==> r.error.message == UnsupportedMessage(operator)
    ensures r.Raised? && r.error.ZeroDivisionError? ==> r.error.message == ZeroDivisionMessage
  {
    if operator == "add" then Ok(a + b)
    else if operator == "subtract" then Ok(a - b)
    else if operator == "multiply" then Ok(a * b)
    else if operator == "divide" then (if b != 0.0 then Ok(a / b) else RaiseZeroDivision())
    else Raised(ValueError(UnsupportedMessage(operator)))
  }

  /** Subtracting undoes adding, and adding undoes subtracting. */
  lemma AddSubtractInverse(a: real, b: real)
    ensures Calculate("subtract", Calculate("add", a, b).value, b) == Ok(a)
    ensures Calculate("add", Calculate("subtract", a, b).value, b) == Ok(a)
  {
  }

  /** Dividing by a non-zero number undoes multiplying by it, and the other way round. */
  lemma MultiplyDivideInverse(a: real, b: real)
    requires b != 0.0
    ensures Calculate("divide", Calculate("multiply", a, b).value, b) == Ok(a)
    ensures Calculate("multiply", Calculate("divide", a, b).value, b) == Ok(a)
  {
    assert (a * b) / b == a;
    assert (a / b) * b == a;
  }

  /** Addition and multiplication do not depend on the order of their operands. */
  lemma Commutes(a: real, b: real)
    ensures Calculate("add", a, b) == Calculate("add", b, a)
    ensures Calculate("multiply", a, b) == Calculate("multiply", b, a)
  {
  }

  /** The operator names are matched exactly: another letter case is an unsupported operator. */
  lemma OperatorCaseSensitive(a: real, b: real)
    ensures Calculate("Add", a, b) == Raised(ValueError(UnsupportedMessage("Add")))
    ensures Calculate("DIVIDE", a, 0.0) == Raised(ValueError(UnsupportedMessage("DIVIDE")))
    ensures Calculate("", a, b).Raised?
  {
    assert "Add"[0] != "add"[0] && "DIVIDE"[0] != "divide"[0];
  }

  /** The tool's documented examples, 10 / 5 and 5 + 2; dividing anything by zero raises. */
  lemma DivideExamples(a: real)
    ensures Calculate("divide", 10.0, 5.0) == Ok(2.0)
    ensures Calculate("divide", a, 0.0) == Raised(ZeroDivisionError("Cannot divide by zero."))
    ensures Calculate("add", 5.0, 2.0) == Ok(7.0)
  {
  }
}
