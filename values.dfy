/**
 * The values a scripted step can collect, with the parts of Python's object
 * model the engine touches: `str(v)`, `==` and `<` between numbers and strings.
 */
module Values {
  import opened Wrappers
  import opened Numbers

  /** The four answer types a step can declare: Python's `bool`, `int`, `float` and `str`. */
  datatype ValueType = Bool | Int | Float | Str

  /** A float, as the unique decimal form of its value. */
  type Float = d: Decimal | Normalized(d) witness Decimal(0, 0)

  datatype Value = BoolV(b: bool) | IntV(i: int) | FloatV(d: Float) | StrV(s: string)

  function TypeOf(v: Value): ValueType {
    match v
    case BoolV(_) => Bool
    case IntV(_) => Int
    case FloatV(_) => Float
    case StrV(_) => Str
  }

  /** `type_.__name__` */
  function TypeName(t: ValueType): string {
    match t
    case Bool => "bool"
    case Int => "int"
    case Float => "float"
    case Str => "str"
  }

  /** `bool` is a subclass of `int` in Python, so all three number types compare with each other. */
  predicate IsNumber(v: Value) {
    !v.StrV?
  }

  function NumberValue(v: Value): real
    requires IsNumber(v)
  {
    match v
    case BoolV(b) => if b then 1.0 else 0.0
    case IntV(i) => i as real
    case FloatV(d) => ToReal(d)
  }

  /** `str(v)`, which is also what an f-string inserts. */
  function Show(v: Value): (r: string)
    ensures v.IntV? ==> ParseInt(r) == Some(v.i)
    ensures v.FloatV? ==> ParseDecimal(r) == Some(v.d)
  {
    match v
    case BoolV(b) => if b then "True" else "False"
    case IntV(i) => ParseIntOfIntToString(i); IntToString(i)
    case FloatV(d) => ParseDecimalOfShowDecimal(d); ShowDecimal(d)
    case StrV(s) => s
  }

  /** `a == b`: numbers by value, strings by content, a string never equals a number. */
  predicate PyEq(a: Value, b: Value) {
    if IsNumber(a) && IsNumber(b) then NumberValue(a) == NumberValue(b)
    else a.StrV? && b.StrV? && a.s == b.s
  }

  /** Between two values of one type, Python's `==` is equality of the values. */
  lemma SameTypeEq(a: Value, b: Value)
    requires TypeOf(a) == TypeOf(b)
    ensures PyEq(a, b) <==> a == b
  {
    if a.FloatV? && ToReal(a.d) == ToReal(b.d) {
      NormalizedUnique(a.d, b.d);
    }
  }

  /** Python's ordering of `str`: lexicographic by code point. */
  predicate StrLess(a: string, b: string) {
    if a == [] then b != []
    else if b == [] then false
    else if a[0] != b[0] then a[0] < b[0]
    else StrLess(a[1..], b[1..])
  }

  /** `a < b`, or `None` where Python raises `TypeError` (a string against a number). */
  function Less(a: Value, b: Value): (r: Option<bool>)
    ensures r.None? <==> IsNumber(a) != IsNumber(b)
    ensures r.Some? && IsNumber(a) ==> r.value == (NumberValue(a) < NumberValue(b))
  {
    if IsNumber(a) && IsNumber(b) then Some(NumberValue(a) < NumberValue(b))
    else if a.StrV? && b.StrV? then Some(StrLess(a.s, b.s))
    else None
  }

  /** The message of the `TypeError` that `a op b` raises between a string and a number. */
  function UnorderableMessage(op: string, a: Value, b: Value): string {
    "'" + op + "' not supported between instances of '" + TypeName(TypeOf(a)) + "' and '" +
    TypeName(TypeOf(b)) + "'"
  }
}
