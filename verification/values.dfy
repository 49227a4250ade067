/** Cell values of the table engine and the Python semantics the engine
    relies on: `isinstance` against a column type, `==` between values and
    truthiness. */
module PyValues {

  /** The column types a table schema may declare. */
  datatype ColType = IntType | FloatType | StrType | BoolType

  /** A cell: one of the four scalar kinds, or `None` (which only `update`
      lets into a table). A float is carried as its exact real value; the
      engine never computes with it, only stores and compares it. */
  datatype Value = Int(i: int) | Float(f: real) | Str(s: string) | Bool(b: bool) | Null

  /** `isinstance(v, t)`. `bool` is a subclass of `int` in Python, so a
      boolean passes an integer column's check; `None` passes none. */
  predicate IsInstance(v: Value, t: ColType)
  {
    match v
    case Int(_) => t == IntType
    case Bool(_) => t == IntType || t == BoolType
    case Float(_) => t == FloatType
    case Str(_) => t == StrType
    case Null => false
  }

  /** What Python's `==` (and dict/tuple key equality) sees of a value:
      numbers compare by numeric value across `int`, `bool` and `float`,
      strings by content, and `None` only equals `None`. */
  datatype Canonical = Number(n: real) | Text(t: string) | NoneValue

  function Canon(v: Value): Canonical
  {
    match v
    case Int(i) => Number(i as real)
    case Bool(b) => Number(if b then 1.0 else 0.0)
    case Float(f) => Number(f)
    case Str(s) => Text(s)
    case Null => NoneValue
  }

  /** Python `a == b` on two cell values. */
  predicate PyEq(a: Value, b: Value)
  {
    Canon(a) == Canon(b)
  }

  /** `bool(v)`: zero, the empty string and `None` are false. */
  predicate Truthy(v: Value)
  {
    match v
    case Int(i) => i != 0
    case Bool(b) => b
    case Float(f) => f != 0.0
    case Str(s) => |s| > 0
    case Null => false
  }

  /** `True == 1` and `1 == 1.0` hold in Python although the values differ
      in kind; a string never equals a number and `None` equals only itself. */
  lemma PyEqAcrossKinds()
    ensures PyEq(Bool(true), Int(1)) && Bool(true) != Int(1)
    ensures PyEq(Int(1), Float(1.0)) && PyEq(Bool(false), Float(0.0))
    ensures !PyEq(Str("1"), Int(1)) && !PyEq(Null, Int(0)) && PyEq(Null, Null)
  {
  }

  /** The integer kinds of a value under `isinstance(v, int)`. */
  predicate IsIntLike(v: Value)
  {
    v.Int? || v.Bool?
  }

  /** The integer a value stands for in Python arithmetic (`True` is 1). */
  function AsInt(v: Value): int
    requires IsIntLike(v)
  {
    match v
    case Int(i) => i
    case Bool(b) => if b then 1 else 0
  }

  /** An integer-column cell's value agrees with Python `==` on numbers. */
  lemma AsIntCanon(v: Value)
    requires IsIntLike(v)
    ensures Canon(v) == Number(AsInt(v) as real)
  {
  }

  /** `IsInstance` for an integer column is exactly the integer kinds. */
  lemma IntColumnAcceptsBool(v: Value)
    ensures IsInstance(v, IntType) <==> IsIntLike(v)
  {
  }
}
