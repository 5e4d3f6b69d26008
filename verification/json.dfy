/** The slice of Python's data model the parser touches: decoded JSON values,
    the built-in `int()` applied to them, and truthiness. JSON decoding and
    `int()` on strings are not specified here; they are carried as abstract
    partial functions in a `Runtime`. */
module Json {
  import opened Wrappers

  /** A Python float as `json.loads` can produce it: JSON numbers with a
      fraction or exponent, plus the `Infinity`, `-Infinity` and `NaN`
      literals Python accepts (and numbers too large for a double, which
      become infinite). */
  datatype Float = Finite(r: real) | PosInf | NegInf | NaN

  /** A decoded JSON value. A candidate object holds a single `}` (its last
      character), so it can never contain a nested object. */
  datatype Value =
    | Null
    | Bool(b: bool)
    | Int(n: int)
    | Num(x: Float)
    | Str(s: string)
    | Array(items: seq<Value>)

  /** A decoded JSON object: Python's `dict` from `json.loads`. */
  type Obj = map<string, Value>

  /** The library calls the model does not specify: `json.loads` of a text
      that must decode to an object (None when it raises), `int()` of a
      string (None for `ValueError`), and, for a text `loads` does not decode,
      whether the exception is something other than `JSONDecodeError`: a
      `ValueError` for an integer literal beyond the interpreter's digit
      limit, or a `RecursionError` for deeply nested arrays. */
  datatype Runtime = Runtime(loads: string -> Option<Obj>, intOfStr: string -> Option<int>, escapes: string -> bool)

  /** The outcome of Python's `int(v)`: a value, a `ValueError`/`TypeError`,
      or an `OverflowError` (an infinite float). */
  datatype IntConversion = Converted(n: int) | Rejected | Overflow

  /** Python's `int()` rounds a float toward zero. */
  function Truncate(r: real): (n: int)
    ensures 0.0 <= r ==> 0 <= n && n as real <= r < (n + 1) as real
    ensures r < 0.0 ==> n <= 0 && (n - 1) as real < r <= n as real
  {
    if r >= 0.0 then r.Floor else -((-r).Floor)
  }

  /** Python's built-in `int(v)` on a decoded JSON value. */
  function PyInt(v: Value, intOfStr: string -> Option<int>): (c: IntConversion)
    ensures c.Overflow? <==> v.Num? && (v.x.PosInf? || v.x.NegInf?)
    ensures c.Converted? && !v.Str? ==> v.Int? || v.Bool? || (v.Num? && v.x.Finite?)
    ensures v.Int? ==> c == Converted(v.n)
    ensures v.Bool? ==> c == Converted(if v.b then 1 else 0)
    ensures v.Num? && v.x.Finite? ==> c.Converted?
    ensures v.Num? && v.x.Finite? && 0.0 <= v.x.r ==> 0 <= c.n && c.n as real <= v.x.r < (c.n + 1) as real
    ensures v.Num? && v.x.Finite? && v.x.r < 0.0 ==> c.n <= 0 && (c.n - 1) as real < v.x.r <= c.n as real
    ensures v.Null? || v.Array? || (v.Num? && v.x.NaN?) ==> c.Rejected?
  {
    match v
    case Null => Rejected
    case Bool(b) => Converted(if b then 1 else 0)
    case Int(n) => Converted(n)
    case Num(x) =>
      (match x
       case Finite(r) => Converted(Truncate(r))
       case PosInf => Overflow
       case NegInf => Overflow
       case NaN => Rejected)
    case Str(s) =>
      (match intOfStr(s)
       case Some(n) => Converted(n)
       case None => Rejected)
    case Array(_) => Rejected
  }

  /** Fractions are dropped toward zero: 60.5 and 39.5 become 60 and 39. */
  lemma TruncationExamples(intOfStr: string -> Option<int>)
    ensures PyInt(Num(Finite(60.5)), intOfStr) == Converted(60)
    ensures PyInt(Num(Finite(39.5)), intOfStr) == Converted(39)
    ensures PyInt(Num(Finite(-0.5)), intOfStr) == Converted(0)
    ensures PyInt(Num(Finite(-10.9)), intOfStr) == Converted(-10)
  {
    assert (60.5).Floor == 60;
    assert (39.5).Floor == 39;
    assert (0.5).Floor == 0;
    assert (10.9).Floor == 10;
  }

  /** Python truthiness of a decoded value (`if v:`). */
  predicate Truthy(v: Value)
  {
    match v
    case Null => false
    case Bool(b) => b
    case Int(n) => n != 0
    case Num(x) => !(x.Finite? && x.r == 0.0)
    case Str(s) => |s| > 0
    case Array(items) => |items| > 0
  }

  /** `isinstance(v, int)`: Python's `bool` is a subclass of `int`. */
  predicate IsPyInt(v: Value)
  {
    v.Int? || v.Bool?
  }

  /** The integer an `IsPyInt` value stands for in arithmetic. */
  function IntOf(v: Value): (n: int)
    requires IsPyInt(v)
    ensures PyInt(v, _ => None) == Converted(n)
  {
    if v.Int? then v.n else if v.b then 1 else 0
  }
}
