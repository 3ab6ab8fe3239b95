/**
 The JavaScript values that reach the validation helpers of src/util.ts, and
 those helpers as predicates over them.
 */
module JsValue {

  /** A JavaScript number. Finite numbers are exact reals: IEEE rounding is not modelled. */
  datatype Number = Finite(r: real) | NaN | Infinity(negative: bool)

  /** A JavaScript value; objects are their own enumerable properties. */
  datatype Value =
    | Undefined
    | Null
    | Bool(b: bool)
    | Num(n: Number)
    | Str(s: string)
    | Arr(elems: seq<Value>)
    | Obj(props: map<string, Value>)

  /** The number primitive holding integer `i`. */
  function Int(i: int): Value {
    Num(Finite(i as real))
  }

  /** The constructor a value's prototype chain reports (`x.constructor`). */
  datatype Constructor = NumberCtor | StringCtor | BooleanCtor | ArrayCtor | ObjectCtor

  /** `x === n` for a number primitive `n`: only numbers can be equal to it, and NaN equals nothing. */
  predicate StrictEqualsNumber(x: Value, n: Number) {
    x.Num? && !x.n.NaN? && !n.NaN? && x.n == n
  }

  /** `x?.length`: undefined for null and undefined, else the `length` property. */
  function OptionalLength(x: Value): Value {
    match x
    case Undefined => Undefined
    case Null => Undefined
    case Str(s) => Int(|s|)
    case Arr(a) => Int(|a|)
    case Obj(p) => if "length" in p then p["length"] else Undefined
    // booleans and numbers have no `length` property
    case _ => Undefined
  }

  /** The constructor of a non-null value's prototype. */
  function ConstructorOf(x: Value): Constructor
    requires !x.Undefined? && !x.Null?
  {
    match x
    case Bool(_) => BooleanCtor
    case Num(_) => NumberCtor
    case Str(_) => StringCtor
    case Arr(_) => ArrayCtor
    case Obj(_) => ObjectCtor
  }

  /** `Number.isInteger(x)`: a finite number with no fractional part. */
  function IsInteger(x: Value): (r: bool)
    ensures r ==> x.Num? && x.n.Finite? && x == Int(x.n.r.Floor)
    ensures forall i: int :: x == Int(i) ==> r
    ensures !x.Num? ==> !r
  {
    x.Num? && x.n.Finite? && x.n.r.Floor as real == x.n.r
  }

  /** The integer an integral number holds. */
  function AsInt(x: Value): (i: int)
    requires IsInteger(x)
    ensures Int(i) == x
  {
    x.n.r.Floor
  }

  /** `x?.length === 0`, the emptiness test of the utility module. */
  function IsEmpty(x: Value): (r: bool)
    ensures x.Str? ==> (r <==> x.s == [])
    ensures x.Arr? ==> (r <==> x.elems == [])
    ensures x.Undefined? || x.Null? || x.Bool? || x.Num? ==> !r
    ensures x.Obj? ==> (r <==> "length" in x.props && x.props["length"] == Int(0))
    ensures r ==> x.Str? || x.Arr? || x.Obj?
  {
    StrictEqualsNumber(OptionalLength(x), Finite(0.0))
  }

  /** Ramda's `is(String)`: not null or undefined, and constructed by `String`. */
  function IsString(x: Value): (r: bool)
    ensures r <==> x.Str?
  {
    !x.Undefined? && !x.Null? && ConstructorOf(x) == StringCtor
  }
}
