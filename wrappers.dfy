/** Optional values and the two failures the resolution engine can raise. */
module Wrappers {

  datatype Option<+T> = None | Some(value: T)

  /** The exceptions that escape the core: an I/O error while rewriting the
      mapping file, the attribute error raised when a name that is not a
      string reaches a string method, and a failed write to the remote store. */
  datatype Failure = SaveFailed | NameNotAString | WriteFailed

  datatype Result<+T> = Ok(value: T) | Err(error: Failure)

  datatype Outcome = Pass | Fail(error: Failure)
}

/** The dynamically typed values the core receives from the tabular source and
    from the remote store, with Python's truthiness and `str()`. */
module Values {

  /** `Object` stands for any other Python object (a list, a nested dict, a
      Decimal): the core only ever asks such a value for its truthiness and its
      `str()`. Floats are not modelled; numbers are integers. */
  datatype Value =
    | Null
    | Bool(b: bool)
    | Int(i: int)
    | Str(s: string)
    | Object(repr: string, truthy: bool)

  /** Python's `bool(v)`. */
  predicate Truthy(v: Value)
  {
    match v
    case Null => false
    case Bool(b) => b
    case Int(i) => i != 0
    case Str(s) => s != ""
    case Object(_, t) => t
  }

  /** Decimal digits of a natural number, most significant first. */
  function Digits(n: nat): (r: string)
    ensures r != [] && forall i :: 0 <= i < |r| ==> '0' <= r[i] <= '9'
  {
    var d := ['0' + (n % 10) as char];
    if n < 10 then d else Digits(n / 10) + d
  }

  /** Python's `str(v)`. */
  function StrOf(v: Value): string
  {
    match v
    case Null => "None"
    case Bool(b) => if b then "True" else "False"
    case Int(i) => if i < 0 then "-" + Digits(-i) else Digits(i)
    case Str(s) => s
    case Object(r, _) => r
  }
}
