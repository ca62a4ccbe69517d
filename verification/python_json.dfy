/** Python's view of a decoded JSON document, and the handful of Python
    operations the enrichment step applies to one: subscripting with a string
    key, truth-testing, the `in` operator with a string needle, and the str()
    conversion an f-string performs. */
module PyJson {

  /** A value as the JSON decoder hands it to Python. */
  datatype Json =
    | Null                            // None
    | Bool(b: bool)
    | Num(n: real)                    // int or float
    | Str(s: string)
    | Arr(items: seq<Json>)           // list
    | Obj(fields: map<string, Json>)  // dict

  /** The exceptions the modelled code can raise. */
  datatype PyError =
    | KeyError(arg: string)
    | TypeError
    | AttributeError(name: string)

  /** A computation that either returns a value or raises. */
  datatype Result<T> = Ok(value: T) | Err(error: PyError) {
    predicate IsFailure() { Err? }

    function PropagateFailure<U>(): Result<U>
      requires Err?
    {
      Err(error)
    }

    function Extract(): T
      requires Ok?
    {
      value
    }
  }

  datatype Option<T> = None | Some(value: T)

  /** `j[key]`: a dict yields the key's value or raises KeyError; every other
      value is not subscriptable by a string and raises TypeError. */
  function Subscript(j: Json, key: string): Result<Json> {
    match j
    case Obj(fields) => if key in fields then Ok(fields[key]) else Err(KeyError(key))
    case _ => Err(TypeError)
  }

  /** `bool(j)`: None, False, zero and empty containers are false. */
  predicate Truthy(j: Json) {
    match j
    case Null => false
    case Bool(b) => b
    case Num(n) => n != 0.0
    case Str(s) => |s| > 0
    case Arr(items) => |items| > 0
    case Obj(fields) => |fields| > 0
  }

  /** `needle in hay` for two strings: a contiguous occurrence. */
  predicate IsSubstring(needle: string, hay: string) {
    exists i :: 0 <= i <= |hay| - |needle| && OccursAt(needle, hay, i)
  }

  predicate OccursAt(needle: string, hay: string, i: int)
    requires 0 <= i <= |hay| - |needle|
  {
    hay[i..i + |needle|] == needle
  }

  /** `needle in j`: key membership for a dict, substring search for a
      string, element equality for a list; numbers, booleans and None are
      not iterable and raise TypeError. */
  function Contains(j: Json, needle: string): Result<bool> {
    match j
    case Obj(fields) => Ok(needle in fields)
    case Str(s) => Ok(IsSubstring(needle, s))
    case Arr(items) => Ok(Str(needle) in items)
    case _ => Err(TypeError)
  }

  /** `str(j)` as an f-string renders it: strings verbatim, None and the
      booleans by name; the text of numbers and containers is `show`'s. */
  function Text(j: Json, show: Json -> string): string {
    match j
    case Str(s) => s
    case Null => "None"
    case Bool(b) => if b then "True" else "False"
    case _ => show(j)
  }
}
