/** The configuration document as the YAML loader hands it to the program:
    nested mappings, lists, strings, integers and booleans. YAML text itself is not modelled. */
module Document {

  datatype Option<T> = None | Some(value: T)

  /** The Python exceptions the modelled code raises on malformed input. */
  datatype Error =
    | KeyError(key: string)         // `d[key]` on a mapping without that key
    | TypeError                     // subscripting or iterating a value of the wrong shape
    | AttributeError(name: string)  // reading an attribute or method the object does not have
    | UnboundLocalError(name: string) // reading a local variable that was never assigned

  datatype Result<T> = Ok(value: T) | Err(error: Error)

  /** A loaded YAML value. Mapping keys are strings; floats and non-string keys are not modelled. */
  datatype Value =
    | Null
    | Bool(b: bool)
    | Int(i: int)
    | Str(s: string)
    | List(xs: seq<Value>)
    | Map(m: map<string, Value>)

  /** Python's `bool(v)`: empty containers, `0`, `''`, `None` and `False` are false. */
  function Truthy(v: Value): (r: bool)
    ensures v.Bool? ==> r == v.b
    ensures v.Int? ==> (r <==> v.i != 0)
    ensures v.Null? ==> !r
  {
    match v
    case Null => false
    case Bool(b) => b
    case Int(i) => i != 0
    case Str(s) => s != ""
    case List(xs) => xs != []
    case Map(m) => m != map[]
  }

  /** Python's `v == True` (when `b`) or `v == False` (otherwise): `bool` is a subclass of `int`,
      so the integers 1 and 0 compare equal to `True` and `False`. */
  predicate EqualsBool(v: Value, b: bool) {
    match v
    case Bool(x) => x == b
    case Int(i) => i == (if b then 1 else 0)
    case _ => false
  }

  /** Python's `int(v)` for a value that compares equal to a boolean. */
  function BoolToInt(v: Value): (r: int)
    requires EqualsBool(v, true) || EqualsBool(v, false)
    ensures r == (if EqualsBool(v, true) then 1 else 0)
  {
    match v
    case Bool(x) => if x then 1 else 0
    case Int(i) => i
  }
}
