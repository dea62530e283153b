/**
 * The slice of Python's object model the modelled code relies on: the values
 * that flow through configuration dictionaries and decoded JSON, the
 * exceptions the code can raise, and the few built-in operations on values
 * (`x[k]`, `k in x`, truthiness, `.replace` on a non-string) whose failure
 * modes matter.
 */
module Python {
  import opened Wrappers
  import Text

  /** The exceptions that the modelled code can raise. `RequestFailed` stands for
      anything raised by the HTTP client or by decoding its response body. */
  datatype Exc =
    | TypeError
    | KeyError
    | IndexError
    | AttributeError
    | ValueError
    | FileExistsError
    | RequestFailed

  type PyResult<T> = Result<T, Exc>

  /** A Python value as produced by a YAML/TOML configuration or a JSON
      decoder. Floats are not modelled. Dictionary keys are strings, and a
      `map` forgets insertion order. */
  datatype PyValue =
    | PNone
    | PBool(b: bool)
    | PInt(i: int)
    | PStr(s: string)
    | PList(items: seq<PyValue>)
    | PDict(entries: map<string, PyValue>)

  /** `x[key]` with a string key. A dictionary answers or raises KeyError;
      every other value raises TypeError: lists and strings need integer
      indices, and None, bool and int are not subscriptable. */
  function GetItem(x: PyValue, key: string): (r: PyResult<PyValue>)
    ensures r.Success? <==> x.PDict? && key in x.entries
    ensures r.Success? ==> r.value == x.entries[key]
    ensures r.Failure? ==> r.error == (if x.PDict? then KeyError else TypeError)
  {
    match x
    case PDict(m) => if key in m then Success(m[key]) else Failure(KeyError)
    case _ => Failure(TypeError)
  }

  /** `key in x` with a string `key`: a key test on a dictionary, a substring
      test on a string and an element test on a list (a string equals only a
      string); None, bool and int are not containers and raise TypeError. */
  function ContainsKey(x: PyValue, key: string): (r: PyResult<bool>)
    ensures r.Failure? <==> x.PNone? || x.PBool? || x.PInt?
    ensures r.Failure? ==> r.error == TypeError
    ensures x.PDict? ==> r == Success(key in x.entries)
    ensures x.PList? ==> r == Success(PStr(key) in x.items)
  {
    match x
    case PDict(m) => Success(key in m)
    case PStr(s) => Success(Text.Contains(s, key))
    case PList(xs) => Success(PStr(key) in xs)
    case _ => Failure(TypeError)
  }

  /** Python truthiness, as used by `if OPTIONS['install']:`. */
  predicate Truthy(x: PyValue) {
    match x
    case PNone => false
    case PBool(b) => b
    case PInt(i) => i != 0
    case PStr(s) => |s| > 0
    case PList(xs) => |xs| > 0
    case PDict(m) => |m| > 0
  }

  /** The string inside `x`, or `AttributeError` for the attribute lookup
      (`x.replace`, `x.endswith`) a non-string does not have. */
  function AsStr(x: PyValue): (r: PyResult<string>)
    ensures r.Success? <==> x.PStr?
    ensures r.Success? ==> r.value == x.s
    ensures r.Failure? ==> r.error == AttributeError
  {
    match x
    case PStr(s) => Success(s)
    case _ => Failure(AttributeError)
  }

  /** The numeric value of `x` when it takes part in `<` against a float:
      bool is a subclass of int; anything else raises TypeError. */
  function AsNumber(x: PyValue): (r: PyResult<int>)
    ensures r.Success? <==> x.PInt? || x.PBool?
    ensures x.PInt? ==> r == Success(x.i)
    ensures x.PBool? ==> r == Success(if x.b then 1 else 0)
  {
    match x
    case PInt(i) => Success(i)
    case PBool(b) => Success(if b then 1 else 0)
    case _ => Failure(TypeError)
  }
}
