/** Loosely typed JSON-like payloads, as the search, metrics and CrossRef
    services deliver them, and the failure values that stand for the Python
    exceptions the pipeline lets escape. */
module Json {

  /** A decoded JSON value: a string, an array or an object. */
  datatype Value = Str(s: string) | List(items: seq<Value>) | Obj(fields: map<string, Value>)

  /** A JSON object, the shape of every entry, link record and response. */
  type Payload = map<string, Value>

  datatype Option<+T> = None | Some(value: T)

  /** The exceptions the pipeline does not catch. */
  datatype Fault =
    | KeyMissing(key: string)       // KeyError on `d[key]`
    | WrongType(key: string)        // TypeError/AttributeError: the value under `key` has an unexpected shape
    | BadUnpack(parts: nat)         // ValueError: `_, x = s.split(":")` with the wrong number of parts
    | NoScopusLink                  // IndexError: `[...][0]` on an empty list
    | BadDate(text: string)         // ValueError from `strptime`
    | BadInt(text: string)          // ValueError from `int(...)`
    | EmptyList(key: string)        // IndexError: `xs[0]` on an empty list
    | NoData                        // AssertionError: CrossRef status is not "ok"
    | HttpStatus(code: int)         // HTTPError raised by `raise_for_status`
    | NoPage                        // a follow-up page request that yields no search results

  datatype Result<+T> = Ok(value: T) | Err(fault: Fault) {
    predicate IsFailure() { Err? }

    function PropagateFailure<U>(): Result<U>
      requires Err?
    {
      Err(fault)
    }

    function Extract(): T
      requires Ok?
    {
      value
    }
  }

  /** `d.get(key, default)` where the value is expected to be a string. */
  function TextOr(d: Payload, key: string, default: string): (r: Result<string>)
    ensures key !in d ==> r == Ok(default)
    ensures key in d ==> (r.Ok? <==> d[key].Str?)
    ensures key in d && r.Ok? ==> d[key] == Str(r.value)
  {
    if key !in d then Ok(default)
    else match d[key]
      case Str(s) => Ok(s)
      case _ => Err(WrongType(key))
  }
}
