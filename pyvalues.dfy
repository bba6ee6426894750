/** The Python values the tools receive, and the outcomes of the calls they make to the outside. */
module PyValues {

  datatype Option<T> = None | Some(value: T) {
    /** Python's `d.get(key, default)` on a key that may be missing. */
    function GetOr(default: T): T
    {
      match this
      case Some(v) => v
      case None => default
    }
  }

  /** A dynamically typed Python value, as far as the tools look at it. */
  datatype PyValue =
    | PyNone
    | PyBool(b: bool)
    | PyInt(i: int)
    | PyStr(s: string)
    | PyList(items: seq<PyValue>)
    | PyDict(entries: map<string, PyValue>)

  /** What a network request (or another call into code outside the model) produced:
      the data it returned, or the text of the exception it raised. */
  datatype Fetch<T> = Fetched(value: T) | Failed(reason: string)
}
