/** The values `json.loads` produces and the handful of Python operations the
    loader applies to them: the membership test `key in v`, the subscript
    `v[key]`, iteration, and the list normalisation of a singular field. */
module Json {
  import opened Text

  /** A parsed JSON value.  Numbers are kept as integers; objects are maps from
      key to value (a duplicated key keeps its last value, as with `json.loads`). */
  datatype Json =
    | JNull
    | JBool(b: bool)
    | JNum(n: int)
    | JStr(s: string)
    | JArr(items: seq<Json>)
    | JObj(fields: map<string, Json>)

  datatype Option<+T> = None | Some(value: T)

  /** The exceptions the loader's code can raise on a value: a `TypeError` from
      `in`/subscript/iteration on the wrong kind of value, a `KeyError` from a
      missing key, and the decode error of `json.loads`. */
  datatype PyError = TypeError | KeyError | DecodeError

  datatype Result<+T> = Ok(value: T) | Err(error: PyError) {
    predicate IsFailure() { Err? }

    function PropagateFailure<U>(): Result<U>
      requires Err?
    {
      Err(error)
    }

    function Extract(): T
      requires Ok?
    {
      value
    }
  }

  /** `json.loads`: the parser itself is not modelled, only that it either
      yields a value or raises. */
  type Parser = string -> Option<Json>

  /** The normalisation `if not isinstance(v, list): v = [v]`: a list is kept,
      anything else becomes a one-element list. */
  function AsList(v: Json): (r: seq<Json>)
    ensures v.JArr? ==> r == v.items
    ensures !v.JArr? ==> r == [v]
    ensures r == [] <==> v == JArr([])
  {
    if v.JArr? then v.items else [v]
  }

  /** Normalising the normalised value changes nothing. */
  lemma AsListStable(v: Json)
    ensures AsList(JArr(AsList(v))) == AsList(v)
  {
  }

  /** Python's `key in v`: a key test on a dict, a substring test on a string, an
      element test on a list, and a `TypeError` on anything else. */
  function In(key: string, v: Json): (r: Result<bool>)
    ensures r.Err? <==> (v.JNull? || v.JBool? || v.JNum?)
    ensures v.JObj? ==> r == Ok(key in v.fields)
  {
    match v
    case JObj(m) => Ok(key in m)
    case JArr(xs) => Ok(JStr(key) in xs)
    case JStr(s) => Ok(Occurs(s, key))
    case _ => Err(TypeError)
  }

  /** Python's `v[key]` with a string key: only a dict holding the key answers. */
  function Subscript(v: Json, key: string): (r: Result<Json>)
    ensures r.Ok? <==> v.JObj? && key in v.fields
    ensures r.Ok? ==> r.value == v.fields[key]
  {
    match v
    case JObj(m) => if key in m then Ok(m[key]) else Err(KeyError)
    case _ => Err(TypeError)
  }

  /** The elements `for e in v` visits, for a loop whose body begins with
      `e[key]`.  A list yields its items.  A dict yields its keys and a string its
      characters, both strings, so the first subscript raises a `TypeError`
      unless there is no first element; any other value is not iterable. */
  function Entries(v: Json): (r: Result<seq<Json>>)
    ensures r.Ok? <==> v.JArr? || v == JObj(map[]) || v == JStr("")
    ensures r.Ok? ==> r.value == if v.JArr? then v.items else []
  {
    match v
    case JArr(xs) => Ok(xs)
    case JObj(m) => if m == map[] then Ok([]) else Err(TypeError)
    case JStr(s) => if s == "" then Ok([]) else Err(TypeError)
    case _ => Err(TypeError)
  }

  /** The test `key in v` does not answer plain "no": it raises, or it finds the key. */
  predicate Mentions(v: Json, key: string)
  {
    In(key, v) != Ok(false)
  }

  /** Which of two keys `if first in v: ... elif second in v: ...` settles on,
      with the value it then reads. */
  datatype Choice = Neither | First(v: Json) | Second(v: Json)

  /** The `if first in v: x = v[first] elif second in v: x = v[second]` idiom.  On
      a dict the first key wins whenever it is present.  On any other value the
      idiom raises, unless neither key test succeeds. */
  function Preferred(v: Json, first: string, second: string): (r: Result<Choice>)
    ensures v.JObj? ==> r == Ok(
              if first in v.fields then First(v.fields[first])
              else if second in v.fields then Second(v.fields[second])
              else Neither)
    ensures r.Err? <==> !v.JObj? && (Mentions(v, first) || Mentions(v, second))
  {
    match In(first, v)
    case Err(e) => Err(e)
    case Ok(true) =>
      var x :- Subscript(v, first);
      Ok(First(x))
    case Ok(false) =>
      match In(second, v)
      case Err(e) => Err(e)
      case Ok(true) =>
        var x :- Subscript(v, second);
        Ok(Second(x))
      case Ok(false) => Ok(Neither)
  }
}
