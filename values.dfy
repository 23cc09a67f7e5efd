/** Values shared by the four pipeline stages: the wrappers used for error
    paths and a small model of the documents that YAML loading produces. */
module Values {

  datatype Option<T> = None | Some(value: T)

  /** A computation that returns a value or raises an error. */
  datatype Result<T, E> = Ok(value: T) | Err(error: E)

  /** A check that either passes or reports the error that stopped it. */
  datatype Outcome<E> = Pass | Fail(error: E)

  /** A loaded YAML document: null, integer, string, sequence or mapping with
      string keys. */
  datatype Value =
    | Null
    | Int(i: int)
    | Str(s: string)
    | List(items: seq<Value>)
    | Map(fields: map<string, Value>)

  /** Python truthiness: `None`, `0`, `""`, `[]` and `{}` are false. */
  predicate Truthy(v: Value)
  {
    match v
    case Null => false
    case Int(i) => i != 0
    case Str(s) => s != []
    case List(items) => items != []
    case Map(fields) => fields != map[]
  }

  /** Values Python can put in a set; lists and dicts raise a TypeError. */
  predicate Hashable(v: Value)
  {
    v.Null? || v.Int? || v.Str?
  }

  /** Python's `d.get(key, default)` on a dict. */
  function Get(fields: map<string, Value>, key: string, default: Value): (r: Value)
    ensures key in fields ==> r == fields[key]
    ensures key !in fields ==> r == default
  {
    if key in fields then fields[key] else default
  }

  /** `needle` occurs in `haystack` starting at position `i`. */
  predicate OccursAt(haystack: string, needle: string, i: int)
  {
    0 <= i <= |haystack| - |needle| && haystack[i..i + |needle|] == needle
  }

  /** Python's `needle in haystack` on two strings. */
  predicate ContainsSubstring(haystack: string, needle: string)
  {
    exists i :: 0 <= i <= |haystack| && OccursAt(haystack, needle, i)
  }
}
