/** The optional value used for Kotlin's nullable types (`Int?`, `Long?`, `Task?`, `String?`). */
module Wrappers {

  datatype Option<+T> = None | Some(value: T)

  /** Prefixes `p` to the value inside `rest`, keeping a failure a failure. */
  function Prepend<T>(p: seq<T>, rest: Option<seq<T>>): (r: Option<seq<T>>)
    ensures r.Some? <==> rest.Some?
    ensures r.Some? ==> r.value == p + rest.value
  {
    match rest
    case None => None
    case Some(s) => Some(p + s)
  }

  /** Prefixing in two steps is prefixing the concatenation. */
  lemma PrependTwice<T>(p: seq<T>, q: seq<T>, rest: Option<seq<T>>)
    ensures Prepend(p, Prepend(q, rest)) == Prepend(p + q, rest)
  {
    if rest.Some? {
      assert p + (q + rest.value) == (p + q) + rest.value;
    }
  }
}
