/** Small failure-carrying datatypes shared by the handlers. */
module Wrappers {

  /** A value that may be absent, as Python's `None` stands for one. */
  datatype Option<+T> = None | Some(value: T) {

    /** Python's `x or default` when only `None` is falsy: the value held, if any. */
    function GetOr(default: T): T {
      match this
      case Some(v) => v
      case None => default
    }
  }

  /** What a FastAPI handler hands back: a body, or an `HTTPException` with a status and detail. */
  datatype Outcome<+T> = Ok(value: T) | Err(status: int, detail: string)

  /** `p` is a prefix of `s`. */
  predicate StartsWith(s: string, p: string) {
    |p| <= |s| && s[..|p|] == p
  }

  lemma ConcatAssoc<T>(a: seq<T>, b: seq<T>, c: seq<T>)
    ensures a + (b + c) == (a + b) + c
  {
  }

  lemma ConsSplit<T>(x: seq<T>, y: seq<T>)
    requires |x| > 0
    ensures (x + y)[0] == x[0] && (x + y)[1..] == x[1..] + y
  {
  }
}
