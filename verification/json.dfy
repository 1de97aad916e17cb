/**
 Parsed JSON values, and Python's chained subscripting on them, as in the
 lookup of `candidates[0].content.parts[0].text` in a response body.
 */
module Json {
  import opened Wrappers

  /** A value as `json.loads` returns it. Numbers are kept as integers: the
      handlers never inspect them. */
  datatype Json =
    | Null
    | Bool(b: bool)
    | Number(n: int)
    | Str(s: string)
    | Array(items: seq<Json>)
    | Object(fields: map<string, Json>)

  /** One subscript: `[name]` or `[index]`. */
  datatype Step = Key(name: string) | Index(i: nat)

  /** Python's `value[step]` on a parsed value, or None where Python raises
      (KeyError, IndexError, TypeError). A string subscripted by an index gives
      its one-character substring, as in Python. */
  function Subscript(j: Json, step: Step): Option<Json> {
    match (j, step)
    case (Object(fields), Key(name)) => if name in fields then Some(fields[name]) else None
    case (Array(items), Index(i)) => if i < |items| then Some(items[i]) else None
    case (Str(s), Index(i)) => if i < |s| then Some(Str([s[i]])) else None
    case _ => None
  }

  /** A chain of subscripts applied left to right; None as soon as one raises. */
  function Follow(j: Json, path: seq<Step>): Option<Json>
    decreases |path|
  {
    if |path| == 0 then Some(j)
    else
      match Subscript(j, path[0])
      case None => None
      case Some(v) => Follow(v, path[1..])
  }

  /** A value that holds `leaf` at `path`, built from one-key objects and
      arrays whose element at the index is the only non-null one. */
  function Nest(path: seq<Step>, leaf: Json): Json
    decreases |path|
  {
    if |path| == 0 then leaf
    else
      var inner := Nest(path[1..], leaf);
      match path[0]
      case Key(name) => Object(map[name := inner])
      case Index(i) => Array(seq(i, _ => Null) + [inner])
  }

  /** Following a path through the value built for it finds the leaf. */
  lemma {:induction false} FollowNest(path: seq<Step>, leaf: Json)
    ensures Follow(Nest(path, leaf), path) == Some(leaf)
    decreases |path|
  {
    if |path| > 0 {
      FollowNest(path[1..], leaf);
      var inner := Nest(path[1..], leaf);
      match path[0]
      case Key(name) =>
      case Index(i) =>
        assert (seq(i, _ => Null) + [inner])[i] == inner;
    }
  }

}
