/** Route parameters as a request sees them: a stack of layers, one per
    router that matched the request, outermost first. Lookups take the
    innermost layer that has the key; the catch-all rest of a prefix route is
    stored in the innermost layer under a reserved name.
 */
module Params {
  import opened Wrappers

  type Layer = map<string, string>

  /** The reserved parameter name holding the unmatched rest of a prefix route. */
  const PathRest: string := "--tide-path-rest"

  /** The value of `key` in the innermost layer that has it. */
  function Find(layers: seq<Layer>, key: string): (r: Option<string>)
    ensures r.None? <==> forall i :: 0 <= i < |layers| ==> key !in layers[i]
    decreases |layers|
  {
    if |layers| == 0 then None
    else if key in layers[|layers| - 1] then Some(layers[|layers| - 1][key])
    else Find(layers[..|layers| - 1], key)
  }

  /** Declarative reading of `Find`: the value comes from some layer `i` that
      has the key, and no layer after `i` has it. */
  lemma {:induction false} FindInnermost(layers: seq<Layer>, key: string)
    requires Find(layers, key).Some?
    ensures exists i :: 0 <= i < |layers| && key in layers[i] && Find(layers, key).value == layers[i][key]
                        && forall j :: i < j < |layers| ==> key !in layers[j]
    decreases |layers|
  {
    var n := |layers| - 1;
    if key in layers[n] {
      assert key in layers[n] && Find(layers, key).value == layers[n][key];
    } else {
      var front := layers[..n];
      FindInnermost(front, key);
      var i :| 0 <= i < |front| && key in front[i] && Find(front, key).value == front[i][key]
               && forall j :: i < j < |front| ==> key !in front[j];
      assert layers[i] == front[i];
      assert forall j :: i < j < |layers| ==> key !in layers[j] by {
        forall j | i < j < |layers| ensures key !in layers[j] {
          if j < n { assert layers[j] == front[j]; }
        }
      }
    }
  }

  /** Pushing a layer shadows every outer value of the keys it holds and
      leaves the other keys as they were. */
  lemma PushShadows(layers: seq<Layer>, inner: Layer, key: string)
    ensures Find(layers + [inner], key) == if key in inner then Some(inner[key]) else Find(layers, key)
  {
    assert (layers + [inner])[..|layers|] == layers;
  }

  /** `Request::param`: a missing key panics (`MissingKey`); a present one is
      handed to the parser, whose error is returned as is. */
  datatype ParamResult<T, E> = Parsed(value: T) | ParseError(error: E) | MissingKey

  function Param<T, E>(layers: seq<Layer>, key: string, parse: string -> Result<T, E>): (r: ParamResult<T, E>)
    ensures r.MissingKey? <==> forall i :: 0 <= i < |layers| ==> key !in layers[i]
    ensures !r.MissingKey? ==> Find(layers, key).Some?
    ensures r.Parsed? ==> parse(Find(layers, key).value) == Success(r.value)
    ensures r.ParseError? ==> parse(Find(layers, key).value) == Failure(r.error)
  {
    match Find(layers, key)
    case None => MissingKey
    case Some(v) =>
      match parse(v)
      case Success(x) => Parsed(x)
      case Failure(e) => ParseError(e)
  }

  /** `rest`: only the innermost layer is consulted. */
  function Rest(layers: seq<Layer>): (r: Option<string>)
    ensures |layers| == 0 ==> r.None?
    ensures |layers| > 0 ==> (r.Some? <==> PathRest in layers[|layers| - 1])
  {
    if |layers| == 0 || PathRest !in layers[|layers| - 1] then None
    else Some(layers[|layers| - 1][PathRest])
  }

  /** When the innermost layer holds the rest, `rest` and `param` agree; an
      outer layer's rest is never seen by `rest`. */
  lemma RestIsInnermost(layers: seq<Layer>)
    ensures Rest(layers).Some? ==> Find(layers, PathRest) == Rest(layers)
    ensures |layers| > 0 && PathRest !in layers[|layers| - 1] ==> Rest(layers).None?
  {
  }

  /** `is_empty`: unknown when the length is unknown. */
  function IsEmpty(len: Option<nat>): (r: Option<bool>)
    ensures r.None? <==> len.None?
    ensures r.Some? ==> (r.value <==> len.value == 0)
  {
    match len
    case None => None
    case Some(n) => Some(n == 0)
  }
}
