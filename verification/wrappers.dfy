/** Optional values, results and the exception kinds the library raises. */
module Wrappers {

  datatype Option<+T> = None | Some(value: T)

  /** The Python exceptions the modelled code can raise. */
  datatype Error =
    | IndexError                        // `[...][-1]` on an empty selection
    | KeyError(keys: set<string>)       // a dictionary key, or declared fields, missing
    | ValueError                        // `int(...)` or tuple unpacking rejected its input
    | AttributeError                    // a method called on a value that lacks it
    | TypeError                         // a conversion applied to a value of the wrong type

  datatype Result<+T> = Ok(value: T) | Err(error: Error)

  /**
   * `[f(x) for x in s]` where `f` may raise: the results in order, or the
   * error of the first element that fails.
   */
  function MapAll<A, B>(f: A -> Result<B>, s: seq<A>): Result<seq<B>> {
    if s == [] then Ok([])
    else
      match f(s[0])
      case Err(e) => Err(e)
      case Ok(y) =>
        match MapAll(f, s[1..])
        case Err(e) => Err(e)
        case Ok(rest) => Ok([y] + rest)
  }

  /**
   * `MapAll` succeeds exactly when every element succeeds, and then yields
   * their results in order; otherwise it fails with the error of the first
   * element that fails.
   */
  lemma {:induction false} MapAllSpec<A, B>(f: A -> Result<B>, s: seq<A>)
    ensures MapAll(f, s).Ok? <==> forall i :: 0 <= i < |s| ==> f(s[i]).Ok?
    ensures MapAll(f, s).Ok? ==>
              |MapAll(f, s).value| == |s|
              && forall i :: 0 <= i < |s| ==> f(s[i]) == Ok(MapAll(f, s).value[i])
    ensures MapAll(f, s).Err? ==>
              exists i :: 0 <= i < |s| && f(s[i]) == Err(MapAll(f, s).error)
                          && forall j :: 0 <= j < i ==> f(s[j]).Ok?
  {
    if s != [] {
      var tail := s[1..];
      MapAllSpec(f, tail);
      assert forall i :: 1 <= i < |s| ==> tail[i - 1] == s[i];
      match f(s[0])
      case Err(e) =>
        assert f(s[0]) == Err(MapAll(f, s).error);
      case Ok(y) =>
        if MapAll(f, tail).Err? {
          var i :| 0 <= i < |tail| && f(tail[i]) == Err(MapAll(f, tail).error)
                   && forall j :: 0 <= j < i ==> f(tail[j]).Ok?;
          assert f(s[i + 1]) == Err(MapAll(f, s).error);
          assert forall j :: 0 <= j < i + 1 ==> f(s[j]).Ok? by {
            assert forall j :: 1 <= j < i + 1 ==> s[j] == tail[j - 1];
          }
        } else {
          var rest := MapAll(f, tail).value;
          assert forall i :: 1 <= i < |s| ==> ([y] + rest)[i] == rest[i - 1];
        }
    }
  }
}
