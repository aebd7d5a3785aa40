/** Option and Result, for Ruby's nil and for the exceptions the core raises. */
module Wrappers {

  datatype Option<T> = None | Some(value: T)

  datatype Result<T, E> = Ok(value: T) | Err(error: E)

  /**
   * A `map` whose block may raise, applied to results already computed: the values when
   * none failed, otherwise the error of the first that did.
   */
  function Collect<T, E>(rs: seq<Result<T, E>>): (r: Result<seq<T>, E>)
    ensures r.Ok? <==> forall k :: 0 <= k < |rs| ==> rs[k].Ok?
    ensures r.Ok? ==> |r.value| == |rs| && forall k :: 0 <= k < |rs| ==> rs[k] == Ok(r.value[k])
    ensures r.Err? ==> exists k :: 0 <= k < |rs| && rs[k] == Err(r.error) && forall i :: 0 <= i < k ==> rs[i].Ok?
    decreases |rs|
  {
    if rs == [] then Ok([])
    else
      var rest := Collect(rs[1..]);
      assert forall k :: 1 <= k < |rs| ==> rs[k] == rs[1..][k - 1];
      match rs[0]
      case Err(e) => Err(e)
      case Ok(v) =>
        match rest
        case Err(e) =>
          ghost var j :| 0 <= j < |rs[1..]| && rs[1..][j] == Err(e) && forall i :: 0 <= i < j ==> rs[1..][i].Ok?;
          assert rs[j + 1] == Err(e) && forall i :: 1 <= i < j + 1 ==> rs[i].Ok?;
          Err(e)
        case Ok(vs) => Ok([v] + vs)
  }

  /** The first failing result decides the error, whatever follows it. */
  lemma CollectFirstError<T, E>(rs: seq<Result<T, E>>, k: nat)
    requires k < |rs| && rs[k].Err?
    requires forall i :: 0 <= i < k ==> rs[i].Ok?
    ensures Collect(rs) == Err(rs[k].error)
  {
    var r := Collect(rs);
    var j :| 0 <= j < |rs| && rs[j] == Err(r.error) && forall i :: 0 <= i < j ==> rs[i].Ok?;
    assert !(j < k) && !(k < j);
  }
}
