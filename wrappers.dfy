/** Option and Result, as the Rust code uses them, and the `collect` that
    turns a sequence of results into a result of a sequence. */
module Wrappers {

  datatype Option<+T> = None | Some(value: T)

  datatype Result<+T, +E> = Ok(value: T) | Err(error: E)

  /** Rust's `iter.collect::<Result<Vec<_>, E>>()`: every value when all
      elements are `Ok`, otherwise the FIRST error and nothing else. */
  function CollectResults<T, E>(s: seq<Result<T, E>>): (r: Result<seq<T>, E>)
    ensures r.Ok? <==> forall i :: 0 <= i < |s| ==> s[i].Ok?
    ensures r.Ok? ==> |r.value| == |s| && forall i :: 0 <= i < |s| ==> s[i] == Ok(r.value[i])
    ensures r.Err? ==> exists i :: 0 <= i < |s| && s[i] == Err(r.error) && forall j :: 0 <= j < i ==> s[j].Ok?
  {
    if s == [] then Ok([])
    else match s[0]
      case Err(e) => Err(e)
      case Ok(x) =>
        var rest := CollectResults(s[1..]);
        match rest
        case Err(e) =>
          ghost var i :| 0 <= i < |s[1..]| && s[1..][i] == Err(e) && forall j :: 0 <= j < i ==> s[1..][j].Ok?;
          assert s[i + 1] == Err(e);
          Err(e)
        case Ok(xs) => Ok([x] + xs)
  }

  /** The error `collect` reports is the error of the first element that is
      not `Ok`: everything before it collected, it itself failed. */
  lemma FirstErrorIsCollected<T, E>(s: seq<Result<T, E>>, i: nat)
    requires i < |s| && s[i].Err?
    requires forall j :: 0 <= j < i ==> s[j].Ok?
    ensures CollectResults(s) == Err(s[i].error)
  {
    var r := CollectResults(s);
    var k :| 0 <= k < |s| && s[k] == Err(r.error) && forall j :: 0 <= j < k ==> s[j].Ok?;
    assert k == i;
  }

  /** The index of the first element that is not `Ok`, or the length when
      there is none: how far a lazy `collect` gets before it stops. */
  function FirstError<T, E>(s: seq<Result<T, E>>): (n: nat)
    ensures n <= |s|
    ensures forall j :: 0 <= j < n ==> s[j].Ok?
    ensures n < |s| ==> s[n].Err?
  {
    if s == [] || s[0].Err? then 0 else 1 + FirstError(s[1..])
  }

  /** A successful `collect` keeps every value as often as the sequence
      holds it. */
  lemma CollectedCounts<T, E>(s: seq<Result<T, E>>)
    requires CollectResults(s).Ok?
    ensures forall x :: multiset(CollectResults(s).value)[x] == multiset(s)[Ok(x)]
  {
    OkCounts(CollectResults(s).value, s);
  }

  lemma {:induction false} OkCounts<T, E>(v: seq<T>, s: seq<Result<T, E>>)
    requires |v| == |s| && forall i :: 0 <= i < |s| ==> s[i] == Ok(v[i])
    ensures forall x :: multiset(v)[x] == multiset(s)[Ok(x)]
  {
    if s != [] {
      OkCounts(v[1..], s[1..]);
      assert v == [v[0]] + v[1..];
      assert s == [s[0]] + s[1..];
    }
  }

  /** `collect` pulls everything exactly when no element is an error. */
  lemma NoErrorPullsAll<T, E>(s: seq<Result<T, E>>)
    ensures FirstError(s) == |s| <==> forall i :: 0 <= i < |s| ==> s[i].Ok?
  {
  }
}
