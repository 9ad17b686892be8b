/** Option and Result, and the "parse every item, stop at the first failure"
    traversal that both parsers of the version package are built on. */
module Wrappers {

  datatype Option<+T> = None | Some(value: T)

  datatype Result<+R, +E> = Success(value: R) | Failure(error: E) {
    /** The success value, or `default` on failure. */
    function GetOr(default: R): R {
      match this
      case Success(v) => v
      case Failure(_) => default
    }
  }

  /** Applies `f` to every element in order; the first failure stops the
      traversal and is reported with its zero-based index. */
  function Traverse<A, B, E>(xs: seq<A>, f: A -> Result<B, E>): (r: Result<seq<B>, (nat, E)>)
    ensures r.Success? ==> |r.value| == |xs|
    ensures r.Failure? ==> r.error.0 < |xs|
  {
    if xs == [] then Success([])
    else
      match f(xs[0])
      case Failure(e) => Failure((0, e))
      case Success(y) =>
        match Traverse(xs[1..], f)
        case Success(ys) => Success([y] + ys)
        case Failure((i, e)) => Failure((i + 1, e))
  }

  /** The traversal succeeds exactly when `f` succeeds on every element, and
      then it yields the results in order. */
  lemma {:induction false} TraverseSucceeds<A, B, E>(xs: seq<A>, f: A -> Result<B, E>)
    ensures Traverse(xs, f).Success? <==> forall i :: 0 <= i < |xs| ==> f(xs[i]).Success?
    ensures Traverse(xs, f).Success? ==>
      forall i :: 0 <= i < |xs| ==> Traverse(xs, f).value[i] == f(xs[i]).value
  {
    if xs != [] {
      TraverseSucceeds(xs[1..], f);
      assert forall i :: 1 <= i < |xs| ==> xs[i] == xs[1..][i - 1];
    }
  }

  /** A failure names the first element on which `f` fails, and its error. */
  lemma {:induction false} TraverseFailsFirst<A, B, E>(xs: seq<A>, f: A -> Result<B, E>)
    ensures Traverse(xs, f).Failure? ==>
      var (k, e) := Traverse(xs, f).error;
      && f(xs[k]) == Failure(e)
      && forall i :: 0 <= i < k ==> f(xs[i]).Success?
  {
    if xs != [] && f(xs[0]).Success? {
      TraverseFailsFirst(xs[1..], f);
      assert forall i :: 1 <= i < |xs| ==> xs[i] == xs[1..][i - 1];
    }
  }

  /** Conversely, if element k is the first on which `f` fails, the
      traversal reports exactly that index and error. */
  lemma {:induction false} TraverseFailsAt<A, B, E>(xs: seq<A>, f: A -> Result<B, E>, k: nat)
    requires k < |xs|
    requires forall i :: 0 <= i < k ==> f(xs[i]).Success?
    requires f(xs[k]).Failure?
    ensures Traverse(xs, f) == Failure((k, f(xs[k]).error))
  {
    if k > 0 {
      assert forall i :: 0 <= i < k - 1 ==> xs[1..][i] == xs[i + 1];
      TraverseFailsAt(xs[1..], f, k - 1);
    }
  }
}
