/** Failure-carrying values and the fail-fast traversal every phase of the
    transform uses: elements are processed in order, and the first failure
    ends the traversal. */
module Results {

  datatype Option<+T> = None | Some(value: T)

  datatype Result<+T, +E> = Success(value: T) | Failure(error: E)

  /** Applies `f` to the elements of `xs` from left to right and collects the
      results; the first failure is the result and nothing after it counts.
      Defined on the last element so that a loop that appends one result per
      iteration can be stated against it directly. */
  function Traverse<A, B, E>(f: A -> Result<B, E>, xs: seq<A>): Result<seq<B>, E>
  {
    if xs == [] then Success([])
    else
      match Traverse(f, xs[..|xs| - 1])
      case Failure(e) => Failure(e)
      case Success(ys) =>
        match f(xs[|xs| - 1])
        case Failure(e) => Failure(e)
        case Success(y) => Success(ys + [y])
  }

  /** A traversal succeeds exactly when every element succeeds, and then it
      holds each element's own result, in order. */
  lemma {:induction false} TraverseSucceeds<A, B, E>(f: A -> Result<B, E>, xs: seq<A>)
    ensures Traverse(f, xs).Success? <==> forall i :: 0 <= i < |xs| ==> f(xs[i]).Success?
    ensures Traverse(f, xs).Success? ==>
              |Traverse(f, xs).value| == |xs| &&
              forall i :: 0 <= i < |xs| ==> f(xs[i]) == Success(Traverse(f, xs).value[i])
  {
    if xs != [] {
      var init := xs[..|xs| - 1];
      TraverseSucceeds(f, init);
      assert forall i :: 0 <= i < |init| ==> xs[i] == init[i];
    }
  }

  /** Fail-fast: when element `j` is the first to fail, the traversal fails
      with that element's error, whatever the elements after it are. */
  lemma {:induction false} TraverseFirstFailure<A, B, E>(f: A -> Result<B, E>, xs: seq<A>, j: nat)
    requires j < |xs|
    requires forall i :: 0 <= i < j ==> f(xs[i]).Success?
    requires f(xs[j]).Failure?
    ensures Traverse(f, xs) == Failure(f(xs[j]).error)
  {
    var init := xs[..|xs| - 1];
    if j == |xs| - 1 {
      assert forall i :: 0 <= i < |init| ==> init[i] == xs[i];
      TraverseSucceeds(f, init);
    } else {
      assert forall i :: 0 <= i <= j ==> init[i] == xs[i];
      TraverseFirstFailure(f, init, j);
    }
  }

  /** The step a loop takes: when the elements before `i` have all succeeded
      and element `i` fails, the traversal of the whole sequence fails with
      element `i`'s error. */
  lemma TraverseStopsAt<A, B, E>(f: A -> Result<B, E>, xs: seq<A>, i: nat)
    requires i < |xs|
    requires Traverse(f, xs[..i]).Success?
    requires f(xs[i]).Failure?
    ensures Traverse(f, xs) == Failure(f(xs[i]).error)
  {
    TraverseSucceeds(f, xs[..i]);
    assert forall j :: 0 <= j < i ==> xs[..i][j] == xs[j];
    TraverseFirstFailure(f, xs, i);
  }

  /** The step a loop takes when element `i` succeeds: its result is
      appended. */
  lemma TraverseSnoc<A, B, E>(f: A -> Result<B, E>, xs: seq<A>, i: nat)
    requires i < |xs|
    requires Traverse(f, xs[..i]).Success?
    requires f(xs[i]).Success?
    ensures Traverse(f, xs[..i + 1]) == Success(Traverse(f, xs[..i]).value + [f(xs[i]).value])
  {
    assert xs[..i + 1][..i] == xs[..i];
  }

  /** Results listed element by element stay element by element when one
      more result is put in front. */
  lemma ConsShape<A, B, E>(xs: seq<A>, first: B, tail: seq<B>, ys: seq<B>, f: A -> Result<B, E>)
    requires |tail| == |xs| && forall j :: 0 <= j < |xs| ==> f(xs[j]) == Success(tail[j])
    requires ys == [first] + tail
    ensures |ys| == 1 + |xs| && ys[0] == first
    ensures forall j :: 0 <= j < |xs| ==> f(xs[j]) == Success(ys[1 + j])
  {
    forall j | 0 <= j < |xs| ensures f(xs[j]) == Success(ys[1 + j]) {
      assert ys[1 + j] == tail[j];
    }
  }

  /** Concatenation of a sequence of sequences, in order. */
  function Flatten<T>(ss: seq<seq<T>>): seq<T>
  {
    if ss == [] then [] else Flatten(ss[..|ss| - 1]) + ss[|ss| - 1]
  }
}
