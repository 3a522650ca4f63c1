/** The shape shared by the loops of `regen` that walk a listing: each item contributes some
    names, which are appended in order, or raises an exception, which ends the walk. */
module Gather {
  import opened Wrappers

  /** The names the items of `xs` contribute, in order, or the first exception raised. */
  function ConcatMap<T>(xs: seq<T>, f: T -> Result<seq<string>, Exc>): Result<seq<string>, Exc>
    decreases |xs|
  {
    if |xs| == 0 then Success([])
    else
      var init :- ConcatMap(xs[..|xs| - 1], f);
      var last :- f(xs[|xs| - 1]);
      Success(init + last)
  }

  /** One more item: its names are appended, or its exception is raised. */
  lemma ConcatMapSnoc<T>(xs: seq<T>, x: T, f: T -> Result<seq<string>, Exc>)
    requires ConcatMap(xs, f).Success?
    ensures f(x).Failure? ==> ConcatMap(xs + [x], f) == Failure(f(x).error)
    ensures f(x).Success? ==> ConcatMap(xs + [x], f) == Success(ConcatMap(xs, f).value + f(x).value)
  {
    assert (xs + [x])[..|xs|] == xs;
  }

  /** Once an item has raised, the later items change nothing. */
  lemma {:induction false} ConcatMapStops<T>(xs: seq<T>, ys: seq<T>, f: T -> Result<seq<string>, Exc>)
    requires ConcatMap(xs, f).Failure?
    ensures ConcatMap(xs + ys, f) == ConcatMap(xs, f)
    decreases |ys|
  {
    if |ys| == 0 {
      assert xs + ys == xs;
    } else {
      var init := ys[..|ys| - 1];
      ConcatMapStops(xs, init, f);
      assert (xs + ys)[..|xs + ys| - 1] == xs + init;
    }
  }

  /** The walk raises exactly when some item raises, and then it is the exception of the
      first item that raises: all items before it succeeded. */
  lemma {:induction false} ConcatMapFailure<T>(xs: seq<T>, f: T -> Result<seq<string>, Exc>)
    ensures ConcatMap(xs, f).Failure? <==> exists k | 0 <= k < |xs| :: f(xs[k]).Failure?
    ensures ConcatMap(xs, f).Failure? ==>
      exists j | 0 <= j < |xs| ::
        f(xs[j]) == Failure(ConcatMap(xs, f).error) &&
        forall k | 0 <= k < j :: f(xs[k]).Success?
    decreases |xs|
  {
    if |xs| > 0 {
      var last := |xs| - 1;
      var init := xs[..last];
      ConcatMapFailure(init, f);
      assert forall k | 0 <= k < last :: init[k] == xs[k];
      if ConcatMap(init, f).Failure? {
        var j :| 0 <= j < |init| &&
          f(init[j]) == Failure(ConcatMap(init, f).error) &&
          forall k | 0 <= k < j :: f(init[k]).Success?;
        assert f(xs[j]) == Failure(ConcatMap(xs, f).error);
      } else if f(xs[last]).Failure? {
        assert forall k | 0 <= k < last :: f(xs[k]).Success?;
      }
    }
  }

  /** When the walk succeeds, every item succeeded, and a name is in the result exactly
      when some item contributed it. */
  lemma {:induction false} ConcatMapMembership<T>(xs: seq<T>, f: T -> Result<seq<string>, Exc>, n: string)
    requires ConcatMap(xs, f).Success?
    ensures forall k | 0 <= k < |xs| :: f(xs[k]).Success?
    ensures n in ConcatMap(xs, f).value <==> exists k | 0 <= k < |xs| :: n in f(xs[k]).value
    decreases |xs|
  {
    if |xs| > 0 {
      var last := |xs| - 1;
      var init := xs[..last];
      ConcatMapMembership(init, f, n);
      assert forall k | 0 <= k < last :: init[k] == xs[k];
      if exists k | 0 <= k < |xs| :: n in f(xs[k]).value {
        var k :| 0 <= k < |xs| && n in f(xs[k]).value;
        if k < last {
          assert n in f(init[k]).value;
        }
      }
    }
  }

  /** `names` extended by the names of a walk, or the walk's exception. */
  function Extend(names: seq<string>, r: Result<seq<string>, Exc>): Result<seq<string>, Exc> {
    match r
    case Success(more) => Success(names + more)
    case Failure(e) => Failure(e)
  }

  /** One turn of a loop that appends the names of item `i` to `out`, when that item does
      not raise: `out` then holds the names of one more item. */
  lemma ConcatMapStep<T>(xs: seq<T>, i: nat, f: T -> Result<seq<string>, Exc>,
                         names: seq<string>, out: seq<string>)
    requires i < |xs| && ConcatMap(xs[..i], f).Success? && f(xs[i]).Success?
    requires out == names + ConcatMap(xs[..i], f).value
    ensures ConcatMap(xs[..i + 1], f).Success?
    ensures out + f(xs[i]).value == names + ConcatMap(xs[..i + 1], f).value
  {
    var init := xs[..i];
    var x := xs[i];
    assert xs[..i + 1] == init + [x];
    ConcatMapSnoc(init, x, f);
    var a := ConcatMap(init, f).value;
    var b := f(x).value;
    assert (names + a) + b == names + (a + b);
  }

  /** An item that raises ends the walk with its exception. */
  lemma ConcatMapRaises<T>(init: seq<T>, x: T, rest: seq<T>, f: T -> Result<seq<string>, Exc>)
    requires ConcatMap(init, f).Success? && f(x).Failure?
    ensures ConcatMap(init + [x] + rest, f) == Failure(f(x).error)
  {
    ConcatMapSnoc(init, x, f);
    ConcatMapStops(init + [x], rest, f);
  }

  /** An item that raises, after the earlier ones did not, ends the walk with its exception. */
  lemma ConcatMapRaisesAt<T>(xs: seq<T>, i: nat, f: T -> Result<seq<string>, Exc>)
    requires i < |xs| && ConcatMap(xs[..i], f).Success? && f(xs[i]).Failure?
    ensures ConcatMap(xs, f) == Failure(f(xs[i]).error)
  {
    var init, x, rest := xs[..i], xs[i], xs[i + 1..];
    ConcatMapRaises(init, x, rest, f);
    assert init + [x] + rest == xs;
  }
}
