/** The list comprehension `[x for x in xs if not omitted(x)]` over strings, and what it keeps. */
module Filter {
  /** `[x for x in xs if not omitted(x)]`. */
  function Drop(xs: seq<string>, omitted: string -> bool): seq<string> {
    if |xs| == 0 then []
    else (if omitted(xs[0]) then [] else [xs[0]]) + Drop(xs[1..], omitted)
  }

  /** `a` is `b` with some elements left out, the others kept in their order. */
  predicate IsSubsequence(a: seq<string>, b: seq<string>) {
    if |b| == 0 then |a| == 0
    else (|a| > 0 && a[0] == b[0] && IsSubsequence(a[1..], b[1..])) || IsSubsequence(a, b[1..])
  }

  /** The kept elements are elements of `xs`, unchanged and in their original order. */
  lemma {:induction false} DropKeepsOrder(xs: seq<string>, omitted: string -> bool)
    ensures IsSubsequence(Drop(xs, omitted), xs)
  {
    if |xs| > 0 {
      DropKeepsOrder(xs[1..], omitted);
      var r := Drop(xs, omitted);
      if !omitted(xs[0]) {
        assert r == [xs[0]] + Drop(xs[1..], omitted);
        assert r[0] == xs[0] && r[1..] == Drop(xs[1..], omitted);
        assert IsSubsequence(r[1..], xs[1..]);
      } else {
        assert r == Drop(xs[1..], omitted);
        assert IsSubsequence(r, xs[1..]);
      }
    }
  }

  /** An element survives exactly when it is in `xs` and the filter does not reject it. */
  lemma {:induction false} DropMembership(xs: seq<string>, omitted: string -> bool, x: string)
    ensures x in Drop(xs, omitted) <==> x in xs && !omitted(x)
  {
    if |xs| > 0 {
      DropMembership(xs[1..], omitted, x);
      assert xs == [xs[0]] + xs[1..];
    }
  }

  /** The filter looks at one element at a time, so it distributes over concatenation. */
  lemma {:induction false} DropAppend(a: seq<string>, b: seq<string>, omitted: string -> bool)
    ensures Drop(a + b, omitted) == Drop(a, omitted) + Drop(b, omitted)
  {
    if |a| == 0 {
      assert a + b == b;
    } else {
      assert (a + b)[0] == a[0] && (a + b)[1..] == a[1..] + b;
      DropAppend(a[1..], b, omitted);
    }
  }

  /** Filtering a second time changes nothing. */
  lemma {:induction false} DropIdempotent(xs: seq<string>, omitted: string -> bool)
    ensures Drop(Drop(xs, omitted), omitted) == Drop(xs, omitted)
  {
    if |xs| > 0 {
      DropIdempotent(xs[1..], omitted);
      var head := if omitted(xs[0]) then [] else [xs[0]];
      DropAppend(head, Drop(xs[1..], omitted), omitted);
      assert Drop(head, omitted) == head;
    }
  }

  lemma {:induction false} DropShorter(xs: seq<string>, omitted: string -> bool)
    ensures |Drop(xs, omitted)| <= |xs|
  {
    if |xs| > 0 { DropShorter(xs[1..], omitted); }
  }

  /** The filter leaves `xs` alone exactly when it rejects none of its elements. */
  lemma {:induction false} DropIsIdentityIff(xs: seq<string>, omitted: string -> bool)
    ensures Drop(xs, omitted) == xs <==> forall k | 0 <= k < |xs| :: !omitted(xs[k])
  {
    if |xs| > 0 {
      DropIsIdentityIff(xs[1..], omitted);
      if omitted(xs[0]) {
        DropShorter(xs[1..], omitted);
        assert |Drop(xs, omitted)| < |xs|;
      } else {
        assert Drop(xs, omitted) == [xs[0]] + Drop(xs[1..], omitted);
        assert xs == [xs[0]] + xs[1..];
        assert (forall k | 0 <= k < |xs| :: !omitted(xs[k])) <==>
          (forall k | 0 <= k < |xs[1..]| :: !omitted(xs[1..][k]));
      }
    }
  }
}
