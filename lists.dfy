/** Order-preserving selection over sequences: the crawlers' "append the
    successful results in order" loops and filtered list comprehensions, and
    the concatenation of per-page results. */
module Lists {
  import opened Cascade

  /** The one-element list for `Some`, the empty list for `None`. */
  function Kept<Y>(o: Option<Y>): seq<Y> {
    match o
    case Some(y) => [y]
    case None => []
  }

  /** The `Some` results of `f` over the first `n` elements of `xs`, in order. */
  function KeepFirst<X, Y>(xs: seq<X>, n: nat, f: X -> Option<Y>): (ys: seq<Y>)
    requires n <= |xs|
    ensures |ys| <= n
  {
    if n == 0 then [] else KeepFirst(xs, n - 1, f) + Kept(f(xs[n - 1]))
  }

  /** The `Some` results of `f` over `xs`, in the order of `xs`. */
  function Keep<X, Y>(xs: seq<X>, f: X -> Option<Y>): (ys: seq<Y>)
    ensures |ys| <= |xs|
  {
    KeepFirst(xs, |xs|, f)
  }

  /** The loop both crawlers run over a page's rows: apply `f` to each entry
      in order and append what it returns, skipping the failures. */
  method KeepEach<X, Y>(xs: seq<X>, f: X -> Option<Y>) returns (ys: seq<Y>)
    ensures ys == Keep(xs, f)
  {
    ys := [];
    var i := 0;
    while i < |xs|
      invariant 0 <= i <= |xs|
      invariant ys == KeepFirst(xs, i, f)
    {
      var found := f(xs[i]);
      if found.Some? {
        ys := ys + [found.value];
      }
      i := i + 1;
    }
  }

  /** The positions among the first `n` of `xs` at which `f` succeeds,
      ascending: `KeepFirst` reads `f` at exactly these positions, so it drops
      every failure, keeps every success and never reorders. */
  function KeptIndices<X, Y>(xs: seq<X>, n: nat, f: X -> Option<Y>): (idx: seq<nat>)
    requires n <= |xs|
    ensures |idx| == |KeepFirst(xs, n, f)|
    ensures forall k :: 0 <= k < |idx| ==> idx[k] < n && f(xs[idx[k]]) == Some(KeepFirst(xs, n, f)[k])
    ensures forall k, l :: 0 <= k < l < |idx| ==> idx[k] < idx[l]
    ensures forall i :: 0 <= i < n && f(xs[i]).Some? ==> i in idx
  {
    if n == 0 then []
    else KeptIndices(xs, n - 1, f) + (if f(xs[n - 1]).Some? then [n - 1] else [])
  }

  /** `xss[0] + xss[1] + ...`: the result lists of successive pages, joined in page order. */
  function Flatten<Y>(xss: seq<seq<Y>>): seq<Y> {
    if xss == [] then [] else xss[0] + Flatten(xss[1..])
  }

  /** `xs` can be obtained from `ys` by deleting entries, keeping the order of
      the rest. */
  predicate IsSubsequence<T(==)>(xs: seq<T>, ys: seq<T>)
    decreases |ys|
  {
    xs == [] || (ys != [] && ((xs[0] == ys[0] && IsSubsequence(xs[1..], ys[1..])) || IsSubsequence(xs, ys[1..])))
  }
}
