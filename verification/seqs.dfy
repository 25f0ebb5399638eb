/**
 * What a Python loop that appends to a list computes: order-preserving
 * selection (`[x for x in s if keep(x)]`), element-wise mapping and the two
 * combined.
 */
module Seqs {
  import opened Wrappers

  /** `a` is `b` with some elements left out and the rest kept in order. */
  predicate IsSubsequence<T(==)>(a: seq<T>, b: seq<T>)
    decreases |b|
  {
    if a == [] then true
    else if b == [] then false
    else if a[0] == b[0] then IsSubsequence(a[1..], b[1..])
    else IsSubsequence(a, b[1..])
  }

  /** Every sequence is a subsequence of itself. */
  lemma {:induction false} SubsequenceOfItself<T>(s: seq<T>)
    ensures IsSubsequence(s, s)
  {
    if s != [] {
      SubsequenceOfItself(s[1..]);
    }
  }

  /** `[x for x in s if keep(x)]`. */
  function Filter<T(==,!new)>(s: seq<T>, keep: T -> bool): (r: seq<T>)
    ensures IsSubsequence(r, s)
    ensures forall x :: x in r <==> x in s && keep(x)
    ensures (forall x :: x in s ==> keep(x)) ==> r == s
    ensures |r| <= |s|
  {
    if s == [] then []
    else
      var rest := Filter(s[1..], keep);
      assert forall x :: x in s <==> x == s[0] || x in s[1..];
      if keep(s[0]) then [s[0]] + rest else rest
  }

  /** Appending one element extends the selection by that element when it is kept. */
  lemma {:induction false} FilterAppend<T(!new)>(s: seq<T>, x: T, keep: T -> bool)
    ensures Filter(s + [x], keep) == Filter(s, keep) + (if keep(x) then [x] else [])
  {
    if s != [] {
      assert (s + [x])[1..] == s[1..] + [x];
      FilterAppend(s[1..], x, keep);
    }
  }

  /** A prefix one longer is the shorter prefix and the next element. */
  lemma PrefixStep<T>(s: seq<T>, k: nat)
    requires 0 < k <= |s|
    ensures s[..k] == s[..k - 1] + [s[k - 1]]
  {
  }

  /** `[f(x) for x in s]`, built from the back as a loop appending to a list builds it. */
  function Map<A, B>(s: seq<A>, f: A -> B): (r: seq<B>)
    ensures |r| == |s|
  {
    if s == [] then [] else Map(s[..|s| - 1], f) + [f(s[|s| - 1])]
  }

  /** Element `k` of the mapped sequence is `f` of element `k`. */
  lemma {:induction false} MapAt<A, B>(s: seq<A>, f: A -> B, k: nat)
    requires k < |s|
    ensures Map(s, f)[k] == f(s[k])
  {
    if k < |s| - 1 {
      assert s[..|s| - 1][k] == s[k];
      MapAt(s[..|s| - 1], f, k);
    }
  }

  /** One more element of the input appends one element to the output. */
  lemma MapStep<A, B>(s: seq<A>, f: A -> B, i: nat)
    requires i < |s|
    ensures Map(s[..i + 1], f) == Map(s[..i], f) + [f(s[i])]
  {
    assert s[..i + 1][..i] == s[..i];
  }

  /** The values `f` gives for the elements it accepts, in order. */
  function Collect<A, B>(s: seq<A>, f: A -> Option<B>): (r: seq<B>)
    ensures |r| <= |s|
  {
    if s == [] then []
    else
      var rest := Collect(s[..|s| - 1], f);
      match f(s[|s| - 1])
      case Some(b) => rest + [b]
      case None => rest
  }

  lemma CollectStep<A, B>(s: seq<A>, f: A -> Option<B>, i: nat)
    requires i < |s|
    ensures Collect(s[..i + 1], f)
      == Collect(s[..i], f) + (match f(s[i]) case Some(b) => [b] case None => [])
  {
    assert s[..i + 1][..i] == s[..i];
  }

  /** Every collected value comes from some element. */
  lemma {:induction false} CollectedFrom<A, B>(s: seq<A>, f: A -> Option<B>, b: B)
    requires b in Collect(s, f)
    ensures exists k :: 0 <= k < |s| && f(s[k]) == Some(b)
  {
    var n := |s| - 1;
    if b !in Collect(s[..n], f) {
      assert f(s[n]) == Some(b);
    } else {
      CollectedFrom(s[..n], f, b);
      var k :| 0 <= k < n && f(s[..n][k]) == Some(b);
      assert s[..n][k] == s[k];
    }
  }

  /** Every value `f` gives is collected. */
  lemma {:induction false} CollectedAll<A, B>(s: seq<A>, f: A -> Option<B>, k: nat)
    requires k < |s| && f(s[k]).Some?
    ensures f(s[k]).value in Collect(s, f)
  {
    if k < |s| - 1 {
      assert s[..|s| - 1][k] == s[k];
      CollectedAll(s[..|s| - 1], f, k);
    }
  }

  /** Collecting over two runs collects over the first, then over the second. */
  lemma {:induction false} CollectAppend<A, B>(a: seq<A>, b: seq<A>, f: A -> Option<B>)
    ensures Collect(a + b, f) == Collect(a, f) + Collect(b, f)
    decreases |b|
  {
    if b == [] {
      assert a + b == a;
    } else {
      var b' := b[..|b| - 1];
      assert (a + b)[..|a + b| - 1] == a + b';
      assert (a + b)[|a + b| - 1] == b[|b| - 1];
      CollectAppend(a, b', f);
    }
  }
}
