/** Taking an element out of a sequence, and putting one in. */
module Sequences {
  function Without<T>(s: seq<T>, i: nat): (r: seq<T>)
    requires i < |s|
    ensures |r| == |s| - 1
    ensures forall k {:trigger r[k]} :: 0 <= k < |r| ==> r[k] == s[if k < i then k else k + 1]
  {
    seq(|s| - 1, k requires 0 <= k < |s| - 1 => s[if k < i then k else k + 1])
  }

  function Inserted<T>(s: seq<T>, i: nat, x: T): (r: seq<T>)
    requires i <= |s|
    ensures |r| == |s| + 1
    ensures forall k {:trigger r[k]} :: 0 <= k < |r| ==> r[k] == if k < i then s[k] else if k == i then x else s[k - 1]
  {
    seq(|s| + 1, k requires 0 <= k < |s| + 1 => if k < i then s[k] else if k == i then x else s[k - 1])
  }

  lemma WithoutSlices<T>(s: seq<T>, i: nat)
    requires i < |s|
    ensures Without(s, i) == s[..i] + s[i + 1..]
    ensures multiset(Without(s, i)) == multiset(s) - multiset{s[i]}
  {
    assert s == s[..i] + [s[i]] + s[i + 1..];
  }

  lemma InsertedSlices<T>(s: seq<T>, i: nat, x: T)
    requires i <= |s|
    ensures Inserted(s, i, x) == s[..i] + [x] + s[i..]
    ensures multiset(Inserted(s, i, x)) == multiset(s) + multiset{x}
  {
    assert s == s[..i] + s[i..];
  }

  /** An element at two places is in the multiset twice. */
  lemma TwiceIn<T>(s: seq<T>, i: nat, j: nat)
    requires i < j < |s| && s[i] == s[j]
    ensures multiset(s)[s[i]] >= 2
  {
    WithoutSlices(s, i);
    assert Without(s, i)[j - 1] == s[i];
  }

  lemma TwiceOut<T>(s: seq<T>, x: T) returns (i: nat, j: nat)
    requires multiset(s)[x] >= 2
    ensures i < j < |s| && s[i] == s[j] == x
  {
    assert x in multiset(s);
    i :| 0 <= i < |s| && s[i] == x;
    WithoutSlices(s, i);
    assert x in multiset(Without(s, i));
    var k :| 0 <= k < |s| - 1 && Without(s, i)[k] == x;
    j := if k < i then k else k + 1;
    if j < i { i, j := j, i; }
  }

  // ----- permutations -----

  predicate Permutation(p: seq<nat>, n: nat) {
    multiset(p) == multiset(seq(n, i => i))
  }

  predicate Within(p: seq<nat>, n: nat) {
    forall k :: 0 <= k < |p| ==> p[k] < n
  }

  function Permuted<T>(s: seq<T>, p: seq<nat>): (r: seq<T>)
    requires Within(p, |s|)
  {
    seq(|p|, k requires 0 <= k < |p| => s[p[k]])
  }

  lemma PermutationWithin(p: seq<nat>, n: nat)
    requires Permutation(p, n)
    ensures Within(p, n)
  {
    var q := seq(n, i => i);
    forall k | 0 <= k < |p| ensures p[k] < n {
      assert p[k] in multiset(q);
      var j :| 0 <= j < n && q[j] == p[k];
    }
  }

  lemma PickedWithout<T>(s: seq<T>, p: seq<nat>, i: nat)
    requires Within(p, |s|) && i < |p|
    ensures Within(Without(p, i), |s|)
    ensures multiset(Permuted(s, p)) == multiset(Permuted(s, Without(p, i))) + multiset{s[p[i]]}
  {
    assert Without(Permuted(s, p), i) == Permuted(s, Without(p, i));
    WithoutSlices(Permuted(s, p), i);
    assert s[p[i]] == Permuted(s, p)[i];
  }

  lemma {:induction false} SamePicks<T>(s: seq<T>, p: seq<nat>, q: seq<nat>)
    requires Within(p, |s|) && Within(q, |s|) && multiset(p) == multiset(q)
    ensures multiset(Permuted(s, p)) == multiset(Permuted(s, q))
    decreases |p|
  {
    assert |p| == |multiset(p)| == |multiset(q)| == |q|;
    if p != [] {
      assert p[0] in multiset(q);
      var i :| 0 <= i < |q| && q[i] == p[0];
      WithoutSlices(p, 0);
      WithoutSlices(q, i);
      PickedWithout(s, p, 0);
      PickedWithout(s, q, i);
      SamePicks(s, Without(p, 0), Without(q, i));
    }
  }

  lemma PermutedSame<T>(s: seq<T>, p: seq<nat>)
    requires Permutation(p, |s|)
    ensures Within(p, |s|) && multiset(Permuted(s, p)) == multiset(s)
  {
    var q := seq(|s|, i => i);
    PermutationWithin(p, |s|);
    SamePicks(s, p, q);
    assert Permuted(s, q) == s;
  }
}
