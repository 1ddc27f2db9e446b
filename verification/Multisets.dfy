/** Sequences that are permutations of one another. */
module Multisets {
  lemma TakeOut<T>(s: seq<T>, k: nat)
    requires k < |s|
    ensures multiset(s) == multiset{s[k]} + multiset(s[..k] + s[k + 1..])
  {
    assert s == s[..k] + [s[k]] + s[k + 1..];
  }

  lemma HeadOut<T>(s: seq<T>)
    requires s != []
    ensures multiset(s) == multiset{s[0]} + multiset(s[1..])
  {
    TakeOut(s, 0);
    assert s[..0] + s[1..] == s[1..];
  }

  lemma Cancel<T>(x: T, a: multiset<T>, b: multiset<T>)
    requires multiset{x} + a == multiset{x} + b
    ensures a == b
  {
    assert a == (multiset{x} + a) - multiset{x};
    assert b == (multiset{x} + b) - multiset{x};
  }

  /** The tails of two permutations with the same head. */
  lemma SameTails<T>(a: seq<T>, b: seq<T>)
    requires a != [] && b != [] && a[0] == b[0] && multiset(a) == multiset(b)
    ensures multiset(a[1..]) == multiset(b[1..])
  {
    HeadOut(a);
    HeadOut(b);
    Cancel(a[0], multiset(a[1..]), multiset(b[1..]));
  }

  lemma SameMembers<T>(a: seq<T>, b: seq<T>)
    requires multiset(a) == multiset(b)
    ensures |a| == |b| && forall x :: x in a <==> x in b
  {
    assert |multiset(a)| == |multiset(b)|;
    assert forall x :: x in a <==> x in multiset(a);
    assert forall x :: x in b <==> x in multiset(b);
  }

  /** Applying a function to every element keeps permutations permutations. */
  lemma {:induction false} SameImages<S, T>(f: S -> T, a: seq<S>, b: seq<S>, fa: seq<T>, fb: seq<T>)
    requires multiset(a) == multiset(b)
    requires |fa| == |a| && forall k :: 0 <= k < |a| ==> fa[k] == f(a[k])
    requires |fb| == |b| && forall k :: 0 <= k < |b| ==> fb[k] == f(b[k])
    ensures multiset(fa) == multiset(fb)
    decreases |a|
  {
    SameMembers(a, b);
    if a != [] {
      assert a[0] in b;
      var k :| 0 <= k < |b| && b[k] == a[0];
      HeadOut(a);
      TakeOut(b, k);
      HeadOut(fa);
      TakeOut(fb, k);
      var others, images := b[..k] + b[k + 1..], fb[..k] + fb[k + 1..];
      Cancel(a[0], multiset(a[1..]), multiset(others));
      SameImages(f, a[1..], others, fa[1..], images);
    }
  }
}
