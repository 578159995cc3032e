/** Order-preserving embeddings of one sequence into another. */
module Subsequences {

  /** `f` maps the positions of `a` to increasing positions of `b` that hold the same elements. */
  ghost predicate Embeds<T>(a: seq<T>, b: seq<T>, f: seq<nat>) {
    && |f| == |a|
    && (forall i | 0 <= i < |f| :: f[i] < |b| && a[i] == b[f[i]])
    && (forall i, j | 0 <= i < j < |f| :: f[i] < f[j])
  }

  ghost predicate IsSubsequence<T>(a: seq<T>, b: seq<T>) { exists f: seq<nat> :: Embeds(a, b, f) }

  lemma Itself<T>(a: seq<T>)
    ensures IsSubsequence(a, a)
  {
    var f: seq<nat> := seq(|a|, i => i);
    assert Embeds(a, a, f);
  }

  lemma Nothing<T>(b: seq<T>)
    ensures IsSubsequence([], b)
  {
    assert Embeds([], b, []);
  }

  /** Dropping an element of a subsequence leaves a subsequence. */
  lemma Drop<T>(a: seq<T>, k: nat, b: seq<T>)
    requires k < |a| && IsSubsequence(a, b)
    ensures IsSubsequence(a[..k] + a[k + 1..], b)
  {
    var f: seq<nat> :| Embeds(a, b, f);
    assert Embeds(a[..k] + a[k + 1..], b, f[..k] + f[k + 1..]);
  }

  /** Embeddings put side by side embed the concatenation. */
  lemma Concat<T>(a1: seq<T>, b1: seq<T>, a2: seq<T>, b2: seq<T>)
    requires IsSubsequence(a1, b1) && IsSubsequence(a2, b2)
    ensures IsSubsequence(a1 + a2, b1 + b2)
  {
    var f1: seq<nat> :| Embeds(a1, b1, f1);
    var f2: seq<nat> :| Embeds(a2, b2, f2);
    var f := f1 + seq(|f2|, i requires 0 <= i < |f2| => |b1| + f2[i]);
    assert Embeds(a1 + a2, b1 + b2, f);
  }

  lemma InSuffix<T>(a: seq<T>, b: seq<T>, n: nat)
    requires n <= |b| && IsSubsequence(a, b[n..])
    ensures IsSubsequence(a, b)
  {
    Nothing(b[..n]);
    Concat([], b[..n], a, b[n..]);
    assert [] + a == a && b[..n] + b[n..] == b;
  }

  lemma HeadKept<T>(a: seq<T>, b: seq<T>)
    requires b != [] && IsSubsequence(a, b[1..])
    ensures IsSubsequence(b[..1] + a, b)
  {
    Itself(b[..1]);
    Concat(b[..1], b[..1], a, b[1..]);
    assert b[..1] + b[1..] == b;
  }
}
