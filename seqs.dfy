/** Sequence helpers used to state what the list operations do to the node chain. */
module Seqs {

  /** The elements of `s` in the opposite order. */
  function Reverse<X>(s: seq<X>): (r: seq<X>)
    ensures |r| == |s|
  {
    if |s| == 0 then [] else [s[|s| - 1]] + Reverse(s[..|s| - 1])
  }

  lemma {:induction false} ReverseIndex<X>(s: seq<X>, k: nat)
    requires k < |s|
    ensures Reverse(s)[k] == s[|s| - 1 - k]
  {
    if k > 0 {
      ReverseIndex(s[..|s| - 1], k - 1);
    }
  }

  /** Reversing twice gives back the original order. */
  lemma ReverseInvolutive<X>(s: seq<X>)
    ensures Reverse(Reverse(s)) == s
  {
    forall k | 0 <= k < |s|
      ensures Reverse(Reverse(s))[k] == s[k]
    {
      ReverseIndex(Reverse(s), k);
      ReverseIndex(s, |s| - 1 - k);
    }
  }

  /** Reversal keeps the same elements. */
  lemma {:induction false} ReverseMembers<X>(s: seq<X>)
    ensures forall x :: x in Reverse(s) <==> x in s
  {
    if |s| > 0 {
      ReverseMembers(s[..|s| - 1]);
      assert s == s[..|s| - 1] + [s[|s| - 1]];
    }
  }

  /** No element occurs twice. */
  ghost predicate Distinct<X>(s: seq<X>) {
    forall i, j :: 0 <= i < j < |s| ==> s[i] != s[j]
  }

  /** The elements of `s` that do not occur in `xs`, in their order in `s`. */
  ghost function Without<X>(s: seq<X>, xs: seq<X>): (r: seq<X>)
    ensures |r| <= |s|
  {
    if |s| == 0 then []
    else if s[0] in xs then Without(s[1..], xs)
    else [s[0]] + Without(s[1..], xs)
  }

  /** What is left is exactly what occurs in `s` and not in `xs`. */
  lemma {:induction false} WithoutMembers<X>(s: seq<X>, xs: seq<X>)
    ensures forall x :: x in Without(s, xs) <==> x in s && x !in xs
  {
    if |s| > 0 {
      WithoutMembers(s[1..], xs);
      assert s == [s[0]] + s[1..];
    }
  }

  /** An element of `s` outside `xs` is kept. */
  lemma WithoutKeeps<X>(s: seq<X>, xs: seq<X>, x: X)
    requires x in s && x !in xs
    ensures x in Without(s, xs)
  {
    WithoutMembers(s, xs);
  }

  /** Whatever is kept comes from `s`. */
  lemma {:induction false} WithoutFrom<X>(s: seq<X>, xs: seq<X>, i: nat)
    requires i < |Without(s, xs)|
    ensures Without(s, xs)[i] in s
  {
    assert s == [s[0]] + s[1..];
    if s[0] in xs {
      WithoutFrom(s[1..], xs, i);
    } else if i > 0 {
      WithoutFrom(s[1..], xs, i - 1);
    }
  }

  /** In a sequence without duplicates, an element does not occur before its position. */
  lemma DistinctNotBefore<X>(s: seq<X>, j: nat)
    requires Distinct(s) && j < |s|
    ensures s[j] !in s[..j]
  {
  }

  /** Removing one more element `y` from what is left equals removing `xs + [y]` at once. */
  lemma {:induction false} WithoutSnoc<X>(s: seq<X>, xs: seq<X>, y: X)
    ensures Without(Without(s, xs), [y]) == Without(s, xs + [y])
  {
    if |s| > 0 {
      WithoutSnoc(s[1..], xs, y);
      if s[0] !in xs {
        assert ([s[0]] + Without(s[1..], xs))[1..] == Without(s[1..], xs);
      }
    }
  }

  /**
   * One more step of removing the elements of `xs` in turn: if the next one, `xs[j]`, sits at
   * position `k` of what is left, dropping that position leaves `s` without `xs[..j + 1]`.
   */
  lemma WithoutStep<X>(s: seq<X>, xs: seq<X>, j: nat, k: nat)
    requires j < |xs| && Distinct(Without(s, xs[..j]))
    requires k < |Without(s, xs[..j])| && Without(s, xs[..j])[k] == xs[j]
    ensures Without(s, xs[..j + 1]) == Without(s, xs[..j])[..k] + Without(s, xs[..j])[k + 1..]
  {
    assert xs[..j + 1] == xs[..j] + [xs[j]];
    WithoutOne(Without(s, xs[..j]), k);
    WithoutSnoc(s, xs[..j], xs[j]);
  }

  /** In a sequence without duplicates, removing the element at `k` is removing that value. */
  lemma {:induction false} WithoutOne<X>(s: seq<X>, k: nat)
    requires Distinct(s) && k < |s|
    ensures Without(s, [s[k]]) == s[..k] + s[k + 1..]
  {
    if k == 0 {
      assert s[0] !in s[1..];
      WithoutNone(s[1..], [s[0]]);
    } else {
      WithoutOne(s[1..], k - 1);
      assert s[1..][k - 1] == s[k];
      assert s[..k] + s[k + 1..] == [s[0]] + (s[1..][..k - 1] + s[1..][k..]);
    }
  }

  /** Removing values that do not occur leaves the sequence as it is. */
  lemma {:induction false} WithoutNone<X>(s: seq<X>, xs: seq<X>)
    requires forall i :: 0 <= i < |s| ==> s[i] !in xs
    ensures Without(s, xs) == s
  {
    if |s| > 0 {
      assert s[0] in s;
      WithoutNone(s[1..], xs);
      assert s == [s[0]] + s[1..];
    }
  }
}
