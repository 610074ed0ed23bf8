/** Order-preserving selection on sequences. */
module Seqs {

  /** `a` can be obtained from `b` by deleting elements, keeping the order of the rest. */
  predicate IsSubsequence<T(==)>(a: seq<T>, b: seq<T>)
    decreases |b|
  {
    if |a| == 0 then true
    else if |b| == 0 then false
    else (a[|a| - 1] == b[|b| - 1] && IsSubsequence(a[..|a| - 1], b[..|b| - 1]))
         || IsSubsequence(a, b[..|b| - 1])
  }

  /** A subsequence is never longer than the sequence it is taken from. */
  lemma {:induction false} SubsequenceLength<T>(a: seq<T>, b: seq<T>)
    requires IsSubsequence(a, b)
    ensures |a| <= |b|
    decreases |b|
  {
    if |a| > 0 {
      if a[|a| - 1] == b[|b| - 1] && IsSubsequence(a[..|a| - 1], b[..|b| - 1]) {
        SubsequenceLength(a[..|a| - 1], b[..|b| - 1]);
      } else {
        SubsequenceLength(a, b[..|b| - 1]);
      }
    }
  }

  lemma {:induction false} SubsequenceReflexive<T>(a: seq<T>)
    ensures IsSubsequence(a, a)
    decreases |a|
  {
    if |a| > 0 {
      SubsequenceReflexive(a[..|a| - 1]);
    }
  }

  /** Elements appended after the containing sequence can be skipped. */
  lemma {:induction false} SubsequenceExtendRight<T>(a: seq<T>, b: seq<T>, c: seq<T>)
    requires IsSubsequence(a, b)
    ensures IsSubsequence(a, b + c)
    decreases |c|
  {
    if |c| > 0 {
      assert (b + c)[..|b + c| - 1] == b + c[..|c| - 1];
      SubsequenceExtendRight(a, b, c[..|c| - 1]);
    } else {
      assert b + c == b;
    }
  }

  /** Elements prepended before the containing sequence can be skipped. */
  lemma {:induction false} SubsequenceExtendLeft<T>(a: seq<T>, c: seq<T>, b: seq<T>)
    requires IsSubsequence(a, b)
    ensures IsSubsequence(a, c + b)
    decreases |b|
  {
    if |a| > 0 {
      var cb := c + b;
      assert cb[|cb| - 1] == b[|b| - 1];
      assert cb[..|cb| - 1] == c + b[..|b| - 1];
      if a[|a| - 1] == b[|b| - 1] && IsSubsequence(a[..|a| - 1], b[..|b| - 1]) {
        SubsequenceExtendLeft(a[..|a| - 1], c, b[..|b| - 1]);
      } else {
        SubsequenceExtendLeft(a, c, b[..|b| - 1]);
      }
    }
  }

  /** The same element put in front of both sides keeps a subsequence a subsequence. */
  lemma {:induction false} SubsequencePrepend<T>(x: T, a: seq<T>, b: seq<T>)
    requires IsSubsequence(a, b)
    ensures IsSubsequence([x] + a, [x] + b)
    decreases |b|
  {
    var xa, xb := [x] + a, [x] + b;
    if |a| == 0 {
      SubsequenceReflexive([x]);
      SubsequenceExtendRight([x], [x], b);
      assert xa == [x];
    } else {
      assert xa[|xa| - 1] == a[|a| - 1] && xa[..|xa| - 1] == [x] + a[..|a| - 1];
      assert xb[|xb| - 1] == b[|b| - 1] && xb[..|xb| - 1] == [x] + b[..|b| - 1];
      if a[|a| - 1] == b[|b| - 1] && IsSubsequence(a[..|a| - 1], b[..|b| - 1]) {
        SubsequencePrepend(x, a[..|a| - 1], b[..|b| - 1]);
      } else {
        SubsequencePrepend(x, a, b[..|b| - 1]);
      }
    }
  }

  /** Every contiguous slice is a subsequence. */
  lemma SubsequenceOfSlice<T>(b: seq<T>, i: int, j: int)
    requires 0 <= i <= j <= |b|
    ensures IsSubsequence(b[i..j], b)
  {
    SubsequenceReflexive(b[i..j]);
    SubsequenceExtendLeft(b[i..j], b[..i], b[i..j]);
    assert b[..i] + b[i..j] == b[..j];
    SubsequenceExtendRight(b[i..j], b[..j], b[j..]);
    assert b[..j] + b[j..] == b;
  }

  lemma {:induction false} SubsequenceTransitive<T>(a: seq<T>, b: seq<T>, c: seq<T>)
    requires IsSubsequence(a, b) && IsSubsequence(b, c)
    ensures IsSubsequence(a, c)
    decreases |c|
  {
    SubsequenceLength(a, b);
    if |a| > 0 {
      var a', b', c' := a[..|a| - 1], b[..|b| - 1], c[..|c| - 1];
      if b[|b| - 1] == c[|c| - 1] && IsSubsequence(b', c') {
        if a[|a| - 1] == b[|b| - 1] && IsSubsequence(a', b') {
          SubsequenceTransitive(a', b', c');
        } else {
          SubsequenceTransitive(a, b', c');
        }
      } else {
        SubsequenceTransitive(a, b, c');
      }
    }
  }
}
