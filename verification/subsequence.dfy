/** Order-preserving subsequences, shared by the filters of the model. */
module Subsequence {

  /** True iff `a` can be obtained from `b` by deleting elements (greedy matching). */
  predicate IsSubsequence<T(==)>(a: seq<T>, b: seq<T>)
    decreases |b|
  {
    if |a| == 0 then true
    else if |b| == 0 then false
    else if a[0] == b[0] then IsSubsequence(a[1..], b[1..])
    else IsSubsequence(a, b[1..])
  }

  /** Dropping the head of a subsequence keeps it a subsequence. */
  lemma {:induction false} TailIsSubsequence<T>(a: seq<T>, b: seq<T>)
    requires |a| > 0 && IsSubsequence(a, b)
    ensures IsSubsequence(a[1..], b)
    decreases |b|, 0
  {
    if |a[1..]| > 0 {
      assert b == [b[0]] + b[1..];
      if a[0] != b[0] {
        TailIsSubsequence(a, b[1..]);
      }
      ConsKeepsSubsequence(a[1..], b[1..], b[0]);
    }
  }

  /** A subsequence of `b` is a subsequence of `[x] + b`. */
  lemma {:induction false} ConsKeepsSubsequence<T>(a: seq<T>, b: seq<T>, x: T)
    requires IsSubsequence(a, b)
    ensures IsSubsequence(a, [x] + b)
    decreases |b|, 1
  {
    var xb := [x] + b;
    assert xb[1..] == b;
    if |a| > 0 && a[0] == x {
      TailIsSubsequence(a, b);
    }
  }

  /** Every prefix of `a` is a subsequence of `a`. */
  lemma {:induction false} PrefixIsSubsequence<T>(a: seq<T>, j: nat)
    requires j <= |a|
    ensures IsSubsequence(a[..j], a)
    decreases |a|
  {
    if j > 0 {
      PrefixIsSubsequence(a[1..], j - 1);
      assert a[..j][1..] == a[1..][..j - 1];
    }
  }

  /** The subsequence relation is transitive. */
  lemma {:induction false} SubsequenceTransitive<T>(a: seq<T>, b: seq<T>, c: seq<T>)
    requires IsSubsequence(a, b) && IsSubsequence(b, c)
    ensures IsSubsequence(a, c)
    decreases |c|
  {
    if |a| > 0 {
      assert |b| > 0 && |c| > 0;
      if b[0] == c[0] {
        if a[0] == b[0] {
          SubsequenceTransitive(a[1..], b[1..], c[1..]);
        } else {
          SubsequenceTransitive(a, b[1..], c[1..]);
        }
      } else {
        SubsequenceTransitive(a, b, c[1..]);
        assert c == [c[0]] + c[1..];
        ConsKeepsSubsequence(a, c[1..], c[0]);
      }
    }
  }

  /** Every element of a subsequence occurs in the longer sequence. */
  lemma {:induction false} SubsequenceMembers<T>(a: seq<T>, b: seq<T>, k: nat)
    requires IsSubsequence(a, b) && k < |a|
    ensures a[k] in b
    decreases |b|
  {
    assert |b| > 0;
    if a[0] == b[0] {
      if k > 0 {
        SubsequenceMembers(a[1..], b[1..], k - 1);
      }
    } else {
      SubsequenceMembers(a, b[1..], k);
    }
  }
}
