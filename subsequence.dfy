// Order-preserving subsequences of a sequence: what is left of a sequence
// after deleting some of its elements, nothing reordered and nothing added.

module Subsequence {

  /** r is obtained from s by deleting elements and keeping the rest in order. */
  ghost predicate IsSubsequence<T>(r: seq<T>, s: seq<T>)
    decreases |s|
  {
    if r == [] then true
    else if s == [] then false
    else (r[0] == s[0] && IsSubsequence(r[1..], s[1..])) || IsSubsequence(r, s[1..])
  }

  lemma {:induction false} SubsequenceLength<T>(r: seq<T>, s: seq<T>)
    requires IsSubsequence(r, s)
    ensures |r| <= |s|
    decreases |s|
  {
    if r != [] {
      if r[0] == s[0] && IsSubsequence(r[1..], s[1..]) {
        SubsequenceLength(r[1..], s[1..]);
      } else {
        SubsequenceLength(r, s[1..]);
      }
    }
  }

  lemma {:induction false} SubsequenceMembers<T>(r: seq<T>, s: seq<T>)
    requires IsSubsequence(r, s)
    ensures forall x :: x in r ==> x in s
    decreases |s|
  {
    if r != [] {
      if r[0] == s[0] && IsSubsequence(r[1..], s[1..]) {
        SubsequenceMembers(r[1..], s[1..]);
        forall x | x in r ensures x in s {
          if x != r[0] {
            assert x in r[1..];
          }
        }
      } else {
        SubsequenceMembers(r, s[1..]);
      }
    }
  }

  lemma {:induction false} SubsequenceReflexive<T>(s: seq<T>)
    ensures IsSubsequence(s, s)
    decreases |s|
  {
    if s != [] {
      SubsequenceReflexive(s[1..]);
    }
  }

  /** Putting more elements in front of s keeps r a subsequence. */
  lemma {:induction false} SubsequencePrepend<T>(r: seq<T>, x: seq<T>, y: seq<T>)
    requires IsSubsequence(r, y)
    ensures IsSubsequence(r, x + y)
    decreases |x|
  {
    if x == [] {
      assert x + y == y;
    } else if r != [] {
      SubsequencePrepend(r, x[1..], y);
      assert (x + y)[1..] == x[1..] + y;
    }
  }

  lemma {:induction false} SubsequenceConcat<T>(a: seq<T>, x: seq<T>, b: seq<T>, y: seq<T>)
    requires IsSubsequence(a, x) && IsSubsequence(b, y)
    ensures IsSubsequence(a + b, x + y)
    decreases |x|
  {
    if a == [] {
      assert a + b == b;
      SubsequencePrepend(b, x, y);
    } else {
      assert (a + b)[0] == a[0] && (x + y)[0] == x[0];
      assert (x + y)[1..] == x[1..] + y;
      if a[0] == x[0] && IsSubsequence(a[1..], x[1..]) {
        SubsequenceConcat(a[1..], x[1..], b, y);
        assert (a + b)[1..] == a[1..] + b;
      } else {
        SubsequenceConcat(a, x[1..], b, y);
      }
    }
  }

  /** Dropping the first element of r keeps it a subsequence of s. */
  lemma {:induction false} SubsequenceTail<T>(r: seq<T>, s: seq<T>)
    requires IsSubsequence(r, s) && r != []
    ensures IsSubsequence(r[1..], s)
    decreases |s|
  {
    if r[0] == s[0] && IsSubsequence(r[1..], s[1..]) {
      if r[1..] != [] {
        SubsequencePrepend(r[1..], s[..1], s[1..]);
        assert s[..1] + s[1..] == s;
      }
    } else {
      SubsequenceTail(r, s[1..]);
    }
  }

  /** When r and s start with the same element, the rest of r lies in the rest of s. */
  lemma SubsequenceDropFirst<T>(r: seq<T>, s: seq<T>)
    requires IsSubsequence(r, s) && r != [] && s != [] && r[0] == s[0]
    ensures IsSubsequence(r[1..], s[1..])
  {
    if !IsSubsequence(r[1..], s[1..]) {
      SubsequenceTail(r, s[1..]);
    }
  }

  /** Without its last element, r lies in s without its last element. */
  lemma {:induction false} SubsequenceDropLast<T>(r: seq<T>, s: seq<T>)
    requires IsSubsequence(r, s) && r != []
    ensures s != [] && IsSubsequence(r[..|r| - 1], s[..|s| - 1])
    decreases |s|
  {
    if r[0] == s[0] && IsSubsequence(r[1..], s[1..]) {
      if |r| > 1 {
        SubsequenceDropLast(r[1..], s[1..]);
        assert r[..|r| - 1][1..] == r[1..][..|r| - 2];
        assert s[..|s| - 1][1..] == s[1..][..|s| - 2];
      }
    } else {
      SubsequenceDropLast(r, s[1..]);
      assert s[..|s| - 1][1..] == s[1..][..|s| - 2];
      if |r| > 1 {
        assert r[..|r| - 1] != [];
      }
    }
  }

  /** The last element alone is a subsequence. */
  lemma {:induction false} LastIsSubsequence<T>(s: seq<T>)
    requires s != []
    ensures IsSubsequence([s[|s| - 1]], s)
    decreases |s|
  {
    if |s| > 1 {
      LastIsSubsequence(s[1..]);
    } else {
      assert [s[0]][1..] == [];
    }
  }

  /** The two endpoints alone are a subsequence. */
  lemma EndpointsAreSubsequence<T>(s: seq<T>)
    requires |s| >= 2
    ensures IsSubsequence([s[0], s[|s| - 1]], s)
  {
    LastIsSubsequence(s[1..]);
    assert [s[0], s[|s| - 1]][1..] == [s[1..][|s| - 2]];
  }

  /** Two sequences glued at a shared element are the two halves of the result. */
  lemma GluedHalves<T>(left: seq<T>, right: seq<T>, r: seq<T>)
    requires 1 <= |left| && 1 <= |right| && left[|left| - 1] == right[0]
    requires r == left[..|left| - 1] + right
    ensures r[..|left|] == left && r[|left| - 1..] == right
  {
    assert r[..|left|] == left[..|left| - 1] + [right[0]];
    assert left == left[..|left| - 1] + [left[|left| - 1]];
  }

  /**
   * Subsequences of the two halves of s that overlap at index k, glued at
   * their shared element, form a subsequence of s.
   */
  lemma SubsequenceGlued<T>(left: seq<T>, right: seq<T>, s: seq<T>, k: nat)
    requires k < |s| && left != []
    requires IsSubsequence(left, s[..k + 1]) && IsSubsequence(right, s[k..])
    ensures IsSubsequence(left[..|left| - 1] + right, s)
  {
    SubsequenceDropLast(left, s[..k + 1]);
    assert s[..k + 1][..k] == s[..k];
    SubsequenceConcat(left[..|left| - 1], s[..k], right, s[k..]);
    assert s[..k] + s[k..] == s;
  }
}
