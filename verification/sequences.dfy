/** Facts about sequence concatenation and slicing, stated once so that proofs about
    the streams and the LZ77 codec can cite them instead of re-deriving them. */
module Sequences {

  lemma AppendAssoc<T>(a: seq<T>, b: seq<T>, c: seq<T>)
    ensures (a + b) + c == a + (b + c)
  {
  }

  /** A sequence is its prefix up to `i` followed by the rest; the prefix up to
      `i + 1` is the prefix up to `i` followed by element `i`. */
  lemma SliceLaws<T>(s: seq<T>, i: nat)
    requires i <= |s|
    ensures s[..i] + s[i..] == s
    ensures i < |s| ==> s[..i] + [s[i]] == s[..i + 1]
    ensures i < |s| ==> s[i..][1..] == s[i + 1..]
    ensures i < |s| ==> [s[i]] + s[i + 1..] == s[i..]
  {
  }

  /** Two adjacent slices make up the slice that spans both. */
  lemma SliceConcat<T>(s: seq<T>, a: nat, b: nat, c: nat)
    requires a <= b <= c <= |s|
    ensures s[a..b] + s[b..c] == s[a..c]
  {
    var l, r := s[a..b] + s[b..c], s[a..c];
    forall k | 0 <= k < |l|
      ensures l[k] == r[k]
    {
      if k < b - a {
        assert l[k] == s[a..b][k];
      } else {
        assert l[k] == s[b..c][k - (b - a)];
      }
    }
  }

  /** A slice of a slice is a slice of the whole. */
  lemma SliceOfSlice<T>(s: seq<T>, lo: nat, hi: nat, i: nat, j: nat)
    requires lo <= hi <= |s| && i <= j <= hi - lo
    ensures s[lo..hi][i..j] == s[lo + i..lo + j]
  {
    var a := s[lo..hi];
    assert forall k :: 0 <= k < |a| ==> a[k] == s[lo + k];
    var b := a[i..j];
    assert forall k :: 0 <= k < |b| ==> b[k] == a[i + k];
  }
}
