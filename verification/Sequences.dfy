/** Facts about sequences that several modules use. */
module Sequences {
  // A stretch of |a| is a stretch of |a + b|.
  lemma Stretch<T>(a: seq<T>, b: seq<T>, lo: nat, mid: nat, hi: nat)
    requires lo <= mid <= hi <= |a|
    ensures a[lo..hi][..mid - lo] == (a + b)[lo..mid]
    ensures (a + b)[..mid] == (a + b)[..lo] + (a + b)[lo..mid]
  {
  }

  // Concatenation is associative.
  lemma Assoc<T>(a: seq<T>, b: seq<T>, c: seq<T>)
    ensures (a + b) + c == a + (b + c)
  {
  }
}
