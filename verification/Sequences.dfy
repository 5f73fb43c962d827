/** Slices of sequences, copying into them, and repetition. */
module Sequences {

  /** Replaces the `|with|` elements of `s` from position `at` on. */
  function Overwrite<T>(s: seq<T>, at: nat, with: seq<T>): (r: seq<T>)
    requires at + |with| <= |s|
    ensures |r| == |s|
  {
    s[..at] + with + s[at + |with|..]
  }

  function Repeat<T>(x: T, n: nat): (r: seq<T>)
    ensures |r| == n && forall i :: 0 <= i < n ==> r[i] == x
  {
    seq(n, _ => x)
  }

  lemma SliceSplit<T>(s: seq<T>, a: nat, b: nat, c: nat)
    requires a <= b <= c <= |s|
    ensures s[a..c] == s[a..b] + s[b..c]
  {
  }

  lemma SliceTail<T>(s: seq<T>, a: nat, b: nat)
    requires a <= b <= |s|
    ensures s[a..][b - a..] == s[b..]
  {
  }

  lemma SliceHead<T>(s: seq<T>, a: nat, b: nat)
    requires a <= b <= |s|
    ensures s[a..][..b - a] == s[a..b]
  {
  }
}
