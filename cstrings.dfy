/**
 * NUL-terminated strings as they sit in a C buffer: a sequence of code units
 * holding a terminating zero somewhere. `Length` is `strlen` (for bytes) and
 * `AG_LengthUCS4` (for 32-bit units).
 */
module CStrings {

  /** The buffer holds a terminator somewhere. */
  predicate Terminated<T(==)>(a: seq<T>, nul: T) {
    nul in a
  }

  /** Index of the first terminator: the number of units before it. */
  function Length<T(==)>(a: seq<T>, nul: T): (n: nat)
    requires Terminated(a, nul)
    ensures n < |a| && a[n] == nul
    ensures forall k :: 0 <= k < n ==> a[k] != nul
  {
    if a[0] == nul then 0 else 1 + Length(a[1..], nul)
  }

  /** The units before the terminator. */
  function Contents<T(==)>(a: seq<T>, nul: T): (s: seq<T>)
    requires Terminated(a, nul)
    ensures |s| < |a| && nul !in s
    ensures s + [nul] == a[..|s| + 1]
  {
    a[..Length(a, nul)]
  }

  /** A sequence without terminator followed by one has exactly that length. */
  lemma LengthOfTerminated<T>(s: seq<T>, nul: T, rest: seq<T>)
    requires nul !in s
    ensures Terminated(s + [nul] + rest, nul)
    ensures Length(s + [nul] + rest, nul) == |s|
  {
    var a := s + [nul] + rest;
    assert a[|s|] == nul;
    assert forall k :: 0 <= k < |s| ==> a[k] == s[k];
  }

  /** A buffer that agrees with `w` up to its length starts with `w`. */
  lemma PrefixAt<T>(a: seq<T>, w: seq<T>)
    requires |w| <= |a|
    requires forall t :: 0 <= t < |w| ==> a[t] == w[t]
    ensures a[..|w|] == w
  {
  }

  /**
   * A buffer that agrees with `w` up to its length and with `orig` after it
   * is `w` followed by the rest of `orig`.
   */
  lemma SplitAt<T>(a: seq<T>, orig: seq<T>, w: seq<T>)
    requires |a| == |orig| && |w| <= |a|
    requires forall t :: 0 <= t < |w| ==> a[t] == w[t]
    requires forall t :: |w| <= t < |a| ==> a[t] == orig[t]
    ensures a[..|w|] == w && a[|w|..] == orig[|w|..]
  {
  }

  /** Scan for the terminator (strlen, AG_LengthUCS4). */
  method StrLen<T(==)>(a: array<T>, nul: T) returns (n: nat)
    requires Terminated(a[..], nul)
    ensures n == Length(a[..], nul)
  {
    n := 0;
    while a[n] != nul
      invariant n <= Length(a[..], nul)
      decreases Length(a[..], nul) - n
    {
      n := n + 1;
    }
  }
}
