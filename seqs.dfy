/** Small facts about sequences that the proofs of several modules use, and
  * `''.join`, which both the renderers and the token rules need. */
module Seqs {

  /** `''.join(parts)`: the parts one after another. */
  function Concat<T>(parts: seq<seq<T>>): seq<T>
  {
    if parts == [] then [] else parts[0] + Concat(parts[1..])
  }

  lemma ConcatCons<T>(x: seq<T>, xs: seq<seq<T>>)
    ensures Concat([x] + xs) == x + Concat(xs)
  {
    assert ([x] + xs)[1..] == xs;
  }

  lemma HeadTail<T>(xs: seq<T>)
    requires xs != []
    ensures [xs[0]] + xs[1..] == xs
  {
  }

  lemma ConsTail<T>(x: T, xs: seq<T>)
    ensures ([x] + xs)[0] == x && ([x] + xs)[1..] == xs
  {
  }

  /** `b` is the tail of `a` when they agree index by index past the head. */
  lemma TailMatches<T>(a: seq<T>, b: seq<T>)
    requires |a| == |b| + 1
    requires forall i :: 0 <= i < |b| ==> a[i + 1] == b[i]
    ensures a[1..] == b
  {
  }

  lemma Assoc<T>(a: seq<T>, b: seq<T>, c: seq<T>)
    ensures (a + b) + c == a + (b + c)
  {
  }

  lemma Assoc6<T>(a: seq<T>, b: seq<T>, c: seq<T>, d: seq<T>, e: seq<T>, f: seq<T>)
    ensures a + b + c + d + e + f == a + (b + (c + (d + (e + f))))
  {
  }

  /** Two fronts of which one is empty may be swapped. */
  lemma SwapFronts<T>(a: seq<T>, b: seq<T>, w: seq<T>)
    requires a == [] || b == []
    ensures b + (a + w) == a + (b + w)
  {
  }

  lemma SliceCons<T>(s: seq<T>, m: nat)
    requires m < |s|
    ensures s[..m + 1] == [s[0]] + s[1..][..m] && s[1..][m..] == s[m + 1..]
  {
  }

  lemma SliceNone<T>(s: seq<T>)
    ensures s[..0] == [] && s[0..] == s
  {
  }

  lemma SplitPrefix<T>(a: seq<T>, b: seq<T>, n: nat)
    requires n <= |a|
    ensures (a + b)[..n] == a[..n] && (a + b)[n..] == a[n..] + b
  {
  }
}
