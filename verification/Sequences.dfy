/** Equalities between sequences, proved once away from other facts. */
module Sequences {

  lemma Assoc<T>(a: seq<T>, b: seq<T>, c: seq<T>)
    ensures (a + b) + c == a + (b + c)
  {
  }

  lemma Empty<T>(a: seq<T>)
    ensures [] + a == a && a + [] == a
  {
  }

  lemma HeadTail<T>(a: seq<T>)
    requires a != []
    ensures a == [a[0]] + a[1..]
  {
  }

  lemma Cons<T>(x: T, a: seq<T>)
    ensures ([x] + a)[0] == x && ([x] + a)[1..] == a
  {
  }

  lemma InitLast<T>(a: seq<T>)
    requires a != []
    ensures a == a[..|a| - 1] + [a[|a| - 1]]
  {
  }

  lemma DropPrefix<T>(a: seq<T>, b: seq<T>)
    ensures (a + b)[|a|..] == b && (a + b)[..|a|] == a
  {
  }

  lemma SplitAt<T>(s: seq<T>, k: nat)
    requires k <= |s|
    ensures s == s[..k] + s[k..]
  {
  }

  /** A prefix cut in three. */
  lemma SplitTwice<T>(s: seq<T>, i: nat, j: nat, n: nat)
    requires i <= j <= n <= |s|
    ensures s[..n] == s[..i] + (s[i..j] + s[j..n])
  {
  }

  /** A slice of a suffix. */
  lemma SliceOfDrop<T>(s: seq<T>, i: nat, n: nat)
    requires i + n <= |s|
    ensures s[i..][..n] == s[i..i + n]
  {
  }

  /** A slice of a suffix of a prefix. */
  lemma SliceOfPart<T>(s: seq<T>, e: nat, i: nat, n: nat)
    requires i + n <= e <= |s|
    ensures s[..e][i..][..n] == s[i..i + n]
  {
  }

  /** A slice of a prefix, and a shorter prefix. */
  lemma SliceOfTake<T>(s: seq<T>, r: nat, p: nat, q: nat)
    requires p <= q <= r <= |s|
    ensures s[..r][p..q] == s[p..q] && s[..r][..p] == s[..p]
  {
  }

  lemma SplitSlice<T>(s: seq<T>, i: nat, j: nat, n: nat)
    requires i <= j <= n <= |s|
    ensures s[i..n] == s[i..j] + s[j..n]
  {
  }

  lemma SliceOne<T>(s: seq<T>, i: nat)
    requires i < |s|
    ensures s[i..i + 1] == [s[i]]
  {
  }

  predicate NoDup<T(==)>(s: seq<T>) { forall i, j :: 0 <= i < j < |s| ==> s[i] != s[j] }
}
