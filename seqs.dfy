/** Sequence operations shared by the model: the array updates of the document
    store (`$pull`, `$addToSet`, `$push`), find-first lookups, `Array.prototype.filter`
    and `Array.prototype.slice`. */
module Seqs {
  import opened Wrappers

  /** `a` occurs in `b` in order, possibly with gaps. */
  ghost predicate IsSubsequence<T>(a: seq<T>, b: seq<T>)
    decreases |b|
  {
    if a == [] then true
    else if b == [] then false
    else if a[0] == b[0] then IsSubsequence(a[1..], b[1..])
    else IsSubsequence(a, b[1..])
  }

  lemma {:induction false} SubsequenceOfPrefix<T>(a: seq<T>, b: seq<T>, n: nat)
    requires IsSubsequence(a, b) && n <= |a|
    ensures IsSubsequence(a[..n], b)
    decreases |b|
  {
    if n == 0 || a == [] {
    } else if b == [] {
    } else if a[0] == b[0] {
      SubsequenceOfPrefix(a[1..], b[1..], n - 1);
      assert a[..n][1..] == a[1..][..n - 1];
    } else {
      SubsequenceOfPrefix(a, b[1..], n);
    }
  }

  lemma {:induction false} SubsequenceOfSelf<T>(s: seq<T>)
    ensures IsSubsequence(s, s)
    decreases |s|
  {
    if s != [] {
      SubsequenceOfSelf(s[1..]);
    }
  }

  /** A subsequence of `b` is a subsequence of `b` with an element in front. */
  lemma {:induction false} SubsequenceCons<T>(a: seq<T>, b: seq<T>, x: T)
    requires IsSubsequence(a, b)
    ensures IsSubsequence(a, [x] + b)
    decreases |b|, 1
  {
    assert ([x] + b)[1..] == b;
    if a != [] && a[0] == x {
      SubsequenceDropHead(a, b);
    }
  }

  lemma {:induction false} SubsequenceDropHead<T>(a: seq<T>, b: seq<T>)
    requires a != [] && IsSubsequence(a, b)
    ensures IsSubsequence(a[1..], b)
    decreases |b|, 0
  {
    assert b != [];
    if a[0] == b[0] {
      SubsequenceCons(a[1..], b[1..], b[0]);
      assert [b[0]] + b[1..] == b;
    } else {
      SubsequenceDropHead(a, b[1..]);
      SubsequenceCons(a[1..], b[1..], b[0]);
      assert [b[0]] + b[1..] == b;
    }
  }

  /** Removing one element keeps the rest in order. */
  lemma {:induction false} RemoveAtIsSubsequence<T>(s: seq<T>, k: nat)
    requires k < |s|
    ensures IsSubsequence(s[..k] + s[k + 1..], s)
    decreases k
  {
    if k == 0 {
      assert s[..0] + s[1..] == s[1..];
      SubsequenceOfSelf(s[1..]);
      SubsequenceCons(s[1..], s[1..], s[0]);
      assert [s[0]] + s[1..] == s;
    } else {
      RemoveAtIsSubsequence(s[1..], k - 1);
      assert (s[..k] + s[k + 1..])[1..] == s[1..][..k - 1] + s[1..][k..];
    }
  }

  /** The elements of a subsequence are elements of the sequence. */
  lemma {:induction false} SubsequenceMembers<T>(a: seq<T>, b: seq<T>)
    requires IsSubsequence(a, b)
    ensures forall x :: x in a ==> x in b
    decreases |b|
  {
    if a != [] {
      if a[0] == b[0] {
        SubsequenceMembers(a[1..], b[1..]);
        assert a == [a[0]] + a[1..];
      } else {
        SubsequenceMembers(a, b[1..]);
      }
    }
  }

  /** A key that is unique along a sequence is unique along any subsequence of it. */
  lemma {:induction false} SubsequenceUnique<T>(a: seq<T>, b: seq<T>, key: T -> int)
    requires IsSubsequence(a, b)
    requires forall i, j :: 0 <= i < j < |b| ==> key(b[i]) != key(b[j])
    ensures forall i, j :: 0 <= i < j < |a| ==> key(a[i]) != key(a[j])
    decreases |b|
  {
    if a != [] {
      if a[0] == b[0] {
        SubsequenceUnique(a[1..], b[1..], key);
        SubsequenceMembers(a[1..], b[1..]);
        forall i, j | 0 <= i < j < |a|
          ensures key(a[i]) != key(a[j])
        {
          if i == 0 {
            assert a[j] in a[1..];
            var m :| 0 <= m < |b[1..]| && b[1..][m] == a[j];
            assert b[m + 1] == a[j];
          } else {
            assert a[i] == a[1..][i - 1] && a[j] == a[1..][j - 1];
          }
        }
      } else {
        SubsequenceUnique(a, b[1..], key);
      }
    }
  }

  /** Index of the first element satisfying `p` (Mongo's `findOne` in natural order). */
  function FirstIndex<T>(s: seq<T>, p: T -> bool): (r: Option<nat>)
    ensures r.Some? ==> r.value < |s| && p(s[r.value])
    ensures r.Some? ==> forall k :: 0 <= k < r.value ==> !p(s[k])
    ensures r.None? <==> forall k :: 0 <= k < |s| ==> !p(s[k])
  {
    if s == [] then None
    else if p(s[0]) then Some(0)
    else match FirstIndex(s[1..], p)
      case None => None
      case Some(k) => Some(k + 1)
  }

  /** `Array.prototype.filter` / Mongo's `deleteMany`: keep, in order, the elements satisfying `p`. */
  function Filter<T(!new)>(s: seq<T>, p: T -> bool): (r: seq<T>)
    ensures |r| <= |s|
    ensures forall x :: x in r <==> x in s && p(x)
    ensures forall x :: multiset(r)[x] == if p(x) then multiset(s)[x] else 0
    ensures IsSubsequence(r, s)
  {
    if s == [] then []
    else
      assert s == [s[0]] + s[1..];
      var rest := Filter(s[1..], p);
      if p(s[0]) then [s[0]] + rest else rest
  }

  lemma {:induction false} FilterKeepsAll<T(!new)>(s: seq<T>, p: T -> bool)
    requires forall x :: x in s ==> p(x)
    ensures Filter(s, p) == s
  {
    if s != [] {
      FilterKeepsAll(s[1..], p);
    }
  }

  /** Filtering a concatenation filters each part. */
  lemma {:induction false} FilterConcat<T(!new)>(a: seq<T>, b: seq<T>, p: T -> bool)
    ensures Filter(a + b, p) == Filter(a, p) + Filter(b, p)
  {
    if a == [] {
      assert a + b == b;
    } else {
      var ab := a + b;
      assert ab[0] == a[0] && ab[1..] == a[1..] + b;
      FilterConcat(a[1..], b, p);
    }
  }

  /** Filtering first by a weaker test changes nothing a stronger one then keeps. */
  lemma {:induction false} FilterSubsumed<T(!new)>(s: seq<T>, p: T -> bool, q: T -> bool)
    requires forall x :: q(x) ==> p(x)
    ensures Filter(Filter(s, p), q) == Filter(s, q)
  {
    if s != [] {
      FilterSubsumed(s[1..], p, q);
    }
  }

  /** A prefix whose elements all pass the filter is kept whole. */
  lemma FilterKeptPrefix<T(!new)>(pre: seq<T>, s: seq<T>, p: T -> bool)
    requires forall x :: x in pre ==> p(x)
    ensures Filter(pre + s, p) == pre + Filter(s, p)
  {
    FilterConcat(pre, s, p);
    FilterKeepsAll(pre, p);
  }

  /** Mongo `$pull`: remove every occurrence of `x`; everything else keeps its multiplicity and order. */
  function Pull<T(==,!new)>(s: seq<T>, x: T): (r: seq<T>)
    ensures x !in r
    ensures forall y :: y != x ==> multiset(r)[y] == multiset(s)[y]
    ensures x !in s ==> r == s
    ensures IsSubsequence(r, s)
  {
    if s == [] then []
    else
      assert s == [s[0]] + s[1..];
      var rest := Pull(s[1..], x);
      if s[0] == x then rest else [s[0]] + rest
  }

  lemma {:induction false} PullAppend<T(!new)>(s: seq<T>, x: T, y: T)
    ensures Pull(s + [y], x) == Pull(s, x) + (if y == x then [] else [y])
  {
    if s != [] {
      assert (s + [y])[1..] == s[1..] + [y];
      PullAppend(s[1..], x, y);
    }
  }

  /** Mongo `$addToSet`: append `x` unless it is already present. */
  function AddToSet<T(==,!new)>(s: seq<T>, x: T): (r: seq<T>)
    ensures x in r
    ensures multiset(r)[x] == if x in s then multiset(s)[x] else 1
    ensures forall y :: y != x ==> multiset(r)[y] == multiset(s)[y]
  {
    if x in s then s else s + [x]
  }

  /** The end index `Array.prototype.slice(0, end)` uses: a negative `end` counts from the back. */
  function SliceEnd(len: nat, end: int): (r: nat)
    ensures r <= len
    ensures 0 <= end ==> r == if end < len then end else len
  {
    if end < 0 then (if len + end < 0 then 0 else len + end)
    else if end < len then end else len
  }

  /** `s.slice(0, end)`. */
  function SliceTo<T>(s: seq<T>, end: int): (r: seq<T>)
    ensures |r| <= |s|
    ensures r == s[..|r|]
    ensures 0 <= end ==> |r| == if end < |s| then end else |s|
  {
    s[..SliceEnd(|s|, end)]
  }

  /** `n` copies of `x`. */
  function Copies<T>(x: T, n: nat): (r: seq<T>)
    ensures |r| == n && forall i :: 0 <= i < n ==> r[i] == x
  {
    seq(n, _ => x)
  }

  lemma CopiesAppend<T>(x: T, n: nat)
    ensures Copies(x, n) + [x] == Copies(x, n + 1)
  {
  }

  /** Two positions holding the same element make it occur at least twice. */
  lemma MultisetTwoPositions<T>(s: seq<T>, p: nat, q: nat)
    requires p < q < |s| && s[p] == s[q]
    ensures multiset(s)[s[p]] >= 2
  {
    assert s == s[..p] + [s[p]] + s[p + 1..q] + [s[q]] + s[q + 1..];
  }

  /** No element occurs twice. */
  ghost predicate NoDuplicates<T>(s: seq<T>) {
    forall i, j :: 0 <= i < j < |s| ==> s[i] != s[j]
  }
}
