/**
  The array built-ins the derived views are written with: `Array.prototype.filter`,
  `slice` from the front, and `Array.from(new Set(xs))`, which keeps the first
  occurrence of every value in insertion order.
 */
module Seqs {

  /** `a` is an order-preserving subsequence of `b`: `b` with some elements deleted. */
  ghost predicate Subseq<T>(a: seq<T>, b: seq<T>)
    decreases |b|
  {
    if a == [] then true
    else if b == [] then false
    else (a[0] == b[0] && Subseq(a[1..], b[1..])) || Subseq(a, b[1..])
  }

  /** Deleting from a deletion is a deletion. */
  lemma {:induction false} SubseqTrans<T>(a: seq<T>, b: seq<T>, c: seq<T>)
    requires Subseq(a, b) && Subseq(b, c)
    ensures Subseq(a, c)
    decreases |c|
  {
    if a != [] {
      if Subseq(b, c[1..]) {
        SubseqTrans(a, b, c[1..]);
      } else if a[0] == b[0] && Subseq(a[1..], b[1..]) {
        SubseqTrans(a[1..], b[1..], c[1..]);
      } else {
        SubseqTrans(a, b[1..], c[1..]);
      }
    }
  }

  /** Every element of a subsequence comes from the sequence. */
  lemma {:induction false} SubseqMembers<T>(a: seq<T>, b: seq<T>)
    requires Subseq(a, b)
    ensures forall x :: x in a ==> x in b
    decreases |b|
  {
    if a != [] {
      if a[0] == b[0] && Subseq(a[1..], b[1..]) {
        SubseqMembers(a[1..], b[1..]);
        assert forall x :: x in a ==> x == a[0] || x in a[1..];
      } else {
        SubseqMembers(a, b[1..]);
      }
    }
  }

  /** `xs.slice(0, k)` is a subsequence of `xs`. */
  lemma {:induction false} PrefixSubseq<T>(s: seq<T>, k: nat)
    requires k <= |s|
    ensures Subseq(s[..k], s)
    decreases k
  {
    if k > 0 {
      PrefixSubseq(s[1..], k - 1);
      assert s[..k][1..] == s[1..][..k - 1];
    }
  }

  /** A sequence is a subsequence of itself. */
  lemma {:induction false} SubseqRefl<T>(s: seq<T>)
    ensures Subseq(s, s)
  {
    PrefixSubseq(s, |s|);
    assert s[..|s|] == s;
  }

  /**
    `xs.filter(p)`: keeps, in order, exactly the elements that satisfy `p`,
    each as often as it occurs.
   */
  function Filter<T>(s: seq<T>, p: T -> bool): (r: seq<T>)
    ensures Subseq(r, s)
    ensures forall i :: 0 <= i < |r| ==> r[i] in s && p(r[i])
    ensures forall i :: 0 <= i < |s| && p(s[i]) ==> s[i] in r
    ensures |r| <= |s|
  {
    if s == [] then []
    else if p(s[0]) then [s[0]] + Filter(s[1..], p)
    else Filter(s[1..], p)
  }

  /**
    Filtering keeps every passing element as often as it occurs in `s` and
    drops every other element entirely.
   */
  lemma {:induction false} FilterCounts<T>(s: seq<T>, p: T -> bool)
    ensures forall x :: multiset(Filter(s, p))[x] == if p(x) then multiset(s)[x] else 0
  {
    if s != [] {
      FilterCounts(s[1..], p);
      assert s == [s[0]] + s[1..];
    }
  }

  /** Filtering keeps everything when every element passes. */
  lemma {:induction false} FilterAll<T>(s: seq<T>, p: T -> bool)
    requires forall x :: x in s ==> p(x)
    ensures Filter(s, p) == s
  {
    if s != [] {
      FilterAll(s[1..], p);
    }
  }

  ghost predicate NoDuplicates<T>(s: seq<T>) {
    forall i, j :: 0 <= i < j < |s| ==> s[i] != s[j]
  }

  /** Index of the first occurrence of `x` in `s`. */
  function FirstIndex<T(==)>(s: seq<T>, x: T): (k: nat)
    requires x in s
    ensures k < |s| && s[k] == x
    ensures forall i :: 0 <= i < k ==> s[i] != x
  {
    if s[0] == x then 0 else 1 + FirstIndex(s[1..], x)
  }

  /**
    `Array.from(new Set(s))`: every value of `s` once, in the order in which
    it first occurs (a `Set` iterates in insertion order and ignores repeated
    insertions).
   */
  function Distinct<T(==)>(s: seq<T>): (r: seq<T>)
    ensures NoDuplicates(r)
    ensures forall i :: 0 <= i < |r| ==> r[i] in s
    ensures forall i :: 0 <= i < |s| ==> s[i] in r
    ensures |r| <= |s|
    decreases |s|
  {
    if s == [] then []
    else
      var init, last := s[..|s| - 1], s[|s| - 1];
      assert s == init + [last];
      var d := Distinct(init);
      if last in d then d else d + [last]
  }

  /** Appending an element does not move the first occurrences of earlier values. */
  lemma {:induction false} FirstIndexAppend<T>(s: seq<T>, y: T, x: T)
    requires x in s
    ensures FirstIndex(s + [y], x) == FirstIndex(s, x)
  {
    if s[0] != x {
      assert (s + [y])[1..] == s[1..] + [y];
      FirstIndexAppend(s[1..], y, x);
    }
  }

  /** `Distinct` lists values in the order of their first occurrence in `s`. */
  lemma {:induction false} DistinctFirstOccurrenceOrder<T>(s: seq<T>)
    ensures forall i, j :: 0 <= i < j < |Distinct(s)| ==>
              FirstIndex(s, Distinct(s)[i]) < FirstIndex(s, Distinct(s)[j])
    decreases |s|
  {
    if s != [] {
      var init, last := s[..|s| - 1], s[|s| - 1];
      assert s == init + [last];
      DistinctFirstOccurrenceOrder(init);
      DistinctOrderStep(init, last);
    }
  }

  /** The step of `DistinctFirstOccurrenceOrder`: appending one element keeps the order. */
  lemma DistinctOrderStep<T>(init: seq<T>, last: T)
    requires forall i, j :: 0 <= i < j < |Distinct(init)| ==>
               FirstIndex(init, Distinct(init)[i]) < FirstIndex(init, Distinct(init)[j])
    ensures forall i, j :: 0 <= i < j < |Distinct(init + [last])| ==>
              FirstIndex(init + [last], Distinct(init + [last])[i]) <
              FirstIndex(init + [last], Distinct(init + [last])[j])
  {
    var s := init + [last];
    var d := Distinct(init);
    var r := Distinct(s);
    DistinctSnoc(init, last);
    forall k | 0 <= k < |d|
      ensures FirstIndex(s, d[k]) == FirstIndex(init, d[k])
    {
      FirstIndexAppend(init, last, d[k]);
    }
    if last !in d {
      FirstIndexOfNew(init, last);
    }
    forall i, j | 0 <= i < j < |r|
      ensures FirstIndex(s, r[i]) < FirstIndex(s, r[j])
    {
      assert r[i] == d[i];
      if j < |d| {
        assert r[j] == d[j];
      }
    }
  }

  /** `Distinct` of a list with one more element at the end. */
  lemma DistinctSnoc<T>(init: seq<T>, last: T)
    ensures Distinct(init + [last]) ==
              if last in Distinct(init) then Distinct(init) else Distinct(init) + [last]
  {
    var s := init + [last];
    assert s[..|s| - 1] == init;
  }

  /** A value new to `init` first occurs at the end of `init + [last]`. */
  lemma FirstIndexOfNew<T>(init: seq<T>, last: T)
    requires last !in Distinct(init)
    ensures FirstIndex(init + [last], last) == |init|
  {
    assert last !in init;
  }
}
