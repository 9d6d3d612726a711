/** Facts about sequences used to state ordering and uniqueness of ids. */
module Seqs {

  /** No element occurs twice. */
  predicate Distinct<T(==)>(s: seq<T>)
  {
    forall i, j :: 0 <= i < j < |s| ==> s[i] != s[j]
  }

  /** The set of elements of a sequence. */
  function Elems<T>(s: seq<T>): set<T>
  {
    set x | x in s
  }

  /** Position of the first occurrence of `x` in `s`. */
  function FirstIndex<T(==)>(s: seq<T>, x: T): (r: nat)
    requires x in s
    ensures r < |s| && s[r] == x
    ensures x !in s[..r]
  {
    if s[0] == x then 0
    else
      assert x in s[1..];
      var r := 1 + FirstIndex(s[1..], x);
      assert s[..r] == [s[0]] + s[1..][..r - 1];
      r
  }

  /** Position of the last occurrence of `x` in `s`. */
  function LastIndex<T(==)>(s: seq<T>, x: T): (r: nat)
    requires x in s
    ensures r < |s| && s[r] == x
    ensures x !in s[r + 1..]
  {
    if s[|s| - 1] == x then |s| - 1
    else
      assert x in s[..|s| - 1];
      var r := LastIndex(s[..|s| - 1], x);
      assert s[r + 1..] == s[..|s| - 1][r + 1..] + [s[|s| - 1]];
      r
  }

  /** The first occurrence is characterised by its two properties. */
  lemma FirstIndexUnique<T>(s: seq<T>, x: T, r: nat)
    requires r < |s| && s[r] == x && x !in s[..r]
    ensures FirstIndex(s, x) == r
  {
    var f := FirstIndex(s, x);
    assert forall i :: 0 <= i < r ==> s[..r][i] == s[i];
    assert forall i :: 0 <= i < f ==> s[..f][i] == s[i];
  }

  /** The first occurrence of an element of a prefix is the same in the whole sequence. */
  lemma FirstIndexPrefix<T>(s: seq<T>, n: nat, x: T)
    requires n <= |s| && x in s[..n]
    ensures FirstIndex(s, x) == FirstIndex(s[..n], x)
  {
    var r := FirstIndex(s[..n], x);
    assert s[..n][..r] == s[..r];
    FirstIndexUnique(s, x, r);
  }

  /** The last occurrence of `x` does not move when an element other than `x` is appended. */
  lemma LastIndexAppend<T>(s: seq<T>, y: T, x: T)
    requires x in s && x != y
    ensures LastIndex(s + [y], x) == LastIndex(s, x)
  {
    assert (s + [y])[..|s|] == s;
  }

  /** A duplicate-free sequence has as many elements as its set. */
  lemma {:induction false} DistinctCard<T>(s: seq<T>)
    requires Distinct(s)
    ensures |Elems(s)| == |s|
  {
    if s != [] {
      var init := s[..|s| - 1];
      assert Distinct(init);
      DistinctCard(init);
      assert s == init + [s[|s| - 1]];
      assert Elems(s) == Elems(init) + {s[|s| - 1]};
      assert s[|s| - 1] !in Elems(init);
    }
  }

  /** A duplicate-free sequence drawn from the elements of `t` is no longer than `t`. */
  lemma DistinctSubsetLength<T>(s: seq<T>, t: seq<T>)
    requires Distinct(s) && Distinct(t)
    requires Elems(s) <= Elems(t)
    ensures |s| <= |t|
  {
    DistinctCard(s);
    DistinctCard(t);
    assert |Elems(s)| <= |Elems(t)| by {
      SubsetCard(Elems(s), Elems(t));
    }
  }

  lemma SubsetCard<T>(a: set<T>, b: set<T>)
    requires a <= b
    ensures |a| <= |b|
  {
    assert b == a + (b - a);
  }

  /** Two sequences concatenate without duplicates exactly when each is duplicate-free and they share nothing. */
  lemma DistinctConcat<T>(a: seq<T>, b: seq<T>)
    requires Distinct(a) && Distinct(b)
    requires forall x :: x in a ==> x !in b
    ensures Distinct(a + b)
  {
    forall i, j | 0 <= i < j < |a + b|
      ensures (a + b)[i] != (a + b)[j]
    {
      if j >= |a| && i < |a| {
        assert (a + b)[i] in a;
        assert (a + b)[j] in b;
      }
    }
  }

  /** `ks` lists elements of `s` in the order of their first occurrence in `s`. */
  ghost predicate InFirstOccurrenceOrder<T>(ks: seq<T>, s: seq<T>)
  {
    && (forall k :: k in ks ==> k in s)
    && forall a, b :: 0 <= a < b < |ks| ==> FirstIndex(s, ks[a]) < FirstIndex(s, ks[b])
  }

  /** Appending to `s` keeps `ks` in first-occurrence order. */
  lemma FirstOrderExtend<T>(s: seq<T>, x: T, ks: seq<T>)
    requires InFirstOccurrenceOrder(ks, s)
    ensures InFirstOccurrenceOrder(ks, s + [x])
  {
    var t := s + [x];
    assert t[..|s|] == s;
    forall k | k in ks
      ensures FirstIndex(t, k) == FirstIndex(s, k)
    {
      FirstIndexPrefix(t, |s|, k);
    }
  }

  /** Appending a new `x` to `s` lets `x` be listed after all of `ks`. */
  lemma FirstOrderAppendNew<T>(s: seq<T>, x: T, ks: seq<T>)
    requires InFirstOccurrenceOrder(ks, s)
    requires x !in s
    ensures InFirstOccurrenceOrder(ks + [x], s + [x])
  {
    var t := s + [x];
    FirstOrderExtend(s, x, ks);
    FirstIndexUnique(t, x, |s|);
    var ks' := ks + [x];
    forall a, b | 0 <= a < b < |ks'|
      ensures FirstIndex(t, ks'[a]) < FirstIndex(t, ks'[b])
    {
      assert ks'[a] in ks;
      if b < |ks| {
        assert ks'[b] in ks;
      }
    }
  }

  /**
   * Appending `x` to `s` keeps `ks` in first-occurrence order, and if `x`
   * is new it may be listed after all of `ks`.
   */
  lemma FirstOrderAppend<T>(s: seq<T>, x: T, ks: seq<T>, ks': seq<T>)
    requires InFirstOccurrenceOrder(ks, s)
    requires ks' == if x in s then ks else ks + [x]
    ensures InFirstOccurrenceOrder(ks', s + [x])
  {
    if x in s {
      FirstOrderExtend(s, x, ks);
    } else {
      FirstOrderAppendNew(s, x, ks);
    }
  }
}
