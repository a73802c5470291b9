/**
 * Duplicate removal over URL lists. `Dedup` is the list that the
 * order-preserving `filter_urls` builds, and the lemmas state what that
 * variant promises. The set-based variant keeps only the absence of
 * repeats, the same URLs and the length bound.
 */
module Urls {

  type Url = string

  predicate NoDuplicates<T(==)>(s: seq<T>) {
    forall i, j :: 0 <= i < j < |s| ==> s[i] != s[j]
  }

  /**
   * The input with every repeated element dropped, keeping each element
   * where it first occurs: the list grown one input element at a time,
   * appending only what is not already in it.
   */
  function Dedup<T(==)>(s: seq<T>): seq<T> {
    if s == [] then
      []
    else
      var d := Dedup(s[..|s| - 1]);
      if s[|s| - 1] in d then d else d + [s[|s| - 1]]
  }

  /** The position where `x` first occurs in `s`. */
  function FirstIndex<T(==)>(s: seq<T>, x: T): (k: nat)
    requires x in s
    ensures k < |s| && s[k] == x
    ensures forall j :: 0 <= j < k ==> s[j] != x
  {
    if s[0] == x then 0 else 1 + FirstIndex(s[1..], x)
  }

  /** `t` lists its elements in the order in which they first occur in `s`. */
  predicate InFirstOccurrenceOrder<T(==)>(s: seq<T>, t: seq<T>)
    requires forall x :: x in t ==> x in s
  {
    forall i, j :: 0 <= i < j < |t| ==> FirstIndex(s, t[i]) < FirstIndex(s, t[j])
  }

  lemma FirstIndexOfPrefix<T>(s: seq<T>, y: T)
    requires s != [] && y in s[..|s| - 1]
    ensures y in s && FirstIndex(s, y) == FirstIndex(s[..|s| - 1], y)
  {
    var p := s[..|s| - 1];
    var k := FirstIndex(p, y);
    assert s[k] == y;
    var m := FirstIndex(s, y);
    assert m <= k;
    assert p[m] == y;
  }

  /** Deduplication neither adds nor loses a URL. */
  lemma {:induction false} DedupElements<T>(s: seq<T>)
    ensures forall x :: x in Dedup(s) <==> x in s
  {
    if s != [] {
      var p := s[..|s| - 1];
      DedupElements(p);
      assert s == p + [s[|s| - 1]];
    }
  }

  /** Deduplication leaves no URL twice. */
  lemma {:induction false} DedupNoDuplicates<T>(s: seq<T>)
    ensures NoDuplicates(Dedup(s))
  {
    if s != [] {
      DedupNoDuplicates(s[..|s| - 1]);
    }
  }

  /**
   * Deduplication keeps each URL at its first occurrence, in input order: the
   * positions of the kept elements in the input increase, so the result is a
   * subsequence of the input.
   */
  lemma {:induction false} DedupFirstOccurrenceOrder<T>(s: seq<T>)
    ensures forall x :: x in Dedup(s) ==> x in s
    ensures InFirstOccurrenceOrder(s, Dedup(s))
  {
    DedupElements(s);
    if s != [] {
      var p := s[..|s| - 1];
      DedupFirstOccurrenceOrder(p);
      DedupElements(p);
      OrderExtends(s, Dedup(p));
    }
  }

  /**
   * The step of `DedupFirstOccurrenceOrder`: a list in first-occurrence order
   * for the prefix stays so for the whole input, and stays so when the last
   * element is appended, if that element is new.
   */
  lemma OrderExtends<T>(s: seq<T>, dp: seq<T>)
    requires s != [] && forall y :: y in dp <==> y in s[..|s| - 1]
    requires InFirstOccurrenceOrder(s[..|s| - 1], dp)
    ensures forall y :: y in dp ==> y in s
    ensures InFirstOccurrenceOrder(s, dp)
    ensures s[|s| - 1] !in dp ==> InFirstOccurrenceOrder(s, dp + [s[|s| - 1]])
  {
    var p, x := s[..|s| - 1], s[|s| - 1];
    assert forall i :: 0 <= i < |dp| ==> dp[i] in dp;
    forall i | 0 <= i < |dp|
      ensures FirstIndex(s, dp[i]) == FirstIndex(p, dp[i]) < |p|
    {
      FirstIndexOfPrefix(s, dp[i]);
    }
    if x !in dp {
      var d := dp + [x];
      assert x !in p;
      assert forall j :: 0 <= j < |p| ==> s[j] == p[j];
      assert FirstIndex(s, x) == |p|;
      forall i, j | 0 <= i < j < |d|
        ensures FirstIndex(s, d[i]) < FirstIndex(s, d[j])
      {
        assert d[i] == dp[i];
      }
    }
  }

  /** The worked example: a repeated URL keeps its first place only. */
  lemma DedupExample()
    ensures Dedup(["b", "a", "b", "c"]) == ["b", "a", "c"]
  {
    assert ["b", "a", "b", "c"][..3] == ["b", "a", "b"];
    assert ["b", "a", "b"][..2] == ["b", "a"];
    assert ["b", "a"][..1] == ["b"];
  }

  /** A list without repeats is left as it is. */
  lemma {:induction false} DedupOfDistinct<T>(s: seq<T>)
    requires NoDuplicates(s)
    ensures Dedup(s) == s
  {
    if s != [] {
      var p := s[..|s| - 1];
      DedupOfDistinct(p);
      assert s[|s| - 1] !in p;
      assert s == p + [s[|s| - 1]];
    }
  }

  /** Deduplicating a second time changes nothing. */
  lemma DedupIdempotent<T>(s: seq<T>)
    ensures Dedup(Dedup(s)) == Dedup(s)
  {
    DedupNoDuplicates(s);
    DedupOfDistinct(Dedup(s));
  }

  /**
   * Deduplication never lengthens the list, and it keeps the length exactly
   * when the input had no repeats.
   */
  lemma {:induction false} DedupLength<T>(s: seq<T>)
    ensures |Dedup(s)| <= |s|
    ensures |Dedup(s)| == |s| <==> NoDuplicates(s)
  {
    if s != [] {
      var p, x := s[..|s| - 1], s[|s| - 1];
      DedupLength(p);
      DedupElements(p);
      if NoDuplicates(s) {
        DedupOfDistinct(s);
      }
      if x !in Dedup(p) && |Dedup(p)| == |p| {
        // x was appended and the prefix kept its length, so neither the
        // prefix nor the last element repeats anything.
        assert NoDuplicates(p) && x !in p;
        assert s == p + [x];
        assert NoDuplicates(s);
      }
    }
  }

  /** A non-empty list deduplicates to a non-empty list. */
  lemma DedupNonEmpty<T>(s: seq<T>)
    ensures s != [] <==> Dedup(s) != []
  {
    DedupElements(s);
    if s != [] {
      assert s[0] in Dedup(s);
    }
  }

  /** Ordering by first occurrence in `s` is ordering by first occurrence in its prefix. */
  lemma OrderOnPrefix<T>(s: seq<T>, t: seq<T>)
    requires s != [] && forall y :: y in t ==> y in s[..|s| - 1]
    requires InFirstOccurrenceOrder(s, t)
    ensures InFirstOccurrenceOrder(s[..|s| - 1], t)
  {
    var p := s[..|s| - 1];
    assert forall i :: 0 <= i < |t| ==> t[i] in t;
    assert forall i :: 0 <= i < |t| ==> t[i] in p;
    forall i, j | 0 <= i < j < |t|
      ensures FirstIndex(p, t[i]) < FirstIndex(p, t[j])
    {
      FirstIndexOfPrefix(s, t[i]);
      FirstIndexOfPrefix(s, t[j]);
    }
  }

  /**
   * When the last input element occurs nowhere before, a list ordered by
   * first occurrence must end with it.
   */
  lemma NewLastComesLast<T>(s: seq<T>, t: seq<T>) returns (t': seq<T>)
    requires s != [] && s[|s| - 1] !in s[..|s| - 1]
    requires NoDuplicates(t)
    requires forall x :: x in t <==> x in s
    requires InFirstOccurrenceOrder(s, t)
    ensures t == t' + [s[|s| - 1]]
    ensures forall y :: y in t' <==> y in s[..|s| - 1]
    ensures InFirstOccurrenceOrder(s, t')
  {
    var p, x := s[..|s| - 1], s[|s| - 1];
    assert s == p + [x];
    var k := LastComesLast(s, t);
    t' := t[..|t| - 1];
    assert t == t' + [x];
    DropLastElement(t', x, p);
    forall i, j | 0 <= i < j < |t'|
      ensures FirstIndex(s, t'[i]) < FirstIndex(s, t'[j])
    {
      assert t'[i] == t[i] && t'[j] == t[j];
    }
  }

  lemma DropLastElement<T>(t': seq<T>, x: T, p: seq<T>)
    requires NoDuplicates(t' + [x]) && x !in p
    requires forall y :: y in t' + [x] <==> y in p + [x]
    ensures forall y :: y in t' <==> y in p
  {
    forall y ensures y in t' <==> y in p {
      assert y in t' ==> y in t' + [x];
      assert y in p ==> y in p + [x];
      if y in t' {
        var i :| 0 <= i < |t'| && t'[i] == y;
        assert (t' + [x])[i] == y && (t' + [x])[|t'|] == x;
      }
    }
  }

  lemma LastComesLast<T>(s: seq<T>, t: seq<T>) returns (k: nat)
    requires s != [] && s[|s| - 1] !in s[..|s| - 1]
    requires s[|s| - 1] in t && forall x :: x in t ==> x in s
    requires InFirstOccurrenceOrder(s, t)
    ensures k == |t| - 1 && t[k] == s[|s| - 1]
  {
    var p, x := s[..|s| - 1], s[|s| - 1];
    var m := FirstIndex(s, x);
    assert forall j :: 0 <= j < |p| ==> p[j] == s[j];
    assert m == |p|;
    k := FirstIndex(t, x);
    var last := t[|t| - 1];
    assert last in t;
    assert FirstIndex(s, last) <= m;
  }

  /**
   * `Dedup` is the only list that has no repeats, holds exactly the input's
   * elements and orders them by first occurrence.
   */
  lemma {:induction false} DedupUnique<T>(s: seq<T>, t: seq<T>)
    requires NoDuplicates(t)
    requires forall x :: x in t <==> x in s
    requires InFirstOccurrenceOrder(s, t)
    ensures t == Dedup(s)
  {
    if t != [] {
      assert t[0] in t;
    }
    if s != [] {
      var p, x := s[..|s| - 1], s[|s| - 1];
      assert s == p + [x];
      if x in p {
        OrderOnPrefix(s, t);
        DedupUnique(p, t);
      } else {
        var t' := NewLastComesLast(s, t);
        OrderOnPrefix(s, t');
        DedupUnique(p, t');
        DedupElements(p);
      }
    }
  }

  lemma {:induction false} DistinctMultiset<T>(s: seq<T>)
    requires NoDuplicates(s)
    ensures forall x :: multiset(s)[x] == if x in s then 1 else 0
  {
    if s != [] {
      var p := s[..|s| - 1];
      DistinctMultiset(p);
      assert s == p + [s[|s| - 1]];
    }
  }

  /**
   * Two lists without repeats that hold the same elements are permutations
   * of each other.
   */
  lemma SameElementsPermutation<T>(a: seq<T>, b: seq<T>)
    requires NoDuplicates(a) && NoDuplicates(b)
    requires forall x :: x in a <==> x in b
    ensures multiset(a) == multiset(b)
  {
    DistinctMultiset(a);
    DistinctMultiset(b);
  }
}
