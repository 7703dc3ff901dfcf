/**
 * Sequence operations the service borrows from pandas: `Series.head(n)`
 * (Take) and `Series.drop_duplicates()` with the default keep='first' (Dedup).
 */
module SeqOps {

  function Min(a: int, b: int): int {
    if a <= b then a else b
  }

  /** No element occurs twice. */
  predicate NoDup<T(==)>(s: seq<T>) {
    forall i, j :: 0 <= i < j < |s| ==> s[i] != s[j]
  }

  /** The set of elements of a sequence. */
  function Elements<T>(s: seq<T>): set<T> {
    set x | x in s
  }

  /** `head(n)`: the prefix of length n, or all of s when it is shorter. */
  function Take<T>(s: seq<T>, n: nat): (r: seq<T>)
    ensures r <= s
    ensures |r| == Min(n, |s|)
  {
    if n < |s| then s[..n] else s
  }

  /** The index of the first occurrence of x in s. */
  function FirstIndex<T(==)>(s: seq<T>, x: T): (i: nat)
    requires x in s
    ensures i < |s| && s[i] == x && x !in s[..i]
  {
    if s[0] == x then 0 else 1 + FirstIndex(s[1..], x)
  }

  /**
   * `drop_duplicates()`: an element is kept exactly when it does not occur
   * earlier, so every value survives at its first occurrence.
   */
  function Dedup<T(==)>(s: seq<T>): (r: seq<T>)
    ensures NoDup(r)
    ensures Elements(r) == Elements(s)
    ensures |r| <= |s|
    decreases |s|
  {
    if s == [] then []
    else
      var t, z := s[..|s| - 1], s[|s| - 1];
      assert s == t + [z];
      var d := Dedup(t);
      assert Elements(s) == Elements(t) + {z};
      if z in d then d
      else
        assert Elements(d + [z]) == Elements(d) + {z};
        d + [z]
  }

  /** Membership is what Dedup preserves. */
  lemma DedupMember<T>(s: seq<T>, x: T)
    ensures x in Dedup(s) <==> x in s
  {
    assert x in Elements(s) <==> x in s;
    assert x in Elements(Dedup(s)) <==> x in Dedup(s);
  }

  lemma FirstIndexIs<T>(s: seq<T>, x: T, i: nat)
    requires i < |s| && s[i] == x && x !in s[..i]
    ensures FirstIndex(s, x) == i
  {
  }

  lemma FirstIndexInPrefix<T>(a: seq<T>, b: seq<T>, x: T)
    requires x in a
    ensures FirstIndex(a + b, x) == FirstIndex(a, x)
  {
    var i := FirstIndex(a, x);
    assert (a + b)[..i] == a[..i];
    FirstIndexIs(a + b, x, i);
  }

  lemma FirstIndexPastPrefix<T>(a: seq<T>, x: T)
    requires x !in a
    ensures FirstIndex(a + [x], x) == |a|
  {
    assert (a + [x])[..|a|] == a;
    FirstIndexIs(a + [x], x, |a|);
  }

  lemma FirstIndexAfter<T>(a: seq<T>, b: seq<T>, x: T)
    requires x !in a && x in b
    ensures FirstIndex(a + b, x) == |a| + FirstIndex(b, x)
  {
    var i := FirstIndex(b, x);
    assert (a + b)[|a| + i] == x;
    assert (a + b)[..|a| + i] == a + b[..i];
    FirstIndexIs(a + b, x, |a| + i);
  }

  /** Deduplicating a prefix gives a prefix of the deduplicated whole. */
  lemma {:induction false} DedupPrefix<T>(a: seq<T>, b: seq<T>)
    ensures Dedup(a) <= Dedup(a + b)
    decreases |b|
  {
    if b == [] {
      assert a + b == a;
    } else {
      var b' := b[..|b| - 1];
      assert (a + b)[..|a + b| - 1] == a + b';
      DedupPrefix(a, b');
    }
  }

  /**
   * Dedup keeps the order of first occurrences: x comes before y in the
   * result exactly when x first occurs before y in the input.
   */
  lemma {:induction false} DedupKeepsFirstOccurrenceOrder<T>(s: seq<T>, x: T, y: T)
    requires x in s && y in s
    ensures x in Dedup(s) && y in Dedup(s)
    ensures FirstIndex(Dedup(s), x) < FirstIndex(Dedup(s), y) <==> FirstIndex(s, x) < FirstIndex(s, y)
    decreases |s|
  {
    var t, z := s[..|s| - 1], s[|s| - 1];
    assert s == t + [z];
    var d := Dedup(t);
    DedupMember(s, x);
    DedupMember(s, y);
    DedupMember(t, x);
    DedupMember(t, y);
    DedupMember(t, z);
    if z in d {
      assert Dedup(s) == d;
      assert x in t && y in t;
      FirstIndexInPrefix(t, [z], x);
      FirstIndexInPrefix(t, [z], y);
      DedupKeepsFirstOccurrenceOrder(t, x, y);
    } else {
      assert Dedup(s) == d + [z];
      assert z !in t;
      if x in t {
        FirstIndexInPrefix(t, [z], x);
        FirstIndexInPrefix(d, [z], x);
      } else {
        FirstIndexPastPrefix(t, z);
        FirstIndexPastPrefix(d, z);
      }
      if y in t {
        FirstIndexInPrefix(t, [z], y);
        FirstIndexInPrefix(d, [z], y);
      } else {
        FirstIndexPastPrefix(t, z);
        FirstIndexPastPrefix(d, z);
      }
      if x in t && y in t {
        DedupKeepsFirstOccurrenceOrder(t, x, y);
      }
    }
  }

  /** A duplicate-free sequence has as many elements as distinct values. */
  lemma {:induction false} NoDupCardinality<T>(s: seq<T>)
    requires NoDup(s)
    ensures |Elements(s)| == |s|
    decreases |s|
  {
    if s != [] {
      var t, z := s[..|s| - 1], s[|s| - 1];
      assert s == t + [z];
      assert NoDup(t);
      NoDupCardinality(t);
      assert z !in Elements(t);
      assert Elements(s) == Elements(t) + {z};
    }
  }

  /** A prefix of a duplicate-free sequence is duplicate-free. */
  lemma NoDupPrefix<T>(s: seq<T>, r: seq<T>)
    requires NoDup(s) && r <= s
    ensures NoDup(r)
  {
    assert forall i :: 0 <= i < |r| ==> r[i] == s[i];
  }

  /**
   * `drop_duplicates().head(n)`: no duplicates, only input values, length
   * min(n, number of distinct values), and when it falls short of n every
   * distinct input value is present.
   */
  lemma DedupTake<T>(s: seq<T>, n: nat)
    ensures NoDup(Take(Dedup(s), n))
    ensures forall x :: x in Take(Dedup(s), n) ==> x in s
    ensures |Take(Dedup(s), n)| == Min(n, |Elements(s)|)
    ensures |Take(Dedup(s), n)| < n ==> forall x :: x in s ==> x in Take(Dedup(s), n)
  {
    var d := Dedup(s);
    var r := Take(d, n);
    NoDupPrefix(d, r);
    NoDupCardinality(d);
    forall x | x in r
      ensures x in s
    {
      DedupMember(s, x);
    }
    if |r| < n {
      assert r == d;
      forall x | x in s
        ensures x in r
      {
        DedupMember(s, x);
      }
    }
  }

  /** A duplicate-free first value pair survives Dedup as its first two elements. */
  lemma DedupStartsWith<T>(s: seq<T>)
    requires |s| >= 2 && s[0] != s[1]
    ensures |Dedup(s)| >= 2 && Dedup(s)[0] == s[0] && Dedup(s)[1] == s[1]
  {
    DedupPrefix(s[..2], s[2..]);
    assert s[..2] + s[2..] == s;
    assert s[..2][..1] == [s[0]];
    assert Dedup([s[0]]) == [s[0]];
    assert Dedup(s[..2]) == [s[0], s[1]];
  }

  /** The first value of a non-empty sequence is the first value of its Dedup. */
  lemma DedupHead<T>(s: seq<T>)
    requires s != []
    ensures Dedup(s) != [] && Dedup(s)[0] == s[0]
  {
    DedupPrefix(s[..1], s[1..]);
    assert s[..1] + s[1..] == s;
    assert Dedup(s[..1]) == [s[0]];
  }

  /** Dedup leaves a duplicate-free sequence unchanged. */
  lemma {:induction false} DedupOfNoDup<T>(s: seq<T>)
    requires NoDup(s)
    ensures Dedup(s) == s
    decreases |s|
  {
    if s != [] {
      var t := s[..|s| - 1];
      assert NoDup(t);
      DedupOfNoDup(t);
      assert s[|s| - 1] !in t;
      assert s == t + [s[|s| - 1]];
    }
  }

  /** a can be obtained from b by deleting elements. */
  predicate Subsequence<T(==)>(a: seq<T>, b: seq<T>)
    decreases |b|
  {
    if a == [] then true
    else if b == [] then false
    else (a[0] == b[0] && Subsequence(a[1..], b[1..])) || Subsequence(a, b[1..])
  }

  /** The set of values occurring in any of the lists. */
  function ElementsOfAll<T>(lists: seq<seq<T>>): set<T> {
    if lists == [] then {} else Elements(lists[0]) + ElementsOfAll(lists[1..])
  }

  lemma {:induction false} ElementsOfAllMember<T>(lists: seq<seq<T>>, x: T)
    ensures x in ElementsOfAll(lists) <==> exists i :: 0 <= i < |lists| && x in lists[i]
    decreases |lists|
  {
    if lists != [] {
      ElementsOfAllMember(lists[1..], x);
      assert forall i :: 1 <= i < |lists| ==> lists[1..][i - 1] == lists[i];
      if x in ElementsOfAll(lists[1..]) {
        var i :| 0 <= i < |lists[1..]| && x in lists[1..][i];
        assert x in lists[i + 1];
      }
    }
  }
}
