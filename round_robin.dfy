/**
 * Round-robin interleaving of ranked lists, the
 * `[x for t in zip_longest(*lists) for x in t if x is not None]` idiom:
 * position 0 of every list in list order, then position 1 of every list,
 * and so on; a list that runs out stops contributing.
 */
module RoundRobin {
  import opened SeqOps

  /** An upper bound on the lengths of the lists (their maximum). */
  function MaxLen<T>(lists: seq<seq<T>>): (m: nat)
    ensures forall i :: 0 <= i < |lists| ==> |lists[i]| <= m
  {
    if lists == [] then 0
    else
      var m := MaxLen(lists[..|lists| - 1]);
      var l := |lists[|lists| - 1]|;
      if m < l then l else m
  }

  /** Round r: element r of every list long enough to have one, in list order. */
  function Round<T>(lists: seq<seq<T>>, r: nat): seq<T>
  {
    if lists == [] then []
    else
      var last := lists[|lists| - 1];
      Round(lists[..|lists| - 1], r) + (if r < |last| then [last[r]] else [])
  }

  /** Rounds 0 .. k-1 one after the other. */
  function Rounds<T>(lists: seq<seq<T>>, k: nat): seq<T>
  {
    if k == 0 then [] else Rounds(lists, k - 1) + Round(lists, k - 1)
  }

  /** The flattened `zip_longest` merge. */
  function Interleave<T>(lists: seq<seq<T>>): seq<T>
  {
    Rounds(lists, MaxLen(lists))
  }

  /**
   * Where element r of list i lands in the merge: after all earlier rounds,
   * and after the round-r elements of the lists before it.
   */
  function Pos<T>(lists: seq<seq<T>>, i: nat, r: nat): nat
    requires i <= |lists|
  {
    |Rounds(lists, r)| + |Round(lists[..i], r)|
  }

  lemma {:induction false} RoundPrefix<T>(lists: seq<seq<T>>, i: nat, r: nat)
    requires i <= |lists|
    ensures Round(lists[..i], r) <= Round(lists, r)
    decreases |lists|
  {
    if i < |lists| {
      var init := lists[..|lists| - 1];
      assert init[..i] == lists[..i];
      RoundPrefix(init, i, r);
    } else {
      assert lists[..i] == lists;
    }
  }

  lemma RoundAt<T>(lists: seq<seq<T>>, i: nat, r: nat)
    requires i < |lists| && r < |lists[i]|
    ensures Round(lists[..i + 1], r) == Round(lists[..i], r) + [lists[i][r]]
    ensures |Round(lists[..i], r)| < |Round(lists, r)|
    ensures Round(lists, r)[|Round(lists[..i], r)|] == lists[i][r]
  {
    assert lists[..i + 1][..i] == lists[..i];
    RoundPrefix(lists, i + 1, r);
  }

  lemma {:induction false} RoundsPrefix<T>(lists: seq<seq<T>>, k: nat, k': nat)
    requires k <= k'
    ensures Rounds(lists, k) <= Rounds(lists, k')
    decreases k'
  {
    if k < k' {
      RoundsPrefix(lists, k, k' - 1);
    }
  }

  /** Element r of list i sits at Pos(lists, i, r) in the merge. */
  lemma InterleaveAt<T>(lists: seq<seq<T>>, i: nat, r: nat)
    requires i < |lists| && r < |lists[i]|
    ensures Pos(lists, i, r) < |Interleave(lists)|
    ensures Interleave(lists)[Pos(lists, i, r)] == lists[i][r]
  {
    RoundAt(lists, i, r);
    RoundsPrefix(lists, r + 1, MaxLen(lists));
  }

  /**
   * Round-robin priority: positions follow (round, list index)
   * lexicographically. Element r of list i precedes element r of any later
   * list and every element of any later round.
   */
  lemma PosOrder<T>(lists: seq<seq<T>>, i: nat, r: nat, j: nat, r': nat)
    requires i < |lists| && r < |lists[i]|
    requires j < |lists| && r' < |lists[j]|
    requires r < r' || (r == r' && i < j)
    ensures Pos(lists, i, r) < Pos(lists, j, r')
  {
    if r == r' {
      RoundAt(lists, i, r);
      assert lists[..j][..i + 1] == lists[..i + 1];
      RoundPrefix(lists[..j], i + 1, r);
    } else {
      RoundAt(lists, i, r);
      RoundsPrefix(lists, r + 1, r');
    }
  }

  lemma {:induction false} ListOf<T>(lists: seq<seq<T>>, r: nat, o: nat) returns (i: nat)
    requires o < |Round(lists, r)|
    ensures i < |lists| && r < |lists[i]| && |Round(lists[..i], r)| == o
    decreases |lists|
  {
    var init := lists[..|lists| - 1];
    if o < |Round(init, r)| {
      i := ListOf(init, r, o);
      assert init[..i] == lists[..i];
    } else {
      i := |lists| - 1;
    }
  }

  lemma {:induction false} RoundOf<T>(lists: seq<seq<T>>, k: nat, m: nat) returns (r: nat)
    requires k < |Rounds(lists, m)|
    ensures r < m && |Rounds(lists, r)| <= k < |Rounds(lists, r)| + |Round(lists, r)|
    decreases m
  {
    if k < |Rounds(lists, m - 1)| {
      r := RoundOf(lists, k, m - 1);
    } else {
      r := m - 1;
    }
  }

  /** Every position of the merge holds some element r of some list i. */
  lemma PosOf<T>(lists: seq<seq<T>>, k: nat) returns (i: nat, r: nat)
    requires k < |Interleave(lists)|
    ensures i < |lists| && r < |lists[i]| && Pos(lists, i, r) == k
    ensures Interleave(lists)[k] == lists[i][r]
  {
    r := RoundOf(lists, k, MaxLen(lists));
    i := ListOf(lists, r, k - |Rounds(lists, r)|);
    InterleaveAt(lists, i, r);
  }

  /** The merge holds exactly the elements of the lists. */
  lemma InterleaveMember<T>(lists: seq<seq<T>>, x: T)
    ensures x in Interleave(lists) <==> exists i :: 0 <= i < |lists| && x in lists[i]
  {
    if x in Interleave(lists) {
      var k :| 0 <= k < |Interleave(lists)| && Interleave(lists)[k] == x;
      var i, r := PosOf(lists, k);
    }
    if exists i :: 0 <= i < |lists| && x in lists[i] {
      var i :| 0 <= i < |lists| && x in lists[i];
      var r :| 0 <= r < |lists[i]| && lists[i][r] == x;
      InterleaveAt(lists, i, r);
    }
  }

  /** Merging a single list gives that list back. */
  lemma InterleaveOne<T>(a: seq<T>)
    ensures Interleave([a]) == a
  {
    var lists := [a];
    forall r: nat | r < |a|
      ensures Round(lists, r) == [a[r]]
    {
      assert lists[..0] == [];
    }
    assert lists[..0] == [];
    assert MaxLen(lists) == |a|;
    RoundsOfOne(a, |a|);
  }

  lemma {:induction false} RoundsOfOne<T>(a: seq<T>, k: nat)
    requires k <= |a|
    requires forall r: nat :: r < |a| ==> Round([a], r) == [a[r]]
    ensures Rounds([a], k) == a[..k]
    decreases k
  {
    if k > 0 {
      RoundsOfOne(a, k - 1);
      assert a[..k] == a[..k - 1] + [a[k - 1]];
    } else {
      assert a[..0] == [];
    }
  }

  /**
   * Merging two lists alternates them: a[0], b[0], a[1], b[1], ... as long as
   * both last.
   */
  lemma InterleavePair<T>(a: seq<T>, b: seq<T>, r: nat)
    requires r < |a| && r < |b|
    ensures 2 * r + 1 < |Interleave([a, b])|
    ensures Interleave([a, b])[2 * r] == a[r]
    ensures Interleave([a, b])[2 * r + 1] == b[r]
  {
    var lists := [a, b];
    assert lists[..0] == [] && lists[..1] == [a];
    RoundsOfPair(a, b, r);
    InterleaveAt(lists, 0, r);
    InterleaveAt(lists, 1, r);
  }

  lemma {:induction false} RoundsOfPair<T>(a: seq<T>, b: seq<T>, k: nat)
    requires k <= |a| && k <= |b|
    ensures |Rounds([a, b], k)| == 2 * k
    decreases k
  {
    if k > 0 {
      RoundsOfPair(a, b, k - 1);
      var lists := [a, b];
      assert lists[..1] == [a] && [a][..0] == [];
      assert Round([a], k - 1) == [a[k - 1]];
      assert Round(lists, k - 1) == [a[k - 1], b[k - 1]];
    }
  }

  /** The merge holds the values of all the lists and nothing else. */
  lemma InterleaveElements<T>(lists: seq<seq<T>>)
    ensures Elements(Interleave(lists)) == ElementsOfAll(lists)
  {
    var a, b := Elements(Interleave(lists)), ElementsOfAll(lists);
    forall x | x in a
      ensures x in b
    {
      InterleaveMember(lists, x);
      ElementsOfAllMember(lists, x);
    }
    forall x | x in b
      ensures x in a
    {
      InterleaveMember(lists, x);
      ElementsOfAllMember(lists, x);
    }
  }
}
