/** What the handler promises, stated over the model of the store and lookups. */
module RecSysProperties {
  import opened Wrappers
  import opened SeqOps
  import opened RoundRobin
  import opened RecSysCore

  lemma RowItemInItems(frame: seq<Row>, k: int, x: int)
    requires Row(k, x) in frame
    ensures x in Items(frame)
  {
    var i :| 0 <= i < |frame| && frame[i] == Row(k, x);
    assert Items(frame)[i] == x;
  }

  /** The rows labelled k, read in frame order, form a subsequence of the item column. */
  lemma {:induction false} ItemsWhereSubsequence(frame: seq<Row>, k: int)
    ensures Subsequence(ItemsWhere(frame, k), Items(frame))
    decreases |frame|
  {
    if frame != [] {
      assert Items(frame[1..]) == Items(frame)[1..];
      ItemsWhereSubsequence(frame[1..], k);
      var a, b := ItemsWhere(frame, k), Items(frame);
      if frame[0].key == k {
        assert a[0] == b[0] && a[1..] == ItemsWhere(frame[1..], k);
      } else {
        assert a == ItemsWhere(frame[1..], k);
      }
    }
  }

  /**
   * A category lookup is the first n entries of the global ranking
   * restricted to that category: they keep the global order, and each is a
   * row of the frame under that category. It fails exactly when the frame
   * has no row for the category.
   */
  lemma CategoryLookupFiltersGlobal(st: Store, n: nat, c: int)
    ensures TopPopularCategory(st, n, c).Failure? <==> c !in KeysOf(st.topPopular)
    ensures TopPopularCategory(st, n, c).Success? ==>
      var r := TopPopularCategory(st, n, c).value;
      && r <= ItemsWhere(st.topPopular, c)
      && |r| == Min(n, |ItemsWhere(st.topPopular, c)|)
      && Subsequence(ItemsWhere(st.topPopular, c), Items(st.topPopular))
      && forall x :: x in r ==> Row(c, x) in st.topPopular
  {
    ItemsWhereSubsequence(st.topPopular, c);
  }

  /** With no history the online list is the global top n. */
  lemma EmptyHistoryIsGlobalTop(st: Store, n: nat)
    ensures OnlineRecs(st, n, []) == Success(Take(Items(st.topPopular), n))
  {
  }

  /** The most recently seen item, when known, contributes the first category. */
  lemma MostRecentCategoryFirst(itemCats: map<int, int>, lastItems: seq<int>)
    requires lastItems != [] && lastItems[|lastItems| - 1] in itemCats
    ensures LastCategories(itemCats, lastItems) != []
    ensures LastCategories(itemCats, lastItems)[0] == itemCats[lastItems[|lastItems| - 1]]
  {
    var recent := Reverse(LastThree(lastItems));
    assert recent[0] == lastItems[|lastItems| - 1];
    var known := KnownCategories(itemCats, recent);
    assert known[0] == itemCats[lastItems[|lastItems| - 1]];
    DedupHead(known);
  }

  /**
   * Category priority: three recent items of three distinct known
   * categories give the categories newest first.
   */
  lemma CategoryPriority(itemCats: map<int, int>, i1: int, i2: int, i3: int)
    requires i1 in itemCats && i2 in itemCats && i3 in itemCats
    requires itemCats[i1] != itemCats[i2] && itemCats[i2] != itemCats[i3] && itemCats[i1] != itemCats[i3]
    ensures LastCategories(itemCats, [i1, i2, i3]) == [itemCats[i3], itemCats[i2], itemCats[i1]]
  {
    var recent := Reverse(LastThree([i1, i2, i3]));
    assert recent == [i3, i2, i1];
    var known := KnownCategories(itemCats, recent);
    assert [i1][1..] == [] && [i2, i1][1..] == [i1] && [i3, i2, i1][1..] == [i2, i1];
    assert KnownCategories(itemCats, [i1]) == [itemCats[i1]];
    assert KnownCategories(itemCats, [i2, i1]) == [itemCats[i2], itemCats[i1]];
    assert known == [itemCats[i3], itemCats[i2], itemCats[i1]];
    DedupOfNoDup(known);
  }

  /**
   * Recency decides the order of two categories one way only, so the
   * order of the retained categories is fixed by the history.
   */
  lemma MentionedLaterAntisymmetric(itemCats: map<int, int>, s: seq<int>, a: int, b: int)
    requires MentionedLater(itemCats, s, a, b)
    ensures !MentionedLater(itemCats, s, b, a)
  {
    var k :| 0 <= k < |s| && RecentMention(itemCats, s, k, a) &&
      forall k' | 0 <= k' < |s| && RecentMention(itemCats, s, k', b) :: k' < k;
    forall m | 0 <= m < |s| && RecentMention(itemCats, s, m, b)
      ensures !(forall k' | 0 <= k' < |s| && RecentMention(itemCats, s, k', a) :: k' < m)
    {
      assert m < k;
    }
  }

  /** Every retained category is the category of some item of the history that the catalogue knows. */
  lemma UnknownItemsAreSkipped(itemCats: map<int, int>, lastItems: seq<int>, c: int)
    requires c in LastCategories(itemCats, lastItems)
    ensures exists k :: 0 <= k < |lastItems| && lastItems[k] in itemCats && itemCats[lastItems[k]] == c
  {
  }

  lemma NoKnownRecentItems(itemCats: map<int, int>, lastItems: seq<int>)
    requires forall k :: 0 <= k < |lastItems| && |lastItems| - 3 <= k ==> lastItems[k] !in itemCats
    ensures LastCategories(itemCats, lastItems) == []
  {
    var recent := Reverse(LastThree(lastItems));
    assert forall i :: 0 <= i < |recent| ==> recent[i] !in itemCats;
    UnknownItemsHaveNoCategories(itemCats, recent);
  }

  lemma {:induction false} UnknownItemsHaveNoCategories(itemCats: map<int, int>, items: seq<int>)
    requires forall i :: 0 <= i < |items| ==> items[i] !in itemCats
    ensures KnownCategories(itemCats, items) == []
    decreases |items|
  {
    if items != [] {
      UnknownItemsHaveNoCategories(itemCats, items[1..]);
    }
  }

  /**
   * A history whose last three items are all unknown yields the global
   * top n, as an empty history does.
   */
  lemma UnknownHistoryIsGlobalTop(st: Store, n: nat, lastItems: seq<int>)
    requires ValidStore(st)
    requires forall k :: 0 <= k < |lastItems| && |lastItems| - 3 <= k ==> lastItems[k] !in st.itemCats
    ensures OnlineRecs(st, n, lastItems) == Success(TopPopularGlobal(st, n))
  {
    NoKnownRecentItems(st.itemCats, lastItems);
    var base := TopPopularGlobal(st, n);
    if lastItems != [] {
      assert CategoryLists(st, n, []) == Success([]);
      assert [] + [base] == [base];
      InterleaveOne(base);
      NoDupPrefix(Items(st.topPopular), base);
      DedupOfNoDup(base);
    }
  }

  /** The online list fails exactly when a retained recent category has no top-popular row. */
  lemma OnlineFailsOnMissingCategory(st: Store, n: nat, lastItems: seq<int>)
    ensures OnlineRecs(st, n, lastItems).Failure? <==>
      lastItems != [] &&
      exists c :: c in LastCategories(st.itemCats, lastItems) && c !in KeysOf(st.topPopular)
    ensures OnlineRecs(st, n, lastItems).Failure? ==>
      var c := OnlineRecs(st, n, lastItems).error.key;
      OnlineRecs(st, n, lastItems).error == KeyError(c) && c in LastCategories(st.itemCats, lastItems) && c !in KeysOf(st.topPopular)
  {
    var cats := LastCategories(st.itemCats, lastItems);
    if lastItems != [] && exists c :: c in cats && c !in KeysOf(st.topPopular) {
      var c :| c in cats && c !in KeysOf(st.topPopular);
      var i :| 0 <= i < |cats| && cats[i] == c;
    }
  }

  /** Each candidate is an item of the top-popular frame. */
  lemma CandidatesAreTopPopularItems(st: Store, n: nat, lastItems: seq<int>, x: int)
    requires x in OnlineCandidates(st, n, lastItems)
    ensures x in Items(st.topPopular)
  {
    var cats := LastCategories(st.itemCats, lastItems);
    var all := CategoryTops(st, n, cats) + [TopPopularGlobal(st, n)];
    ElementsOfAllMember(all, x);
    var i :| 0 <= i < |all| && x in all[i];
    if i < |cats| {
      assert x in Take(ItemsWhere(st.topPopular, cats[i]), n);
      RowItemInItems(st.topPopular, cats[i], x);
    }
  }

  /** For a non-empty history, the online list is the merge of the candidate lists. */
  lemma OnlineRecsIsMerge(st: Store, n: nat, lastItems: seq<int>)
    requires lastItems != [] && OnlineRecs(st, n, lastItems).Success?
    ensures var cats := LastCategories(st.itemCats, lastItems);
      OnlineRecs(st, n, lastItems).value
      == Take(Dedup(Interleave(CategoryTops(st, n, cats) + [TopPopularGlobal(st, n)])), n)
  {
    var cats := LastCategories(st.itemCats, lastItems);
    var lists := CategoryLists(st, n, cats).value;
    assert lists == CategoryTops(st, n, cats);
  }

  /**
   * The online list has no duplicates, holds at most n items, draws only on
   * the candidate lists (recent categories' top n and the global top n),
   * and is min(n, number of distinct candidates) long; when it is shorter
   * than n it holds every candidate.
   */
  lemma OnlineRecsContract(st: Store, n: nat, lastItems: seq<int>)
    requires ValidStore(st)
    requires OnlineRecs(st, n, lastItems).Success?
    ensures var r := OnlineRecs(st, n, lastItems).value;
      && NoDup(r)
      && |r| <= n
      && (forall x :: x in r ==> x in OnlineCandidates(st, n, lastItems))
      && |r| == Min(n, |OnlineCandidates(st, n, lastItems)|)
      && (|r| < n ==> forall x :: x in OnlineCandidates(st, n, lastItems) ==> x in r)
  {
    var r := OnlineRecs(st, n, lastItems).value;
    var base := TopPopularGlobal(st, n);
    var cats := LastCategories(st.itemCats, lastItems);
    var all := CategoryTops(st, n, cats) + [base];
    if lastItems == [] {
      assert cats == [] && all == [base];
      assert ElementsOfAll(all) == Elements(base) by {
        assert all[1..] == [];
      }
      NoDupPrefix(Items(st.topPopular), base);
      NoDupCardinality(base);
    } else {
      OnlineRecsIsMerge(st, n, lastItems);
      DedupTake(Interleave(all), n);
      InterleaveElements(all);
    }
  }

  /** Every online item is an item of the top-popular frame. */
  lemma OnlineRecsAreTopPopularItems(st: Store, n: nat, lastItems: seq<int>)
    requires ValidStore(st)
    requires OnlineRecs(st, n, lastItems).Success?
    ensures forall x :: x in OnlineRecs(st, n, lastItems).value ==> x in Items(st.topPopular)
  {
    OnlineRecsContract(st, n, lastItems);
    forall x | x in OnlineRecs(st, n, lastItems).value
      ensures x in Items(st.topPopular)
    {
      CandidatesAreTopPopularItems(st, n, lastItems, x);
    }
  }

  /** A user without personal recommendations gets exactly the online list. */
  lemma NoPersonalFallback(st: Store, userId: int, n: nat, lastItems: seq<int>)
    requires userId !in st.usersWithPersonal
    ensures GetRecs(st, userId, n, lastItems) == OnlineRecs(st, n, lastItems)
  {
  }

  /** Such a user with no history gets the global top n. */
  lemma ColdStart(st: Store, userId: int, n: nat)
    requires userId !in st.usersWithPersonal
    ensures GetRecs(st, userId, n, []) == Success(Take(Items(st.topPopular), n))
  {
  }

  /**
   * With a valid store, `get_recs` fails exactly when the online list
   * does: a user in the personal set always has personal rows.
   */
  lemma GetRecsFailsOnlyOnline(st: Store, userId: int, n: nat, lastItems: seq<int>)
    requires ValidStore(st)
    ensures GetRecs(st, userId, n, lastItems).Failure? <==> OnlineRecs(st, n, lastItems).Failure?
  {
  }

  /** For a user with personal recommendations, the final list is the pairwise merge. */
  lemma GetRecsIsMerge(st: Store, userId: int, n: nat, lastItems: seq<int>)
    requires ValidStore(st) && userId in st.usersWithPersonal
    requires OnlineRecs(st, n, lastItems).Success?
    ensures var online := OnlineRecs(st, n, lastItems).value;
      var personal := Take(ItemsWhere(st.personal, userId), n);
      GetRecs(st, userId, n, lastItems) == Success(Take(Dedup(Interleave([online, personal])), n))
  {
  }

  /** The pairwise merge of the online and personal lists draws on their items only. */
  lemma BlendContract(online: seq<int>, personal: seq<int>, n: nat)
    ensures var r := Take(Dedup(Interleave([online, personal])), n);
      && NoDup(r)
      && (forall x :: x in r ==> x in online || x in personal)
      && |r| == Min(n, |Elements(online) + Elements(personal)|)
  {
    var lists := [online, personal];
    var s := Interleave(lists);
    var both := Elements(online) + Elements(personal);
    DedupTake(s, n);
    InterleaveElements(lists);
    assert lists[1..] == [personal] && [personal][1..] == [];
    assert ElementsOfAll([personal]) == Elements(personal);
    assert Elements(s) == both;
    var r := Take(Dedup(s), n);
    forall x | x in r
      ensures x in online || x in personal
    {
      assert x in s;
      assert x in Elements(s);
    }
  }

  /**
   * The final list has no duplicates, holds at most n items, and every item
   * is a top-popular item or one of the user's personal recommendations.
   * For a user with personal recommendations its length is min(n, distinct
   * items of the online and personal lists).
   */
  lemma GetRecsContract(st: Store, userId: int, n: nat, lastItems: seq<int>)
    requires ValidStore(st)
    requires GetRecs(st, userId, n, lastItems).Success?
    ensures var r := GetRecs(st, userId, n, lastItems).value;
      && NoDup(r)
      && |r| <= n
      && (forall x :: x in r ==> x in Items(st.topPopular) || x in ItemsWhere(st.personal, userId))
    ensures userId in st.usersWithPersonal ==>
      var online := OnlineRecs(st, n, lastItems).value;
      var personal := Take(ItemsWhere(st.personal, userId), n);
      |GetRecs(st, userId, n, lastItems).value| == Min(n, |Elements(online) + Elements(personal)|)
  {
    OnlineRecsContract(st, n, lastItems);
    OnlineRecsAreTopPopularItems(st, n, lastItems);
    if userId in st.usersWithPersonal {
      var online := OnlineRecs(st, n, lastItems).value;
      var personal := Take(ItemsWhere(st.personal, userId), n);
      GetRecsIsMerge(st, userId, n, lastItems);
      BlendContract(online, personal, n);
    }
  }

  /** The response model accepts every final list: all its ids are non-negative. */
  lemma ResponseAccepted(st: Store, userId: int, n: nat, lastItems: seq<int>)
    requires ValidStore(st)
    requires GetRecs(st, userId, n, lastItems).Success?
    ensures NewResponse(GetRecs(st, userId, n, lastItems).value).Success?
  {
    var r := GetRecs(st, userId, n, lastItems).value;
    GetRecsContract(st, userId, n, lastItems);
    forall i | 0 <= i < |r|
      ensures r[i] >= 0
    {
      assert r[i] in r;
      if r[i] in Items(st.topPopular) {
        var j :| 0 <= j < |Items(st.topPopular)| && Items(st.topPopular)[j] == r[i];
        assert st.topPopular[j] in st.topPopular;
      } else {
        assert Row(userId, r[i]) in st.personal;
      }
    }
  }

  /**
   * Blend priority: the final list starts with the first online item, and
   * when the first personal item differs from it and n >= 2 that item comes
   * second.
   */
  lemma BlendPriority(st: Store, userId: int, n: nat, lastItems: seq<int>)
    requires ValidStore(st)
    requires userId in st.usersWithPersonal
    requires OnlineRecs(st, n, lastItems).Success? && OnlineRecs(st, n, lastItems).value != []
    ensures GetRecs(st, userId, n, lastItems).Success?
    ensures var online := OnlineRecs(st, n, lastItems).value;
      var personal := Take(ItemsWhere(st.personal, userId), n);
      var r := GetRecs(st, userId, n, lastItems).value;
      && personal != []
      && r != [] && r[0] == online[0]
      && (personal[0] != online[0] && n >= 2 ==> |r| >= 2 && r[1] == personal[0])
  {
    var online := OnlineRecs(st, n, lastItems).value;
    OnlineRecsContract(st, n, lastItems);
    var personal := Take(ItemsWhere(st.personal, userId), n);
    assert PersonalRecs(st, userId, n) == Success(personal);
    var s := Interleave([online, personal]);
    InterleavePair(online, personal, 0);
    var d := Dedup(s);
    if personal[0] != online[0] {
      DedupStartsWith(s);
    } else {
      DedupHead(s);
    }
  }

  /**
   * The online list starts with the best item of the most recent retained
   * category.
   */
  lemma OnlineStartsWithRecentCategory(st: Store, n: nat, lastItems: seq<int>)
    requires n > 0 && lastItems != []
    requires OnlineRecs(st, n, lastItems).Success?
    requires LastCategories(st.itemCats, lastItems) != []
    ensures var c := LastCategories(st.itemCats, lastItems)[0];
      && ItemsWhere(st.topPopular, c) != []
      && OnlineRecs(st, n, lastItems).value != []
      && OnlineRecs(st, n, lastItems).value[0] == ItemsWhere(st.topPopular, c)[0]
  {
    var cats := LastCategories(st.itemCats, lastItems);
    var lists := CategoryLists(st, n, cats).value;
    var all := lists + [TopPopularGlobal(st, n)];
    assert all[0] == lists[0] == Take(ItemsWhere(st.topPopular, cats[0]), n);
    assert cats[0] in KeysOf(st.topPopular);
    InterleaveAt(all, 0, 0);
    assert all[..0] == [];
    DedupHead(Interleave(all));
  }
}
