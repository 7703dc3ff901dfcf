/** Concrete cases of the handler, worked through the model. */
module RecSysExamples {
  import opened Wrappers
  import opened SeqOps
  import opened RoundRobin
  import opened RecSysCore
  import opened RecSysProperties

  /**
   * The store of the worked example: category 1 holds 101..105, category 2
   * (category A) holds 201 and 202, ranked below them; item 301 belongs to
   * A in the catalogue and user 7 has personal recommendations 301..303.
   */
  function ExampleStore(): Store {
    Store(
      map[301 := 2],
      [Row(1, 101), Row(1, 102), Row(1, 103), Row(1, 104), Row(1, 105), Row(2, 201), Row(2, 202)],
      [Row(7, 301), Row(7, 302), Row(7, 303)],
      {7})
  }

  /** The example store is what `load_data` builds from its three tables. */
  lemma ExampleStoreIsLoaded()
    ensures ExampleStore() == Load([ItemRow(301, 2)], ExampleStore().topPopular, ExampleStore().personal)
  {
    var personal := ExampleStore().personal;
    assert Row(7, 301) in personal;
    assert KeysOf(personal) == {7};
    assert [ItemRow(301, 2)][..0] == [];
  }

  lemma ExampleIsValid()
    ensures ValidStore(ExampleStore())
  {
    var st := ExampleStore();
    assert Items(st.topPopular) == [101, 102, 103, 104, 105, 201, 202];
    assert Row(7, 301) in st.personal;
    assert KeysOf(st.personal) == {7};
  }

  lemma MergeOfCategoryAndGlobal()
    ensures Interleave([[201, 202], [101, 102, 103]]) == [201, 101, 202, 102, 103]
  {
    var lists: seq<seq<int>> := [[201, 202], [101, 102, 103]];
    assert lists[..1] == [[201, 202]] && lists[..1][..0] == [];
    assert MaxLen(lists) == 3;
    assert Round(lists, 0) == [201, 101];
    assert Round(lists, 1) == [202, 102];
    assert Round(lists, 2) == [103];
  }

  /** The first three of a pairwise merge: a[0], b[0], a[1]. */
  lemma PairFront(a: seq<int>, b: seq<int>)
    requires |a| >= 2 && |b| >= 2
    ensures |Interleave([a, b])| >= 3
    ensures Interleave([a, b])[..3] == [a[0], b[0], a[1]]
  {
    InterleavePair(a, b, 0);
    InterleavePair(a, b, 1);
  }

  lemma ExampleLastCategories()
    ensures LastCategories(map[301 := 2], [301]) == [2]
  {
    assert Reverse(LastThree([301])) == [301];
    assert KnownCategories(map[301 := 2], [301]) == [2];
  }

  lemma ExampleGlobalTop()
    ensures TopPopularGlobal(ExampleStore(), 3) == [101, 102, 103]
  {
    assert Items(ExampleStore().topPopular)[..3] == [101, 102, 103];
  }

  /** Category 2's rows of the example ranking, read one row at a time from the back. */
  lemma ExampleCategoryRows()
    ensures ItemsWhere(ExampleStore().topPopular, 2) == [201, 202]
  {
    var top := ExampleStore().topPopular;
    assert top[6..][1..] == [];
    assert ItemsWhere(top[6..], 2) == [202];
    assert top[5..][1..] == top[6..];
    assert ItemsWhere(top[5..], 2) == [201, 202];
    assert top[4..][1..] == top[5..];
    assert ItemsWhere(top[4..], 2) == [201, 202];
    assert top[3..][1..] == top[4..];
    assert ItemsWhere(top[3..], 2) == [201, 202];
    assert top[2..][1..] == top[3..];
    assert ItemsWhere(top[2..], 2) == [201, 202];
    assert top[1..][1..] == top[2..];
    assert ItemsWhere(top[1..], 2) == [201, 202];
    assert top[1..] == top[1..];
  }

  /** A history whose known items all lie in one category c merges c's top with the global top. */
  lemma OnlineOfOneCategory(st: Store, n: nat, lastItems: seq<int>, c: int, rows: seq<int>)
    requires lastItems != [] && LastCategories(st.itemCats, lastItems) == [c]
    requires ItemsWhere(st.topPopular, c) == rows && rows != []
    ensures OnlineRecs(st, n, lastItems)
      == Success(Take(Dedup(Interleave([Take(rows, n), TopPopularGlobal(st, n)])), n))
  {
    OnlineRecsIsMerge(st, n, lastItems);
    assert CategoryTops(st, n, [c]) == [Take(rows, n)];
    assert [Take(rows, n)] + [TopPopularGlobal(st, n)] == [Take(rows, n), TopPopularGlobal(st, n)];
  }

  /** A user with personal rows gets the online list merged with the personal top. */
  lemma BlendOfUser(st: Store, u: int, n: nat, lastItems: seq<int>, online: seq<int>, rows: seq<int>)
    requires OnlineRecs(st, n, lastItems) == Success(online)
    requires u in st.usersWithPersonal
    requires ItemsWhere(st.personal, u) == rows && rows != []
    ensures GetRecs(st, u, n, lastItems) == Success(Take(Dedup(Interleave([online, Take(rows, n)])), n))
  {
  }

  lemma TakeOfMerged()
    ensures Take(Dedup([201, 101, 202, 102, 103]), 3) == [201, 101, 202]
  {
    var merged := [201, 101, 202, 102, 103];
    assert NoDup(merged);
    DedupOfNoDup(merged);
  }

  /** Online recommendations for history [301] and n = 3: [201, 101, 202]. */
  lemma WorkedOnlineExample()
    ensures OnlineRecs(ExampleStore(), 3, [301]) == Success([201, 101, 202])
  {
    var st := ExampleStore();
    ExampleLastCategories();
    ExampleGlobalTop();
    ExampleCategoryRows();
    OnlineOfOneCategory(st, 3, [301], 2, [201, 202]);
    assert Take([201, 202], 3) == [201, 202];
    MergeOfCategoryAndGlobal();
    TakeOfMerged();
  }

  lemma ExamplePersonalRows()
    ensures ItemsWhere(ExampleStore().personal, 7) == [301, 302, 303]
  {
    var p := ExampleStore().personal;
    assert p[2..][1..] == [];
    assert ItemsWhere(p[2..], 7) == [303];
    assert p[1..][1..] == p[2..];
    assert ItemsWhere(p[1..], 7) == [302, 303];
  }

  /** Take(Dedup(s), 3) is s's first three values when those are distinct. */
  lemma FrontOfDedup(s: seq<int>, a: int, b: int, c: int)
    requires |s| >= 3 && s[..3] == [a, b, c]
    requires a != b && b != c && a != c
    ensures Take(Dedup(s), 3) == [a, b, c]
  {
    assert NoDup([a, b, c]);
    DedupPrefix(s[..3], s[3..]);
    assert s[..3] + s[3..] == s;
    DedupOfNoDup(s[..3]);
  }

  /** Blended recommendations for user 7, history [301] and n = 3: [201, 301, 101]. */
  lemma WorkedBlendExample()
    ensures GetRecs(ExampleStore(), 7, 3, [301]) == Success([201, 301, 101])
  {
    var st := ExampleStore();
    WorkedOnlineExample();
    ExamplePersonalRows();
    BlendOfUser(st, 7, 3, [301], [201, 101, 202], [301, 302, 303]);
    assert Take([301, 302, 303], 3) == [301, 302, 303];
    var s := Interleave([[201, 101, 202], [301, 302, 303]]);
    PairFront([201, 101, 202], [301, 302, 303]);
    FrontOfDedup(s, 201, 301, 101);
  }

  /** An unknown user with no history and n = 2 gets the first two global items. */
  lemma ColdStartExample()
    ensures GetRecs(Store(map[], [Row(1, 101), Row(1, 102), Row(1, 103)], [], {}), 8, 2, []) == Success([101, 102])
  {
    assert Items([Row(1, 101), Row(1, 102), Row(1, 103)])[..2] == [101, 102];
  }

  /** An item missing from the catalogue is skipped: history [301, 999] retains category A only. */
  lemma UnknownItemExample()
    ensures LastCategories(map[301 := 2], [301, 999]) == [2]
  {
    var recent := Reverse(LastThree([301, 999]));
    assert recent == [999, 301];
    assert recent[1..] == [301];
    assert KnownCategories(map[301 := 2], recent) == [2];
  }

  /** An unknown item between two known ones drops out; the newer category still comes first. */
  lemma SkippedItemKeepsOrder()
    ensures LastCategories(map[1 := 10, 3 := 30], [1, 2, 3]) == [30, 10]
  {
    var recent := Reverse(LastThree([1, 2, 3]));
    assert recent == [3, 2, 1];
    assert recent[1..] == [2, 1] && recent[1..][1..] == [1];
    assert KnownCategories(map[1 := 10, 3 := 30], recent) == [30, 10];
    DedupOfNoDup([30, 10]);
  }

  /**
   * A category with a single row in the score-ordered ranking: as written
   * the category lookup raises; the corrected lookup gives the item.
   */
  lemma SingleRowCategoryFails()
    ensures HeadOfLocAsWritten([Row(6, 43), Row(5, 42), Row(6, 44)], 5, 10) == Failure(NoHeadOnScalar(5))
    ensures HeadOfLoc([Row(6, 43), Row(5, 42), Row(6, 44)], 5, 10) == Success([42])
  {
    var frame := [Row(6, 43), Row(5, 42), Row(6, 44)];
    assert frame[1..][1..] == [Row(6, 44)];
    assert ItemsWhere(frame[1..], 5) == [42];
    assert ItemsWhere(frame, 5) == [42];
  }

  /**
   * Personal recommendations with one row per user: as written the personal
   * lookup raises for user 7; the corrected lookup gives that user's item.
   */
  lemma SingleRowUserFails()
    ensures HeadOfLocAsWritten([Row(3, 11), Row(7, 13)], 7, 10) == Failure(NoHeadOnScalar(7))
    ensures HeadOfLoc([Row(3, 11), Row(7, 13)], 7, 10) == Success([13])
  {
    var frame := [Row(3, 11), Row(7, 13)];
    assert frame[1..] == [Row(7, 13)];
    assert ItemsWhere(frame, 7) == [13];
  }

  /**
   * The personal frame sorted by user, as loading builds it, where user 3
   * has two rows and user 7 one: user 3's lookup works as written, user 7's
   * raises.
   */
  lemma SortedPersonalSingleRowFails()
    ensures HeadOfLocAsWritten([Row(3, 11), Row(3, 12), Row(7, 13)], 3, 10) == Success([11, 12])
    ensures HeadOfLocAsWritten([Row(3, 11), Row(3, 12), Row(7, 13)], 7, 10) == Failure(NoHeadOnScalar(7))
    ensures HeadOfLoc([Row(3, 11), Row(3, 12), Row(7, 13)], 7, 10) == Success([13])
  {
    var frame := [Row(3, 11), Row(3, 12), Row(7, 13)];
    assert frame[1..][1..] == [Row(7, 13)];
    assert ItemsWhere(frame[1..], 7) == [13];
    assert ItemsWhere(frame, 7) == [13];
    assert ItemsWhere(frame[1..], 3) == [12];
    assert ItemsWhere(frame, 3) == [11, 12];
  }

  /** The worked blend does not reach a one-row label, so the handler as written gives the same result. */
  lemma WorkedBlendAsWritten()
    ensures GetRecsAsWritten(ExampleStore(), 7, 3, [301]) == Success([201, 301, 101])
  {
    ExampleLastCategories();
    ExampleCategoryRows();
    ExamplePersonalRows();
    WorkedBlendExample();
  }

  /**
   * A user with a single personal row and no history: the handler as
   * written raises, while the corrected handler answers.
   */
  lemma OneRowUserAsWritten()
    ensures GetRecsAsWritten(Store(map[], [Row(1, 101)], [Row(7, 301)], {7}), 7, 2, []) == Failure(NoHeadOnScalar(7))
    ensures GetRecs(Store(map[], [Row(1, 101)], [Row(7, 301)], {7}), 7, 2, []).Success?
  {
    assert ItemsWhere([Row(7, 301)], 7) == [301];
  }
}
