/**
 * The recommendation handler of the service: the request and response
 * models, the read-only store that `load_data` builds, and the per-request
 * lookups `_get_top_popular`, `_get_online_recs` and `get_recs`.
 *
 * Policy for a category that has no row in the top-popular frame: as in the
 * code, `.loc` raises a KeyError, modelled as Failure(KeyError(c)); the
 * service turns it into an internal-server-error response.
 */
module RecSysCore {
  import opened Wrappers
  import opened SeqOps
  import opened RoundRobin

  // ---------------------------------------------------------------------
  // Request and response models
  // ---------------------------------------------------------------------

  /** Default of `n_recs` when the request leaves it out. */
  const DefaultNRecs: int := 10

  /** A validated request: user id, number of recommendations, recent items (oldest first). */
  datatype Request = Request(userId: int, nRecs: int, lastItems: seq<int>)

  /** A response: the recommended item ids, best first. */
  datatype Response = Response(recs: seq<int>)

  datatype ValidationError = MissingUserId | NegativeUserId | NonPositiveNRecs | NegativeItemId

  predicate AllNonNegative(s: seq<int>) {
    forall i :: 0 <= i < |s| ==> s[i] >= 0
  }

  /** The field constraints: NonNegativeInt user id, PositiveInt count, NonNegativeInt items. */
  predicate ValidRequest(q: Request) {
    q.userId >= 0 && q.nRecs > 0 && AllNonNegative(q.lastItems)
  }

  /**
   * Building a request from the decoded fields: `user_id` is required,
   * `n_recs` defaults to 10 and `last_items` to the empty list.
   */
  function NewRequest(userId: Option<int>, nRecs: Option<int>, lastItems: Option<seq<int>>): (r: Result<Request, ValidationError>)
    ensures r.Success? <==>
      userId.Some? && userId.value >= 0 && nRecs.GetOr(DefaultNRecs) > 0 && AllNonNegative(lastItems.GetOr([]))
    ensures r.Success? ==> ValidRequest(r.value)
    ensures r.Success? ==>
      r.value.userId == userId.value && r.value.nRecs == nRecs.GetOr(DefaultNRecs) && r.value.lastItems == lastItems.GetOr([])
  {
    if userId.None? then Failure(MissingUserId)
    else if userId.value < 0 then Failure(NegativeUserId)
    else if nRecs.GetOr(DefaultNRecs) <= 0 then Failure(NonPositiveNRecs)
    else if !AllNonNegative(lastItems.GetOr([])) then Failure(NegativeItemId)
    else Success(Request(userId.value, nRecs.GetOr(DefaultNRecs), lastItems.GetOr([])))
  }

  /** Building a response: every recommended id must be a NonNegativeInt. */
  function NewResponse(recs: seq<int>): (r: Result<Response, ValidationError>)
    ensures r.Success? <==> AllNonNegative(recs)
    ensures r.Success? ==> r.value.recs == recs
  {
    if AllNonNegative(recs) then Success(Response(recs)) else Failure(NegativeItemId)
  }

  // ---------------------------------------------------------------------
  // The store built by load_data
  // ---------------------------------------------------------------------

  /**
   * One row of a frame indexed by a non-unique integer key:
   * (category_id, item_id) in the top-popular frame, (user_id, item_id)
   * in the personal frame. The score column only orders the rows, so it
   * is dropped and the rows are kept in descending score order.
   */
  datatype Row = Row(key: int, item: int)

  /** A row of the items catalogue. */
  datatype ItemRow = ItemRow(item: int, category: int)

  /**
   * The handler's fields after `load_data`: `_item_cats`, `_top_popular`
   * (globally sorted, indexed by category), `_personal_recs` (indexed by
   * user) and `_users_with_personal_recs`.
   */
  datatype Store = Store(
    itemCats: map<int, int>,
    topPopular: seq<Row>,
    personal: seq<Row>,
    usersWithPersonal: set<int>)

  /** The `item_id` column of a frame. */
  function Items(frame: seq<Row>): seq<int> {
    seq(|frame|, i requires 0 <= i < |frame| => frame[i].item)
  }

  /** The distinct index labels of a frame. */
  function KeysOf(frame: seq<Row>): set<int> {
    set r | r in frame :: r.key
  }

  /** The `item_id` values of the rows labelled k, in frame order. */
  function ItemsWhere(frame: seq<Row>, k: int): (r: seq<int>)
    ensures |r| <= |frame|
    ensures r == [] <==> k !in KeysOf(frame)
    ensures forall x :: x in r <==> Row(k, x) in frame
  {
    if frame == [] then []
    else
      assert KeysOf(frame) == {frame[0].key} + KeysOf(frame[1..]);
      assert forall x :: Row(k, x) in frame <==> frame[0] == Row(k, x) || Row(k, x) in frame[1..];
      (if frame[0].key == k then [frame[0].item] else []) + ItemsWhere(frame[1..], k)
  }

  /** Row i is the last row of the catalogue that mentions its item. */
  predicate LastMention(rows: seq<ItemRow>, i: int)
    requires 0 <= i < |rows|
  {
    forall j :: i < j < |rows| ==> rows[j].item != rows[i].item
  }

  /**
   * `set_index('item_id')['category_id'].to_dict()`: one entry per item;
   * when an item is listed twice, the later row wins.
   */
  function ItemCategoryDict(rows: seq<ItemRow>): (m: map<int, int>)
    ensures m.Keys == set r | r in rows :: r.item
    ensures forall i :: 0 <= i < |rows| && LastMention(rows, i) ==> m[rows[i].item] == rows[i].category
  {
    if rows == [] then map[]
    else
      var init, last := rows[..|rows| - 1], rows[|rows| - 1];
      assert rows == init + [last];
      assert forall i :: 0 <= i < |init| && LastMention(rows, i) ==> LastMention(init, i);
      ItemCategoryDict(init)[last.item := last.category]
  }

  /**
   * `load_data`: the catalogue becomes the item -> category dictionary, the
   * two frames are kept as they are, and the users with personal
   * recommendations are the distinct labels of the personal frame.
   */
  function Load(items: seq<ItemRow>, topPopular: seq<Row>, personal: seq<Row>): (st: Store)
    ensures forall u :: u in st.usersWithPersonal <==> ItemsWhere(personal, u) != []
  {
    Store(ItemCategoryDict(items), topPopular, personal, KeysOf(personal))
  }

  /**
   * What the handler relies on: one top-popular row per item (the table is
   * a group-by over items), non-negative item ids (the response model
   * demands them), and the user set that `load_data` derives.
   */
  predicate ValidStore(st: Store) {
    && NoDup(Items(st.topPopular))
    && (forall r :: r in st.topPopular ==> r.item >= 0)
    && (forall r :: r in st.personal ==> r.item >= 0)
    && st.usersWithPersonal == KeysOf(st.personal)
  }

  // ---------------------------------------------------------------------
  // Label lookups on the frames
  // ---------------------------------------------------------------------

  /** The exceptions a lookup can raise. */
  datatype Fault =
    | KeyError(key: int)        // `.loc` on a label the index does not hold
    | NoHeadOnScalar(key: int)  // `.head` called on the scalar `.loc` gives for a one-row label

  /** Outcome of a label lookup. */
  datatype Lookup = Found(items: seq<int>) | NotFound

  /** `.loc[key, 'item_id']` read as the list of the matching rows' items. */
  function Loc(frame: seq<Row>, key: int): (r: Lookup)
    ensures r.NotFound? <==> key !in KeysOf(frame)
    ensures r.Found? ==> r.items == ItemsWhere(frame, key)
  {
    var items := ItemsWhere(frame, key);
    if items == [] then NotFound else Found(items)
  }

  /** `.loc[key, 'item_id'].head(n).tolist()`, a one-row label giving a one-element list. */
  function HeadOfLoc(frame: seq<Row>, key: int, n: nat): (r: Result<seq<int>, Fault>)
    ensures r.Failure? <==> key !in KeysOf(frame)
    ensures r.Failure? ==> r.error == KeyError(key)
    ensures r.Success? ==>
      r.value <= ItemsWhere(frame, key) && |r.value| == Min(n, |ItemsWhere(frame, key)|)
  {
    match Loc(frame, key)
    case NotFound => Failure(KeyError(key))
    case Found(items) => Success(Take(items, n))
  }

  /**
   * What pandas gives for `.loc[key, 'item_id']` on a non-unique index:
   * nothing for a missing label, a bare cell for a label with one row
   * (Index.get_loc turns a single match into an integer position, whether
   * the index is sorted or not), and a Series otherwise.
   */
  datatype PandasLoc = MissingLabel | ScalarCell(item: int) | SeriesCells(items: seq<int>)

  function LocAsWritten(frame: seq<Row>, key: int): (r: PandasLoc)
    ensures r.MissingLabel? <==> key !in KeysOf(frame)
    ensures r.ScalarCell? <==> |ItemsWhere(frame, key)| == 1
    ensures r.ScalarCell? ==> [r.item] == ItemsWhere(frame, key)
    ensures r.SeriesCells? ==> r.items == ItemsWhere(frame, key) && |r.items| >= 2
  {
    var items := ItemsWhere(frame, key);
    if |items| == 0 then MissingLabel
    else if |items| == 1 then ScalarCell(items[0])
    else SeriesCells(items)
  }

  /**
   * `.loc[key, 'item_id'].head(n).tolist()` as written: a single cell has
   * no `head`, so a label with one row raises.
   */
  function HeadOfLocAsWritten(frame: seq<Row>, key: int, n: nat): (r: Result<seq<int>, Fault>)
    ensures r.Success? <==> |ItemsWhere(frame, key)| >= 2
    ensures key !in KeysOf(frame) ==> r == Failure(KeyError(key))
    ensures |ItemsWhere(frame, key)| == 1 ==> r == Failure(NoHeadOnScalar(key))
    ensures r.Success? ==> r == HeadOfLoc(frame, key, n)
  {
    match LocAsWritten(frame, key)
    case MissingLabel => Failure(KeyError(key))
    case ScalarCell(_) => Failure(NoHeadOnScalar(key))
    case SeriesCells(items) => Success(Take(items, n))
  }

  // ---------------------------------------------------------------------
  // The handler
  // ---------------------------------------------------------------------

  /** `_get_top_popular(n, None)`: the first n items of the global ranking. */
  function TopPopularGlobal(st: Store, n: nat): (r: seq<int>)
    ensures r <= Items(st.topPopular)
    ensures |r| == Min(n, |st.topPopular|)
  {
    Take(Items(st.topPopular), n)
  }

  /** `_get_top_popular(n, c)`: the first n items of category c's rows. */
  function TopPopularCategory(st: Store, n: nat, c: int): (r: Result<seq<int>, Fault>)
    ensures r.Failure? <==> c !in KeysOf(st.topPopular)
    ensures r.Failure? ==> r.error == KeyError(c)
    ensures r.Success? ==> r.value == Take(ItemsWhere(st.topPopular, c), n)
  {
    HeadOfLoc(st.topPopular, c, n)
  }

  /** `last_items[-3:]`. */
  function LastThree(s: seq<int>): (r: seq<int>)
    ensures |r| == Min(3, |s|)
    ensures forall i :: 0 <= i < |r| ==> r[i] == s[|s| - |r| + i]
  {
    if |s| <= 3 then s else s[|s| - 3..]
  }

  function Reverse(s: seq<int>): (r: seq<int>)
    ensures |r| == |s|
    ensures forall i :: 0 <= i < |s| ==> r[i] == s[|s| - 1 - i]
  {
    if s == [] then [] else [s[|s| - 1]] + Reverse(s[..|s| - 1])
  }

  /** `[item_cats.get(i) for i in items]` then `dropna()`: the categories of the known items, in order. */
  function KnownCategories(itemCats: map<int, int>, items: seq<int>): (r: seq<int>)
    ensures |r| <= |items|
    ensures forall c :: c in r <==> exists i :: 0 <= i < |items| && items[i] in itemCats && itemCats[items[i]] == c
  {
    if items == [] then []
    else
      assert forall i :: 1 <= i < |items| ==> items[1..][i - 1] == items[i];
      (if items[0] in itemCats then [itemCats[items[0]]] else []) + KnownCategories(itemCats, items[1..])
  }

  /** Unknown items drop out independently, so the categories of a concatenation concatenate. */
  lemma {:induction false} KnownCategoriesAppend(itemCats: map<int, int>, a: seq<int>, b: seq<int>)
    ensures KnownCategories(itemCats, a + b) == KnownCategories(itemCats, a) + KnownCategories(itemCats, b)
    decreases |a|
  {
    if a == [] {
      assert a + b == b;
    } else {
      assert (a + b)[1..] == a[1..] + b;
      KnownCategoriesAppend(itemCats, a[1..], b);
    }
  }

  /**
   * The first time c shows up among the known categories, it comes from the
   * earliest item of category c, right after the categories of the items
   * before that one.
   */
  lemma {:induction false} KnownFirst(itemCats: map<int, int>, items: seq<int>, c: int) returns (p: nat)
    requires c in KnownCategories(itemCats, items)
    ensures p < |items| && items[p] in itemCats && itemCats[items[p]] == c
    ensures forall q :: 0 <= q < p ==> !(items[q] in itemCats && itemCats[items[q]] == c)
    ensures FirstIndex(KnownCategories(itemCats, items), c) == |KnownCategories(itemCats, items[..p])|
    decreases |items|
  {
    var known := KnownCategories(itemCats, items);
    var head := if items[0] in itemCats then [itemCats[items[0]]] else [];
    var rest := KnownCategories(itemCats, items[1..]);
    assert known == head + rest;
    if items[0] in itemCats && itemCats[items[0]] == c {
      p := 0;
      assert items[..0] == [];
      FirstIndexIs(known, c, 0);
    } else {
      assert c !in head;
      var p' := KnownFirst(itemCats, items[1..], c);
      p := p' + 1;
      assert items[p] == items[1..][p'];
      FirstIndexAfter(head, rest, c);
      var before := items[..p];
      assert before[0] == items[0] && before[1..] == items[1..][..p'];
      assert KnownCategories(itemCats, before) == head + KnownCategories(itemCats, before[1..]);
      assert forall q :: 1 <= q < p ==> items[q] == items[1..][q - 1];
    }
  }

  lemma KnownPrefixGrows(itemCats: map<int, int>, items: seq<int>, p: nat, q: nat)
    requires p <= q <= |items|
    ensures |KnownCategories(itemCats, items[..p])| <= |KnownCategories(itemCats, items[..q])|
  {
    assert items[..q] == items[..p] + items[p..q];
    KnownCategoriesAppend(itemCats, items[..p], items[p..q]);
  }

  /** Position k is among the last three of history s, and its item is in the catalogue with category c. */
  predicate RecentMention(itemCats: map<int, int>, s: seq<int>, k: int, c: int) {
    0 <= k < |s| && |s| - 3 <= k && s[k] in itemCats && itemCats[s[k]] == c
  }

  /**
   * Of two retained categories, the earlier one has a mention among the
   * last three items later than every mention of the other.
   */
  lemma NewestFirst(itemCats: map<int, int>, s: seq<int>, i: nat, j: nat) returns (k: int)
    requires i < j < |Dedup(KnownCategories(itemCats, Reverse(LastThree(s))))|
    ensures var r := Dedup(KnownCategories(itemCats, Reverse(LastThree(s))));
      RecentMention(itemCats, s, k, r[i]) && forall k' | RecentMention(itemCats, s, k', r[j]) :: k' < k
  {
    var recent := Reverse(LastThree(s));
    var known := KnownCategories(itemCats, recent);
    var r := Dedup(known);
    var x, y := r[i], r[j];
    assert x in r && y in r;
    DedupMember(known, x);
    DedupMember(known, y);
    assert x !in r[..i] && y !in r[..j];
    FirstIndexIs(r, x, i);
    FirstIndexIs(r, y, j);
    DedupKeepsFirstOccurrenceOrder(known, x, y);
    var px := KnownFirst(itemCats, recent, x);
    var py := KnownFirst(itemCats, recent, y);
    assert px < py by {
      if py <= px {
        KnownPrefixGrows(itemCats, recent, py, px);
      }
    }
    k := |s| - 1 - px;
    assert recent[px] == s[k];
    forall k' | RecentMention(itemCats, s, k', y)
      ensures k' < k
    {
      assert recent[|s| - 1 - k'] == s[k'];
    }
  }

  /**
   * Category a was seen more recently than category b: some one of the last
   * three items has category a and comes after every such item of category b.
   */
  predicate MentionedLater(itemCats: map<int, int>, s: seq<int>, a: int, b: int) {
    exists k | 0 <= k < |s| :: RecentMention(itemCats, s, k, a) &&
      forall k' | 0 <= k' < |s| && RecentMention(itemCats, s, k', b) :: k' < k
  }

  /** Retained categories come in order of their latest mention among the last three items. */
  lemma RecencyOrder(itemCats: map<int, int>, s: seq<int>, r: seq<int>)
    requires r == Dedup(KnownCategories(itemCats, Reverse(LastThree(s))))
    ensures forall i, j | 0 <= i < j < |r| :: MentionedLater(itemCats, s, r[i], r[j])
  {
    forall i, j | 0 <= i < j < |r|
      ensures MentionedLater(itemCats, s, r[i], r[j])
    {
      var k := NewestFirst(itemCats, s, i, j);
      assert RecentMention(itemCats, s, k, r[i]);
    }
  }

  /**
   * The categories of the last three items, most recent first, with
   * unknown items dropped and repeated categories kept once: at most three
   * distinct categories, each the category of one of the last three items,
   * and every known one of those items contributing its category.
   */
  function LastCategories(itemCats: map<int, int>, lastItems: seq<int>): (r: seq<int>)
    ensures |r| <= 3 && NoDup(r)
    ensures forall c :: c in r <==> exists k :: RecentMention(itemCats, lastItems, k, c)
    ensures forall i, j | 0 <= i < j < |r| :: MentionedLater(itemCats, lastItems, r[i], r[j])
  {
    var r := Dedup(KnownCategories(itemCats, Reverse(LastThree(lastItems))));
    RecentMembership(itemCats, lastItems, r);
    RecencyOrder(itemCats, lastItems, r);
    r
  }

  /** The reversed last three items: position i holds the i-th item counted from the end. */
  lemma RecentIndex(s: seq<int>)
    ensures |Reverse(LastThree(s))| == if |s| <= 3 then |s| else 3
    ensures forall i :: 0 <= i < |Reverse(LastThree(s))| ==> Reverse(LastThree(s))[i] == s[|s| - 1 - i]
  {
  }

  /** A category is retained exactly when one of the last three items has it. */
  lemma RecentMembership(itemCats: map<int, int>, s: seq<int>, r: seq<int>)
    requires r == Dedup(KnownCategories(itemCats, Reverse(LastThree(s))))
    ensures forall c :: c in r <==> exists k :: RecentMention(itemCats, s, k, c)
  {
    var recent := Reverse(LastThree(s));
    var known := KnownCategories(itemCats, recent);
    RecentIndex(s);
    forall c | c in r
      ensures exists k :: RecentMention(itemCats, s, k, c)
    {
      DedupMember(known, c);
      var i :| 0 <= i < |recent| && recent[i] in itemCats && itemCats[recent[i]] == c;
      assert RecentMention(itemCats, s, |s| - 1 - i, c);
    }
    forall c, k | RecentMention(itemCats, s, k, c)
      ensures c in r
    {
      var i := |s| - 1 - k;
      assert 0 <= i < |recent| && recent[i] == s[k];
      DedupMember(known, c);
    }
  }

  /**
   * `[_get_top_popular(n, c) for c in cats]`: every category's top n, or
   * the KeyError of the first category the frame does not hold.
   */
  function CategoryLists(st: Store, n: nat, cats: seq<int>): (r: Result<seq<seq<int>>, Fault>)
    ensures r.Success? <==> forall i :: 0 <= i < |cats| ==> cats[i] in KeysOf(st.topPopular)
    ensures r.Success? ==> |r.value| == |cats|
    ensures r.Success? ==> forall i :: 0 <= i < |cats| ==> r.value[i] == Take(ItemsWhere(st.topPopular, cats[i]), n)
    ensures r.Failure? ==> exists i :: 0 <= i < |cats| && r.error == KeyError(cats[i]) && cats[i] !in KeysOf(st.topPopular)
  {
    if cats == [] then Success([])
    else
      var head :- TopPopularCategory(st, n, cats[0]);
      var rest :- CategoryLists(st, n, cats[1..]);
      Success([head] + rest)
  }

  /**
   * `_get_online_recs`: the global top n when there is no history;
   * otherwise the top n of each recent category and then the global top n,
   * merged round-robin, deduplicated and cut to n.
   */
  function OnlineRecs(st: Store, n: nat, lastItems: seq<int>): (r: Result<seq<int>, Fault>)
    ensures r.Success? ==> |r.value| <= n
    ensures r.Failure? ==>
      && lastItems != [] && r.error.KeyError?
      && r.error.key in LastCategories(st.itemCats, lastItems) && r.error.key !in KeysOf(st.topPopular)
  {
    var base := TopPopularGlobal(st, n);
    if lastItems == [] then Success(base)
    else
      var lists :- CategoryLists(st, n, LastCategories(st.itemCats, lastItems));
      Success(Take(Dedup(Interleave(lists + [base])), n))
  }

  /** `_personal_recs.loc[user_id, 'item_id'].head(n)`. */
  function PersonalRecs(st: Store, userId: int, n: nat): (r: Result<seq<int>, Fault>)
    ensures r.Failure? <==> userId !in KeysOf(st.personal)
    ensures r.Failure? ==> r.error == KeyError(userId)
    ensures r.Success? ==> r.value == Take(ItemsWhere(st.personal, userId), n)
  {
    HeadOfLoc(st.personal, userId, n)
  }

  /**
   * `get_recs`: the online list alone for a user without personal
   * recommendations; otherwise online and personal merged pairwise,
   * deduplicated and cut to n.
   */
  function GetRecs(st: Store, userId: int, n: nat, lastItems: seq<int>): (r: Result<seq<int>, Fault>)
    ensures r.Success? ==> |r.value| <= n
    ensures r.Failure? ==> r.error.KeyError?
  {
    var online :- OnlineRecs(st, n, lastItems);
    if userId !in st.usersWithPersonal then Success(online)
    else
      var personal :- PersonalRecs(st, userId, n);
      Success(Take(Dedup(Interleave([online, personal])), n))
  }

  /**
   * `[_get_top_popular(n, c) for c in cats]` on the lookup as written: it
   * raises on the first category with fewer than two rows, and otherwise
   * gives the same lists as the corrected lookup.
   */
  function CategoryListsAsWritten(st: Store, n: nat, cats: seq<int>): (r: Result<seq<seq<int>>, Fault>)
    ensures r.Success? <==> forall i :: 0 <= i < |cats| ==> |ItemsWhere(st.topPopular, cats[i])| >= 2
    ensures r.Success? ==> r == CategoryLists(st, n, cats)
  {
    if cats == [] then Success([])
    else
      assert forall i :: 1 <= i < |cats| ==> cats[1..][i - 1] == cats[i];
      var head := HeadOfLocAsWritten(st.topPopular, cats[0], n);
      var rest := CategoryListsAsWritten(st, n, cats[1..]);
      if head.Failure? then Failure(head.error)
      else if rest.Failure? then Failure(rest.error)
      else
        assert TopPopularCategory(st, n, cats[0]) == head;
        assert CategoryLists(st, n, cats[1..]) == rest;
        Success([head.value] + rest.value)
  }

  /** `_get_online_recs` on the lookup as written. */
  function OnlineRecsAsWritten(st: Store, n: nat, lastItems: seq<int>): (r: Result<seq<int>, Fault>)
    ensures r.Success? <==>
      lastItems == [] || forall c :: c in LastCategories(st.itemCats, lastItems) ==> |ItemsWhere(st.topPopular, c)| >= 2
    ensures r.Success? ==> r == OnlineRecs(st, n, lastItems)
  {
    var base := TopPopularGlobal(st, n);
    if lastItems == [] then Success(base)
    else
      var cats := LastCategories(st.itemCats, lastItems);
      assert (forall i :: 0 <= i < |cats| ==> |ItemsWhere(st.topPopular, cats[i])| >= 2) <==>
        (forall c :: c in cats ==> |ItemsWhere(st.topPopular, c)| >= 2);
      var lists :- CategoryListsAsWritten(st, n, cats);
      Success(Take(Dedup(Interleave(lists + [base])), n))
  }

  /** `get_recs` on the lookup as written. */
  function GetRecsAsWritten(st: Store, userId: int, n: nat, lastItems: seq<int>): (r: Result<seq<int>, Fault>)
    ensures r.Success? <==>
      OnlineRecsAsWritten(st, n, lastItems).Success? &&
      (userId !in st.usersWithPersonal || |ItemsWhere(st.personal, userId)| >= 2)
    ensures r.Success? ==> r == GetRecs(st, userId, n, lastItems)
  {
    var online :- OnlineRecsAsWritten(st, n, lastItems);
    if userId !in st.usersWithPersonal then Success(online)
    else
      var personal :- HeadOfLocAsWritten(st.personal, userId, n);
      Success(Take(Dedup(Interleave([online, personal])), n))
  }

  /** The top n of each category in turn. */
  function CategoryTops(st: Store, n: nat, cats: seq<int>): seq<seq<int>> {
    seq(|cats|, i requires 0 <= i < |cats| => Take(ItemsWhere(st.topPopular, cats[i]), n))
  }

  /**
   * Every item an online recommendation can be drawn from: the top n of
   * each retained recent category and the global top n.
   */
  function OnlineCandidates(st: Store, n: nat, lastItems: seq<int>): set<int> {
    var cats := LastCategories(st.itemCats, lastItems);
    ElementsOfAll(CategoryTops(st, n, cats) + [TopPopularGlobal(st, n)])
  }
}
