# Recommendation retrieval and category-tree ETL, modelled in Dafny

The service answers "which items should this user see next". It holds
three read-only tables in memory:

- a top-popular ranking of items, indexed by category;
- a per-user personal ranking;
- an item → category dictionary.

For each request `(user_id, n_recs, last_items)` the handler builds a result in three steps:

1. It builds an *online* list. This is the global top `n` when the request has no history. Otherwise it takes the top `n` of each category seen among the last three items, most recent first, and merges those lists round-robin with the global top `n`.
2. For a user who has personal recommendations, it merges the online list pairwise with that user's top `n`.
3. It removes duplicates, keeping the first occurrence, and cuts the result to `n`.

A separate ETL step reads the category tree, given as rows `(category_id, parent_id)`. For each category it computes the ancestors from the root down and the top-level category. It works as a worklist loop that repeats passes until a pass makes no progress.

The model takes the form of each source file:

- The request handler is pure logic over immutable tables. It becomes datatypes and functions (`RecSysCore`), and lemmas about them (`RecSysProperties`).
- The ETL step is an imperative loop over a mutable table and a shrinking list. It becomes methods:
  - `CatTree.EtlCatTree` is the outer `while`;
  - `CatTree.RunPass` is the `for` over a copy of the list;
  - `CatTree.VisitCategory` is one step of that `for`.
  - The table is a `map` from category to ancestor list, and the worklist is a `seq`.
  - Each method is proved against a specification function or predicate (`PassTable`, `Unassigned`, `IsAncestry`, `Stuck`).

Modules:

- `Wrappers`: `Option` and `Result`.
- `SeqOps`: `head(n)` as `Take` and `drop_duplicates()` as `Dedup`, with their laws.
- `RoundRobin`: the flattened `zip_longest` merge as `Interleave`, with its position laws.
- `RecSysCore`: the request and response models, the store that `load_data` builds, the label lookups (including how pandas actually behaves) and the handler functions.
- `RecSysProperties`: what the handler guarantees.
- `RecSysExamples`: worked cases, and the evidence for the findings below.
- `CatTree`, `CatTreeExamples`: the ETL step.

Failures are values:

- A recent category with no rows in the top-popular frame is an error, not an empty list: `.loc` raises `KeyError`, and the model gives `Failure(KeyError(c))`.
- A label with exactly one row makes `.loc[label, 'item_id']` a bare cell instead of a Series, and `.head` on it raises. This is recorded under Findings below.
  - `RecSysCore.HeadOfLocAsWritten` models this lookup as written.
  - `RecSysCore.OnlineRecsAsWritten` and `RecSysCore.GetRecsAsWritten` model the handler built on it.
  - `RecSysCore.HeadOfLoc` is the intended lookup, which gives a one-element list.
  - `RecSysCore.OnlineRecs`, `RecSysCore.GetRecs` and the lemmas in `RecSysProperties` are built on `HeadOfLoc`.
  - Whenever the as-written handler succeeds, it is proved to give the same answer.
- The ETL asserts become `Failure(DuplicateCategoryId)` and `Failure(UnprocessedCategories(left))`.

The global ranking is the whole score-sorted frame, so it includes every category's items, not only items outside the recent categories.

## Model

| member | source | states |
|---|---|---|
| RecSysCore.NewRequest | service/app/core.py:8-16 | a request is accepted exactly when `user_id` is present and non-negative, `n_recs` (default 10) is positive and every `last_items` entry (default empty) is non-negative; an accepted request carries those values |
| RecSysCore.NewResponse | service/app/core.py:19-24 | a response is accepted exactly when every recommended id is non-negative, and it carries the list unchanged |
| RecSysCore.ItemCategoryDict | service/app/core.py:64-69 | the dictionary's keys are exactly the catalogue's items, and each item maps to the category of its last row (`to_dict` keeps the last duplicate) |
| RecSysCore.ItemsWhere | service/app/core.py:79-86 | the items under a label, in frame order: empty exactly when the label is absent, and x is among them exactly when row (label, x) is in the frame |
| RecSysCore.Load | service/app/core.py:96-108 | a user is in the personal-users set exactly when the personal frame has a row for that user |
| RecSysCore.Loc | service/app/core.py:121-123 | `.loc[label, 'item_id']` is not found exactly when the label is absent; otherwise it is the label's items in frame order |
| RecSysCore.HeadOfLoc | service/app/core.py:121-123 | the corrected `.loc[...].head(n)` fails with `KeyError(label)` exactly when the label is absent; otherwise it gives the first min(n, count) items under the label |
| RecSysCore.LocAsWritten | service/app/core.py:121-123 | as pandas behaves: a missing label is missing; a label with exactly one row gives a bare cell holding that item, on any index; otherwise it gives the series of the label's two or more items |
| RecSysCore.HeadOfLocAsWritten | service/app/core.py:121-123 | as written, the lookup succeeds exactly when the label has two or more rows; an absent label raises `KeyError`, a one-row label raises on `.head`, and every success equals the corrected lookup |
| RecSysCore.TopPopularGlobal | service/app/core.py:117-119 | the global top n is a prefix of the score-ordered item column, of length min(n, rows) |
| RecSysCore.TopPopularCategory | service/app/core.py:121-123 | `_get_top_popular(n, c)` fails with `KeyError(c)` exactly when category c has no rows; otherwise it gives the first n items of c's rows |
| RecSysCore.LastThree | service/app/core.py:141-142 | `last_items[-3:]`: the last min(3, len) items, in order |
| RecSysCore.Reverse | service/app/core.py:141-142 | position i holds position len-1-i of the input |
| RecSysCore.KnownCategories | service/app/core.py:141-146 | the `.get` followed by `dropna` keeps a category exactly when some item in the input has that category in the dictionary; items without one are dropped |
| RecSysCore.KnownCategoriesAppend | service/app/core.py:141-146 | items are mapped one at a time in input order: the categories of a concatenation are the concatenation of the categories |
| RecSysCore.KnownFirst | service/app/core.py:141-146 | the first occurrence of c among the categories comes from the earliest item of category c, placed after the categories of the items before it |
| RecSysCore.RecentMembership | service/app/core.py:141-147 | a category is retained exactly when one of the last three items is known with that category |
| RecSysCore.NewestFirst | service/app/core.py:139-147 | of two retained categories at positions i < j, the first has a mention among the last three items later than every mention of the second |
| RecSysCore.RecencyOrder | service/app/core.py:139-147 | every pair of retained categories is in most-recent-first order |
| RecSysCore.LastCategories | service/app/core.py:139-147 | at most three distinct categories; c is among them exactly when one of the last three items maps to c; and they come most recent first: each category has a mention among the last three items later than every mention of each category after it |
| RecSysCore.CategoryLists | service/app/core.py:152-156 | succeeds exactly when every retained category has rows; element i is then the top n of category i; otherwise it fails with `KeyError` on a category that has no rows |
| RecSysCore.OnlineRecs | service/app/core.py:125-166 | `_get_online_recs` with the corrected lookup: a result has at most n items; a failure needs a non-empty history and is a `KeyError` naming a retained category with no rows (full contract in OnlineRecsContract and OnlineRecsIsMerge) |
| RecSysCore.PersonalRecs | service/app/core.py:185-187 | the corrected personal lookup fails with `KeyError(u)` exactly when user u has no rows; otherwise it gives the user's first n items |
| RecSysCore.GetRecs | service/app/core.py:168-194 | `get_recs` with the corrected lookup: a result has at most n items, and every failure is a `KeyError` (full contract in GetRecsContract, GetRecsIsMerge and NoPersonalFallback) |
| RecSysCore.CategoryListsAsWritten | service/app/core.py:152-156 | as written, the category lists succeed exactly when every retained category has two or more rows, and then equal the corrected lists |
| RecSysCore.OnlineRecsAsWritten | service/app/core.py:125-166 | as written, the online list succeeds exactly when the history is empty or every retained category has two or more rows, and then equals the corrected online list |
| RecSysCore.GetRecsAsWritten | service/app/core.py:168-194 | as written, `get_recs` succeeds exactly when the as-written online list does and the user either has no personal recommendations or has two or more rows, and then equals the corrected result |
| SeqOps.Take | service/app/core.py:166 | `head(n)` gives a prefix of length min(n, len) |
| SeqOps.Dedup | service/app/core.py:166 | `drop_duplicates()` gives no repeats, the same set of elements, and is no longer than its input |
| SeqOps.DedupMember | service/app/core.py:166 | x survives deduplication exactly when it was in the input |
| SeqOps.DedupKeepsFirstOccurrenceOrder | service/app/core.py:166 | keep='first': two elements keep the relative order of their first occurrences |
| SeqOps.DedupOfNoDup | service/app/core.py:166 | deduplicating a list without repeats gives the same list |
| SeqOps.DedupHead | service/app/core.py:166 | the first element survives at the front |
| SeqOps.DedupPrefix | service/app/core.py:166 | deduplicating a prefix gives a prefix of the deduplicated whole |
| SeqOps.DedupTake | service/app/core.py:166 | dedup then head(n) has no repeats, draws only from the input, has min(n, distinct count) elements, and holds every input element when it is shorter than n |
| RoundRobin.Interleave | service/app/core.py:162-163 | the flattened `zip_longest` merge; it has no contract of its own and is specified by InterleaveAt, PosOf, PosOrder and InterleaveMember below |
| RoundRobin.InterleaveAt | service/app/core.py:162-163 | element r of list i sits at position `Pos(i, r)` of the `zip_longest` flattening |
| RoundRobin.PosOf | service/app/core.py:162-163 | every position of the merge holds element r of some list i, at `Pos(i, r)` |
| RoundRobin.PosOrder | service/app/core.py:162-163 | merge order is (round, list index) in lexicographic order |
| RoundRobin.InterleaveMember | service/app/core.py:162-163 | x is in the merge exactly when it is in one of the lists (`None` padding never appears) |
| RoundRobin.InterleaveElements | service/app/core.py:162-163 | the merge's element set is the union of the lists' element sets |
| RoundRobin.InterleaveOne | service/app/core.py:162-163 | merging one list gives that list back |
| RoundRobin.InterleavePair | service/app/core.py:190-191 | merging two lists alternates them: a[r] at 2r, b[r] at 2r+1 while both last |
| RecSysProperties.ItemsWhereSubsequence | service/app/core.py:79-86 | the rows of one category keep their global score order (a subsequence of the global ranking) |
| RecSysProperties.CategoryLookupFiltersGlobal | service/app/core.py:121-123 | a category top-n fails exactly for an absent category; otherwise it is a prefix of that category's rows, which are a subsequence of the global ranking |
| RecSysProperties.EmptyHistoryIsGlobalTop | service/app/core.py:133-137 | with no history, the online list is the global top n |
| RecSysProperties.MostRecentCategoryFirst | service/app/core.py:141-147 | when the last item has a category, that category comes first |
| RecSysProperties.CategoryPriority | service/app/core.py:141-147 | three items with distinct categories give those categories most recent first |
| RecSysProperties.MentionedLaterAntisymmetric | service/app/core.py:139-147 | recency orders two categories one way only, so the order of the retained categories is fixed by the history |
| RecSysProperties.UnknownItemsAreSkipped | service/app/core.py:141-147 | every retained category comes from a known item in the history |
| RecSysProperties.NoKnownRecentItems | service/app/core.py:141-147 | when none of the last three items is known, no category is retained |
| RecSysProperties.UnknownItemsHaveNoCategories | service/app/core.py:141-146 | a list of unknown items maps to no categories |
| RecSysProperties.UnknownHistoryIsGlobalTop | service/app/core.py:141-166 | when the last three items are all unknown, the online list is the global top n |
| RecSysProperties.OnlineFailsOnMissingCategory | service/app/core.py:152-156 | the online list fails exactly when the history is non-empty and some retained category has no rows, and the error names that category |
| RecSysProperties.OnlineRecsIsMerge | service/app/core.py:152-166 | with history, the online list is dedup and head(n) of the merge of the category top-n lists followed by the global top n |
| RecSysProperties.OnlineRecsContract | service/app/core.py:125-166 | the online list has no repeats and at most n items, draws only from the category and global top-n lists, has min(n, candidate count) items, and contains every candidate when it is short |
| RecSysProperties.CandidatesAreTopPopularItems | service/app/core.py:152-156 | every candidate is a top-popular item |
| RecSysProperties.OnlineRecsAreTopPopularItems | service/app/core.py:125-166 | every online recommendation is a top-popular item |
| RecSysProperties.OnlineStartsWithRecentCategory | service/app/core.py:152-166 | with history and a retained category, the first online item is the top item of the most recent category |
| RecSysProperties.NoPersonalFallback | service/app/core.py:178-182 | a user without personal recommendations gets the online list unchanged |
| RecSysProperties.ColdStart | service/app/core.py:178-182 | an unknown user with no history gets the global top n |
| RecSysProperties.GetRecsFailsOnlyOnline | service/app/core.py:168-194 | with the corrected lookup on a loaded store, `get_recs` fails exactly when the online list fails (a user in the personal set always has rows); the code as written can also fail on the personal lookup (OneRowUserAsWritten) |
| RecSysProperties.GetRecsIsMerge | service/app/core.py:185-194 | for a user with personal recommendations, the result is dedup and head(n) of the online list merged with the user's top n |
| RecSysProperties.BlendContract | service/app/core.py:190-194 | the blend has no repeats, draws only from its two inputs and has min(n, distinct count) items |
| RecSysProperties.GetRecsContract | service/app/core.py:168-194 | the final list has no repeats and at most n items, each a top-popular item or one of the user's personal items; with personal recommendations it has min(n, distinct count) items |
| RecSysProperties.ResponseAccepted | service/app/core.py:19-24 | every successful result is a valid response (non-negative ids) |
| RecSysProperties.BlendPriority | service/app/core.py:190-194 | the blend starts with the first online item, followed by the first personal item when that differs and n ≥ 2 |
| RecSysExamples.ExampleStoreIsLoaded | service/app/core.py:55-108 | the worked store is what loading its tables gives |
| RecSysExamples.MergeOfCategoryAndGlobal | service/app/core.py:162-163 | `[201,202]` merged with `[101,102,103]` gives `[201,101,202,102,103]` |
| RecSysExamples.WorkedOnlineExample | service/app/core.py:125-166 | global `[101..105]`, category `[201,202]`, item 301 in that category, history `[301]`, n=3: online list `[201,101,202]` |
| RecSysExamples.WorkedBlendExample | service/app/core.py:168-194 | the same request for user 7, whose personal list is `[301,302,303]`, gives `[201,301,101]` |
| RecSysExamples.WorkedBlendAsWritten | service/app/core.py:168-194 | the worked blend reaches no one-row label, so the handler as written gives the same `[201,301,101]` |
| RecSysExamples.ColdStartExample | service/app/core.py:178-182 | an unknown user with empty history and n=2 over `[101,102,103]` gets `[101,102]` |
| RecSysExamples.UnknownItemExample | service/app/core.py:141-147 | an unknown most-recent item is dropped; the known one's category is kept |
| RecSysExamples.SkippedItemKeepsOrder | service/app/core.py:141-147 | history `[1,2,3]` where 2 is unknown gives categories `[30,10]`, the newest first |
| RecSysExamples.SingleRowCategoryFails | service/app/core.py:121-123 | as written, a one-row category raises on `.head`; corrected, it gives that item |
| RecSysExamples.SingleRowUserFails | service/app/core.py:185-187 | as written, a user with one personal row makes the personal lookup raise; corrected, it gives the user's item |
| RecSysExamples.SortedPersonalSingleRowFails | service/app/core.py:96-103 | on the user-sorted personal frame, the as-written lookup works for a user with two rows and raises for a user with one; corrected, it gives that user's item |
| RecSysExamples.OneRowUserAsWritten | service/app/core.py:180-187 | a user with one personal row and no history: the handler as written raises on `.head`, while the corrected handler answers |
| CatTree.TopCat | prod_build/steps/etl_cat_tree.py:80-83 | the top category is the first ancestor, or the category itself when it has none |
| CatTree.TreeOf | prod_build/steps/etl_cat_tree.py:68-83 | the output has one row per input row, in order, with its id, its parent, its ancestor list from the table and its top category |
| CatTree.Unassigned | prod_build/steps/etl_cat_tree.py:36-61 | the rows not yet filled in, in list order, never more than the list; its members are given by UnassignedMember, and RunPass proves the live list equals it |
| CatTree.UnassignedMember | prod_build/steps/etl_cat_tree.py:36-61 | a row is still in the worklist exactly when it was in the list and its category is not yet filled in |
| CatTree.IdsOfUnassigned | prod_build/steps/etl_cat_tree.py:36-61 | the categories left in the worklist are the listed ones minus the filled-in ones |
| CatTree.TakeVisit | prod_build/steps/etl_cat_tree.py:52-61 | filling a row whose parent is done, and popping that same row from the live list, keeps the per-visit state |
| CatTree.SkipVisit | prod_build/steps/etl_cat_tree.py:41-50 | skipping a row whose parent is not yet filled in keeps the per-visit state |
| CatTree.VisitCategory | prod_build/steps/etl_cat_tree.py:41-61 | one visit of the `for` body moves the state from position k to position k+1 of the copied list |
| CatTree.PassTable | prod_build/steps/etl_cat_tree.py:39-61 | the table after one pass over the copy: a left-to-right fold that skips blocked rows, so later rows see earlier fills; it has no contract of its own and is specified by PassTableFrame, PassTableOk, SamePass and PassNoProgress |
| CatTree.RunPass | prod_build/steps/etl_cat_tree.py:39-61 | a pass over the copy leaves the table as `PassTable` (a left-to-right fold in which blocked rows are skipped and later rows see earlier fills), and the live list as exactly the rows still unfilled, in their order |
| CatTree.PassTableFrame | prod_build/steps/etl_cat_tree.py:55-58 | a pass only adds entries for the rows it visits, and never changes earlier ones |
| CatTree.PassTableOk | prod_build/steps/etl_cat_tree.py:55-58 | every entry a pass adds is the parent's ancestors followed by the parent, or empty for a root |
| CatTree.SamePass | prod_build/steps/etl_cat_tree.py:39-58 | a child listed after its parent is filled in during the same pass as the parent |
| CatTree.PassNoProgress | prod_build/steps/etl_cat_tree.py:63-66 | a pass that fills nothing leaves the table unchanged, and every row it visited was blocked |
| CatTree.PassStep | prod_build/steps/etl_cat_tree.py:36-66 | each pass keeps the invariant "the table is correct on what it holds and the worklist is the rest"; a pass that leaves the length unchanged changed nothing and left everything blocked |
| CatTree.EtlCatTree | prod_build/steps/etl_cat_tree.py:7-86 | fails with `DuplicateCategoryId` exactly on repeated ids; succeeds exactly when the ids are unique and an ancestry table exists, and then returns the tree built from such a table; the unprocessed-categories failure names a non-empty set of rows, each with a parent that is not among the categories filled in |
| CatTree.StuckHasNoAncestry | prod_build/steps/etl_cat_tree.py:63-77 | when the loop stops with categories left, no ancestry table exists (a cycle or a dangling parent) |
| CatTree.AncestryUnique | prod_build/steps/etl_cat_tree.py:52-58 | the ancestry table is unique, so the output does not depend on the order of the passes |
| CatTree.AncestorPrefix | prod_build/steps/etl_cat_tree.py:52-58 | the k-th ancestor's own ancestor list is the first k entries of the category's list |
| CatTree.LastIsParent | prod_build/steps/etl_cat_tree.py:52-58 | a root has no ancestors; any other category's last ancestor is its parent |
| CatTree.FirstIsRoot | prod_build/steps/etl_cat_tree.py:52-58 | the first ancestor is a top-level category |
| CatTree.TopCatIsRoot | prod_build/steps/etl_cat_tree.py:80-83 | `top_cat_id` is always a top-level category |
| CatTree.NotOwnAncestor | prod_build/steps/etl_cat_tree.py:52-58 | no category is its own ancestor, and every ancestor is a listed category |
| CatTreeExamples.ThreeLevelsTable | prod_build/steps/etl_cat_tree.py:52-83 | rows 3→2→1 given child first: ancestors `[]`, `[1]`, `[1,2]`, all with top category 1 |
| CatTreeExamples.ThreeLevelsPasses | prod_build/steps/etl_cat_tree.py:36-61 | the first pass fills 1, then 2 (after 1 in the list), and leaves 3; the second pass fills 3 |
| CatTreeExamples.CycleHasNoTable | prod_build/steps/etl_cat_tree.py:63-77 | two categories that are each other's parent have no ancestry |
| CatTreeExamples.DanglingParentHasNoTable | prod_build/steps/etl_cat_tree.py:63-77 | a parent that is not a listed category has no ancestry |

## Left out

- Parquet and CSV reading and writing, `pd.read_*`, `to_parquet`, the column renaming, and the `dvc` parameters (the `PATH_CSV_CAT_TREE` assertion): these are I/O. The tables are parameters of the model.
- The score column and `sort_values`: the model takes the frames already in score order, as rows `(key, item)`. The tie order of pandas' default unstable sort is not modelled.
- `RecSysHandler.__init__` and its logger: they only store paths.
- The HTTP service around the handler, the ALS and top-popular training steps, the other ETL steps, the utilities and the tests: these are not part of this model.
- The class around the handler: `load_data` assigns its fields once and every later method only reads them, so the store is an immutable value (`RecSysCore.Store`). The one-time loading order is not modelled.
- `ValidStore`: this model assumes, rather than derives, three facts the loader does not check: the top-popular frame has unique items, its item ids are non-negative, and the personal frame's item ids are non-negative.
- RecSysCore.OnlineRecs: uses the corrected lookup `HeadOfLoc`. For a retained category with exactly one row it answers, where the code raises. The code's behaviour is `OnlineRecsAsWritten`, which is proved to agree whenever it succeeds.
- RecSysCore.GetRecs: uses the corrected lookup `HeadOfLoc`. For a one-row category or a user with exactly one personal row it answers, where the code raises. The code's behaviour is `GetRecsAsWritten`. The properties in `RecSysProperties`, including `GetRecsFailsOnlyOnline`, are about the corrected handler.
- KnownCategories: its own contract gives membership and a length bound only. The order it keeps is stated by `KnownCategoriesAppend` and `KnownFirst`, because an order clause on the function itself slows every proof that uses it.
- RecSysCore.Load: the model builds its frames from the rows it is given. It does not model the readiness gate or the failures of missing columns.
- Float parent ids: `parent_id` is read as a float column because of the NaN roots, and `int(parent_id)` truncates. The model uses integers and an `Option` for the missing parent.
- `reset_index` and the list-to-tuple repacking in the ETL: these change only representation. `parents` stays a `seq<int>`.
- The ETL's duplicate check counts duplicates with `duplicated().sum()`. The model keeps only whether that count is zero (`UniqueIds`).
- CatTree.EtlCatTree: the unprocessed-categories failure is stated through `Stuck`, which does not fix exactly which rows are left, beyond their being blocked; their order is not stated.

## Findings

| source | as written | input that shows it | evidently intended | confidence | as-written member | corrected member |
|---|---|---|---|---|---|---|
| service/app/core.py:121-123 | `.loc[category_id, 'item_id'].head(n_recs)` gets a bare cell, not a Series, for a category with exactly one row, because pandas' index lookup turns a single match into an integer position; `.head` on that cell raises | rows `(6,43), (5,42), (6,44)`, category 5 | the one-element list `[42]` | not executed; read from pandas' index engine | RecSysCore.HeadOfLocAsWritten (evidence: RecSysExamples.SingleRowCategoryFails) | RecSysCore.HeadOfLoc |
| service/app/core.py:185-187 | the personal lookup gets a bare cell for any user with exactly one personal row, on any index, including the user-sorted frame that loading builds; `.head` raises | rows `(3,11), (3,12), (7,13)`, user 7 | the one-element list `[13]` | not executed; read from pandas' index engine | RecSysCore.GetRecsAsWritten (evidence: RecSysExamples.SortedPersonalSingleRowFails, RecSysExamples.OneRowUserAsWritten) | RecSysCore.GetRecs |
