/**
 * The category-tree ETL step: from (category_id, parent_id) rows it records,
 * for every category, its ancestors from the root down to the direct parent,
 * and the top-level category it belongs to. The table being filled is a map
 * from category id to ancestor list; the categories still to process are a
 * worklist that is swept pass after pass until it is empty or a pass makes
 * no progress.
 */
module CatTree {
  import opened Wrappers
  import opened SeqOps

  /** One input row; a missing parent_id (NaN in the CSV) is None. */
  datatype CatRow = CatRow(id: int, parent: Option<int>)

  /** One output row: the input columns plus `parents` and `top_cat_id`. */
  datatype TreeRow = TreeRow(id: int, parent: Option<int>, parents: seq<int>, topCat: int)

  datatype EtlError =
    | DuplicateCategoryId                            // the duplicate check fails
    | UnprocessedCategories(left: seq<CatRow>)       // the final all-processed check fails

  /** No category_id occurs twice. */
  predicate UniqueIds(rows: seq<CatRow>) {
    forall i, j :: 0 <= i < j < |rows| ==> rows[i].id != rows[j].id
  }

  function Ids(rows: seq<CatRow>): set<int> {
    set e | e in rows :: e.id
  }

  // ---------------------------------------------------------------------
  // What the table means
  // ---------------------------------------------------------------------

  /**
   * Row e is filled in correctly: a top-level category has no ancestors; any
   * other has its parent's ancestors followed by the parent itself.
   */
  predicate ChainOk(table: map<int, seq<int>>, e: CatRow) {
    e.id in table &&
    match e.parent
    case None => table[e.id] == []
    case Some(p) => p in table && table[e.id] == table[p] + [p]
  }

  /** `table` gives every category of `rows`, and nothing else, its ancestor list. */
  predicate IsAncestry(rows: seq<CatRow>, table: map<int, seq<int>>) {
    table.Keys == Ids(rows) && forall i :: 0 <= i < |rows| ==> ChainOk(table, rows[i])
  }

  /** Every category reaches a top-level category through categories that exist. */
  ghost predicate HasAncestry(rows: seq<CatRow>) {
    exists table :: IsAncestry(rows, table)
  }

  /** `top_cat_id`: the first ancestor, or the category itself when it has none. */
  function TopCat(id: int, parents: seq<int>): (t: int)
    ensures parents == [] ==> t == id
    ensures parents != [] ==> t == parents[0]
  {
    if parents != [] then parents[0] else id
  }

  /** The output table in input order. */
  function TreeOf(rows: seq<CatRow>, table: map<int, seq<int>>): (out: seq<TreeRow>)
    requires forall i :: 0 <= i < |rows| ==> rows[i].id in table
    ensures |out| == |rows|
    ensures forall i :: 0 <= i < |rows| ==>
      out[i].id == rows[i].id && out[i].parent == rows[i].parent &&
      out[i].parents == table[rows[i].id] && out[i].topCat == TopCat(rows[i].id, out[i].parents)
  {
    seq(|rows|, i requires 0 <= i < |rows| =>
      TreeRow(rows[i].id, rows[i].parent, table[rows[i].id], TopCat(rows[i].id, table[rows[i].id])))
  }

  /**
   * The categories left over when the sweep gets stuck: there is at least
   * one, each comes from the input, and each has a parent that is either not
   * a category at all or is itself left over.
   */
  ghost predicate Stuck(rows: seq<CatRow>, left: seq<CatRow>) {
    left != [] &&
    (forall k :: 0 <= k < |left| ==> left[k] in rows) &&
    (forall k :: 0 <= k < |left| ==>
      left[k].parent.Some? && left[k].parent.value !in Ids(rows) - Ids(left))
  }

  // ---------------------------------------------------------------------
  // The worklist
  // ---------------------------------------------------------------------

  /** The rows whose category is not yet filled in, in their original order. */
  function Unassigned(s: seq<CatRow>, done: set<int>): (r: seq<CatRow>)
    ensures |r| <= |s|
  {
    if s == [] then []
    else Unassigned(s[..|s| - 1], done) + (if s[|s| - 1].id !in done then [s[|s| - 1]] else [])
  }

  /** The worklist holds exactly the rows not yet filled in. */
  lemma {:induction false} UnassignedMember(s: seq<CatRow>, done: set<int>, e: CatRow)
    ensures e in Unassigned(s, done) <==> e in s && e.id !in done
    decreases |s|
  {
    if s != [] {
      var init := s[..|s| - 1];
      UnassignedMember(init, done, e);
      assert s == init + [s[|s| - 1]];
    }
  }

  /** A category the sweep must skip: its parent is not filled in. */
  predicate Blocked(e: CatRow, table: map<int, seq<int>>) {
    e.parent.Some? && e.parent.value !in table
  }

  /**
   * The state between passes: the table holds only categories of `rows`,
   * each filled in correctly, and the worklist is exactly the rest.
   */
  ghost predicate PassState(rows: seq<CatRow>, table: map<int, seq<int>>, categories: seq<CatRow>) {
    TableOk(rows, table) && categories == Unassigned(rows, table.Keys)
  }

  lemma {:induction false} UnassignedNone(s: seq<CatRow>)
    ensures Unassigned(s, {}) == s
  {
    if s != [] {
      UnassignedNone(s[..|s| - 1]);
      assert s == s[..|s| - 1] + [s[|s| - 1]];
    }
  }

  lemma {:induction false} UnassignedAppend(a: seq<CatRow>, b: seq<CatRow>, done: set<int>)
    ensures Unassigned(a + b, done) == Unassigned(a, done) + Unassigned(b, done)
    decreases |b|
  {
    if b == [] {
      assert a + b == a;
    } else {
      var init := b[..|b| - 1];
      assert (a + b)[..|a + b| - 1] == a + init;
      UnassignedAppend(a, init, done);
    }
  }

  /** Filtering again with a larger set is filtering once with it. */
  lemma {:induction false} UnassignedTwice(s: seq<CatRow>, a: set<int>, b: set<int>)
    requires a <= b
    ensures Unassigned(Unassigned(s, a), b) == Unassigned(s, b)
    decreases |s|
  {
    if s != [] {
      var init, e := s[..|s| - 1], s[|s| - 1];
      UnassignedTwice(init, a, b);
      var tail := if e.id !in a then [e] else [];
      UnassignedAppend(Unassigned(init, a), tail, b);
      if e.id !in a {
        assert tail[..0] == [];
      }
    }
  }

  /** Filling in a category that does not occur in s leaves s's filter unchanged. */
  lemma {:induction false} UnassignedAdd(s: seq<CatRow>, done: set<int>, d: int)
    requires forall k :: 0 <= k < |s| ==> s[k].id != d
    ensures Unassigned(s, done + {d}) == Unassigned(s, done)
    decreases |s|
  {
    if s != [] {
      UnassignedAdd(s[..|s| - 1], done, d);
    }
  }

  lemma {:induction false} UnassignedUnique(s: seq<CatRow>, done: set<int>)
    requires UniqueIds(s)
    ensures UniqueIds(Unassigned(s, done))
    decreases |s|
  {
    if s != [] {
      var init, e := s[..|s| - 1], s[|s| - 1];
      UnassignedUnique(init, done);
      var u := Unassigned(init, done);
      forall k | 0 <= k < |u|
        ensures u[k].id != e.id
      {
        UnassignedMember(init, done, u[k]);
      }
    }
  }

  lemma IdsOfUnassigned(s: seq<CatRow>, done: set<int>)
    ensures Ids(Unassigned(s, done)) == Ids(s) - done
  {
    var u := Unassigned(s, done);
    forall c | c in Ids(s) - done
      ensures c in Ids(u)
    {
      var e :| e in s && e.id == c;
      UnassignedMember(s, done, e);
    }
    forall c | c in Ids(u)
      ensures c in Ids(s) - done
    {
      var e :| e in u && e.id == c;
      UnassignedMember(s, done, e);
    }
  }

  // ---------------------------------------------------------------------
  // The sweep
  // ---------------------------------------------------------------------

  /** The ancestors a category gets once its parent is filled in. */
  function Chain(table: map<int, seq<int>>, e: CatRow): seq<int>
    requires !Blocked(e, table)
  {
    if e.parent.Some? then table[e.parent.value] + [e.parent.value] else []
  }

  /** Every filled-in category of `rows` is filled in correctly. */
  ghost predicate TableOk(rows: seq<CatRow>, table: map<int, seq<int>>) {
    table.Keys <= Ids(rows) &&
    forall i | 0 <= i < |rows| && rows[i].id in table :: ChainOk(table, rows[i])
  }

  /** Passing position k of the copy moves its row into the kept prefix if it is still unfilled. */
  lemma KeptStep(snapshot: seq<CatRow>, k: nat, done: set<int>)
    requires k < |snapshot|
    ensures snapshot[k..] == [snapshot[k]] + snapshot[k + 1..]
    ensures Unassigned(snapshot[..k + 1], done)
      == Unassigned(snapshot[..k], done) + (if snapshot[k].id !in done then [snapshot[k]] else [])
  {
    assert snapshot[..k + 1][..k] == snapshot[..k];
  }

  /** `categories.index(e)` finds e right after the kept prefix. */
  lemma IndexStep(snapshot: seq<CatRow>, k: nat, done: set<int>, categories: seq<CatRow>)
    requires k < |snapshot| && UniqueIds(snapshot)
    requires categories == Unassigned(snapshot[..k], done) + snapshot[k..]
    ensures snapshot[k] in categories
    ensures FirstIndex(categories, snapshot[k]) == |Unassigned(snapshot[..k], done)|
  {
    var e := snapshot[k];
    var kept := Unassigned(snapshot[..k], done);
    assert e !in kept by {
      UnassignedMember(snapshot[..k], done, e);
      forall j | 0 <= j < k
        ensures snapshot[..k][j] != e
      {
      }
    }
    assert categories[|kept|] == e;
  }

  /** Filling in a category whose parent is filled in keeps every filled-in row correct. */
  lemma ChainStep(rows: seq<CatRow>, table: map<int, seq<int>>, e: CatRow)
    requires UniqueIds(rows) && TableOk(rows, table) && e in rows
    requires e.id !in table && !Blocked(e, table)
    ensures TableOk(rows, table[e.id := Chain(table, e)])
  {
    var table' := table[e.id := Chain(table, e)];
    forall i | 0 <= i < |rows| && rows[i].id in table'
      ensures ChainOk(table', rows[i])
    {
      if rows[i].id == e.id {
        var j :| 0 <= j < |rows| && rows[j] == e;
        assert rows[i] == e;
      } else {
        assert ChainOk(table, rows[i]);
      }
    }
  }

  /** Removing the element at the seam of kept + [e] + rest leaves kept + rest. */
  lemma PopAt(kept: seq<CatRow>, e: CatRow, rest: seq<CatRow>, categories: seq<CatRow>)
    requires categories == kept + ([e] + rest)
    ensures categories[..|kept|] + categories[|kept| + 1..] == kept + rest
  {
    assert categories[..|kept|] == kept;
    assert categories[|kept| + 1..] == rest;
  }

  /** Filling in the category at position k leaves the kept prefix of the pass as it was. */
  lemma KeptAfterFill(snapshot: seq<CatRow>, k: nat, done: set<int>)
    requires k < |snapshot| && UniqueIds(snapshot)
    ensures Unassigned(snapshot[..k + 1], done + {snapshot[k].id}) == Unassigned(snapshot[..k], done)
  {
    var e := snapshot[k];
    KeptStep(snapshot, k, done + {e.id});
    forall j | 0 <= j < k
      ensures snapshot[..k][j].id != e.id
    {
    }
    UnassignedAdd(snapshot[..k], done, e.id);
  }

  /** Popping the category at position k of the pass moves the worklist on by one. */
  lemma WorklistStep(snapshot: seq<CatRow>, k: nat, done: set<int>, categories: seq<CatRow>)
    requires k < |snapshot| && UniqueIds(snapshot) && snapshot[k].id !in done
    requires categories == Unassigned(snapshot[..k], done) + snapshot[k..]
    ensures snapshot[k] in categories
    ensures var i := FirstIndex(categories, snapshot[k]);
      categories[..i] + categories[i + 1..]
      == Unassigned(snapshot[..k + 1], done + {snapshot[k].id}) + snapshot[k + 1..]
  {
    IndexStep(snapshot, k, done, categories);
    assert snapshot[k..] == [snapshot[k]] + snapshot[k + 1..];
    PopAt(Unassigned(snapshot[..k], done), snapshot[k], snapshot[k + 1..], categories);
    KeptAfterFill(snapshot, k, done);
  }

  /**
   * The table after one pass of the for-loop over `s`: the rows are visited
   * in order, and each one whose parent is filled in (or that has none) is
   * filled in, so that it already counts for the rows after it.
   */
  function PassTable(table: map<int, seq<int>>, s: seq<CatRow>): map<int, seq<int>>
    decreases |s|
  {
    if s == [] then table
    else
      var t := PassTable(table, s[..|s| - 1]);
      var e := s[|s| - 1];
      if Blocked(e, t) then t else t[e.id := Chain(t, e)]
  }

  /** The rows of a pass are fresh: distinct, and none filled in yet. */
  predicate Fresh(table: map<int, seq<int>>, s: seq<CatRow>) {
    UniqueIds(s) && forall j | 0 <= j < |s| :: s[j].id !in table
  }

  /** The state before position k of a pass over `snapshot` that started from `table0`. */
  ghost predicate AtVisit(table0: map<int, seq<int>>, snapshot: seq<CatRow>, k: nat,
                          table: map<int, seq<int>>, categories: seq<CatRow>)
  {
    k <= |snapshot| &&
    table == PassTable(table0, snapshot[..k]) &&
    categories == Unassigned(snapshot[..k], table.Keys) + snapshot[k..] &&
    forall j | k <= j < |snapshot| :: snapshot[j].id !in table
  }

  /**
   * The body of the for-loop for the category at position k of the copy:
   * skip it while its parent is not filled in; otherwise fill it in and
   * pop it from the worklist.
   */
  method VisitCategory(ghost table0: map<int, seq<int>>, snapshot: seq<CatRow>, k: nat,
                       table: map<int, seq<int>>, categories: seq<CatRow>)
    returns (table': map<int, seq<int>>, categories': seq<CatRow>)
    requires Fresh(table0, snapshot) && k < |snapshot|
    requires AtVisit(table0, snapshot, k, table, categories)
    ensures AtVisit(table0, snapshot, k + 1, table', categories')
  {
    var e := snapshot[k];
    if Blocked(e, table) {
      SkipVisit(table0, snapshot, k, table, categories);
      table', categories' := table, categories;
    } else {
      TakeVisit(table0, snapshot, k, table, categories);
      table' := table[e.id := Chain(table, e)];
      var i := FirstIndex(categories, e);
      categories' := categories[..i] + categories[i + 1..];
    }
  }

  lemma SkipVisit(table0: map<int, seq<int>>, snapshot: seq<CatRow>, k: nat,
                  table: map<int, seq<int>>, categories: seq<CatRow>)
    requires k < |snapshot| && AtVisit(table0, snapshot, k, table, categories)
    requires Blocked(snapshot[k], table)
    ensures AtVisit(table0, snapshot, k + 1, table, categories)
  {
    var e := snapshot[k];
    assert snapshot[..k + 1][..k] == snapshot[..k];
    KeptStep(snapshot, k, table.Keys);
    assert categories == (Unassigned(snapshot[..k], table.Keys) + [e]) + snapshot[k + 1..];
  }

  lemma TakeVisit(table0: map<int, seq<int>>, snapshot: seq<CatRow>, k: nat,
                  table: map<int, seq<int>>, categories: seq<CatRow>)
    requires Fresh(table0, snapshot) && k < |snapshot| && AtVisit(table0, snapshot, k, table, categories)
    requires !Blocked(snapshot[k], table)
    ensures snapshot[k] in categories
    ensures var e, i := snapshot[k], FirstIndex(categories, snapshot[k]);
      AtVisit(table0, snapshot, k + 1, table[e.id := Chain(table, e)], categories[..i] + categories[i + 1..])
  {
    var e := snapshot[k];
    assert snapshot[..k + 1][..k] == snapshot[..k];
    WorklistStep(snapshot, k, table.Keys, categories);
    assert table[e.id := Chain(table, e)].Keys == table.Keys + {e.id};
  }

  /**
   * One pass of the for-loop over a copy of the worklist: each category
   * whose parent is filled in (or that has none) is filled in and popped
   * from the worklist.
   */
  method RunPass(table0: map<int, seq<int>>, categories0: seq<CatRow>)
    returns (table: map<int, seq<int>>, categories: seq<CatRow>)
    requires Fresh(table0, categories0)
    ensures table == PassTable(table0, categories0)
    ensures categories == Unassigned(categories0, table.Keys)
  {
    var snapshot := categories0;
    table, categories := table0, categories0;
    assert snapshot[..0] == [] && snapshot[0..] == snapshot;
    for k := 0 to |snapshot|
      invariant AtVisit(table0, snapshot, k, table, categories)
    {
      table, categories := VisitCategory(table0, snapshot, k, table, categories);
    }
    assert snapshot[..|snapshot|] == snapshot;
  }

  lemma {:induction false} PassTableAppend(table: map<int, seq<int>>, a: seq<CatRow>, b: seq<CatRow>)
    ensures PassTable(table, a + b) == PassTable(PassTable(table, a), b)
    decreases |b|
  {
    if b == [] {
      assert a + b == a;
    } else {
      assert (a + b)[..|a + b| - 1] == a + b[..|b| - 1];
      PassTableAppend(table, a, b[..|b| - 1]);
    }
  }

  /** A pass only adds entries, and only for the rows it visits. */
  lemma {:induction false} PassTableFrame(table: map<int, seq<int>>, s: seq<CatRow>)
    requires Fresh(table, s)
    ensures table.Keys <= PassTable(table, s).Keys <= table.Keys + Ids(s)
    ensures forall c | c in table :: PassTable(table, s)[c] == table[c]
    decreases |s|
  {
    if s != [] {
      var init, e := s[..|s| - 1], s[|s| - 1];
      assert Fresh(table, init);
      PassTableFrame(table, init);
      assert s == init + [e];
      assert e.id !in Ids(init);
    }
  }

  /** A pass fills in every category it visits correctly. */
  lemma {:induction false} PassTableOk(rows: seq<CatRow>, table: map<int, seq<int>>, s: seq<CatRow>)
    requires UniqueIds(rows) && TableOk(rows, table) && Fresh(table, s)
    requires forall j | 0 <= j < |s| :: s[j] in rows
    ensures TableOk(rows, PassTable(table, s))
    decreases |s|
  {
    if s != [] {
      var init, e := s[..|s| - 1], s[|s| - 1];
      assert Fresh(table, init);
      PassTableOk(rows, table, init);
      var t := PassTable(table, init);
      if !Blocked(e, t) {
        PassTableFrame(table, init);
        assert e.id !in Ids(init);
        ChainStep(rows, t, e);
      }
    }
  }

  /** A pass splits at any point into two passes, the second over fresh rows. */
  lemma PassSplit(table: map<int, seq<int>>, s: seq<CatRow>, m: nat)
    requires Fresh(table, s) && m <= |s|
    ensures PassTable(table, s) == PassTable(PassTable(table, s[..m]), s[m..])
    ensures Fresh(PassTable(table, s[..m]), s[m..])
  {
    var before, after := s[..m], s[m..];
    assert s == before + after;
    PassTableAppend(table, before, after);
    assert Fresh(table, before);
    PassTableFrame(table, before);
    forall r | 0 <= r < |after|
      ensures after[r].id !in Ids(before)
    {
      assert after[r] == s[m + r];
    }
  }

  /**
   * A category listed after its parent is filled in during the same pass
   * as the parent, or earlier.
   */
  lemma SamePass(table: map<int, seq<int>>, s: seq<CatRow>, i: nat, j: nat)
    requires Fresh(table, s) && i < j < |s|
    requires s[j].parent == Some(s[i].id) && s[i].id in PassTable(table, s)
    ensures s[j].id in PassTable(table, s)
  {
    PassSplit(table, s, j);
    var t := PassTable(table, s[..j]);
    PassTableFrame(t, s[j..]);
    assert s[i].id !in Ids(s[j..]);
    assert !Blocked(s[j], t);
    assert s[..j + 1][..j] == s[..j];
    assert s[j].id in PassTable(table, s[..j + 1]);
    PassSplit(table, s, j + 1);
    PassTableFrame(PassTable(table, s[..j + 1]), s[j + 1..]);
  }

  /** A pass that fills in none of its rows changes nothing, and found every row blocked. */
  lemma {:induction false} PassNoProgress(table: map<int, seq<int>>, s: seq<CatRow>)
    requires forall j | 0 <= j < |s| :: s[j].id !in PassTable(table, s)
    ensures PassTable(table, s) == table
    ensures forall j | 0 <= j < |s| :: Blocked(s[j], table)
    decreases |s|
  {
    if s != [] {
      var init, e := s[..|s| - 1], s[|s| - 1];
      var t := PassTable(table, init);
      assert Blocked(e, t);
      PassNoProgress(table, init);
    }
  }

  lemma {:induction false} UnassignedFull(s: seq<CatRow>, done: set<int>)
    requires |Unassigned(s, done)| == |s|
    ensures forall j | 0 <= j < |s| :: s[j].id !in done
    decreases |s|
  {
    if s != [] {
      var init := s[..|s| - 1];
      UnassignedFull(init, done);
      forall j | 0 <= j < |s|
        ensures s[j].id !in done
      {
        if j < |s| - 1 {
          assert s[j] == init[j];
        }
      }
    }
  }

  /**
   * A pass keeps the state between passes, and a pass after which the
   * worklist is as long as before changed nothing and found every row
   * blocked.
   */
  lemma PassStep(rows: seq<CatRow>, table: map<int, seq<int>>, categories: seq<CatRow>)
    requires UniqueIds(rows) && PassState(rows, table, categories)
    ensures Fresh(table, categories)
    ensures var t := PassTable(table, categories);
      PassState(rows, t, Unassigned(categories, t.Keys)) &&
      (|Unassigned(categories, t.Keys)| == |categories| ==>
        t == table && forall j | 0 <= j < |categories| :: Blocked(categories[j], table))
  {
    UnassignedUnique(rows, table.Keys);
    assert Fresh(table, categories) by {
      forall j | 0 <= j < |categories|
        ensures categories[j].id !in table
      {
        UnassignedMember(rows, table.Keys, categories[j]);
      }
    }
    var t := PassTable(table, categories);
    PassTableFrame(table, categories);
    forall j | 0 <= j < |categories|
      ensures categories[j] in rows
    {
      UnassignedMember(rows, table.Keys, categories[j]);
    }
    PassTableOk(rows, table, categories);
    UnassignedTwice(rows, table.Keys, t.Keys);
    if |Unassigned(categories, t.Keys)| == |categories| {
      UnassignedFull(categories, t.Keys);
      PassNoProgress(table, categories);
    }
  }

  /**
   * `etl_cat_tree`: reject duplicate ids, sweep the worklist until it is
   * empty or a pass makes no progress, reject leftovers, then emit every
   * row with its ancestors and its top-level category.
   */
  method EtlCatTree(rows: seq<CatRow>) returns (r: Result<seq<TreeRow>, EtlError>)
    ensures r == Failure(DuplicateCategoryId) <==> !UniqueIds(rows)
    ensures r.Success? <==> UniqueIds(rows) && HasAncestry(rows)
    ensures r.Success? ==> exists table :: IsAncestry(rows, table) && r.value == TreeOf(rows, table)
    ensures r.Failure? && r.error.UnprocessedCategories? ==> Stuck(rows, r.error.left)
  {
    if !UniqueIds(rows) {
      return Failure(DuplicateCategoryId);
    }
    var table: map<int, seq<int>> := map[];
    var categories := rows;
    UnassignedNone(rows);
    assert table.Keys == {};
    while |categories| != 0
      invariant PassState(rows, table, categories)
      decreases |categories|
    {
      var categoriesLeft := |categories|;
      PassStep(rows, table, categories);
      ghost var table0, categories0 := table, categories;
      table, categories := RunPass(table, categories);
      if |categories| == categoriesLeft {
        assert categories == categories0;
        break;
      }
    }
    if |categories| != 0 {
      IdsOfUnassigned(rows, table.Keys);
      forall k | 0 <= k < |categories|
        ensures categories[k] in rows
      {
        UnassignedMember(rows, table.Keys, categories[k]);
      }
      assert Stuck(rows, categories);
      StuckHasNoAncestry(rows, categories);
      return Failure(UnprocessedCategories(categories));
    }
    forall i | 0 <= i < |rows|
      ensures rows[i].id in table
    {
      UnassignedMember(rows, table.Keys, rows[i]);
    }
    assert IsAncestry(rows, table);
    r := Success(TreeOf(rows, table));
  }

  // ---------------------------------------------------------------------
  // Properties of ancestor tables
  // ---------------------------------------------------------------------

  lemma {:induction false} LowerBound(rows: seq<CatRow>, left: seq<CatRow>, table: map<int, seq<int>>, m: nat)
    requires Stuck(rows, left)
    ensures IsAncestry(rows, table) ==>
      forall k :: 0 <= k < |left| ==> |table[left[k].id]| >= m
  {
    if m > 0 && IsAncestry(rows, table) {
      LowerBound(rows, left, table, m - 1);
      forall k | 0 <= k < |left|
        ensures |table[left[k].id]| >= m
      {
        var e := left[k];
        var i :| 0 <= i < |rows| && rows[i] == e;
        assert ChainOk(table, rows[i]);
        var p := e.parent.value;
        var k' :| 0 <= k' < |left| && left[k'].id == p;
      }
    }
  }

  /** When the sweep gets stuck no ancestor table exists: dangling parents or a cycle. */
  lemma StuckHasNoAncestry(rows: seq<CatRow>, left: seq<CatRow>)
    requires Stuck(rows, left)
    ensures !HasAncestry(rows)
  {
    forall table
      ensures !IsAncestry(rows, table)
    {
      if left[0].id in table {
        LowerBound(rows, left, table, |table[left[0].id]| + 1);
      }
    }
  }

  lemma {:induction false} AncestryAgrees(rows: seq<CatRow>, t1: map<int, seq<int>>, t2: map<int, seq<int>>, c: int)
    requires IsAncestry(rows, t1) && IsAncestry(rows, t2) && c in t1
    ensures t1[c] == t2[c]
    decreases |t1[c]|
  {
    var i :| 0 <= i < |rows| && rows[i].id == c;
    assert ChainOk(t1, rows[i]) && ChainOk(t2, rows[i]);
    if rows[i].parent.Some? {
      AncestryAgrees(rows, t1, t2, rows[i].parent.value);
    }
  }

  /** There is at most one ancestor table, so the output is determined by the input. */
  lemma AncestryUnique(rows: seq<CatRow>, t1: map<int, seq<int>>, t2: map<int, seq<int>>)
    requires IsAncestry(rows, t1) && IsAncestry(rows, t2)
    ensures t1 == t2
  {
    forall c | c in t1
      ensures t1[c] == t2[c]
    {
      AncestryAgrees(rows, t1, t2, c);
    }
  }

  /**
   * The ancestor at depth k of c has exactly the first k ancestors of c as
   * its own: the list runs from the root down.
   */
  lemma {:induction false} AncestorPrefix(rows: seq<CatRow>, table: map<int, seq<int>>, c: int, k: nat)
    requires IsAncestry(rows, table) && c in table && k < |table[c]|
    ensures table[c][k] in table && table[table[c][k]] == table[c][..k]
    decreases |table[c]|
  {
    var i :| 0 <= i < |rows| && rows[i].id == c;
    assert ChainOk(table, rows[i]);
    var p := rows[i].parent.value;
    if k == |table[p]| {
      assert table[c][..k] == table[p];
    } else {
      AncestorPrefix(rows, table, p, k);
      assert table[c][..k] == table[p][..k];
    }
  }

  /** The last ancestor is the direct parent; a top-level category has none. */
  lemma LastIsParent(rows: seq<CatRow>, table: map<int, seq<int>>, i: nat)
    requires IsAncestry(rows, table) && i < |rows|
    ensures rows[i].parent.None? <==> table[rows[i].id] == []
    ensures rows[i].parent.Some? ==> table[rows[i].id][|table[rows[i].id]| - 1] == rows[i].parent.value
  {
    assert ChainOk(table, rows[i]);
  }

  /** The first ancestor, `top_cat_id` of a non-root, is a top-level category. */
  lemma FirstIsRoot(rows: seq<CatRow>, table: map<int, seq<int>>, c: int)
    requires IsAncestry(rows, table) && c in table && table[c] != []
    ensures forall i :: 0 <= i < |rows| && rows[i].id == table[c][0] ==> rows[i].parent.None?
  {
    AncestorPrefix(rows, table, c, 0);
    forall i | 0 <= i < |rows| && rows[i].id == table[c][0]
      ensures rows[i].parent.None?
    {
      assert ChainOk(table, rows[i]);
    }
  }

  /** `top_cat_id` always names a top-level category. */
  lemma TopCatIsRoot(rows: seq<CatRow>, table: map<int, seq<int>>, c: int)
    requires IsAncestry(rows, table) && c in table
    ensures forall i :: 0 <= i < |rows| && rows[i].id == TopCat(c, table[c]) ==> rows[i].parent.None?
  {
    if table[c] != [] {
      FirstIsRoot(rows, table, c);
    } else {
      forall i | 0 <= i < |rows| && rows[i].id == c
        ensures rows[i].parent.None?
      {
        assert ChainOk(table, rows[i]);
      }
    }
  }

  /** No category is among its own ancestors, and every ancestor is a category. */
  lemma NotOwnAncestor(rows: seq<CatRow>, table: map<int, seq<int>>, c: int)
    requires IsAncestry(rows, table) && c in table
    ensures c !in table[c]
    ensures forall k :: 0 <= k < |table[c]| ==> table[c][k] in Ids(rows)
  {
    forall k | 0 <= k < |table[c]|
      ensures table[c][k] != c && table[c][k] in Ids(rows)
    {
      AncestorPrefix(rows, table, c, k);
    }
  }
}
