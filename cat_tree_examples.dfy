/** Concrete category trees worked through the model. */
module CatTreeExamples {
  import opened Wrappers
  import opened CatTree

  /** A child listed before its parent, which is listed after the root. */
  function ThreeLevels(): seq<CatRow> {
    [CatRow(3, Some(2)), CatRow(1, None), CatRow(2, Some(1))]
  }

  /** Root 1 has no ancestors, 2 has [1], 3 has [1, 2]; all belong to top-level category 1. */
  lemma ThreeLevelsTable()
    ensures IsAncestry(ThreeLevels(), map[1 := [], 2 := [1], 3 := [1, 2]])
    ensures TreeOf(ThreeLevels(), map[1 := [], 2 := [1], 3 := [1, 2]])
      == [TreeRow(3, Some(2), [1, 2], 1), TreeRow(1, None, [], 1), TreeRow(2, Some(1), [1], 1)]
  {
    var rows := ThreeLevels();
    assert Ids(rows) == {1, 2, 3} by {
      assert rows[0].id == 3 && rows[1].id == 1 && rows[2].id == 2;
    }
  }

  /**
   * The first pass fills in 1 and then 2, which follows its parent, but not
   * 3, which precedes its parent; the second pass fills in 3.
   */
  lemma ThreeLevelsPasses()
    ensures PassTable(map[], ThreeLevels()) == map[1 := [], 2 := [1]]
    ensures PassTable(map[1 := [], 2 := [1]], [CatRow(3, Some(2))]) == map[1 := [], 2 := [1], 3 := [1, 2]]
  {
    var rows := ThreeLevels();
    var m1: map<int, seq<int>> := map[1 := []];
    var m2: map<int, seq<int>> := map[1 := [], 2 := [1]];
    assert rows[..1] == [CatRow(3, Some(2))] && rows[..1][..0] == [];
    assert PassTable(map[], rows[..1]) == map[];
    assert rows[..2][..1] == rows[..1];
    assert PassTable(map[], rows[..2]) == m1;
    assert rows[..2] == rows[..|rows| - 1];
    assert Chain(m1, rows[2]) == [1];
    assert m1[2 := [1]] == m2;
    var last := [CatRow(3, Some(2))];
    assert last[..0] == [];
    assert Chain(m2, last[0]) == [1, 2];
    assert m2[3 := [1, 2]] == map[1 := [], 2 := [1], 3 := [1, 2]];
  }

  /** Two categories that are each other's parent. */
  lemma CycleHasNoTable()
    ensures !HasAncestry([CatRow(1, Some(2)), CatRow(2, Some(1))])
  {
    var rows := [CatRow(1, Some(2)), CatRow(2, Some(1))];
    assert Ids(rows) - Ids(rows) == {};
    StuckHasNoAncestry(rows, rows);
  }

  /** A category whose parent is not in the table. */
  lemma DanglingParentHasNoTable()
    ensures !HasAncestry([CatRow(1, None), CatRow(5, Some(9))])
  {
    var rows := [CatRow(1, None), CatRow(5, Some(9))];
    var left := [CatRow(5, Some(9))];
    assert Ids(rows) == {1, 5} by {
      assert rows[0].id == 1 && rows[1].id == 5;
    }
    assert left[0] == rows[1];
    StuckHasNoAncestry(rows, left);
  }
}
