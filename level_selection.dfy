/**
 Choosing which row of a subject's MSCC table to report: the first row at the
 target compression level, or, when no row is at that level, the first row at
 the level nearest to it.
 */
module LevelSelection {
  import opened MsccTypes

  /** |level - target|. */
  function Dist(level: int, target: int): nat
  {
    if level >= target then level - target else target - level
  }

  /**
   Row `i` is the first row of `table` at minimal distance from `target`: no
   row is nearer, and every earlier row is strictly farther.
   */
  predicate IsFirstNearest(table: seq<Row>, target: int, i: int)
  {
    && 0 <= i < |table|
    && (forall j :: 0 <= j < |table| ==> Dist(table[i].level, target) <= Dist(table[j].level, target))
    && (forall j :: 0 <= j < i ==> Dist(table[i].level, target) < Dist(table[j].level, target))
  }

  /**
   The index of the first row whose level is `level`, as
   `df.index[df['Compression Level'] == level][0]` finds it; None when no row
   has that level.
   */
  function FirstIndexOf(table: seq<Row>, level: int): (r: Option<nat>)
    ensures r.None? <==> forall i :: 0 <= i < |table| ==> table[i].level != level
    ensures r.Some? ==> r.value < |table| && table[r.value].level == level
    ensures r.Some? ==> forall j :: 0 <= j < r.value ==> table[j].level != level
  {
    FirstIndex(table, (row: Row) => row.level == level)
  }

  /**
   numpy's `argmin` of `abs(levels - target)` over a non-empty table: the
   index of the first minimum.
   */
  function ArgMin(table: seq<Row>, target: int): (r: nat)
    requires |table| > 0
    ensures IsFirstNearest(table, target, r)
  {
    if |table| == 1 then 0
    else
      var k := ArgMin(table[1..], target) + 1;
      if Dist(table[0].level, target) <= Dist(table[k].level, target) then 0 else k
  }

  /** There is only one first-nearest row. */
  lemma FirstNearestUnique(table: seq<Row>, target: int, i: int, j: int)
    requires IsFirstNearest(table, target, i) && IsFirstNearest(table, target, j)
    ensures i == j
  {
    var di, dj := Dist(table[i].level, target), Dist(table[j].level, target);
    assert di <= dj && dj <= di;
  }

  /**
   The row the script reports for a subject whose target level is `target`:
   the first row at `target` if there is one; otherwise the level of the
   argmin row is taken and the first row at that level is chosen. None
   exactly when the table is empty (where the script's argmin fails).
   */
  function SelectRow(table: seq<Row>, target: int): (r: Option<nat>)
    ensures r.None? <==> |table| == 0
    ensures r.Some? ==> IsFirstNearest(table, target, r.value)
    ensures (exists i :: 0 <= i < |table| && table[i].level == target) ==>
              r.Some? && table[r.value].level == target &&
              forall j :: 0 <= j < r.value ==> table[j].level != target
  {
    match FirstIndexOf(table, target)
    case Some(i) =>
      assert Dist(table[i].level, target) == 0;
      Some(i)
    case None =>
      if |table| == 0 then None
      else
        var m := ArgMin(table, target);
        var nearest := table[m].level;
        var i := FirstIndexOf(table, nearest).value;
        assert i <= m && Dist(table[i].level, target) == Dist(table[m].level, target);
        Some(i)
  }

  /**
   The two-step choice of the script always lands on numpy's argmin index
   over the whole table: an exact match is at distance 0, and the first row at
   the argmin's level cannot come before the argmin.
   */
  lemma SelectRowIsArgMin(table: seq<Row>, target: int)
    requires |table| > 0
    ensures SelectRow(table, target) == Some(ArgMin(table, target))
  {
  }

  /** The reported level is one of the levels of the table, and it is the target when the target is present. */
  lemma SelectedLevelPresent(table: seq<Row>, target: int)
    requires |table| > 0
    ensures exists i :: 0 <= i < |table| && SelectRow(table, target) == Some(i)
    ensures (exists i :: 0 <= i < |table| && table[i].level == target) <==>
              table[SelectRow(table, target).value].level == target
  {
    var i := SelectRow(table, target).value;
    assert 0 <= i < |table|;
  }
}
