/**
 * A worked example: rows A (height 50), B (30) and C (70) with spacing 10.
 */
module Scenarios {
  import opened Wrappers
  import opened SnapPoints
  import opened SnapTarget
  import opened SnapSync

  function Rows(): seq<Row<int, char>>
  {
    [Row(1, 'A'), Row(2, 'B'), Row(3, 'C')]
  }

  function Height(row: Row<int, char>): real
  {
    if row.body == 'A' then 50.0 else if row.body == 'B' then 30.0 else 70.0
  }

  /** The table is `[0, 60, 100]`, and a gesture resting at 55 is pulled to B's point, 60. */
  lemma ExampleTable()
    ensures SnapTable(Rows(), 10.0, Height) == [0.0, 60.0, 100.0]
    ensures Snap(SnapTable(Rows(), 10.0, Height), 55.0) == 60.0
  {
    var rows := Rows();
    var t := SnapTable(rows, 10.0, Height);
    TableShape(rows, 10.0, Height);
    TableStep(rows, 10.0, Height, 0);
    TableStep(rows, 10.0, Height, 1);
    assert t == [0.0, 60.0, 100.0];
    assert LowerIndex(t, 55.0) == Some(0);
    assert HigherIndex(t, 55.0) == Some(1);
  }

  /**
   * The scroll settles on B; the caller then selects C twice (one animated seek, then
   * none), and finally a row Z whose id no row has: the binding falls back to `nil` and
   * the echo is an animated seek to `nil`.
   */
  method ExampleSync() returns (toC: Seek<int>, againC: Seek<int>, toZ: Seek<int>, echoZ: Seek<int>)
    ensures toC == SeekTo(Some(3), true) && againC == NoSeek
    ensures toZ == SeekTo(Some(9), true) && echoZ == SeekTo(None, true)
  {
    var rows := Rows();
    var c := new SnapCoordinator(rows, None);
    var seek := c.Appear();
    assert seek == NoSeek;
    var echo := c.ScrollSettled(Some(2));
    assert rows[1] == Row(2, 'B');
    assert c.snappedItem == Some(Row(2, 'B'));
    assert echo == SeekTo(Some(2), false);
    toC, echo := c.SetSnappedItem(Some(Row(3, 'C')));
    assert rows[2] == Row(3, 'C');
    assert echo == NoSeek && c.scrollPosition == Some(3);
    againC, echo := c.SetSnappedItem(Some(Row(3, 'C')));
    toZ, echoZ := c.SetSnappedItem(Some(Row(9, 'Z')));
    assert c.snappedItem == None && c.scrollPosition == None;
  }
}
