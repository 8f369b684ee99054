/**
 * The two-way sync between the scroll view's position (a row id, `scrollPosition`) and the
 * caller's binding (`snappedItem`), as the two `onChange` closures of `RowSnapScrollView.body`
 * do it. A row is a value with an id and whole-value equality; `withAnimation` is reduced to
 * a flag on the seek it wraps.
 */
module SnapSync {
  import opened Wrappers
  import opened Search

  datatype Row<Id(==), Body(==)> = Row(id: Id, body: Body)

  /** A write of the scroll position issued by the item-to-scroll handler. */
  datatype Seek<Id> = NoSeek | SeekTo(target: Option<Id>, animated: bool)

  /** `item?.id`. */
  function IdOf<Id(==), Body(==)>(item: Option<Row<Id, Body>>): (r: Option<Id>)
    ensures r.None? <==> item.None?
    ensures item.Some? ==> r.value == item.value.id
  {
    match item
    case None => None
    case Some(row) => Some(row.id)
  }

  /** Does `row` answer to `scrollID` (`$0.id == scrollID`, a `nil` id matching no row)? */
  predicate Matches<Id(==), Body(==)>(scrollID: Option<Id>, row: Row<Id, Body>)
  {
    scrollID == Some(row.id)
  }

  /** `data.last { $0.id == scrollID }`: the last row whose id is `scrollID`, or `nil`. */
  function LastWithId<Id(==), Body(==)>(data: seq<Row<Id, Body>>, scrollID: Option<Id>)
    : (r: Option<Row<Id, Body>>)
    ensures r.Some? ==> r.value in data && scrollID == Some(r.value.id)
    ensures r.None? <==> forall j :: 0 <= j < |data| ==> !Matches(scrollID, data[j])
    ensures r.Some? ==> exists k :: 0 <= k < |data| && data[k] == r.value &&
                                    forall j :: k < j < |data| ==> !Matches(scrollID, data[j])
  {
    match LastIndex(data, row => Matches(scrollID, row))
    case None => None
    case Some(k) => Some(data[k])
  }

  /** `row` is the last row of `data` carrying its id. */
  predicate IsLastOfItsId<Id(==), Body(==)>(data: seq<Row<Id, Body>>, row: Row<Id, Body>)
  {
    exists k :: 0 <= k < |data| && data[k] == row &&
                forall j :: k < j < |data| ==> data[j].id != row.id
  }

  /**
   * The view's sync state. `data` is fixed for the lifetime of the view; `snappedItem` is
   * the caller's binding and `scrollPosition` the view's own `@State`, which starts `nil`.
   */
  class SnapCoordinator<Id(==), Body(==)> {
    const data: seq<Row<Id, Body>>
    var snappedItem: Option<Row<Id, Body>>
    var scrollPosition: Option<Id>

    constructor (data: seq<Row<Id, Body>>, snappedItem: Option<Row<Id, Body>>)
      ensures this.data == data && this.snappedItem == snappedItem
      ensures scrollPosition == None
    {
      this.data := data;
      this.snappedItem := snappedItem;
      scrollPosition := None;
    }

    /** Scroll to item: `snappedItem` becomes the last row with the new id, and nothing else changes. */
    method OnScrollPositionChange(scrollID: Option<Id>)
      modifies this
      ensures snappedItem == LastWithId(data, scrollID)
      ensures scrollPosition == old(scrollPosition)
    {
      snappedItem := LastWithId(data, scrollID);
    }

    /**
     * Item to scroll. An unchanged value is ignored. Otherwise the position is set to the
     * id of the binding's current value, animated exactly when the previous value was not
     * `nil`.
     */
    method OnSnappedItemChange(prev: Option<Row<Id, Body>>, item: Option<Row<Id, Body>>)
      returns (seek: Seek<Id>)
      modifies this
      ensures snappedItem == old(snappedItem)
      ensures prev == item ==> scrollPosition == old(scrollPosition) && seek == NoSeek
      ensures prev != item ==> scrollPosition == IdOf(snappedItem)
      ensures prev != item ==> seek == SeekTo(IdOf(snappedItem), prev != None)
    {
      if prev == item {
        return NoSeek;
      }
      var target := IdOf(snappedItem);
      scrollPosition := target;
      seek := SeekTo(target, prev != None);
    }

    /**
     * First appearance: `onChange(of: snappedItem, initial: true)` runs once with the
     * current value as both the old and the new value, so the guard returns and no seek
     * is issued.
     */
    method Appear() returns (seek: Seek<Id>)
      modifies this
      ensures seek == NoSeek
      ensures snappedItem == old(snappedItem) && scrollPosition == old(scrollPosition)
    {
      seek := OnSnappedItemChange(snappedItem, snappedItem);
    }

    /**
     * The caller assigns the binding. The item-to-scroll handler runs only when the value
     * changes, and moves the position to the new row's id (`seek`), animated unless the old
     * value was `nil`. When that moves the position, the scroll-to-item handler runs and
     * replaces the binding by the last row of `data` with that id, or `nil` when no row has
     * it. If that changes the binding again, the item-to-scroll handler runs on the change
     * and its write (`echo`) is returned: an animated seek to the replacement's id, which is
     * `nil` for a row absent from `data`.
     */
    method SetSnappedItem(item: Option<Row<Id, Body>>) returns (seek: Seek<Id>, echo: Seek<Id>)
      modifies this
      ensures item == old(snappedItem) ==>
                snappedItem == old(snappedItem) && scrollPosition == old(scrollPosition) &&
                seek == NoSeek && echo == NoSeek
      ensures item != old(snappedItem) ==> seek == SeekTo(IdOf(item), old(snappedItem) != None)
      ensures item != old(snappedItem) && IdOf(item) == old(scrollPosition) ==>
                snappedItem == item && scrollPosition == old(scrollPosition) && echo == NoSeek
      ensures item != old(snappedItem) && IdOf(item) != old(scrollPosition) ==>
                snappedItem == LastWithId(data, IdOf(item)) &&
                snappedItem == LastWithId(data, scrollPosition)
      ensures item != old(snappedItem) ==> scrollPosition == IdOf(snappedItem)
      ensures echo != NoSeek <==>
                item != old(snappedItem) && IdOf(item) != old(scrollPosition) &&
                LastWithId(data, IdOf(item)) != item
      ensures echo != NoSeek ==> echo == SeekTo(IdOf(snappedItem), true)
    {
      var prev := snappedItem;
      snappedItem := item;
      seek, echo := NoSeek, NoSeek;
      if prev == item {
        return;
      }
      var position := scrollPosition;
      seek := OnSnappedItemChange(prev, item);
      if scrollPosition == position {
        return;
      }
      OnScrollPositionChange(scrollPosition);
      if snappedItem != item {
        echo := OnSnappedItemChange(item, snappedItem);
        EchoKeepsPosition(data, IdOf(item));
      }
    }

    /**
     * The scroll view settles on a row id. When the id is new, the position is stored and the
     * scroll-to-item handler runs; if that changes the binding, the item-to-scroll handler
     * runs on the change and its write (`echo`) is returned. For an id naming a row, the
     * echo seeks the position it already has, so the exchange ends there.
     */
    method ScrollSettled(scrollID: Option<Id>) returns (echo: Seek<Id>)
      modifies this
      ensures scrollID == old(scrollPosition) ==>
                snappedItem == old(snappedItem) && scrollPosition == old(scrollPosition) && echo == NoSeek
      ensures scrollID != old(scrollPosition) ==> snappedItem == LastWithId(data, scrollID)
      ensures scrollID != old(scrollPosition) && LastWithId(data, scrollID).Some? ==>
                scrollPosition == scrollID
      ensures scrollID != old(scrollPosition) && LastWithId(data, scrollID).None? ==>
                scrollPosition == (if old(snappedItem) == None then scrollID else None)
      ensures scrollID != old(scrollPosition) ==> snappedItem == LastWithId(data, scrollPosition)
      ensures echo == NoSeek <==>
                scrollID == old(scrollPosition) || LastWithId(data, scrollID) == old(snappedItem)
      ensures echo != NoSeek ==> echo.target == IdOf(snappedItem) && echo.animated == (old(snappedItem) != None)
    {
      echo := NoSeek;
      if scrollID == scrollPosition {
        return;
      }
      scrollPosition := scrollID;
      var prev := snappedItem;
      OnScrollPositionChange(scrollID);
      if prev != snappedItem {
        echo := OnSnappedItemChange(prev, snappedItem);
        EchoKeepsPosition(data, scrollID);
      }
    }
  }

  /**
   * A row found by id carries that id back, so the echo of a scroll-driven change re-seeks
   * the same id. It keeps the position exactly when some row has the id or the position is
   * `nil`; a non-`nil` id that no row has is cleared to `nil`.
   */
  lemma EchoKeepsPosition<Id, Body>(data: seq<Row<Id, Body>>, scrollID: Option<Id>)
    ensures LastWithId(data, scrollID).Some? ==> IdOf(LastWithId(data, scrollID)) == scrollID
    ensures IdOf(LastWithId(data, scrollID)) == scrollID <==>
              LastWithId(data, scrollID).Some? || scrollID == None
  {
  }

  /** Seeking to `item` and settling there gives `item` back exactly when it is the last row with its id. */
  lemma {:induction false} SeekSettleRoundTrip<Id, Body>(data: seq<Row<Id, Body>>, item: Row<Id, Body>)
    ensures LastWithId(data, IdOf(Some(item))) == Some(item) <==> IsLastOfItsId(data, item)
  {
    var r := LastWithId(data, Some(item.id));
    if r == Some(item) {
      var k :| 0 <= k < |data| && data[k] == item &&
               forall j :: k < j < |data| ==> !Matches(Some(item.id), data[j]);
      assert forall j :: k < j < |data| ==> data[j].id != item.id;
    }
    if IsLastOfItsId(data, item) {
      var k :| 0 <= k < |data| && data[k] == item &&
               forall j :: k < j < |data| ==> data[j].id != item.id;
      assert Matches(Some(item.id), data[k]);
      var i := LastIndex(data, row => Matches(Some(item.id), row));
      assert i.Some? && i.value == k;
    }
  }
}
