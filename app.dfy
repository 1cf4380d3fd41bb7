/** The state-owning `App` component: its `columns` and `draggedItem` state,
    and the drag-start, drag-end and drop handlers that update them. Each
    handler runs as one atomic step. */
module DragAndDrop {
  import opened Columns
  import opened Payload

  datatype Option<T> = None | Some(value: T)

  /** What the drag-start handler writes into the drag event's data: the item
      id under "item" and the source column index, as text, under "fromColumn". */
  datatype DragData = DragData(item: string, fromColumn: string)

  /** The `draggedItem` snapshot behind the floating preview. Only the item
      id is kept; the captured styles and pointer offset are not modelled. */
  datatype DraggedItem = DraggedItem(item: string)

  class App {
    var columns: Board
    /** None while idle, Some while a drag is in progress. */
    var draggedItem: Option<DraggedItem>

    /** Every id on the board appears in exactly one column, once. */
    ghost predicate Valid()
      reads this
    {
      EachIdOnce(columns)
    }

    constructor ()
      ensures Valid()
      ensures columns == InitialBoard() && draggedItem == None
    {
      columns := InitialBoard();
      draggedItem := None;
    }

    /** A drag starts on `item`, rendered in column `fromColumn`: the payload
        carries the id and the index as text, and the snapshot is taken. */
    method HandleDragStart(item: string, fromColumn: nat) returns (data: DragData)
      requires Valid()
      modifies this
      ensures Valid()
      ensures data == DragData(item, EncodeIndex(fromColumn))
      ensures ParseNumber(data.fromColumn) == Num(fromColumn)
      ensures draggedItem == Some(DraggedItem(item))
      ensures columns == old(columns)
    {
      draggedItem := Some(DraggedItem(item));
      data := DragData(item, EncodeIndex(fromColumn));
      ParseEncode(fromColumn);
    }

    /** The drag ends, dropped or not: the snapshot is cleared. */
    method HandleDragEnd()
      requires Valid()
      modifies this
      ensures Valid()
      ensures draggedItem == None
      ensures columns == old(columns)
    {
      draggedItem := None;
    }

    /** The payload `data` is dropped on column `toColumn`. A drop on the
        source column returns at once, leaving the snapshot in place; any
        other drop moves the item and clears the snapshot. The source index is
        not checked: it must parse to a column of the board, and the item must
        be in that column for the board to keep every id exactly once. */
    method HandleDrop(data: DragData, toColumn: nat)
      requires Valid()
      requires toColumn < |columns|
      requires ParseNumber(data.fromColumn).Num? && ParseNumber(data.fromColumn).value < |columns|
      requires ParseNumber(data.fromColumn).value != toColumn ==> data.item in columns[ParseNumber(data.fromColumn).value]
      modifies this
      ensures Valid()
      ensures columns == Drop(old(columns), data.item, ParseNumber(data.fromColumn).value, toColumn)
      ensures ParseNumber(data.fromColumn).value == toColumn ==> draggedItem == old(draggedItem)
      ensures ParseNumber(data.fromColumn).value != toColumn ==> draggedItem == None
      ensures ParseNumber(data.fromColumn).value != toColumn ==>
        data.item in columns[toColumn] &&
        forall c :: 0 <= c < |columns| && c != toColumn ==> data.item !in columns[c]
    {
      var fromColumn := ParseNumber(data.fromColumn);
      if fromColumn == Num(toColumn) {
        return;
      }
      DropPreservesUnique(columns, data.item, fromColumn.value, toColumn);
      DropLandsInTarget(columns, data.item, fromColumn.value, toColumn);
      columns := Drop(columns, data.item, fromColumn.value, toColumn);
      draggedItem := None;
    }
  }

  /** "item1" dragged from the first column of the initial board and dropped
      on the second: it moves to the end of that column. */
  method MoveScenario()
  {
    var app := new App();
    var data := app.HandleDragStart("item1", 0);
    assert app.draggedItem == Some(DraggedItem("item1"));
    assert app.columns == [["item1"], ["item2"]];
    app.HandleDrop(data, 1);
    assert app.columns == Drop([["item1"], ["item2"]], "item1", 0, 1);
    assert app.columns[0] == [] && app.columns[1] == ["item2", "item1"];
    assert app.columns == [[], ["item2", "item1"]];
    assert app.draggedItem == None;
  }

  /** "item1" dropped back on its own column: the board stays as it was and
      the snapshot lasts until the drag ends. */
  method SameColumnScenario()
  {
    var app := new App();
    var data := app.HandleDragStart("item1", 0);
    app.HandleDrop(data, 0);
    assert app.columns == [["item1"], ["item2"]];
    assert app.draggedItem == Some(DraggedItem("item1"));
    app.HandleDragEnd();
    assert app.draggedItem == None;
  }

  /** A drop whose data carries neither entry, such as text dragged in from
      elsewhere, reads "" for both. `Number("")` is 0, so on the initial board
      a drop onto the second column appends a blank card there, while a drop
      onto the first is a same-column drop and changes nothing. */
  lemma ExternalDropAddsBlankCard()
    ensures ParseNumber("") == Num(0)
    ensures Drop(InitialBoard(), "", ParseNumber("").value, 1) == [["item1"], ["item2", ""]]
    ensures Drop(InitialBoard(), "", ParseNumber("").value, 0) == InitialBoard()
  {
    var b := InitialBoard();
    assert "" !in b[0];
    var r := Drop(b, "", 0, 1);
    assert r[0] == ["item1"] && r[1] == ["item2", ""];
    assert r == [r[0], r[1]];
  }
}
