# Drag-and-drop kanban board: a Dafny model of the board state

The component (`src/App.tsx`) shows a board of columns. Each column is an
ordered list of item ids (strings), and items can be dragged from one
column to another. This project models the part of the component that
has behaviour beyond rendering:

- **`columns.dfy`, module `Columns`.** The board, and the pure updater
  that the drop handler passes to `setColumns`. `Drop` removes every
  copy of the item from the source column, appends the item to the
  target column, and leaves the other columns alone. A drop onto the
  column the item came from changes nothing. `Count` is how often an id
  appears on the whole board, and `Size` is the number of cards.
  `EachIdOnce` is the board's invariant: no id appears twice, so every
  id on the board lies in exactly one column. The lemmas prove that a
  drop keeps this invariant, keeps every id's count, and keeps the
  number of cards. They also prove what goes wrong when the item is not
  in its source column: the drop then adds a copy of the item and
  removes none.
- **`payload.dfy`, module `Payload`.** The source column index travels
  through the drag data as text. `EncodeIndex` models
  `fromColumn.toString()`. `ParseNumber` models `Number(...)`: it trims
  white space at both ends, reads the empty string as 0, and reads a
  decimal numeral as its value, with or without white space around it.
  White space between digits gives NaN, and this model gives NaN for
  every other string too (see "Left out" for what `Number` itself does with them). The
  encoding and the parse are proved to be inverses in both directions.
- **`app.dfy`, module `DragAndDrop`.** The class `App` holds the
  component's `columns` and `draggedItem` state. Its methods are the
  three handlers:
  - `HandleDragStart` writes the payload and takes the snapshot.
  - `HandleDragEnd` clears the snapshot.
  - `HandleDrop` parses the payload. On a same-column drop it returns
    early, so the snapshot stays. Otherwise it moves the item and clears
    the snapshot.

  `MoveScenario` and `SameColumnScenario` play through the two gestures
  on the initial board.

Behaviour of the code worth knowing, all of it stated in the model:

- The drop removes *every* copy of the item from the source column, not
  just the first (`Columns.FilterOut`).
- The dropped item goes to the *end* of the target column. Dragging
  "item1" from the initial board `[["item1"], ["item2"]]` onto the
  second column therefore gives `[[], ["item2", "item1"]]`.
- A drop whose data has no "fromColumn" entry reads the empty string.
  `Number("")` is 0, so the drop acts as a drop from column 0; it is not
  an out-of-range index (`Payload.ParseNumber`). A drop that carries
  neither entry, such as text dragged in from elsewhere, reads `""` for
  both. Dropped on any column but the first, it appends a blank card:
  `Drop(InitialBoard(), "", 0, 1) == [["item1"], ["item2", ""]]`.
  Dropped on the first, it is a same-column drop and changes nothing
  (`DragAndDrop.ExternalDropAddsBlankCard`).
- A same-column drop returns before `setDraggedItem(null)`, so it does
  not clear the snapshot. Only the drag-end listener clears it then.

## Model

| member | source | states |
|---|---|---|
| `Columns.InitialBoard` | src/App.tsx:14 | The initial board has two columns and two cards. "item1" and "item2" each appear once, and the board satisfies the each-id-once invariant. |
| `Columns.FilterOut` | src/App.tsx:47 | The filtered column holds no copy of the item. Every other id keeps its count (multiset with the item's count set to 0), so the length drops by the item's count. The remaining ids stay in their original relative order (subsequence). |
| `Columns.Drop` | src/App.tsx:44-54 | The number of columns is unchanged. A same-column drop leaves the board unchanged. Otherwise the target column is the old one with the item appended at the end. The source column is the old one with every copy of the item removed and the rest in order. Every other column is unchanged. |
| `Columns.UniqueMeansOneColumn` | src/App.tsx:14 | Under the each-id-once invariant, an id found in a column appears there exactly once and in no other column. |
| `Columns.DropCountOfItem` | src/App.tsx:47-48 | In a drop between different columns, the item loses its copies in the source column and gains one copy on the board. |
| `Columns.DropCountOfOther` | src/App.tsx:46-55 | A drop leaves the board-wide count of every other id unchanged. |
| `Columns.DropKeepsCounts` | src/App.tsx:46-55 | If the board has each id once and the item is in its source column, every id keeps its count after the drop. |
| `Columns.DropKeepsSize` | src/App.tsx:46-55 | Under the same conditions, the total number of cards is unchanged. |
| `Columns.DropPreservesUnique` | src/App.tsx:46-55 | Under the same conditions, the board still has each id once after the drop. |
| `Columns.DropLandsInTarget` | src/App.tsx:47-48 | Under the same conditions, the item is in the target column after the drop, and in no other column. |
| `Columns.DropOfAbsentItem` | src/App.tsx:47-48 | If the item is not in its source column, the drop raises its count by one. An id already on the board is then on it twice, so the invariant breaks. |
| `Payload.EncodeIndex` | src/App.tsx:66 | `toString` writes a canonical decimal numeral: at least one digit, all digits, and a leading zero only for 0. |
| `Payload.DecimalValueOfEncode` | src/App.tsx:66 | The numeral `toString` writes for an index has that index as its decimal value. |
| `Payload.LeadingWhiteSpace` | src/App.tsx:42 | Counts the white space `Number` skips at the start: every character before the count is white space, and the one at the count, if any, is not. |
| `Payload.TrimStart` | src/App.tsx:42 | The leading white space `Number` ignores: the result is a suffix of the string, everything before it is white space, and it does not itself start with white space. |
| `Payload.TrimEnd` | src/App.tsx:42 | The trailing white space `Number` ignores: the result is a prefix of the string, everything after it is white space, and it does not itself end with white space. |
| `Payload.ParseNumber` | src/App.tsx:42 | `Number(fromColumn)`: an empty or all-white-space string gives 0; a string of decimal digits gives its value; a string that gives a number consists of digits and white space only (anything else is NaN in this model). |
| `Payload.ParsePadded` | src/App.tsx:42 | A decimal numeral with white space before and after it parses to the numeral's value (`" 12 "` gives 12). |
| `Payload.InnerWhiteSpaceIsNaN` | src/App.tsx:42 | White space between two digits makes the string NaN (`"1 2"`). |
| `Payload.ParseEncode` | src/App.tsx:42 | Parsing the encoding of a column index gives back that index. |
| `Payload.EncodeParse` | src/App.tsx:42 | Every canonical numeral parses to a number whose encoding is that numeral. |
| `DragAndDrop.ExternalDropAddsBlankCard` | src/App.tsx:41-54 | A drop carrying neither "item" nor "fromColumn" reads source column 0. Onto the second column of the initial board it appends a blank card `""` there; onto the first it changes nothing. |
| `DragAndDrop.App.constructor` | src/App.tsx:14-19 | The component starts on the initial board, satisfying the invariant, with no drag snapshot. |
| `DragAndDrop.App.HandleDragStart` | src/App.tsx:60-110 | The payload carries the item id and the encoded source index, which parses back to that index. The snapshot is set to the dragged item. The columns are unchanged. |
| `DragAndDrop.App.HandleDragEnd` | src/App.tsx:71-75 | The snapshot is cleared. The columns are unchanged. |
| `DragAndDrop.App.HandleDrop` | src/App.tsx:40-58 | The new columns are `Drop` of the old ones at the parsed source index. A same-column drop leaves the snapshot as it was; any other drop clears it, and the item then sits in the target column and in no other. The invariant is kept. The source index must parse to a column of the board, and the item must be in its source column, because the code checks neither. |

## Left out

- Rendering (the JSX tree and the `Column` and `Item` components) is left out. It is presentational only.
- The window `mousemove` and `dragover` listeners, their attach/detach in `useEffect`, and the `cursorPos` state are left out. They only position the preview.
- The pointer offset from `getBoundingClientRect` and the preview's `top`/`left` arithmetic are left out. They are browser floating-point pixel values.
- The `getComputedStyle` capture and the opacity changes on the dragged element are left out. They are browser calls with no stateable logic, so the snapshot keeps only the item id.
- The `dataTransfer` object is not modelled. The payload is the pair of strings it carries (`DragData`).
- React's batching and scheduling of state updates are not modelled. Each handler is one atomic sequential update. The `setColumns` updater is applied at once.
- `Payload.ParseNumber` models `Number` only on blank strings and decimal digit strings. Signs, fractions, exponents, `Infinity`, and hexadecimal, octal and binary literals are all mapped to NaN rather than to their numeric value. `toString` never produces such strings.
- `Payload.ParseNumber` reads a decimal numeral as its exact integer value. `Number` returns a double, so a numeral above 2^53 is rounded (`Number("9007199254740993")` is 9007199254740992) and one above about 1.8e308 gives Infinity. Every column index is far below 2^53.
- `Payload.ParsePadded` gives a padded numeral its exact value; for the code this holds only up to 2^53, for the same rounding reason.
- `Payload.EncodeParse` proves the round trip for every canonical numeral; for the code it holds only up to 2^53, since `Number(...).toString()` of a larger numeral gives back the rounded value.
- `DragAndDrop.App.HandleDrop` states two conditions as preconditions instead of modelling their failure: an out-of-range or NaN source index, and an item missing from its source column. The code checks neither. The first makes `prev[fromColumn]` undefined and the updater throws. The second adds a copy of the item to the target column without removing one, so the item's count on the board goes up by one (`Columns.DropOfAbsentItem`). Because this model reads other numeral forms as NaN, the precondition also excludes payloads such as "1.0", "+1", "-0", "1e0" and "0x1", which `Number` reads as valid indices and for which the code does not throw.
- The drop target index comes from the rendered column's position, so it is always a column of the board. The model requires this.
