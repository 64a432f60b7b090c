# Kanban board model

A Dafny model of the board logic of the kanban desktop app
(kanban-by-electron). A board has columns, and a column has cards.
The user can:

- drag a card onto another column or onto another card;
- reorder cards inside a column;
- add, rename and delete columns;
- add, edit and delete cards;
- create and delete whole boards.

Each handler in the React components is pure. It builds the next board, or
the next list of boards, from the current one and passes it to a callback
(`onUpdateBoard`, `onUpdateColumn`, `onUpdate`, `setBoards`). The model
therefore writes every handler as a Dafny function:

- `Some(v)` means the handler called its callback with `v`.
- `None` means the handler returned early and called nothing.

Modules:

- `Seqs`: the JavaScript array operations the handlers use, on `seq`:
  - `findIndex`, as `FindIndex`;
  - `filter` by key, as `RemoveKey`;
  - `splice` insert and remove, as `InsertAt` and `RemoveAt`;
  - dnd-kit's `arrayMove`, as `ArrayMove`.
- `Text`: `String.prototype.trim` and the blank-title test `!s.trim()`.
- `Kanban`: the `Card`, `Column` and `Board` records, plus:
  - the board's bag of cards `AllCards`;
  - the invariant `WellFormed`. It says column ids are unique, card ids are
    unique within a column, and no card id appears in two columns.
- `BoardOps`: the handlers of `Board.tsx`.
- `ColumnOps`: the handlers of `Column.tsx`.
- `CardModal`: the edit dialog's form and its save handler.
- `BoardList`: board creation with the default columns, and board
  deletion.

Fresh ids (`generateId()`) and the current time are parameters of the
functions that use them.

The main results:

- On a well-formed board, a drag-over moves exactly one card from one
  column to another. It neither loses nor duplicates a card, and it keeps
  the board well formed. With two columns sharing the target id, the
  card would be inserted into both.
- With unique column ids, a drag-end is an `arrayMove` inside one column. It keeps every column's
  multiset of cards and the board's invariant.
- With unique ids, deleting a column or card removes exactly that column
  or card, and the column's cards with it.
- Adding then deleting under a fresh id is a round trip.
- Saving an untouched card in the dialog is the identity exactly on
  normalised cards. Saving is idempotent for cards whose title is trimmed
  or blank.

## Model

| member | source | states |
|---|---|---|
| BoardOps.FindColumnByCardId | src/components/Board.tsx:43-45 | The result is absent exactly when no column holds the card. Otherwise it is a column that holds the card, and no earlier column does. |
| BoardOps.ResolveTarget | src/components/Board.tsx:63-68 | The target is the hovered card's column if that card exists, otherwise the column with the hovered id. It is absent exactly when the id is neither a card id nor a column id. |
| BoardOps.InsertBefore | src/components/Board.tsx:82-93 | The moved card goes just before the hovered card, or at the end when no card of the column is hovered. The multiset of cards gains exactly that card, and card ids stay unique when the card is new to the column. |
| BoardOps.DragOver | src/components/Board.tsx:56-99 | Nothing happens exactly when nothing is hovered, either column is missing, or both are the same column. Otherwise the board's id, title and creation time, and its columns' order, ids and titles, are kept. |
| BoardOps.DragOverApplies | src/components/Board.tsx:58-73 | With unique column ids, a drag-over applies exactly when the dragged card's column and the target column both exist at different positions. |
| BoardOps.DragOverMoves | src/components/Board.tsx:75-96 | On a well-formed board, the source column loses exactly the dragged card. The target column gains it before the hovered card, or at the end when the column itself is hovered. Every other column is unchanged. |
| BoardOps.DragOverConserves | src/components/Board.tsx:75-98 | On a well-formed board, a drag-over keeps the multiset and the number of all cards. Without unique column ids it would not: the `map` inserts the card into every column with the target id. |
| BoardOps.DragOverKeepsWellFormed | src/components/Board.tsx:75-98 | A drag-over keeps a well-formed board well formed: column ids stay unique and every card stays in exactly one column. |
| BoardOps.MoveWithin | src/components/Board.tsx:123 | With both indices in range, the result is `ArrayMove(cards, from, to)`. When only `to` is past the end, the card at `from` moves to the end, as `splice` clamps its index. The multiset of cards is kept in every case. |
| BoardOps.DragEnd | src/components/Board.tsx:101-131 | Nothing happens exactly when nothing is hovered, the hovered id is the dragged card's own, the dragged card is on no column, or the hovered card is not in the dragged card's column. Otherwise ids, titles and every column's multiset of cards are kept. |
| BoardOps.DragEndReorders | src/components/Board.tsx:115-127 | With unique column ids, only the dragged card's column changes. The card moves from its index to the hovered card's index, and the other cards keep their relative order. |
| BoardOps.DragEndConserves | src/components/Board.tsx:119-129 | On a well-formed board, a drag-end keeps the multiset and the number of all cards and keeps the board well formed. |
| BoardOps.UpdateColumn | src/components/Board.tsx:133-138 | Every column with the updated column's id is replaced by it, and the others are kept. An id that no column has leaves the board unchanged. |
| BoardOps.UpdateColumnReplacesOne | src/components/Board.tsx:133-138 | With unique column ids, exactly one position is replaced. |
| BoardOps.DeleteColumn | src/components/Board.tsx:140-143 | The remaining columns are exactly the old ones with another id. |
| BoardOps.DeleteColumnRemovesOne | src/components/Board.tsx:140-143 | With unique ids, deleting column k removes exactly position k. The board loses exactly that column's cards. |
| BoardOps.DeleteColumnKeepsWellFormed | src/components/Board.tsx:140-143 | Deleting a column keeps the board well formed. |
| BoardOps.DeleteColumnAbsent | src/components/Board.tsx:141 | Deleting an id that no column has changes nothing. |
| BoardOps.AddColumn | src/components/Board.tsx:145-158 | A blank title is refused. Otherwise exactly one empty column with the fresh id and the trimmed, non-empty title is appended after the existing columns. |
| BoardOps.AddColumnKeepsWellFormed | src/components/Board.tsx:149-155 | Adding a column under a fresh id keeps every card of the board, in order, and keeps a well-formed board well formed. |
| BoardOps.DeleteAfterAddColumn | src/components/Board.tsx:140-155 | Deleting a column just added under a fresh id gives back the original board. |
| BoardOps.ReplaceCard | src/components/Board.tsx:172-174 | Card ids are kept position by position. Only cards with the edited card's id are replaced. |
| BoardOps.UpdateCard | src/components/Board.tsx:165-181 | Nothing happens exactly when no column is selected (null or ""). Otherwise only the selected column's cards are rewritten. |
| BoardOps.UpdateCardReplacesOne | src/components/Board.tsx:165-181 | On a well-formed board, saving card j of the selected column k replaces exactly that card. |
| BoardOps.UpdateCardKeepsWellFormed | src/components/Board.tsx:168-180 | Every column keeps its card ids, so the board stays well formed. |
| BoardOps.UpdateCardAbsent | src/components/Board.tsx:168-180 | Updating a card the selected column does not hold changes nothing. |
| BoardOps.DeleteCard | src/components/Board.tsx:183-199 | Nothing happens exactly when no column is selected. Otherwise only the selected column loses the cards with that id. |
| BoardOps.DeleteCardRemovesOne | src/components/Board.tsx:183-196 | On a well-formed board, deleting card j of column k removes exactly that card, so the board holds one card fewer. |
| BoardOps.DeleteCardKeepsWellFormed | src/components/Board.tsx:186-196 | Deleting a card keeps the board well formed. |
| BoardOps.DeleteCardAbsent | src/components/Board.tsx:186-196 | Deleting a card the selected column does not hold changes nothing. |
| ColumnOps.AddCard | src/components/Column.tsx:29-47 | A blank title is refused. Otherwise the existing cards are kept in order and one card is appended with the fresh id, the trimmed title, medium priority, no description, no due date and the given time. |
| ColumnOps.AddCardOnBoard | src/components/Column.tsx:29-47 | Added to a well-formed board under a fresh card id, the board gains exactly the new card and stays well formed. |
| ColumnOps.UpdateTitle | src/components/Column.tsx:49-57 | The rename happens exactly when the edit is not blank and differs from the current title. The new title is the trimmed edit, and the id and cards are kept. |
| ColumnOps.UpdateTitlePaddedIsUnchanged | src/components/Column.tsx:50-54 | An edit that differs from the title only by surrounding whitespace still calls `onUpdateColumn`, with the column unchanged. |
| ColumnOps.RenameOnBoard | src/components/Column.tsx:49-57 | Renaming a column on a well-formed board keeps all cards and the invariant. |
| CardModal.InitialForm | src/components/CardModal.tsx:16-19 | The form shows the card's title and priority. An absent description or due date is shown as "". |
| CardModal.Save | src/components/CardModal.tsx:21-30 | Id and creation time are kept. The title is the trimmed edit, or the old title if the edit is blank. The description is trimmed, and absent exactly when blank. The due date is absent exactly when empty, otherwise kept as entered. The priority is the selected one. |
| CardModal.SaveUntouchedIff | src/components/CardModal.tsx:16-30 | Opening and saving without edits returns the card unchanged exactly when it is normalised. |
| CardModal.SaveNormalises | src/components/CardModal.tsx:21-30 | A saved card is normalised, provided the original card's title was trimmed or blank. Without that condition a blank edit keeps a padded title such as " x ". `Save` keeps a trimmed title trimmed, so every card created by `AddCard` and edited only through `Save` has a trimmed title. |
| CardModal.SaveKeepsTrimmed | src/components/CardModal.tsx:24 | Saving a card whose title is trimmed gives a card whose title is trimmed, whatever the form holds. |
| CardModal.SaveIdempotent | src/components/CardModal.tsx:16-30 | Re-saving a saved card without edits changes nothing, under the same condition on the original title. Otherwise a card titled " x " saved with a blank edit keeps " x ", and a second save turns it into "x". |
| BoardList.CreateBoard | src/components/BoardList.tsx:21-38 | A blank title is refused. Otherwise the existing boards are kept in order, and one board is appended with the fresh id, the trimmed title, the creation time and the fresh column ids. |
| BoardList.NewBoardColumns | src/components/BoardList.tsx:10-31 | A new board has exactly the columns "To Do", "In Progress" and "Done", in order, all empty. With distinct column ids it is well formed. |
| BoardList.DeleteBoard | src/components/BoardList.tsx:40-44 | The remaining boards are exactly those with another id, and there are no more of them than before. |
| BoardList.DeleteBoardConcat | src/components/BoardList.tsx:42 | Deleting distributes over concatenation, so the remaining boards keep their order. |
| BoardList.DeleteAfterCreate | src/components/BoardList.tsx:21-44 | Deleting a board just created under a fresh id gives back the original list. |
| Text.Trim | src/components/Board.tsx:147-151 | The result is a slice of the input. Everything cut off is whitespace, and the result has no whitespace at either end. |
| Text.BlankIffAllWhitespace | src/components/Board.tsx:147 | `!s.trim()` holds exactly when every character of `s` is whitespace. |
| Text.TrimIdempotent | src/components/Board.tsx:151 | Trimming twice is trimming once. |
| Seqs.ArrayMoveShifts | src/components/Board.tsx:123 | `arrayMove` keeps length and multiset and puts the moved element at the target index. Removing it there gives the source with the element removed at its original index. |
| Seqs.RemoveKeyMembers | src/components/Board.tsx:79 | Filtering by id keeps exactly the elements with another id. |
| Seqs.RemoveKeyUnique | src/components/Board.tsx:79 | With unique ids, filtering out the id at position i removes exactly position i. |

## Left out

- Persistence through `useLocalStorage`, React state, rendering and the
  dnd-kit sensors and collision detection are not part of this model. The
  handlers receive the hovered and dragged ids as parameters.
- `generateId()` and `new Date().toISOString()` are I/O. Their results are
  parameters (`freshId`, `columnIds`, `now`). Lemmas that need a fresh id
  require it.
- `handleDragStart` and `handleCardClick` only set UI state (the dragged
  card and the selected card and column). The selected column id is a
  parameter of `UpdateCard` and `DeleteCard`.
- Three deletions ask for confirmation with `confirm()` before calling
  their callback: `handleDelete` in CardModal.tsx, the column menu's delete
  button in Column.tsx (lines 123-128, which calls `onDeleteColumn`), and
  `handleDeleteBoard`. The model describes the confirmed path
  only. A cancelled dialog changes nothing.
- `onClose` in `handleSave`, and resetting the input fields after add or
  rename, only affect UI state.
- BoardOps.DragEnd: if two columns share the dragged card's column id,
  `arrayMove` is applied to both, with the indices taken from the first.
  The lemmas about drag-end assume unique column ids. What happens to the
  second column is described on the `BoardOps.MoveWithin` line below.
- BoardOps.MoveWithin: `arrayMove` first removes the element at `from`,
  then inserts it at `to`. When only `to` is past the end, the card moves
  to the end, and the model does the same. When `from` is past the end,
  JavaScript removes nothing and inserts `undefined`. A card cannot be
  undefined here, so the model leaves that column unchanged. A negative
  `to` cannot come from `findIndex` once -1 is excluded, and the model
  also leaves the column unchanged in that case.
- Strings are sequences of Unicode scalar values, not UTF-16 code units.
  `Trim` uses the ECMAScript WhiteSpace and LineTerminator code points.
- The page component `src/app/board/[id]/page.tsx` (loading a board,
  renaming it and writing it back) is not part of this model. The same
  holds for `Card.tsx`, for the date and priority display helpers in
  `src/lib/utils.ts`, and for the Electron main and preload scripts.
- The priority is an enumeration, so a value outside low, medium and high
  cannot be represented.
