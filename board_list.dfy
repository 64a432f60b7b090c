/**
 * The board collection page (src/components/BoardList.tsx): create a
 * board seeded with the default columns, and delete a board. Fresh ids
 * and the creation time are supplied by the caller.
 */
module BoardList {
  import opened Options
  import opened Seqs
  import opened Text
  import opened Kanban

  /** A column without its id, as listed in `DEFAULT_COLUMNS`. */
  datatype ColumnTemplate = ColumnTemplate(title: string, cards: seq<Card>)

  /** `DEFAULT_COLUMNS`: the columns every new board starts with. */
  const DefaultColumns: seq<ColumnTemplate> := [
    ColumnTemplate("To Do", []),
    ColumnTemplate("In Progress", []),
    ColumnTemplate("Done", [])
  ]

  /** `DEFAULT_COLUMNS.map(col => ({...col, id: generateId()}))`, with the generated ids given as `ids`. */
  function Instantiate(templates: seq<ColumnTemplate>, ids: seq<Id>): (r: seq<Column>)
    requires |ids| == |templates|
    ensures |r| == |templates| && ColumnIds(r) == ids
    ensures forall i :: 0 <= i < |r| ==> r[i].title == templates[i].title && r[i].cards == templates[i].cards
  {
    var r := seq(|templates|, i requires 0 <= i < |templates| => Column(ids[i], templates[i].title, templates[i].cards));
    assert ColumnIds(r) == ids;
    r
  }

  /**
   * `handleCreateBoard`: a blank title is refused; otherwise a board
   * with the fresh id, the trimmed title, the default columns under the
   * fresh column ids and the creation time `now` is appended, and every
   * existing board is kept, in order.
   */
  function CreateBoard(boards: seq<Board>, title: string, boardId: Id, columnIds: seq<Id>, now: string): (r: Option<seq<Board>>)
    requires |columnIds| == |DefaultColumns|
    ensures r.None? <==> AllWhitespace(title)
    ensures r.Some? ==> |r.value| == |boards| + 1 && r.value[..|boards|] == boards
    ensures r.Some? ==> var nb := r.value[|boards|];
              && nb.id == boardId && nb.createdAt == now
              && nb.title == Trim(title) && nb.title != [] && Trimmed(nb.title)
              && ColumnIds(nb.columns) == columnIds
  {
    BlankIffAllWhitespace(title);
    if IsBlank(title) then None
    else
      var nb := Board(boardId, Trim(title), Instantiate(DefaultColumns, columnIds), now);
      assert (boards + [nb])[..|boards|] == boards;
      Some(boards + [nb])
  }

  /** `handleDeleteBoard`: `boards.filter(board => board.id !== boardId)`. */
  function DeleteBoard(boards: seq<Board>, boardId: Id): (r: seq<Board>)
    ensures boardId !in Keys(r, BoardId) && |r| <= |boards|
    ensures forall x :: x in r <==> x in boards && x.id != boardId
  {
    RemoveKeyMembers(boards, BoardId, boardId);
    RemoveKey(boards, BoardId, boardId)
  }

  /**
   * A new board has exactly the three columns "To Do", "In Progress"
   * and "Done", in that order, each without cards; with distinct fresh
   * column ids it is well formed.
   */
  lemma NewBoardColumns(boards: seq<Board>, title: string, boardId: Id, columnIds: seq<Id>, now: string)
    requires |columnIds| == |DefaultColumns| && CreateBoard(boards, title, boardId, columnIds, now).Some?
    ensures var cols := CreateBoard(boards, title, boardId, columnIds, now).value[|boards|].columns;
            && |cols| == 3
            && cols[0].title == "To Do" && cols[1].title == "In Progress" && cols[2].title == "Done"
            && (forall i :: 0 <= i < 3 ==> cols[i].cards == [])
            && AllCards(cols) == []
            && (Distinct(columnIds) ==> WellFormed(cols))
  {
    var cols := CreateBoard(boards, title, boardId, columnIds, now).value[|boards|].columns;
    assert cols == Instantiate(DefaultColumns, columnIds);
    DefaultColumnsEmpty(columnIds);
  }

  lemma DefaultColumnsEmpty(columnIds: seq<Id>)
    requires |columnIds| == |DefaultColumns|
    ensures var cols := Instantiate(DefaultColumns, columnIds);
            && (forall i :: 0 <= i < 3 ==> cols[i].cards == [])
            && AllCards(cols) == []
            && (Distinct(columnIds) ==> WellFormed(cols))
  {
    var cols := Instantiate(DefaultColumns, columnIds);
    assert forall i :: 0 <= i < 3 ==> cols[i].cards == [] && CardIds(cols[i].cards) == [];
    assert AllCards(cols[2..]) == [];
    assert AllCards(cols[1..]) == [];
  }

  /** The filter distributes over concatenation, so deleting keeps the remaining boards in order. */
  lemma DeleteBoardConcat(xs: seq<Board>, ys: seq<Board>, boardId: Id)
    ensures DeleteBoard(xs + ys, boardId) == DeleteBoard(xs, boardId) + DeleteBoard(ys, boardId)
  {
    RemoveKeyConcat(xs, ys, BoardId, boardId);
  }

  /** Deleting a board id that no board has changes nothing. */
  lemma DeleteBoardAbsent(boards: seq<Board>, boardId: Id)
    requires boardId !in Keys(boards, BoardId)
    ensures DeleteBoard(boards, boardId) == boards
  {
    RemoveKeyAbsent(boards, BoardId, boardId);
  }

  /** Deleting a board just created under a fresh id gives back the collection as it was. */
  lemma DeleteAfterCreate(boards: seq<Board>, title: string, boardId: Id, columnIds: seq<Id>, now: string)
    requires |columnIds| == |DefaultColumns| && boardId !in Keys(boards, BoardId)
    requires CreateBoard(boards, title, boardId, columnIds, now).Some?
    ensures DeleteBoard(CreateBoard(boards, title, boardId, columnIds, now).value, boardId) == boards
  {
    var nb := CreateBoard(boards, title, boardId, columnIds, now).value[|boards|];
    assert CreateBoard(boards, title, boardId, columnIds, now).value == boards + [nb];
    DeleteBoardConcat(boards, [nb], boardId);
    DeleteBoardAbsent(boards, boardId);
    assert DeleteBoard([nb], boardId) == [];
  }
}
