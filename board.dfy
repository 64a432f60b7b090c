/**
 * The board component's handlers (src/components/Board.tsx): card
 * lookup, the drag-over and drag-end reorder, and column and card
 * create/update/delete. Each handler builds a new board from the
 * current one; `None` means the handler returned before calling
 * `onUpdateBoard`, `Some(b)` is the board it passed on.
 */
module BoardOps {
  import opened Options
  import opened Seqs
  import opened Text
  import opened Kanban

  // ----------------------------------------------------------------
  // Lookups
  // ----------------------------------------------------------------

  /** Index of the first column holding a card with id `cardId`, or -1. */
  function ColumnIndexOfCard(cols: seq<Column>, cardId: Id): (r: int)
    ensures -1 <= r < |cols|
    ensures r == -1 <==> forall i :: 0 <= i < |cols| ==> cardId !in CardIds(cols[i].cards)
    ensures 0 <= r ==> cardId in CardIds(cols[r].cards)
    ensures 0 <= r ==> forall i :: 0 <= i < r ==> cardId !in CardIds(cols[i].cards)
  {
    if |cols| == 0 then -1
    else if cardId in CardIds(cols[0].cards) then 0
    else
      var j := ColumnIndexOfCard(cols[1..], cardId);
      if j < 0 then -1 else j + 1
  }

  /** `findColumnByCardId`: the first column that holds a card with id `cardId`. */
  function FindColumnByCardId(cols: seq<Column>, cardId: Id): (r: Option<Column>)
    ensures r.None? <==> forall i :: 0 <= i < |cols| ==> cardId !in CardIds(cols[i].cards)
    ensures r.Some? ==> cardId in CardIds(r.value.cards)
    ensures r.Some? ==> exists i :: 0 <= i < |cols| && cols[i] == r.value
                          && forall j :: 0 <= j < i ==> cardId !in CardIds(cols[j].cards)
  {
    var i := ColumnIndexOfCard(cols, cardId);
    if i < 0 then None else Some(cols[i])
  }

  /** `board.columns.find(col => col.id === id)`. */
  function FindColumnById(cols: seq<Column>, id: Id): (r: Option<Column>)
    ensures r.None? <==> id !in ColumnIds(cols)
    ensures r.Some? ==> r.value.id == id && r.value in cols
  {
    var i := FindIndex(cols, ColumnId, id);
    if i < 0 then None else Some(cols[i])
  }

  /** `cards.find(c => c.id === id)`. */
  function FindCard(cards: seq<Card>, id: Id): (r: Option<Card>)
    ensures r.None? <==> id !in CardIds(cards)
    ensures r.Some? ==> r.value.id == id && r.value == cards[FindIndex(cards, CardId, id)]
  {
    var i := FindIndex(cards, CardId, id);
    if i < 0 then None else Some(cards[i])
  }

  /**
   * The drop target of a drag-over: the column owning the hovered card
   * if the hovered id is a card's, otherwise the column with that id.
   */
  function ResolveTarget(cols: seq<Column>, overId: Id): (r: Option<Column>)
    ensures FindColumnByCardId(cols, overId).Some? ==> r == FindColumnByCardId(cols, overId)
    ensures FindColumnByCardId(cols, overId).None? ==> r == FindColumnById(cols, overId)
    ensures r.None? <==> (forall i :: 0 <= i < |cols| ==> overId !in CardIds(cols[i].cards)) && overId !in ColumnIds(cols)
  {
    match FindColumnByCardId(cols, overId)
    case Some(c) => Some(c)
    case None => FindColumnById(cols, overId)
  }

  /** Index of the drop target of a drag-over, or -1 (the index form of `ResolveTarget`). */
  function TargetIndex(cols: seq<Column>, overId: Id): (r: int)
    ensures -1 <= r < |cols|
    ensures r == -1 <==> ResolveTarget(cols, overId).None?
    ensures 0 <= r ==> ResolveTarget(cols, overId) == Some(cols[r])
  {
    var c := ColumnIndexOfCard(cols, overId);
    if c >= 0 then c else FindIndex(cols, ColumnId, overId)
  }

  // ----------------------------------------------------------------
  // Drag over: move a card across columns
  // ----------------------------------------------------------------

  /**
   * The target column's new cards: `card` is spliced in just before the
   * hovered card, or pushed at the end when no card of this column is
   * hovered.
   */
  function InsertBefore(cards: seq<Card>, overId: Id, card: Card): (r: seq<Card>)
    ensures multiset(r) == multiset(cards) + multiset{card}
    ensures forall y :: y in CardIds(r) <==> y in CardIds(cards) || y == card.id
    ensures card.id !in CardIds(cards) && Distinct(CardIds(cards)) ==> Distinct(CardIds(r))
    ensures overId in CardIds(cards) ==> r == InsertAt(cards, FindIndex(cards, CardId, overId), card)
    ensures overId !in CardIds(cards) ==> r == cards + [card]
  {
    var k := FindIndex(cards, CardId, overId);
    var r := if k >= 0 then InsertAt(cards, k, card) else cards + [card];
    InsertAtKeys(cards, if k >= 0 then k else |cards|, card, CardId);
    assert r == InsertAt(cards, if k >= 0 then k else |cards|, card);
    r
  }

  /** What the drag-over `map` does to one column. */
  function MoveAcross(col: Column, sourceId: Id, targetId: Id, activeId: Id, overId: Id, card: Card): (r: Column)
    ensures r.id == col.id && r.title == col.title
  {
    if col.id == sourceId then col.(cards := RemoveKey(col.cards, CardId, activeId))
    else if col.id == targetId then col.(cards := InsertBefore(col.cards, overId, card))
    else col
  }

  /**
   * `handleDragOver`: when the pointer is over a card or column of
   * another column than the dragged card's, move the card there. It
   * does nothing when nothing is hovered, when either column cannot be
   * found, or when both are the same column. Any move keeps the board's
   * id, title, creation time and its columns' order, ids and titles.
   */
  function DragOver(b: Board, activeId: Id, over: Option<Id>): (r: Option<Board>)
    ensures r.None? <==>
      || over.None?
      || FindColumnByCardId(b.columns, activeId).None?
      || ResolveTarget(b.columns, over.value).None?
      || FindColumnByCardId(b.columns, activeId).value.id == ResolveTarget(b.columns, over.value).value.id
    ensures r.Some? ==> r.value.id == b.id && r.value.title == b.title && r.value.createdAt == b.createdAt
    ensures r.Some? ==> ColumnIds(r.value.columns) == ColumnIds(b.columns)
    ensures r.Some? ==> forall i :: 0 <= i < |b.columns| ==> r.value.columns[i].title == b.columns[i].title
  {
    if over.None? then None
    else
      var cols := b.columns;
      var overId := over.value;
      var activeColumn := FindColumnByCardId(cols, activeId);
      var overColumn := ResolveTarget(cols, overId);
      if activeColumn.None? || overColumn.None? || activeColumn.value.id == overColumn.value.id then None
      else
        match FindCard(activeColumn.value.cards, activeId)
        case None => None
        case Some(card) =>
          var moved := seq(|cols|, i requires 0 <= i < |cols| =>
            MoveAcross(cols[i], activeColumn.value.id, overColumn.value.id, activeId, overId, card));
          assert ColumnIds(moved) == ColumnIds(cols);
          Some(b.(columns := moved))
  }

  // ----------------------------------------------------------------
  // Drag end: reorder inside one column
  // ----------------------------------------------------------------

  /**
   * `arrayMove(col.cards, activeIndex, overIndex)` applied to a column
   * with the active column's id: the card at `from` is taken out and
   * put back at `to`, or at the end when `to` is past the end (`splice`
   * clamps its index). The indices come from the active column itself;
   * for another column sharing its id, `from` may be past the end, where
   * JavaScript would insert `undefined`, and that column is then left as
   * it is.
   */
  function MoveWithin(cards: seq<Card>, from: int, to: int): (r: seq<Card>)
    ensures multiset(r) == multiset(cards)
    ensures 0 <= from < |cards| && 0 <= to < |cards| ==> r == ArrayMove(cards, from, to)
    ensures 0 <= from < |cards| && |cards| <= to ==> r == RemoveAt(cards, from) + [cards[from]]
    ensures !(0 <= from < |cards|) || to < 0 ==> r == cards
  {
    if 0 <= from < |cards| && 0 <= to then
      var t := if to < |cards| then to else |cards| - 1;
      ArrayMoveShifts(cards, from, t);
      assert to >= |cards| ==> ArrayMove(cards, from, t) == RemoveAt(cards, from) + [cards[from]];
      ArrayMove(cards, from, t)
    else cards
  }

  /**
   * `handleDragEnd`: when the card is dropped on another card of its
   * own column, move it to that card's position. It does nothing when
   * nothing is hovered, when the hovered id is the dragged card's own,
   * when the dragged card is on no column, or when the hovered card is
   * not in the dragged card's column.
   */
  function DragEnd(b: Board, activeId: Id, over: Option<Id>): (r: Option<Board>)
    ensures r.None? <==>
      || over.None?
      || over.value == activeId
      || FindColumnByCardId(b.columns, activeId).None?
      || over.value !in CardIds(FindColumnByCardId(b.columns, activeId).value.cards)
    ensures r.Some? ==> r.value.id == b.id && r.value.title == b.title && r.value.createdAt == b.createdAt
    ensures r.Some? ==> ColumnIds(r.value.columns) == ColumnIds(b.columns)
    ensures r.Some? ==> forall i :: 0 <= i < |b.columns| ==>
              r.value.columns[i].title == b.columns[i].title
              && multiset(r.value.columns[i].cards) == multiset(b.columns[i].cards)
  {
    if over.None? || over.value == activeId then None
    else
      var cols := b.columns;
      match FindColumnByCardId(cols, activeId)
      case None => None
      case Some(activeColumn) =>
        var from := FindIndex(activeColumn.cards, CardId, activeId);
        var to := FindIndex(activeColumn.cards, CardId, over.value);
        if from == -1 || to == -1 then None
        else
          Some(b.(columns := ReorderColumn(cols, activeColumn.id, from, to)))
  }

  /** The drag-end `map`: the columns with id `columnId` have their card `from` moved to index `to`. */
  function ReorderColumn(cols: seq<Column>, columnId: Id, from: int, to: int): (r: seq<Column>)
    ensures |r| == |cols| && ColumnIds(r) == ColumnIds(cols)
    ensures forall i :: 0 <= i < |cols| ==>
              r[i].title == cols[i].title && multiset(r[i].cards) == multiset(cols[i].cards)
  {
    var moved := seq(|cols|, i requires 0 <= i < |cols| =>
      if cols[i].id == columnId then cols[i].(cards := MoveWithin(cols[i].cards, from, to)) else cols[i]);
    assert ColumnIds(moved) == ColumnIds(cols);
    moved
  }

  // ----------------------------------------------------------------
  // Column and card create/update/delete
  // ----------------------------------------------------------------

  /** `handleUpdateColumn`: every column with the updated column's id is replaced by it. */
  function UpdateColumn(b: Board, updated: Column): (r: Board)
    ensures r.id == b.id && r.title == b.title && r.createdAt == b.createdAt
    ensures |r.columns| == |b.columns|
    ensures forall i :: 0 <= i < |b.columns| ==>
              r.columns[i] == if b.columns[i].id == updated.id then updated else b.columns[i]
    ensures updated.id !in ColumnIds(b.columns) ==> r == b
  {
    var cols := b.columns;
    var r := b.(columns := seq(|cols|, i requires 0 <= i < |cols| => if cols[i].id == updated.id then updated else cols[i]));
    assert updated.id !in ColumnIds(cols) ==> r.columns == cols;
    r
  }

  /** `handleDeleteColumn`: drop the column with that id, and its cards with it. */
  function DeleteColumn(b: Board, columnId: Id): (r: Board)
    ensures r.id == b.id && r.title == b.title && r.createdAt == b.createdAt
    ensures columnId !in ColumnIds(r.columns)
    ensures forall c :: c in r.columns <==> c in b.columns && c.id != columnId
  {
    RemoveKeyMembers(b.columns, ColumnId, columnId);
    b.(columns := RemoveKey(b.columns, ColumnId, columnId))
  }

  /**
   * `handleAddColumn`: a blank title is refused; otherwise one empty
   * column with the trimmed title and the fresh id is appended.
   */
  function AddColumn(b: Board, title: string, freshId: Id): (r: Option<Board>)
    ensures r.None? <==> AllWhitespace(title)
    ensures r.Some? ==> r.value.id == b.id && r.value.title == b.title && r.value.createdAt == b.createdAt
    ensures r.Some? ==> |r.value.columns| == |b.columns| + 1 && r.value.columns[..|b.columns|] == b.columns
    ensures r.Some? ==> var c := r.value.columns[|b.columns|];
              c.id == freshId && c.cards == [] && c.title == Trim(title) && c.title != [] && Trimmed(c.title)
  {
    BlankIffAllWhitespace(title);
    if IsBlank(title) then None
    else Some(b.(columns := b.columns + [Column(freshId, Trim(title), [])]))
  }

  /** A column id is selected: JavaScript `!selectedColumnId` is true for `null` and for `""`. */
  predicate IsSelected(selected: Option<Id>) {
    selected.Some? && selected.value != ""
  }

  /** `col.cards.map(card => card.id === updated.id ? updated : card)`. */
  function ReplaceCard(cards: seq<Card>, updated: Card): (r: seq<Card>)
    ensures |r| == |cards| && CardIds(r) == CardIds(cards)
    ensures forall j :: 0 <= j < |cards| ==> r[j] == if cards[j].id == updated.id then updated else cards[j]
    ensures updated.id !in CardIds(cards) ==> r == cards
  {
    var r := seq(|cards|, j requires 0 <= j < |cards| => if cards[j].id == updated.id then updated else cards[j]);
    assert CardIds(r) == CardIds(cards);
    r
  }

  /**
   * `handleUpdateCard`: inside the selected column, the card with the
   * edited card's id is replaced by it. Nothing happens when no column
   * is selected.
   */
  function UpdateCard(b: Board, selected: Option<Id>, updated: Card): (r: Option<Board>)
    ensures r.None? <==> !IsSelected(selected)
    ensures r.Some? ==> r.value.id == b.id && r.value.title == b.title && r.value.createdAt == b.createdAt
    ensures r.Some? ==> |r.value.columns| == |b.columns| && forall i :: 0 <= i < |b.columns| ==>
              r.value.columns[i] == if b.columns[i].id == selected.value
                                    then b.columns[i].(cards := ReplaceCard(b.columns[i].cards, updated))
                                    else b.columns[i]
  {
    if !IsSelected(selected) then None
    else
      var cols := b.columns;
      Some(b.(columns := seq(|cols|, i requires 0 <= i < |cols| =>
        if cols[i].id == selected.value then cols[i].(cards := ReplaceCard(cols[i].cards, updated)) else cols[i])))
  }

  /**
   * `handleDeleteCard`: inside the selected column, drop the card with
   * that id. Nothing happens when no column is selected.
   */
  function DeleteCard(b: Board, selected: Option<Id>, cardId: Id): (r: Option<Board>)
    ensures r.None? <==> !IsSelected(selected)
    ensures r.Some? ==> r.value.id == b.id && r.value.title == b.title && r.value.createdAt == b.createdAt
    ensures r.Some? ==> |r.value.columns| == |b.columns| && forall i :: 0 <= i < |b.columns| ==>
              r.value.columns[i] == if b.columns[i].id == selected.value
                                    then b.columns[i].(cards := RemoveKey(b.columns[i].cards, CardId, cardId))
                                    else b.columns[i]
  {
    if !IsSelected(selected) then None
    else
      var cols := b.columns;
      Some(b.(columns := seq(|cols|, i requires 0 <= i < |cols| =>
        if cols[i].id == selected.value then cols[i].(cards := RemoveKey(cols[i].cards, CardId, cardId)) else cols[i])))
  }

  // ----------------------------------------------------------------
  // Properties of the drag handlers
  // ----------------------------------------------------------------

  /** With unique column ids, a column id picks out one position. */
  lemma ColumnAt(cols: seq<Column>, i: nat, j: nat)
    requires Distinct(ColumnIds(cols)) && i < |cols| && j < |cols|
    ensures cols[i].id == cols[j].id <==> i == j
  {
    if i != j {
      if i < j { assert ColumnIds(cols)[i] != ColumnIds(cols)[j]; }
      else { assert ColumnIds(cols)[j] != ColumnIds(cols)[i]; }
    }
  }

  /**
   * With unique column ids, a drag-over changes the board exactly when
   * the dragged card is on a column `a`, the hovered id resolves to a
   * column `t`, and the two differ.
   */
  lemma DragOverApplies(b: Board, activeId: Id, overId: Id)
    requires Distinct(ColumnIds(b.columns))
    ensures var a := ColumnIndexOfCard(b.columns, activeId);
            var t := TargetIndex(b.columns, overId);
            DragOver(b, activeId, Some(overId)).Some? <==> 0 <= a && 0 <= t && a != t
  {
    var cols := b.columns;
    var a := ColumnIndexOfCard(cols, activeId);
    var t := TargetIndex(cols, overId);
    if 0 <= a && 0 <= t {
      ColumnAt(cols, a, t);
      assert FindColumnByCardId(cols, activeId) == Some(cols[a]);
    }
  }

  /** What a drag-over that applies does to each column, by position. */
  lemma DragOverEach(b: Board, activeId: Id, overId: Id)
    requires Distinct(ColumnIds(b.columns)) && DragOver(b, activeId, Some(overId)).Some?
    ensures var cols := b.columns;
            var a := ColumnIndexOfCard(cols, activeId);
            var t := TargetIndex(cols, overId);
            var r := DragOver(b, activeId, Some(overId)).value.columns;
            && 0 <= a && 0 <= t && a != t
            && 0 <= FindIndex(cols[a].cards, CardId, activeId)
            && |r| == |cols|
            && forall i :: 0 <= i < |cols| ==>
                 r[i] == MoveAcross(cols[i], cols[a].id, cols[t].id, activeId, overId,
                                    cols[a].cards[FindIndex(cols[a].cards, CardId, activeId)])
  {
    DragOverApplies(b, activeId, overId);
    var cols := b.columns;
    var a := ColumnIndexOfCard(cols, activeId);
    assert FindColumnByCardId(cols, activeId) == Some(cols[a]);
  }

  /**
   * On a well-formed board a drag-over moves the dragged card out of
   * the column `a` that holds it and into the target column `t`: just
   * before the hovered card when a card of `t` is hovered, at the end
   * when `t` itself is hovered. Every other column is returned as it was.
   */
  lemma DragOverMoves(b: Board, activeId: Id, overId: Id)
    requires WellFormed(b.columns) && DragOver(b, activeId, Some(overId)).Some?
    ensures var cols := b.columns;
            var a := ColumnIndexOfCard(cols, activeId);
            var t := TargetIndex(cols, overId);
            var r := DragOver(b, activeId, Some(overId)).value.columns;
            && 0 <= a && 0 <= t && a != t && |r| == |cols|
            && var k := FindIndex(cols[a].cards, CardId, activeId);
               var card := cols[a].cards[k];
               && 0 <= k && card.id == activeId
               && r[a] == cols[a].(cards := RemoveAt(cols[a].cards, k))
               && r[t] == cols[t].(cards := InsertBefore(cols[t].cards, overId, card))
               && (overId in CardIds(cols[t].cards) ==>
                     r[t].cards == InsertAt(cols[t].cards, FindIndex(cols[t].cards, CardId, overId), card))
               && (overId !in CardIds(cols[t].cards) ==>
                     cols[t].id == overId && r[t].cards == cols[t].cards + [card])
               && (forall i :: 0 <= i < |cols| && i != a && i != t ==> r[i] == cols[i])
  {
    DragOverEach(b, activeId, overId);
    var cols := b.columns;
    var r := DragOver(b, activeId, Some(overId)).value.columns;
    var a := ColumnIndexOfCard(cols, activeId);
    var t := TargetIndex(cols, overId);
    var k := FindIndex(cols[a].cards, CardId, activeId);
    var card := cols[a].cards[k];
    ColumnAt(cols, a, t);
    assert r[a] == MoveAcross(cols[a], cols[a].id, cols[t].id, activeId, overId, card);
    RemoveKeyUnique(cols[a].cards, CardId, k);
    assert r[t] == MoveAcross(cols[t], cols[a].id, cols[t].id, activeId, overId, card);
    forall i | 0 <= i < |cols| && i != a && i != t ensures r[i] == cols[i] {
      ColumnAt(cols, i, a);
      ColumnAt(cols, i, t);
      assert r[i] == MoveAcross(cols[i], cols[a].id, cols[t].id, activeId, overId, card);
    }
    if overId !in CardIds(cols[t].cards) {
      assert ColumnIndexOfCard(cols, overId) < 0;
    }
  }

  /**
   * Moving `card` from column `a` into column `t`,
   * leaving the other columns alone, keeps the multiset of all cards.
   */
  lemma MoveConserves(cols: seq<Column>, r: seq<Column>, a: nat, t: nat, card: Card)
    requires a < |cols| && t < |cols| && a != t && |r| == |cols|
    requires multiset(r[a].cards) + multiset{card} == multiset(cols[a].cards)
    requires multiset(r[t].cards) == multiset(cols[t].cards) + multiset{card}
    requires forall i :: 0 <= i < |cols| && i != a && i != t ==> r[i] == cols[i]
    ensures multiset(AllCards(r)) == multiset(AllCards(cols))
  {
    var mid := cols[a := r[a]];
    assert r == mid[t := r[t]];
    AllCardsUpdate(cols, a, r[a]);
    AllCardsUpdate(mid, t, r[t]);
    var m0, m1, m2 := multiset(AllCards(cols)), multiset(AllCards(mid)), multiset(AllCards(r));
    var ca, ra := multiset(cols[a].cards), multiset(r[a].cards);
    var ct, rt := multiset(cols[t].cards), multiset(r[t].cards);
    assert m1 + ca == m0 + ra;
    assert m2 + ct == m1 + rt;
    forall x ensures m2[x] == m0[x] {
      assert (m1 + ca)[x] == (m0 + ra)[x];
      assert (m2 + ct)[x] == (m1 + rt)[x];
      assert (ra + multiset{card})[x] == ca[x];
      assert rt[x] == (ct + multiset{card})[x];
    }
    assert m2 == m0;
  }

  /**
   * Moving the card with id `moved` out of column `a` (its only column)
   * into column `t`, leaving the other columns alone, keeps the board
   * well formed.
   */
  lemma MoveKeepsWellFormed(cols: seq<Column>, r: seq<Column>, a: nat, t: nat, moved: Id)
    requires WellFormed(cols) && a < |cols| && t < |cols| && a != t && |r| == |cols|
    requires moved in CardIds(cols[a].cards)
    requires forall i :: 0 <= i < |cols| ==> r[i].id == cols[i].id && Distinct(CardIds(r[i].cards))
    requires forall y :: y in CardIds(r[a].cards) ==> y in CardIds(cols[a].cards) && y != moved
    requires forall y :: y in CardIds(r[t].cards) ==> y in CardIds(cols[t].cards) || y == moved
    requires forall i :: 0 <= i < |cols| && i != a && i != t ==> r[i] == cols[i]
    ensures WellFormed(r)
  {
    assert ColumnIds(r) == ColumnIds(cols);
    forall i, j, x | 0 <= i < |r| && 0 <= j < |r| && i != j && x in CardIds(r[i].cards)
      ensures x !in CardIds(r[j].cards)
    {
      if x == moved {
        assert i == t;
      }
    }
  }

  /** A drag-over on a well-formed board neither loses nor duplicates a card. */
  lemma DragOverConserves(b: Board, activeId: Id, overId: Id)
    requires WellFormed(b.columns) && DragOver(b, activeId, Some(overId)).Some?
    ensures var r := DragOver(b, activeId, Some(overId)).value;
            && multiset(AllCards(r.columns)) == multiset(AllCards(b.columns))
            && |AllCards(r.columns)| == |AllCards(b.columns)|
  {
    DragOverMoves(b, activeId, overId);
    var cols := b.columns;
    var a := ColumnIndexOfCard(cols, activeId);
    var t := TargetIndex(cols, overId);
    var k := FindIndex(cols[a].cards, CardId, activeId);
    var r := DragOver(b, activeId, Some(overId)).value.columns;
    MoveConserves(cols, r, a, t, cols[a].cards[k]);
    assert |multiset(AllCards(r))| == |AllCards(r)|;
    assert |multiset(AllCards(cols))| == |AllCards(cols)|;
  }

  /** A drag-over keeps a well-formed board well formed: the moved card is in exactly one column. */
  lemma DragOverKeepsWellFormed(b: Board, activeId: Id, overId: Id)
    requires WellFormed(b.columns) && DragOver(b, activeId, Some(overId)).Some?
    ensures WellFormed(DragOver(b, activeId, Some(overId)).value.columns)
  {
    DragOverMoves(b, activeId, overId);
    var cols := b.columns;
    var r := DragOver(b, activeId, Some(overId)).value.columns;
    var a := ColumnIndexOfCard(cols, activeId);
    var t := TargetIndex(cols, overId);
    var k := FindIndex(cols[a].cards, CardId, activeId);
    MoveCardKeepsWellFormed(cols, r, a, t, k, overId);
  }

  /** The column-level step of `DragOverKeepsWellFormed`: card `k` of column `a` moves into column `t`. */
  lemma MoveCardKeepsWellFormed(cols: seq<Column>, r: seq<Column>, a: nat, t: nat, k: nat, overId: Id)
    requires WellFormed(cols) && a < |cols| && t < |cols| && a != t && |r| == |cols| && k < |cols[a].cards|
    requires r[a] == cols[a].(cards := RemoveAt(cols[a].cards, k))
    requires r[t] == cols[t].(cards := InsertBefore(cols[t].cards, overId, cols[a].cards[k]))
    requires forall i :: 0 <= i < |cols| && i != a && i != t ==> r[i] == cols[i]
    ensures WellFormed(r)
  {
    var card := cols[a].cards[k];
    assert CardIds(cols[a].cards)[k] == card.id;
    RemoveAtKeys(cols[a].cards, k, CardId);
    assert card.id !in CardIds(cols[t].cards);
    assert Distinct(CardIds(r[t].cards));
    forall i | 0 <= i < |cols| ensures r[i].id == cols[i].id && Distinct(CardIds(r[i].cards)) {
    }
    MoveKeepsWellFormed(cols, r, a, t, card.id);
  }

  /**
   * On a board with unique column ids a drag-end reorders only the
   * dragged card's column `a`: the card moves from its index `from` to
   * the hovered card's former index `to`, the other cards keep their
   * relative order, and every other column is returned as it was.
   */
  lemma DragEndReorders(b: Board, activeId: Id, overId: Id)
    requires Distinct(ColumnIds(b.columns)) && DragEnd(b, activeId, Some(overId)).Some?
    ensures var cols := b.columns;
            var r := DragEnd(b, activeId, Some(overId)).value.columns;
            var a := ColumnIndexOfCard(cols, activeId);
            var from := FindIndex(cols[a].cards, CardId, activeId);
            var to := FindIndex(cols[a].cards, CardId, overId);
            && 0 <= a && 0 <= from && 0 <= to && from != to
            && cols[a].cards[to].id == overId
            && r[a] == cols[a].(cards := ArrayMove(cols[a].cards, from, to))
            && r[a].cards[to] == cols[a].cards[from]
            && RemoveAt(r[a].cards, to) == RemoveAt(cols[a].cards, from)
            && multiset(r[a].cards) == multiset(cols[a].cards)
            && (forall i :: 0 <= i < |cols| && i != a ==> r[i] == cols[i])
  {
    var cols := b.columns;
    var a := ColumnIndexOfCard(cols, activeId);
    assert FindColumnByCardId(cols, activeId) == Some(cols[a]);
    var from := FindIndex(cols[a].cards, CardId, activeId);
    var to := FindIndex(cols[a].cards, CardId, overId);
    ArrayMoveShifts(cols[a].cards, from, to);
    forall i | 0 <= i < |cols| && i != a ensures DragEnd(b, activeId, Some(overId)).value.columns[i] == cols[i] {
      ColumnAt(cols, i, a);
    }
  }

  /** The multiset of all cards depends only on each column's multiset of cards. */
  lemma {:induction false} AllCardsPermuted(xs: seq<Column>, ys: seq<Column>)
    requires |xs| == |ys|
    requires forall i :: 0 <= i < |xs| ==> multiset(ys[i].cards) == multiset(xs[i].cards)
    ensures multiset(AllCards(ys)) == multiset(AllCards(xs))
  {
    if |xs| > 0 {
      AllCardsPermuted(xs[1..], ys[1..]);
    }
  }

  /** A drag-end neither loses nor duplicates a card, and keeps a well-formed board well formed. */
  lemma DragEndConserves(b: Board, activeId: Id, overId: Id)
    requires WellFormed(b.columns) && DragEnd(b, activeId, Some(overId)).Some?
    ensures var r := DragEnd(b, activeId, Some(overId)).value.columns;
            && multiset(AllCards(r)) == multiset(AllCards(b.columns))
            && |AllCards(r)| == |AllCards(b.columns)|
            && WellFormed(r)
  {
    var cols := b.columns;
    var r := DragEnd(b, activeId, Some(overId)).value.columns;
    DragEndReorders(b, activeId, overId);
    var a := ColumnIndexOfCard(cols, activeId);
    var from := FindIndex(cols[a].cards, CardId, activeId);
    var to := FindIndex(cols[a].cards, CardId, overId);
    ArrayMoveKeys(cols[a].cards, from, to, CardId);
    ReorderKeepsBoard(cols, r, a);
  }

  /** Permuting one column's cards (with the same ids, still distinct) keeps the cards and the invariants. */
  lemma ReorderKeepsBoard(cols: seq<Column>, r: seq<Column>, a: nat)
    requires WellFormed(cols) && a < |cols| && |r| == |cols|
    requires r[a].id == cols[a].id && multiset(r[a].cards) == multiset(cols[a].cards)
    requires Distinct(CardIds(r[a].cards))
    requires forall y :: y in CardIds(r[a].cards) ==> y in CardIds(cols[a].cards)
    requires forall i :: 0 <= i < |cols| && i != a ==> r[i] == cols[i]
    ensures multiset(AllCards(r)) == multiset(AllCards(cols)) && |AllCards(r)| == |AllCards(cols)|
    ensures WellFormed(r)
  {
    forall i | 0 <= i < |cols| ensures multiset(r[i].cards) == multiset(cols[i].cards) {
      if i != a { assert r[i] == cols[i]; }
    }
    AllCardsPermuted(cols, r);
    assert |multiset(AllCards(r))| == |AllCards(r)|;
    forall i | 0 <= i < |cols| ensures r[i].id == cols[i].id && Distinct(CardIds(r[i].cards)) {
      if i != a { assert r[i] == cols[i]; }
    }
    forall i, y | 0 <= i < |cols| && y in CardIds(r[i].cards) ensures y in CardIds(cols[i].cards) {
      if i != a { assert r[i] == cols[i]; }
    }
    WellFormedPointwise(cols, r);
  }

  // ----------------------------------------------------------------
  // Properties of column and card create/update/delete
  // ----------------------------------------------------------------

  /** With unique column ids, updating a column replaces exactly the one column with its id. */
  lemma UpdateColumnReplacesOne(b: Board, k: nat, updated: Column)
    requires Distinct(ColumnIds(b.columns)) && k < |b.columns| && updated.id == b.columns[k].id
    ensures UpdateColumn(b, updated).columns == b.columns[k := updated]
  {
    forall i | 0 <= i < |b.columns| ensures UpdateColumn(b, updated).columns[i] == b.columns[k := updated][i] {
      ColumnAt(b.columns, i, k);
    }
  }

  /** Deleting a column whose id no column has changes nothing. */
  lemma DeleteColumnAbsent(b: Board, columnId: Id)
    requires columnId !in ColumnIds(b.columns)
    ensures DeleteColumn(b, columnId) == b
  {
    RemoveKeyAbsent(b.columns, ColumnId, columnId);
  }

  /**
   * With unique column ids, deleting column `k` removes exactly that
   * column, keeps the others in order, and removes exactly its cards
   * from the board.
   */
  lemma DeleteColumnRemovesOne(b: Board, k: nat)
    requires Distinct(ColumnIds(b.columns)) && k < |b.columns|
    ensures DeleteColumn(b, b.columns[k].id).columns == RemoveAt(b.columns, k)
    ensures multiset(AllCards(DeleteColumn(b, b.columns[k].id).columns)) + multiset(b.columns[k].cards)
            == multiset(AllCards(b.columns))
    ensures |AllCards(DeleteColumn(b, b.columns[k].id).columns)| == |AllCards(b.columns)| - |b.columns[k].cards|
  {
    RemoveKeyUnique(b.columns, ColumnId, k);
    var r := RemoveAt(b.columns, k);
    AllCardsRemoveAt(b.columns, k);
    assert |multiset(AllCards(r)) + multiset(b.columns[k].cards)| == |AllCards(r)| + |b.columns[k].cards|;
  }

  /** Deleting a column keeps a well-formed board well formed. */
  lemma DeleteColumnKeepsWellFormed(b: Board, columnId: Id)
    requires WellFormed(b.columns)
    ensures WellFormed(DeleteColumn(b, columnId).columns)
  {
    var k := FindIndex(b.columns, ColumnId, columnId);
    if k < 0 {
      DeleteColumnAbsent(b, columnId);
    } else {
      DeleteColumnRemovesOne(b, k);
      WellFormedRemoveAt(b.columns, k);
    }
  }

  /** Adding a column under a fresh id keeps every card, and keeps a well-formed board well formed. */
  lemma AddColumnKeepsWellFormed(b: Board, title: string, freshId: Id)
    requires WellFormed(b.columns) && freshId !in ColumnIds(b.columns) && AddColumn(b, title, freshId).Some?
    ensures AllCards(AddColumn(b, title, freshId).value.columns) == AllCards(b.columns)
    ensures WellFormed(AddColumn(b, title, freshId).value.columns)
  {
    AllCardsAppend(b.columns, Column(freshId, Trim(title), []));
    var cols := b.columns;
    var r := AddColumn(b, title, freshId).value.columns;
    assert r == cols + [Column(freshId, Trim(title), [])];
    WellFormedAppendEmpty(cols, Column(freshId, Trim(title), []));
  }

  /** Deleting a column just added under a fresh id gives back the board as it was. */
  lemma DeleteAfterAddColumn(b: Board, title: string, freshId: Id)
    requires freshId !in ColumnIds(b.columns) && AddColumn(b, title, freshId).Some?
    ensures DeleteColumn(AddColumn(b, title, freshId).value, freshId) == b
  {
    var added := Column(freshId, Trim(title), []);
    RemoveKeyConcat(b.columns, [added], ColumnId, freshId);
    RemoveKeyAbsent(b.columns, ColumnId, freshId);
    assert RemoveKey([added], ColumnId, freshId) == [];
  }

  /** Updating a card keeps every column's card ids, and so a well-formed board well formed. */
  lemma UpdateCardKeepsWellFormed(b: Board, selected: Option<Id>, updated: Card)
    requires WellFormed(b.columns) && UpdateCard(b, selected, updated).Some?
    ensures var r := UpdateCard(b, selected, updated).value.columns;
            && (forall i :: 0 <= i < |b.columns| ==> CardIds(r[i].cards) == CardIds(b.columns[i].cards))
            && WellFormed(r)
  {
    WellFormedPointwise(b.columns, UpdateCard(b, selected, updated).value.columns);
  }

  /**
   * On a well-formed board, saving an edit of card `j` of the selected
   * column `k` replaces exactly that card and nothing else.
   */
  lemma UpdateCardReplacesOne(b: Board, k: nat, j: nat, updated: Card)
    requires WellFormed(b.columns) && k < |b.columns| && j < |b.columns[k].cards| && b.columns[k].id != ""
    requires updated.id == b.columns[k].cards[j].id
    ensures var cols := b.columns;
            UpdateCard(b, Some(cols[k].id), updated)
              == Some(b.(columns := cols[k := cols[k].(cards := cols[k].cards[j := updated])]))
  {
    var cols := b.columns;
    var nk := cols[k].(cards := cols[k].cards[j := updated]);
    var ids := CardIds(cols[k].cards);
    forall j' | 0 <= j' < |cols[k].cards| ensures ReplaceCard(cols[k].cards, updated)[j'] == nk.cards[j'] {
      assert ids[j'] == cols[k].cards[j'].id && ids[j] == updated.id;
    }
    assert ReplaceCard(cols[k].cards, updated) == nk.cards;
    var r := UpdateCard(b, Some(cols[k].id), updated).value.columns;
    forall i | 0 <= i < |cols| ensures r[i] == cols[k := nk][i] {
      ColumnAt(cols, i, k);
    }
    assert r == cols[k := nk];
  }

  /** Updating a card that the selected column does not hold changes nothing. */
  lemma UpdateCardAbsent(b: Board, selected: Option<Id>, updated: Card)
    requires IsSelected(selected)
    requires forall i :: 0 <= i < |b.columns| && b.columns[i].id == selected.value ==> updated.id !in CardIds(b.columns[i].cards)
    ensures UpdateCard(b, selected, updated) == Some(b)
  {
    assert UpdateCard(b, selected, updated).value.columns == b.columns;
  }

  /** Deleting a card keeps a well-formed board well formed. */
  lemma DeleteCardKeepsWellFormed(b: Board, selected: Option<Id>, cardId: Id)
    requires WellFormed(b.columns) && DeleteCard(b, selected, cardId).Some?
    ensures WellFormed(DeleteCard(b, selected, cardId).value.columns)
  {
    var r := DeleteCard(b, selected, cardId).value.columns;
    forall i | 0 <= i < |b.columns| ensures Distinct(CardIds(r[i].cards)) {
      RemoveKeyDistinct(b.columns[i].cards, CardId, cardId);
    }
    WellFormedPointwise(b.columns, r);
  }

  /** Deleting a card that the selected column does not hold changes nothing. */
  lemma DeleteCardAbsent(b: Board, selected: Option<Id>, cardId: Id)
    requires IsSelected(selected)
    requires forall i :: 0 <= i < |b.columns| && b.columns[i].id == selected.value ==> cardId !in CardIds(b.columns[i].cards)
    ensures DeleteCard(b, selected, cardId) == Some(b)
  {
    forall i | 0 <= i < |b.columns| && b.columns[i].id == selected.value {
      RemoveKeyAbsent(b.columns[i].cards, CardId, cardId);
    }
    assert DeleteCard(b, selected, cardId).value.columns == b.columns;
  }

  /**
   * On a well-formed board, deleting card `j` of the selected column `k`
   * removes exactly that card: the board holds one card fewer.
   */
  lemma DeleteCardRemovesOne(b: Board, k: nat, j: nat)
    requires WellFormed(b.columns) && k < |b.columns| && j < |b.columns[k].cards| && b.columns[k].id != ""
    ensures var cols := b.columns;
            var r := DeleteCard(b, Some(cols[k].id), cols[k].cards[j].id);
            && r == Some(b.(columns := cols[k := cols[k].(cards := RemoveAt(cols[k].cards, j))]))
            && multiset(AllCards(r.value.columns)) + multiset{cols[k].cards[j]} == multiset(AllCards(cols))
            && |AllCards(r.value.columns)| + 1 == |AllCards(cols)|
  {
    var cols := b.columns;
    var card := cols[k].cards[j];
    RemoveKeyUnique(cols[k].cards, CardId, j);
    var nk := cols[k].(cards := RemoveAt(cols[k].cards, j));
    var r := DeleteCard(b, Some(cols[k].id), card.id).value.columns;
    forall i | 0 <= i < |cols| ensures r[i] == cols[k := nk][i] {
      ColumnAt(cols, i, k);
    }
    assert r == cols[k := nk];
    AllCardsUpdate(cols, k, nk);
    var m0, m1 := multiset(AllCards(cols)), multiset(AllCards(r));
    var ck, nkm := multiset(cols[k].cards), multiset(nk.cards);
    assert m1 + ck == m0 + nkm;
    assert nkm + multiset{card} == ck;
    forall x ensures (m1 + multiset{card})[x] == m0[x] {
      assert (m1 + ck)[x] == (m0 + nkm)[x];
      assert (nkm + multiset{card})[x] == ck[x];
    }
    assert m1 + multiset{card} == m0;
    assert |m1 + multiset{card}| == |AllCards(r)| + 1;
  }
}
