/**
 * The column component's handlers (src/components/Column.tsx): add a
 * card and rename the column. Each one builds the new column that it
 * hands to `onUpdateColumn` (the board's `UpdateColumn`); `None` means
 * the handler did not call it.
 */
module ColumnOps {
  import opened Options
  import opened Seqs
  import opened Text
  import opened Kanban
  import opened BoardOps

  /**
   * `handleAddCard`: a blank title is refused; otherwise a new card is
   * appended with the fresh id, the trimmed title, priority medium, no
   * description, no due date and the creation time `now`. The column's
   * id, title and existing cards are kept, in order.
   */
  function AddCard(col: Column, newTitle: string, freshId: Id, now: string): (r: Option<Column>)
    ensures r.None? <==> AllWhitespace(newTitle)
    ensures r.Some? ==> r.value.id == col.id && r.value.title == col.title
    ensures r.Some? ==> |r.value.cards| == |col.cards| + 1 && r.value.cards[..|col.cards|] == col.cards
    ensures r.Some? ==> var c := r.value.cards[|col.cards|];
              && c.id == freshId && c.createdAt == now
              && c.title == Trim(newTitle) && c.title != [] && Trimmed(c.title)
              && c.priority == Medium && c.description == None && c.dueDate == None
  {
    BlankIffAllWhitespace(newTitle);
    if IsBlank(newTitle) then None
    else
      var card := Card(freshId, Trim(newTitle), None, None, Medium, now);
      assert (col.cards + [card])[..|col.cards|] == col.cards;
      Some(col.(cards := col.cards + [card]))
  }

  /**
   * `handleUpdateTitle`: the rename is applied when the edited title is
   * not blank and differs from the current one; the stored title is the
   * trimmed edit, and the id and cards are kept.
   */
  function UpdateTitle(col: Column, edited: string): (r: Option<Column>)
    ensures r.None? <==> AllWhitespace(edited) || edited == col.title
    ensures r.Some? ==> r.value.title == Trim(edited) && r.value.title != [] && Trimmed(r.value.title)
    ensures r.Some? ==> r.value.id == col.id && r.value.cards == col.cards
  {
    BlankIffAllWhitespace(edited);
    if !IsBlank(edited) && edited != col.title then Some(col.(title := Trim(edited)))
    else None
  }

  /**
   * The guard compares the untrimmed edit with the current title: an
   * edit that differs only by surrounding whitespace still calls
   * `onUpdateColumn`, with the column unchanged.
   */
  lemma UpdateTitlePaddedIsUnchanged(col: Column, edited: string)
    requires col.title != [] && Trimmed(col.title) && Trim(edited) == col.title && edited != col.title
    ensures UpdateTitle(col, edited) == Some(col)
  {
    BlankIffAllWhitespace(edited);
  }

  /**
   * Adding a card to column `k` of a well-formed board under an id that
   * no card has: the board gains exactly the new card and stays well
   * formed.
   */
  lemma AddCardOnBoard(b: Board, k: nat, newTitle: string, freshId: Id, now: string)
    requires WellFormed(b.columns) && k < |b.columns|
    requires forall i :: 0 <= i < |b.columns| ==> freshId !in CardIds(b.columns[i].cards)
    requires AddCard(b.columns[k], newTitle, freshId, now).Some?
    ensures var col := AddCard(b.columns[k], newTitle, freshId, now).value;
            var r := UpdateColumn(b, col).columns;
            && r == b.columns[k := col]
            && multiset(AllCards(r)) == multiset(AllCards(b.columns)) + multiset{col.cards[|b.columns[k].cards|]}
            && |AllCards(r)| == |AllCards(b.columns)| + 1
            && WellFormed(r)
  {
    var cols := b.columns;
    var col := AddCard(cols[k], newTitle, freshId, now).value;
    var card := col.cards[|cols[k].cards|];
    assert col.cards == cols[k].cards + [card];
    UpdateColumnReplacesOne(b, k, col);
    AppendCardCount(cols, k, col, card);
    AppendCardKeepsWellFormed(cols, k, col, card);
  }

  lemma AppendCardCount(cols: seq<Column>, k: nat, col: Column, card: Card)
    requires k < |cols| && col.cards == cols[k].cards + [card]
    ensures multiset(AllCards(cols[k := col])) == multiset(AllCards(cols)) + multiset{card}
    ensures |AllCards(cols[k := col])| == |AllCards(cols)| + 1
  {
    var r := cols[k := col];
    AllCardsUpdate(cols, k, col);
    var m0, m1 := multiset(AllCards(cols)), multiset(AllCards(r));
    var ck, cm := multiset(cols[k].cards), multiset(col.cards);
    assert m1 + ck == m0 + cm;
    assert cm == ck + multiset{card};
    forall x ensures m1[x] == (m0 + multiset{card})[x] {
      assert (m1 + ck)[x] == (m0 + cm)[x];
    }
    assert m1 == m0 + multiset{card};
    assert |m1| == |AllCards(r)|;
  }

  lemma AppendCardKeepsWellFormed(cols: seq<Column>, k: nat, col: Column, card: Card)
    requires WellFormed(cols) && k < |cols| && col.id == cols[k].id && col.cards == cols[k].cards + [card]
    requires forall i :: 0 <= i < |cols| ==> card.id !in CardIds(cols[i].cards)
    ensures WellFormed(cols[k := col])
  {
    var r := cols[k := col];
    assert CardIds(col.cards) == CardIds(cols[k].cards) + [card.id];
    assert ColumnIds(r) == ColumnIds(cols);
    assert Distinct(CardIds(col.cards)) by {
      var ks := CardIds(col.cards);
      forall a, c | 0 <= a < c < |ks| ensures ks[a] != ks[c] {
        if c == |ks| - 1 {
          assert ks[a] in CardIds(cols[k].cards);
        }
      }
    }
    forall i, j, x | 0 <= i < |r| && 0 <= j < |r| && i != j && x in CardIds(r[i].cards)
      ensures x !in CardIds(r[j].cards)
    {
    }
  }

  /** Renaming column `k` of a well-formed board keeps all its cards and keeps it well formed. */
  lemma RenameOnBoard(b: Board, k: nat, edited: string)
    requires WellFormed(b.columns) && k < |b.columns| && UpdateTitle(b.columns[k], edited).Some?
    ensures var col := UpdateTitle(b.columns[k], edited).value;
            var r := UpdateColumn(b, col).columns;
            && r == b.columns[k := col]
            && AllCards(r) == AllCards(b.columns)
            && WellFormed(r)
  {
    var col := UpdateTitle(b.columns[k], edited).value;
    UpdateColumnReplacesOne(b, k, col);
    SameCardsKeepsBoard(b.columns, k, col);
  }

  lemma SameCardsKeepsBoard(cols: seq<Column>, k: nat, col: Column)
    requires WellFormed(cols) && k < |cols| && col.id == cols[k].id && col.cards == cols[k].cards
    ensures AllCards(cols[k := col]) == AllCards(cols) && WellFormed(cols[k := col])
  {
    AllCardsSameCards(cols, k, col);
    var r := cols[k := col];
    assert forall i :: 0 <= i < |r| ==> r[i].id == cols[i].id && r[i].cards == cols[i].cards;
    WellFormedPointwise(cols, r);
  }

  /** Replacing a column by one with the same cards leaves the board's cards as they are. */
  lemma {:induction false} AllCardsSameCards(cols: seq<Column>, k: nat, col: Column)
    requires k < |cols| && col.cards == cols[k].cards
    ensures AllCards(cols[k := col]) == AllCards(cols)
  {
    if k > 0 {
      assert cols[k := col][1..] == cols[1..][k - 1 := col];
      AllCardsSameCards(cols[1..], k - 1, col);
    }
  }
}
