/**
 * The kanban tree: a board holds an ordered list of columns and each
 * column an ordered list of cards (src/types/index.ts). Ids and
 * timestamps are opaque strings.
 */
module Kanban {
  import opened Options
  import opened Seqs

  type Id = string

  datatype Priority = Low | Medium | High

  datatype Card = Card(
    id: Id,
    title: string,
    description: Option<string>,
    dueDate: Option<string>,
    priority: Priority,
    createdAt: string)

  datatype Column = Column(id: Id, title: string, cards: seq<Card>)

  datatype Board = Board(id: Id, title: string, columns: seq<Column>, createdAt: string)

  function CardId(c: Card): Id { c.id }
  function ColumnId(c: Column): Id { c.id }
  function BoardId(b: Board): Id { b.id }

  function CardIds(cards: seq<Card>): seq<Id> { Keys(cards, CardId) }
  function ColumnIds(cols: seq<Column>): seq<Id> { Keys(cols, ColumnId) }

  /** Every card of the board, column after column. */
  function AllCards(cols: seq<Column>): seq<Card> {
    if |cols| == 0 then [] else cols[0].cards + AllCards(cols[1..])
  }

  /**
   * The board's invariants: column ids are unique, card ids are unique
   * within a column, and no card id appears in two columns (so every
   * card sits in exactly one column).
   */
  ghost predicate WellFormed(cols: seq<Column>) {
    && Distinct(ColumnIds(cols))
    && (forall i :: 0 <= i < |cols| ==> Distinct(CardIds(cols[i].cards)))
    && (forall i, j, x :: 0 <= i < |cols| && 0 <= j < |cols| && i != j && x in CardIds(cols[i].cards)
          ==> x !in CardIds(cols[j].cards))
  }

  /** Replacing one column changes the board's cards by exactly that column's cards. */
  lemma {:induction false} AllCardsUpdate(cols: seq<Column>, i: nat, c: Column)
    requires i < |cols|
    ensures multiset(AllCards(cols[i := c])) + multiset(cols[i].cards) == multiset(AllCards(cols)) + multiset(c.cards)
  {
    if i == 0 {
      assert cols[i := c][1..] == cols[1..];
    } else {
      var rest := cols[1..];
      assert cols[i := c][1..] == rest[i - 1 := c];
      assert rest[i - 1] == cols[i];
      AllCardsUpdate(rest, i - 1, c);
      var head := multiset(cols[0].cards);
      var updated := multiset(AllCards(rest[i - 1 := c]));
      var original := multiset(AllCards(rest));
      assert updated + multiset(cols[i].cards) == original + multiset(c.cards);
      assert multiset(AllCards(cols[i := c])) == head + updated;
      assert multiset(AllCards(cols)) == head + original;
      var lhs := head + updated + multiset(cols[i].cards);
      var rhs := head + original + multiset(c.cards);
      forall x ensures lhs[x] == rhs[x] {
        assert (updated + multiset(cols[i].cards))[x] == (original + multiset(c.cards))[x];
      }
      assert lhs == rhs;
    }
  }

  /** Removing one column removes exactly that column's cards. */
  lemma {:induction false} AllCardsRemoveAt(cols: seq<Column>, i: nat)
    requires i < |cols|
    ensures multiset(AllCards(RemoveAt(cols, i))) + multiset(cols[i].cards) == multiset(AllCards(cols))
  {
    if i == 0 {
      assert RemoveAt(cols, 0) == cols[1..];
    } else {
      assert RemoveAt(cols, i)[1..] == RemoveAt(cols[1..], i - 1);
      AllCardsRemoveAt(cols[1..], i - 1);
    }
  }

  /** Appending a column appends its cards. */
  lemma {:induction false} AllCardsAppend(cols: seq<Column>, c: Column)
    ensures AllCards(cols + [c]) == AllCards(cols) + c.cards
  {
    if |cols| == 0 {
      assert [c][1..] == [];
    } else {
      assert (cols + [c])[1..] == cols[1..] + [c];
      AllCardsAppend(cols[1..], c);
    }
  }

  /**
   * A change that keeps every column's id, keeps each column's card ids
   * distinct and adds no card id to any column keeps the board
   * well formed.
   */
  lemma WellFormedPointwise(xs: seq<Column>, ys: seq<Column>)
    requires WellFormed(xs) && |ys| == |xs|
    requires forall i :: 0 <= i < |xs| ==> ys[i].id == xs[i].id && Distinct(CardIds(ys[i].cards))
    requires forall i, y :: 0 <= i < |xs| && y in CardIds(ys[i].cards) ==> y in CardIds(xs[i].cards)
    ensures WellFormed(ys)
  {
    assert ColumnIds(ys) == ColumnIds(xs);
  }

  /** Appending an empty column under a fresh id keeps the board well formed. */
  lemma WellFormedAppendEmpty(cols: seq<Column>, c: Column)
    requires WellFormed(cols) && c.id !in ColumnIds(cols) && c.cards == []
    ensures WellFormed(cols + [c])
  {
    var r := cols + [c];
    assert ColumnIds(r) == ColumnIds(cols) + [c.id];
    assert CardIds(c.cards) == [];
    forall i | 0 <= i < |r| ensures Distinct(CardIds(r[i].cards)) {
      if i < |cols| { assert r[i] == cols[i]; }
    }
    forall i, j, x | 0 <= i < |r| && 0 <= j < |r| && i != j && x in CardIds(r[i].cards)
      ensures x !in CardIds(r[j].cards)
    {
      if i < |cols| && j < |cols| {
        assert r[i] == cols[i] && r[j] == cols[j];
      } else if i < |cols| {
        assert r[j] == c;
      }
    }
  }

  /** Removing a column keeps the board well formed. */
  lemma WellFormedRemoveAt(cols: seq<Column>, k: nat)
    requires WellFormed(cols) && k < |cols|
    ensures WellFormed(RemoveAt(cols, k))
  {
    var r := RemoveAt(cols, k);
    RemoveAtKeys(cols, k, ColumnId);
    forall i, j, x | 0 <= i < |r| && 0 <= j < |r| && i != j && x in CardIds(r[i].cards)
      ensures x !in CardIds(r[j].cards)
    {
      var i' := if i < k then i else i + 1;
      var j' := if j < k then j else j + 1;
      assert r[i] == cols[i'] && r[j] == cols[j'];
    }
  }
}
