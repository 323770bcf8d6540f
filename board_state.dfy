/**
 The stored state of one taskboard as a value: its records, keyed by id, and
 the ordered id lists that give their positions (the taskboard's columns,
 its rows, and one card list per column id). The functions here are the
 effects of the persistence and list-position calls the controller makes;
 the lemmas show that each keeps the board consistent.
 */
module BoardState {
  import opened Params
  import opened Ordering
  import opened Records
  import opened Import

  datatype State = State(
    id: Id, projectId: int, name: string,
    columns: map<Id, Column>, columnOrder: seq<Id>,
    rows: map<Id, Row>, rowOrder: seq<Id>,
    cards: map<Id, Card>, cardLists: map<Id, seq<Id>>,
    nextId: Id)

  /** The card order of column `c`; a column id no card names has an empty list. */
  function CardListOf(cardLists: map<Id, seq<Id>>, c: Id): seq<Id> {
    if c in cardLists then cardLists[c] else []
  }

  /** Every column record is listed once in the column order, and every
      listed id has a record; ids are below the next id to be assigned. */
  ghost predicate ColumnsConsistent(s: State) {
    && Distinct(s.columnOrder)
    && (forall c :: c in s.columnOrder <==> c in s.columns)
    && (forall c :: c in s.columns ==> s.columns[c].id == c && s.columns[c].taskboardId == s.id && c < s.nextId)
  }

  ghost predicate RowsConsistent(s: State) {
    && Distinct(s.rowOrder)
    && (forall r :: r in s.rowOrder <==> r in s.rows)
    && (forall r :: r in s.rows ==> s.rows[r].id == r && s.rows[r].taskboardId == s.id && r < s.nextId)
  }

  /** Every card sits in the card list of its own column, and a card list
      holds only cards of that column, each once. */
  ghost predicate CardsConsistent(s: State) {
    && (forall k :: k in s.cards ==>
          && s.cards[k].id == k && s.cards[k].taskboardId == s.id && k < s.nextId
          && k in CardListOf(s.cardLists, s.cards[k].columnId))
    && (forall c :: c in s.cardLists ==> Distinct(s.cardLists[c]))
    && (forall c, k :: c in s.cardLists && k in s.cardLists[c] ==> k in s.cards && s.cards[k].columnId == c)
  }

  ghost predicate Consistent(s: State) {
    ColumnsConsistent(s) && RowsConsistent(s) && CardsConsistent(s)
  }

  /** A card is in exactly one card list: its column's. */
  lemma CardInOneList(s: State, k: Id, c: Id)
    requires Consistent(s) && k in s.cards
    ensures k in CardListOf(s.cardLists, c) <==> c == s.cards[k].columnId
  {}

  /** A change to columns alone keeps the row and card part of the
      invariant. */
  lemma ColumnChangeKeepsRest(s: State, t: State)
    requires RowsConsistent(s) && CardsConsistent(s)
    requires t.id == s.id && t.nextId >= s.nextId
    requires t.rows == s.rows && t.rowOrder == s.rowOrder
    requires t.cards == s.cards && t.cardLists == s.cardLists
    ensures RowsConsistent(t) && CardsConsistent(t)
  {}

  /** The row order is empty exactly when there is no row record. */
  lemma NoRowListed(s: State)
    ensures RowsConsistent(s) ==> (s.rowOrder == [] <==> forall r :: r !in s.rows)
  {
    if RowsConsistent(s) && s.rowOrder != [] {
      var first := s.rowOrder[0];
      assert first in s.rowOrder;
      assert forall r :: r in s.rowOrder <==> r in s.rows;
    }
  }

  /** A change to rows alone keeps the column and card part of the
      invariant. */
  lemma RowChangeKeepsRest(s: State, t: State)
    requires ColumnsConsistent(s) && CardsConsistent(s)
    requires t.id == s.id && t.nextId >= s.nextId
    requires t.columns == s.columns && t.columnOrder == s.columnOrder
    requires t.cards == s.cards && t.cardLists == s.cardLists
    ensures ColumnsConsistent(t) && CardsConsistent(t)
  {}

  // ---- columns ----------------------------------------------------------

  /** `insert_column`: a new column record saved under the next id, then
      `insert_at(position)` in the taskboard's column order. */
  function InsertColumn(s: State, name: Option<string>, position: int): State {
    var c := Column(s.nextId, s.id, name);
    s.(columns := s.columns[c.id := c],
       columnOrder := InsertAt(s.columnOrder, c.id, position),
       nextId := s.nextId + 1)
  }

  lemma InsertColumnConsistent(s: State, name: Option<string>, position: int)
    requires Consistent(s)
    ensures Consistent(InsertColumn(s, name, position))
  {
    ColumnChangeKeepsRest(s, InsertColumn(s, name, position));
    InsertColumnColumns(s, name, position);
  }

  lemma InsertColumnColumns(s: State, name: Option<string>, position: int)
    requires ColumnsConsistent(s)
    ensures ColumnsConsistent(InsertColumn(s, name, position))
  {
    assert s.nextId !in s.columnOrder;
    InsertAtPosition(s.columnOrder, s.nextId, position);
    InsertAtDistinct(s.columnOrder, s.nextId, position);
  }

  /** The new column lands at the requested position clamped to the list,
      and the other columns keep their order around it. */
  lemma InsertColumnPosition(s: State, name: Option<string>, position: int)
    requires Consistent(s)
    ensures var t := InsertColumn(s, name, position);
      && |t.columnOrder| == |s.columnOrder| + 1
      && s.nextId in t.columnOrder
      && PositionOf(t.columnOrder, s.nextId) == Clamp(position, |s.columnOrder|)
      && Remove(t.columnOrder, s.nextId) == s.columnOrder
  {
    assert s.nextId !in s.columnOrder;
    InsertAtPosition(s.columnOrder, s.nextId, position);
    InsertAtKeepsOthers(s.columnOrder, s.nextId, position);
  }

  /** A column created with the default position lands first and the
      others keep their order after it. */
  lemma InsertColumnFirst(s: State, name: Option<string>)
    requires Consistent(s)
    ensures InsertColumn(s, name, 1).columnOrder == [s.nextId] + s.columnOrder
  {
    assert s.nextId !in s.columnOrder;
    InsertAtFront(s.columnOrder, s.nextId);
  }

  /** `insert_at(position)` on a listed column. */
  function MoveColumn(s: State, c: Id, position: int): State {
    s.(columnOrder := InsertAt(s.columnOrder, c, position))
  }

  lemma MoveColumnConsistent(s: State, c: Id, position: int)
    requires Consistent(s) && c in s.columns
    ensures Consistent(MoveColumn(s, c, position))
    ensures PositionOf(MoveColumn(s, c, position).columnOrder, c) == Clamp(position, |s.columnOrder| - 1)
  {
    ColumnChangeKeepsRest(s, MoveColumn(s, c, position));
    InsertAtPosition(s.columnOrder, c, position);
    InsertAtDistinct(s.columnOrder, c, position);
    RemoveAt(s.columnOrder, PositionOf(s.columnOrder, c) - 1);
  }

  /** Moving a column to the position it already holds changes nothing. */
  lemma MoveColumnToCurrent(s: State, c: Id)
    requires Consistent(s) && c in s.columns
    ensures MoveColumn(s, c, PositionOf(s.columnOrder, c)) == s
  {
    InsertAtCurrentPosition(s.columnOrder, c);
  }

  /** `save!` of a renamed column. */
  function RenameColumn(s: State, c: Id, name: Option<string>): State
    requires c in s.columns
  {
    s.(columns := s.columns[c := s.columns[c].(name := name)])
  }

  /** Renaming keeps the board consistent and every position. */
  lemma RenameColumnConsistent(s: State, c: Id, name: Option<string>)
    requires Consistent(s) && c in s.columns
    ensures Consistent(RenameColumn(s, c, name))
    ensures RenameColumn(s, c, name).columns[c] == s.columns[c].(name := name)
    ensures RenameColumn(s, c, name).columnOrder == s.columnOrder
  {
    ColumnChangeKeepsRest(s, RenameColumn(s, c, name));
  }

  /** `remove_from_list` then `delete` of a column. Its cards are not
      touched: `delete` runs no callbacks. */
  function DropColumn(s: State, c: Id): State {
    s.(columnOrder := Remove(s.columnOrder, c), columns := s.columns - {c})
  }

  lemma DropColumnConsistent(s: State, c: Id)
    requires Consistent(s) && c in s.columns
    ensures Consistent(DropColumn(s, c))
    ensures |DropColumn(s, c).columnOrder| == |s.columnOrder| - 1
  {
    ColumnChangeKeepsRest(s, DropColumn(s, c));
    RemoveDistinct(s.columnOrder, c);
    RemoveAt(s.columnOrder, PositionOf(s.columnOrder, c) - 1);
  }

  // ---- rows -------------------------------------------------------------

  /** `insert_row`: a new row record saved under the next id, then
      `insert_at(position)` in the taskboard's row order. */
  function InsertRow(s: State, name: string, position: int): State {
    var r := Row(s.nextId, s.id, name);
    s.(rows := s.rows[r.id := r],
       rowOrder := InsertAt(s.rowOrder, r.id, position),
       nextId := s.nextId + 1)
  }

  lemma InsertRowConsistent(s: State, name: string, position: int)
    requires Consistent(s)
    ensures Consistent(InsertRow(s, name, position))
  {
    RowChangeKeepsRest(s, InsertRow(s, name, position));
    InsertRowRows(s, name, position);
  }

  lemma InsertRowRows(s: State, name: string, position: int)
    requires RowsConsistent(s)
    ensures RowsConsistent(InsertRow(s, name, position))
  {
    assert s.nextId !in s.rowOrder;
    InsertAtPosition(s.rowOrder, s.nextId, position);
    InsertAtDistinct(s.rowOrder, s.nextId, position);
  }

  /** A row created at the default position `rows.size + 1` is appended. */
  lemma InsertRowLast(s: State, name: string)
    requires Consistent(s)
    ensures InsertRow(s, name, |s.rowOrder| + 1).rowOrder == s.rowOrder + [s.nextId]
  {
    assert s.nextId !in s.rowOrder;
    InsertAtEnd(s.rowOrder, s.nextId);
  }

  /** `remove_from_list` then `delete` of a row; cards tagged with it keep
      the tag. */
  function DropRow(s: State, r: Id): State {
    s.(rowOrder := Remove(s.rowOrder, r), rows := s.rows - {r})
  }

  lemma DropRowConsistent(s: State, r: Id)
    requires Consistent(s) && r in s.rows
    ensures Consistent(DropRow(s, r))
    ensures |DropRow(s, r).rowOrder| == |s.rowOrder| - 1
  {
    RowChangeKeepsRest(s, DropRow(s, r));
    RemoveDistinct(s.rowOrder, r);
    RemoveAt(s.rowOrder, PositionOf(s.rowOrder, r) - 1);
  }

  // ---- cards ------------------------------------------------------------

  /** `save!` of a new card under the next id, then `insert_at(position)`
      in its column's card list. */
  function PlaceNewCard(s: State, card: Card, position: int): State {
    s.(cards := s.cards[card.id := card],
       cardLists := s.cardLists[card.columnId := InsertAt(CardListOf(s.cardLists, card.columnId), card.id, position)],
       nextId := s.nextId + 1)
  }

  /** A change to cards and card lists alone keeps the column and row part
      of the invariant. */
  lemma CardChangeKeepsGrid(s: State, t: State)
    requires ColumnsConsistent(s) && RowsConsistent(s)
    requires t.id == s.id && t.nextId >= s.nextId
    requires t.columns == s.columns && t.columnOrder == s.columnOrder
    requires t.rows == s.rows && t.rowOrder == s.rowOrder
    ensures ColumnsConsistent(t) && RowsConsistent(t)
  {}

  lemma PlaceNewCardRecords(s: State, card: Card, position: int)
    requires Consistent(s) && card.id == s.nextId && card.taskboardId == s.id
    ensures var t := PlaceNewCard(s, card, position);
      forall k :: k in t.cards ==> t.cards[k].id == k && t.cards[k].taskboardId == t.id && k < t.nextId
  {
  }

  lemma PlaceNewCardListed(s: State, card: Card, position: int)
    requires Consistent(s) && card.id == s.nextId && card.taskboardId == s.id
    ensures var t := PlaceNewCard(s, card, position);
      forall k :: k in t.cards ==> k in CardListOf(t.cardLists, t.cards[k].columnId)
  {
    var t := PlaceNewCard(s, card, position);
    var c := card.columnId;
    var list := CardListOf(s.cardLists, c);
    InsertAtPosition(list, card.id, position);
    forall k | k in t.cards
      ensures k in CardListOf(t.cardLists, t.cards[k].columnId)
    {
      if k != card.id {
        assert t.cards[k] == s.cards[k];
        assert k in CardListOf(s.cardLists, s.cards[k].columnId);
      }
    }
  }

  lemma PlaceNewCardDistinct(s: State, card: Card, position: int)
    requires Consistent(s) && card.id == s.nextId && card.taskboardId == s.id
    ensures var t := PlaceNewCard(s, card, position);
      forall d :: d in t.cardLists ==> Distinct(t.cardLists[d])
  {
    var list := CardListOf(s.cardLists, card.columnId);
    InsertAtDistinct(list, card.id, position);
  }

  lemma PlaceNewCardOwned(s: State, card: Card, position: int)
    requires card.id !in s.cards
    requires forall c, k :: c in s.cardLists && k in s.cardLists[c] ==> k in s.cards && s.cards[k].columnId == c
    ensures var t := PlaceNewCard(s, card, position);
      forall d, k :: d in t.cardLists && k in t.cardLists[d] ==> k in t.cards && t.cards[k].columnId == d
  {
    var t := PlaceNewCard(s, card, position);
    var c := card.columnId;
    var list := CardListOf(s.cardLists, c);
    forall d, k | d in t.cardLists && k in t.cardLists[d] ensures k in t.cards && t.cards[k].columnId == d {
      if d != c {
        assert d in s.cardLists && t.cardLists[d] == s.cardLists[d];
        assert k in s.cards && s.cards[k].columnId == d;
        assert t.cards[k] == s.cards[k];
      } else if k != card.id {
        assert t.cardLists[d] == InsertAt(list, card.id, position);
        InsertAtMember(list, card.id, position, k);
        assert c in s.cardLists && k in s.cardLists[c];
        assert t.cards[k] == s.cards[k];
      } else {
        assert t.cards[k] == card;
      }
    }
  }

  lemma PlaceNewCardConsistent(s: State, card: Card, position: int)
    requires Consistent(s) && card.id == s.nextId && card.taskboardId == s.id
    ensures Consistent(PlaceNewCard(s, card, position))
  {
    PlaceNewCardRecords(s, card, position);
    PlaceNewCardListed(s, card, position);
    PlaceNewCardDistinct(s, card, position);
    assert card.id !in s.cards;
    PlaceNewCardOwned(s, card, position);
    CardChangeKeepsGrid(s, PlaceNewCard(s, card, position));
  }

  /** `save!` then `insert_at(1)` of each card in turn, as the import loop
      does. */
  function PlaceAll(s: State, added: seq<Card>): State {
    if added == [] then s
    else PlaceNewCard(PlaceAll(s, added[..|added| - 1]), added[|added| - 1], 1)
  }

  lemma PlaceAllSnoc(s: State, added: seq<Card>, card: Card)
    ensures PlaceAll(s, added + [card]) == PlaceNewCard(PlaceAll(s, added), card, 1)
  {
    assert (added + [card])[..|added|] == added;
  }

  /** Placing cards touches only the card store, the card lists and the next
      id; the store gains exactly the placed cards. */
  lemma {:induction false} PlaceAllRecords(s: State, added: seq<Card>)
    ensures var t := PlaceAll(s, added);
      && t == s.(cards := t.cards, cardLists := t.cardLists, nextId := t.nextId)
      && t.cards == WithCards(s.cards, added)
      && t.nextId == s.nextId + |added|
  {
    if added != [] {
      PlaceAllRecords(s, added[..|added| - 1]);
    }
  }

  /** Placing cards stamped with the board's id under consecutive fresh ids
      keeps the board consistent. */
  lemma {:induction false} PlaceAllConsistent(s: State, added: seq<Card>)
    requires Consistent(s)
    requires forall i :: 0 <= i < |added| ==> added[i].id == s.nextId + i && added[i].taskboardId == s.id
    ensures Consistent(PlaceAll(s, added))
  {
    if added != [] {
      var init := added[..|added| - 1];
      PlaceAllConsistent(s, init);
      PlaceAllRecords(s, init);
      PlaceNewCardConsistent(PlaceAll(s, init), added[|added| - 1], 1);
    }
  }

  /** The card lists after placing cards that all go to column `c`: that
      column's list is the old one with each new id pushed on top in turn,
      and every other list is untouched. */
  lemma {:induction false} PlaceAllCardLists(s: State, added: seq<Card>, c: Id)
    requires forall i :: 0 <= i < |added| ==> added[i].columnId == c
    ensures var t := PlaceAll(s, added);
      && CardListOf(t.cardLists, c) == PushEach(CardListOf(s.cardLists, c), IdsOf(added))
      && forall d :: d != c ==> CardListOf(t.cardLists, d) == CardListOf(s.cardLists, d)
  {
    if added != [] {
      var init := added[..|added| - 1];
      PlaceAllCardLists(s, init, c);
      assert IdsOf(added) == IdsOf(init) + [added[|added| - 1].id];
      assert IdsOf(added)[..|added| - 1] == IdsOf(init);
    }
  }

  /** Cards with fresh consecutive ids placed in column `c` end up on top of
      it in reverse order, above the cards that were there. */
  lemma PlaceAllOnTop(s: State, added: seq<Card>, c: Id)
    requires Consistent(s)
    requires forall i :: 0 <= i < |added| ==> added[i].columnId == c && added[i].id == s.nextId + i
    ensures CardListOf(PlaceAll(s, added).cardLists, c) == Reverse(IdsOf(added)) + CardListOf(s.cardLists, c)
  {
    PlaceAllCardLists(s, added, c);
    var ids := IdsOf(added);
    ConsecutiveIds(added, s.nextId);
    forall x | x in ids ensures x !in CardListOf(s.cardLists, c) {
      FreshNotListed(s, x, c);
    }
    PushEachOnTop(CardListOf(s.cardLists, c), ids);
  }

  /** Cards saved under consecutive ids from `first` have distinct ids, none
      below `first`. */
  lemma ConsecutiveIds(added: seq<Card>, first: Id)
    requires forall i :: 0 <= i < |added| ==> added[i].id == first + i
    ensures Distinct(IdsOf(added))
    ensures forall x :: x in IdsOf(added) ==> x >= first
  {
    var ids := IdsOf(added);
    assert forall j :: 0 <= j < |ids| ==> ids[j] == first + j;
  }

  /** An id not yet assigned is in no card list. */
  lemma FreshNotListed(s: State, x: Id, c: Id)
    requires CardsConsistent(s) && x >= s.nextId
    ensures x !in CardListOf(s.cardLists, c)
  {
    if c in s.cardLists {
      assert x in s.cardLists[c] ==> x in s.cards;
    }
  }

  /** `Card#move_to(column, row, position)`, which belongs to the Card model
      and is not part of this model; the contract assumed for it: an absent
      target keeps the card's current column, row or position; a move within
      the column is `insert_at`, a move to another column removes the card
      from its list and inserts it into the target's. */
  function MoveCard(s: State, k: Id, column: Option<Id>, row: Option<Id>, position: Option<int>): (t: State)
    requires k in s.cards && k in CardListOf(s.cardLists, s.cards[k].columnId)
    ensures t.cards.Keys == s.cards.Keys
    ensures t.cards[k].id == s.cards[k].id && t.cards[k].name == s.cards[k].name && t.cards[k].issue == s.cards[k].issue
    ensures k in CardListOf(t.cardLists, t.cards[k].columnId)
    ensures t.columns == s.columns && t.columnOrder == s.columnOrder && t.rows == s.rows && t.rowOrder == s.rowOrder
  {
    var card := s.cards[k];
    var src := card.columnId;
    var dst := if column.Some? then column.value else src;
    var pos := if position.Some? then position.value else PositionOf(CardListOf(s.cardLists, src), k);
    var cardLists :=
      if dst == src then s.cardLists[src := InsertAt(CardListOf(s.cardLists, src), k, pos)]
      else s.cardLists[src := Remove(CardListOf(s.cardLists, src), k)][dst := InsertAt(CardListOf(s.cardLists, dst), k, pos)];
    s.(cards := s.cards[k := card.(columnId := dst, rowId := if row.Some? then row.value else card.rowId)],
       cardLists := cardLists)
  }

  /** The card list of column `d` after a move of card `k`. */
  lemma MoveCardList(s: State, k: Id, column: Option<Id>, row: Option<Id>, position: Option<int>, d: Id)
    requires Consistent(s) && k in s.cards
    ensures k in CardListOf(s.cardLists, s.cards[k].columnId)
    ensures var src := s.cards[k].columnId;
      var dst := if column.Some? then column.value else src;
      var pos := if position.Some? then position.value else PositionOf(CardListOf(s.cardLists, src), k);
      var t := MoveCard(s, k, column, row, position);
      && (d in t.cardLists <==> d in s.cardLists || d == src || d == dst)
      && CardListOf(t.cardLists, d) ==
           if d == dst then InsertAt(CardListOf(s.cardLists, d), k, pos)
           else if d == src then Remove(CardListOf(s.cardLists, d), k)
           else CardListOf(s.cardLists, d)
  {}

  lemma MoveCardListed(s: State, k: Id, column: Option<Id>, row: Option<Id>, position: Option<int>)
    requires Consistent(s) && k in s.cards
    ensures k in CardListOf(s.cardLists, s.cards[k].columnId)
    ensures var t := MoveCard(s, k, column, row, position);
      forall j :: j in t.cards ==> j in CardListOf(t.cardLists, t.cards[j].columnId)
  {
    var t := MoveCard(s, k, column, row, position);
    var src := s.cards[k].columnId;
    var dst := if column.Some? then column.value else src;
    var pos := if position.Some? then position.value else PositionOf(CardListOf(s.cardLists, src), k);
    forall j | j in t.cards ensures j in CardListOf(t.cardLists, t.cards[j].columnId) {
      var d := t.cards[j].columnId;
      MoveCardList(s, k, column, row, position, d);
      if j == k {
        InsertAtPosition(CardListOf(s.cardLists, dst), k, pos);
      } else {
        assert j in CardListOf(s.cardLists, d);
        if d == dst {
          InsertAtPosition(CardListOf(s.cardLists, d), k, pos);
        }
      }
    }
  }

  lemma MoveCardDistinct(s: State, k: Id, column: Option<Id>, row: Option<Id>, position: Option<int>)
    requires Consistent(s) && k in s.cards
    ensures k in CardListOf(s.cardLists, s.cards[k].columnId)
    ensures var t := MoveCard(s, k, column, row, position);
      forall d :: d in t.cardLists ==> Distinct(t.cardLists[d])
  {
    var t := MoveCard(s, k, column, row, position);
    var src := s.cards[k].columnId;
    var dst := if column.Some? then column.value else src;
    var pos := if position.Some? then position.value else PositionOf(CardListOf(s.cardLists, src), k);
    forall d | d in t.cardLists ensures Distinct(t.cardLists[d]) {
      MoveCardList(s, k, column, row, position, d);
      if d == dst {
        InsertAtDistinct(CardListOf(s.cardLists, d), k, pos);
      } else if d == src {
        RemoveDistinct(CardListOf(s.cardLists, d), k);
      }
    }
  }

  lemma MoveCardOwned(s: State, k: Id, column: Option<Id>, row: Option<Id>, position: Option<int>)
    requires Consistent(s) && k in s.cards
    ensures k in CardListOf(s.cardLists, s.cards[k].columnId)
    ensures var t := MoveCard(s, k, column, row, position);
      forall d, j :: d in t.cardLists && j in t.cardLists[d] ==> j in t.cards && t.cards[j].columnId == d
  {
    var t := MoveCard(s, k, column, row, position);
    var src := s.cards[k].columnId;
    var dst := if column.Some? then column.value else src;
    var pos := if position.Some? then position.value else PositionOf(CardListOf(s.cardLists, src), k);
    forall d, j | d in t.cardLists && j in t.cardLists[d] ensures j in t.cards && t.cards[j].columnId == d {
      MoveCardList(s, k, column, row, position, d);
      assert j in CardListOf(t.cardLists, d);
      if d == dst {
        InsertAtPosition(CardListOf(s.cardLists, d), k, pos);
        if j != k {
          assert j in CardListOf(s.cardLists, d);
        }
      } else if d == src {
        assert j in CardListOf(s.cardLists, d) && j != k;
      } else {
        assert j in CardListOf(s.cardLists, d);
      }
    }
  }

  lemma MoveCardConsistent(s: State, k: Id, column: Option<Id>, row: Option<Id>, position: Option<int>)
    requires Consistent(s) && k in s.cards
    ensures k in CardListOf(s.cardLists, s.cards[k].columnId)
    ensures Consistent(MoveCard(s, k, column, row, position))
  {
    MoveCardListed(s, k, column, row, position);
    MoveCardDistinct(s, k, column, row, position);
    MoveCardOwned(s, k, column, row, position);
    CardChangeKeepsGrid(s, MoveCard(s, k, column, row, position));
  }

  /** Where a move puts the card: at the requested position (its old one
      when none is given) clamped to the target column's list without it.
      A move with no column and no position leaves it where it was. */
  lemma MoveCardPosition(s: State, k: Id, column: Option<Id>, row: Option<Id>, position: Option<int>)
    requires Consistent(s) && k in s.cards
    ensures k in CardListOf(s.cardLists, s.cards[k].columnId)
    ensures var src := s.cards[k].columnId;
      var dst := if column.Some? then column.value else src;
      var pos := if position.Some? then position.value else PositionOf(CardListOf(s.cardLists, src), k);
      var t := MoveCard(s, k, column, row, position);
      && PositionOf(CardListOf(t.cardLists, dst), k) == Clamp(pos, |Remove(CardListOf(s.cardLists, dst), k)|)
      && (column.None? && position.None? ==>
            PositionOf(CardListOf(t.cardLists, src), k) == PositionOf(CardListOf(s.cardLists, src), k))
  {
    var src := s.cards[k].columnId;
    var dst := if column.Some? then column.value else src;
    var pos := if position.Some? then position.value else PositionOf(CardListOf(s.cardLists, src), k);
    MoveCardList(s, k, column, row, position, dst);
    InsertAtPosition(CardListOf(s.cardLists, dst), k, pos);
    RemoveListedLength(CardListOf(s.cardLists, src), k);
  }

  /** A move across columns keeps the number of cards of the two columns
      together: the source loses the card and the target gains it. */
  lemma MoveCardAcrossConserves(s: State, k: Id, dst: Id, row: Option<Id>, position: Option<int>)
    requires Consistent(s) && k in s.cards && dst != s.cards[k].columnId
    ensures var src := s.cards[k].columnId;
      var t := MoveCard(s, k, Some(dst), row, position);
      && |CardListOf(t.cardLists, src)| == |CardListOf(s.cardLists, src)| - 1
      && |CardListOf(t.cardLists, dst)| == |CardListOf(s.cardLists, dst)| + 1
  {
    var src := s.cards[k].columnId;
    var srcList := CardListOf(s.cardLists, src);
    var dstList := CardListOf(s.cardLists, dst);
    var pos := if position.Some? then position.value else PositionOf(srcList, k);
    var t := MoveCard(s, k, Some(dst), row, position);
    CardInOneList(s, k, dst);
    MoveCardList(s, k, Some(dst), row, position, src);
    MoveCardList(s, k, Some(dst), row, position, dst);
    assert CardListOf(t.cardLists, src) == Remove(srcList, k);
    assert CardListOf(t.cardLists, dst) == InsertAt(dstList, k, pos);
    RemoveListedLength(srcList, k);
    InsertNewLength(dstList, k, pos);
  }

  /** A move with every target left blank changes nothing. */
  lemma MoveCardNowhere(s: State, k: Id)
    requires Consistent(s) && k in s.cards
    ensures MoveCard(s, k, None, None, None) == s
  {
    var card := s.cards[k];
    InsertAtCurrentPosition(CardListOf(s.cardLists, card.columnId), k);
    assert card.(columnId := card.columnId, rowId := card.rowId) == card;
    assert s.cards[k := card] == s.cards;
  }

  /** `remove_from_list` then `delete` of a card. */
  function DropCard(s: State, k: Id): State
    requires k in s.cards
  {
    var c := s.cards[k].columnId;
    s.(cardLists := s.cardLists[c := Remove(CardListOf(s.cardLists, c), k)], cards := s.cards - {k})
  }

  lemma DropCardConsistent(s: State, k: Id)
    requires Consistent(s) && k in s.cards
    ensures Consistent(DropCard(s, k))
    ensures var c := s.cards[k].columnId;
      |CardListOf(DropCard(s, k).cardLists, c)| == |CardListOf(s.cardLists, c)| - 1
  {
    var t := DropCard(s, k);
    var c := s.cards[k].columnId;
    var list := CardListOf(s.cardLists, c);
    RemoveDistinct(list, k);
    RemoveAt(list, PositionOf(list, k) - 1);
    forall j | j in t.cards ensures j in CardListOf(t.cardLists, t.cards[j].columnId) {
      assert j in CardListOf(s.cardLists, s.cards[j].columnId);
    }
  }
}
