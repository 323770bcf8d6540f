/**
 The taskboard controller's actions on one taskboard. A `Board` holds the
 taskboard's stored state; each action is a method that updates it in place
 the way the controller does (record fields assigned, `save!`, `insert_at`,
 `remove_from_list`, `delete`), publishes the diff its `sync_*` helper sends,
 and returns what the action renders. Every method is specified against the
 state transitions of `BoardState`, whose lemmas show the board stays
 consistent.
 */
module Controller {
  import opened Params
  import opened Ordering
  import opened Records
  import opened Import
  import opened Sync
  import BS = BoardState

  const ProjectIdMissing := "You need to specify project id!"
  const TaskboardNameEmpty := "Taskboard name cannot be empty!"
  const ColumnNameEmpty := "Column name cannot be empty!"

  /** The state after the column step of `add_card`: a missing column id
      creates the default column at position 1. */
  function WithTargetColumn(s: BS.State, columnParam: Param): BS.State {
    if IsMissing(columnParam) then BS.InsertColumn(s, Some(DefaultColumnName), 1) else s
  }

  /** The column `add_card` targets: the one it created, or the requested id. */
  function TargetColumn(s: BS.State, columnParam: Param): Id {
    if IsMissing(columnParam) then s.nextId else ParamToI(columnParam)
  }

  /** The diff announcing the column `add_card` created, if it created one. */
  function ColumnDiffs(s: BS.State, columnParam: Param): seq<Diff> {
    if IsMissing(columnParam)
    then [Diff(AddColumnSync, ColumnSubject(Column(s.nextId, s.id, Some(DefaultColumnName))), NoBefore)]
    else []
  }

  /** `rows.first.id` with no rows raises on `nil`: on a consistent board
      that happens exactly when the row id is missing and the taskboard has
      no row record at all. */
  predicate NoRow(s: BS.State, rowParam: Param): (b: bool)
    ensures BS.RowsConsistent(s) ==> (b <==> IsMissing(rowParam) && forall r :: r !in s.rows)
  {
    BS.NoRowListed(s);
    IsMissing(rowParam) && s.rowOrder == []
  }

  /** The row `add_card` tags new cards with: a missing row id means the
      row at position 1; any other value is read with `to_i`. */
  function TargetRow(s: BS.State, rowParam: Param): (r: Id)
    requires !NoRow(s, rowParam)
    ensures IsMissing(rowParam) ==> r in s.rowOrder && PositionOf(s.rowOrder, r) == 1
    ensures !IsMissing(rowParam) ==> r == ParamToI(rowParam)
  {
    if IsMissing(rowParam) then s.rowOrder[0] else ParamToI(rowParam)
  }

  /** The cards an `add_card` that reaches the insertion loop adds: the
      survivors of the key filter against the cards stored before the call,
      stamped in fetch order with ids from the next one on. */
  function Imported(s: BS.State, nameParam: Param, columnParam: Param, rowParam: Param, lookup: Lookup): seq<Card>
    requires !NoRow(s, rowParam) && !lookup.FetchFailed?
  {
    var survivors := Survivors(KnownIssues(s.cards), Candidates(nameParam, lookup));
    StampAll(survivors, WithTargetColumn(s, columnParam).nextId, s.id,
             TargetColumn(s, columnParam), TargetRow(s, rowParam))
  }

  /** A move target of `reorder_cards`: a blank parameter becomes `nil`,
      anything else its `to_i`. */
  function Target(p: Param): (t: Option<int>)
    ensures t.None? <==> IsBlank(p)
    ensures t.Some? ==> t.value == ParamToI(p) && !IsMissing(p)
  {
    if IsBlank(p) then None else Some(ParamToI(p))
  }

  /** The cards `add_card` adds end up on top of the target column, the last
      one fetched first, above the cards already there in their old order. */
  lemma AddCardOnTop(s: BS.State, nameParam: Param, columnParam: Param, rowParam: Param, lookup: Lookup)
    requires BS.Consistent(s) && !NoRow(s, rowParam) && !lookup.FetchFailed?
    ensures var s1 := WithTargetColumn(s, columnParam);
      var added := Imported(s, nameParam, columnParam, rowParam, lookup);
      var c := TargetColumn(s, columnParam);
      BS.CardListOf(BS.PlaceAll(s1, added).cardLists, c) == Reverse(IdsOf(added)) + BS.CardListOf(s1.cardLists, c)
  {
    var s1 := WithTargetColumn(s, columnParam);
    var survivors := Survivors(KnownIssues(s.cards), Candidates(nameParam, lookup));
    if IsMissing(columnParam) {
      BS.InsertColumnConsistent(s, Some(DefaultColumnName), 1);
    }
    StampAllAt(survivors, s1.nextId, s.id, TargetColumn(s, columnParam), TargetRow(s, rowParam));
    BS.PlaceAllOnTop(s1, Imported(s, nameParam, columnParam, rowParam, lookup), TargetColumn(s, columnParam));
  }

  /** `add_card` adds exactly the survivors of the key filter: one card per
      survivor, in fetch order, carrying its name and key; each added card
      either has no key or a key no card of the taskboard had before. */
  lemma AddCardAddsSurvivors(s: BS.State, nameParam: Param, columnParam: Param, rowParam: Param, lookup: Lookup)
    requires !NoRow(s, rowParam) && !lookup.FetchFailed?
    ensures var survivors := Survivors(KnownIssues(s.cards), Candidates(nameParam, lookup));
      var added := Imported(s, nameParam, columnParam, rowParam, lookup);
      && |added| == |survivors|
      && (forall i :: 0 <= i < |added| ==>
            added[i].name == survivors[i].name && added[i].issue == survivors[i].issue
            && added[i].columnId == TargetColumn(s, columnParam) && added[i].rowId == TargetRow(s, rowParam))
      && (forall i :: 0 <= i < |added| ==>
            added[i].issue.None? || forall c :: c in s.cards.Values ==> c.issue != added[i].issue)
  {
    var survivors := Survivors(KnownIssues(s.cards), Candidates(nameParam, lookup));
    StampAllAt(survivors, WithTargetColumn(s, columnParam).nextId, s.id, TargetColumn(s, columnParam), TargetRow(s, rowParam));
    forall i | 0 <= i < |survivors|
      ensures survivors[i].issue.None? || forall c :: c in s.cards.Values ==> c.issue != survivors[i].issue
    {
      assert survivors[i] in survivors;
    }
  }

  /** When every taskboard card has its own key and the fetched batch does
      not repeat a key, the taskboard's keys stay unique after `add_card`. */
  lemma AddCardKeepsKeysUnique(s: BS.State, nameParam: Param, columnParam: Param, rowParam: Param, lookup: Lookup)
    requires BS.Consistent(s) && !NoRow(s, rowParam) && !lookup.FetchFailed?
    requires IssueKeysUnique(s.cards) && BatchKeysDistinct(Candidates(nameParam, lookup))
    ensures IssueKeysUnique(BS.PlaceAll(WithTargetColumn(s, columnParam), Imported(s, nameParam, columnParam, rowParam, lookup)).cards)
  {
    var s1 := WithTargetColumn(s, columnParam);
    var added := Imported(s, nameParam, columnParam, rowParam, lookup);
    BS.PlaceAllRecords(s1, added);
    ImportKeepsKeysUnique(s.cards, Candidates(nameParam, lookup), s1.nextId, s.id,
                          TargetColumn(s, columnParam), TargetRow(s, rowParam));
  }

  class Board {
    const id: Id
    var projectId: int
    var name: string
    var columns: map<Id, Column>
    var columnOrder: seq<Id>
    var rows: map<Id, Row>
    var rowOrder: seq<Id>
    var cards: map<Id, Card>
    var cardLists: map<Id, seq<Id>>
    var nextId: Id
    /** The diffs published on the taskboard's channel, oldest first. */
    var published: seq<Diff>

    function State(): BS.State
      reads this
    {
      BS.State(id, projectId, name, columns, columnOrder, rows, rowOrder, cards, cardLists, nextId)
    }

    ghost predicate Valid()
      reads this
    {
      BS.Consistent(State())
    }

    /** A new taskboard saved with one default-named column and one
        default-named row. */
    constructor (id: Id, projectId: int, name: string)
      ensures Valid()
      ensures State() == BS.State(id, projectId, name,
                                  map[1 := Column(1, id, Some(DefaultColumnName))], [1],
                                  map[2 := Row(2, id, DefaultRowName)], [2],
                                  map[], map[], 3)
      ensures published == []
    {
      this.id := id;
      this.projectId := projectId;
      this.name := name;
      columns := map[1 := Column(1, id, Some(DefaultColumnName))];
      columnOrder := [1];
      rows := map[2 := Row(2, id, DefaultRowName)];
      rowOrder := [2];
      cards := map[];
      cardLists := map[];
      nextId := 3;
      published := [];
    }

    /** The `sync_*` helper: publish the diff and answer with it. */
    method Publish(d: Diff) returns (r: Response)
      modifies this`published
      ensures published == old(published) + [d]
      ensures r == Synced(d)
    {
      published := published + [d];
      r := Synced(d);
    }

    // ---- taskboard --------------------------------------------------------

    /** `rename_taskboard`: a blank name is refused and nothing changes;
        otherwise the name is saved and the diff carries the old name. */
    method RenameTaskboard(nameParam: Param) returns (r: Response)
      requires Valid()
      modifies this
      ensures Valid()
      ensures IsBlank(nameParam) ==> r == Error(TaskboardNameEmpty) && unchanged(this)
      ensures !IsBlank(nameParam) ==>
        && State() == old(State()).(name := nameParam.value)
        && r == Synced(Diff(RenameTaskboardSync, TaskboardSubject(id, nameParam.value), BeforeName(Some(old(name)))))
        && published == old(published) + [r.diff]
    {
      if !IsBlank(nameParam) {
        var before := name;
        name := nameParam.value;
        r := Publish(Diff(RenameTaskboardSync, TaskboardSubject(id, name), BeforeName(Some(before))));
      } else {
        r := Error(TaskboardNameEmpty);
      }
    }

    // ---- columns ----------------------------------------------------------

    /** `insert_column`: create the column, `save!` it, `insert_at(position)`. */
    method InsertColumn(columnName: Option<string>, position: int) returns (column: Column)
      requires Valid()
      modifies this
      ensures Valid()
      ensures column == Column(old(nextId), id, columnName)
      ensures State() == BS.InsertColumn(old(State()), columnName, position)
      ensures published == old(published)
    {
      var t := BS.InsertColumn(State(), columnName, position);
      BS.InsertColumnConsistent(State(), columnName, position);
      column := Column(nextId, id, columnName);
      columns, nextId := t.columns, t.nextId;
      columnOrder := t.columnOrder;
    }

    /** `add_column`: a column named by the request's `name` parameter (kept
        even when absent) inserted first. */
    method AddColumn(nameParam: Param) returns (r: Response)
      requires Valid()
      modifies this
      ensures Valid()
      ensures State() == BS.InsertColumn(old(State()), nameParam, 1)
      ensures columnOrder == [old(nextId)] + old(columnOrder)
      ensures r == Synced(Diff(AddColumnSync, ColumnSubject(Column(old(nextId), id, nameParam)), NoBefore))
      ensures published == old(published) + [r.diff]
    {
      var column := InsertColumn(nameParam, 1);
      BS.InsertColumnFirst(old(State()), nameParam);
      r := Publish(Diff(AddColumnSync, ColumnSubject(column), NoBefore));
    }

    /** `reorder_columns`: move the column to the requested position; the
        diff carries the column at its new position and the position it had
        before. */
    method ReorderColumns(idParam: Param, positionParam: Param) returns (r: Response)
      requires Valid()
      modifies this
      ensures Valid()
      ensures ParamToI(idParam) !in old(columns) ==> r == Raised(RecordNotFound) && unchanged(this)
      ensures ParamToI(idParam) in old(columns) ==>
        var c := ParamToI(idParam);
        && c in old(columnOrder)
        && State() == BS.MoveColumn(old(State()), c, ParamToI(positionParam))
        && PositionOf(columnOrder, c) == Clamp(ParamToI(positionParam), |old(columnOrder)| - 1)
        && r == Synced(Diff(MoveColumnSync,
                            MovedColumnSubject(old(columns)[c], Clamp(ParamToI(positionParam), |old(columnOrder)| - 1)),
                            BeforePosition(PositionOf(old(columnOrder), c))))
        && published == old(published) + [r.diff]
    {
      var c := ParamToI(idParam);
      if c !in columns {
        r := Raised(RecordNotFound);
        return;
      }
      var position := ParamToI(positionParam);
      var before := PositionOf(columnOrder, c);
      var t := BS.MoveColumn(State(), c, position);
      BS.MoveColumnConsistent(State(), c, position);
      columnOrder := t.columnOrder;
      r := Publish(Diff(MoveColumnSync, MovedColumnSubject(columns[c], PositionOf(columnOrder, c)), BeforePosition(before)));
    }

    /** `rename_column`: only the empty string is refused (an all-space name
        is accepted, and an absent name raises on `nil.empty?`). */
    method RenameColumn(idParam: Param, nameParam: Param) returns (r: Response)
      requires Valid()
      modifies this
      ensures Valid()
      ensures ParamToI(idParam) !in old(columns) ==> r == Raised(RecordNotFound) && unchanged(this)
      ensures ParamToI(idParam) in old(columns) && nameParam == None ==> r == Raised(NilReceiver) && unchanged(this)
      ensures ParamToI(idParam) in old(columns) && nameParam == Some("") ==> r == Error(ColumnNameEmpty) && unchanged(this)
      ensures ParamToI(idParam) in old(columns) && nameParam.Some? && nameParam.value != "" ==>
        var c := ParamToI(idParam);
        && State() == BS.RenameColumn(old(State()), c, nameParam)
        && r == Synced(Diff(RenameColumnSync, ColumnSubject(old(columns)[c].(name := nameParam)),
                            BeforeName(old(columns)[c].name)))
        && published == old(published) + [r.diff]
    {
      var c := ParamToI(idParam);
      if c !in columns {
        r := Raised(RecordNotFound);
        return;
      }
      if nameParam == None {
        r := Raised(NilReceiver);
      } else if nameParam.value != "" {
        var before := columns[c].name;
        columns := columns[c := columns[c].(name := nameParam)];
        r := Publish(Diff(RenameColumnSync, ColumnSubject(columns[c]), BeforeName(before)));
      } else {
        r := Error(ColumnNameEmpty);
      }
    }

    /** `remove_column`: `remove_from_list`, then `delete`. The column's
        cards stay stored. */
    method RemoveColumn(idParam: Param) returns (r: Response)
      requires Valid()
      modifies this
      ensures Valid()
      ensures ParamToI(idParam) !in old(columns) ==> r == Raised(RecordNotFound) && unchanged(this)
      ensures ParamToI(idParam) in old(columns) ==>
        var c := ParamToI(idParam);
        && State() == BS.DropColumn(old(State()), c)
        && |columnOrder| == |old(columnOrder)| - 1
        && cards == old(cards) && cardLists == old(cardLists)
        && r == Synced(Diff(DeleteColumnSync, ColumnSubject(old(columns)[c]), NoBefore))
        && published == old(published) + [r.diff]
    {
      var c := ParamToI(idParam);
      if c !in columns {
        r := Raised(RecordNotFound);
        return;
      }
      var column := columns[c];
      var t := BS.DropColumn(State(), c);
      BS.DropColumnConsistent(State(), c);
      columnOrder := t.columnOrder;
      columns := t.columns;
      r := Publish(Diff(DeleteColumnSync, ColumnSubject(column), NoBefore));
    }

    // ---- rows -------------------------------------------------------------

    /** `insert_row`: create the row, `save!` it, `insert_at(position)`; an
        absent position means `rows.size + 1`, the end of the list. */
    method InsertRow(rowName: string, position: Option<int>) returns (row: Row)
      requires Valid()
      modifies this
      ensures Valid()
      ensures row == Row(old(nextId), id, rowName)
      ensures var p := if position.Some? then position.value else |old(rowOrder)| + 1;
        && State() == BS.InsertRow(old(State()), rowName, p)
      ensures position == None ==> rowOrder == old(rowOrder) + [row.id]
      ensures published == old(published)
    {
      var p := if position.Some? then position.value else |rowOrder| + 1;
      var t := BS.InsertRow(State(), rowName, p);
      BS.InsertRowConsistent(State(), rowName, p);
      if position == None {
        BS.InsertRowLast(State(), rowName);
      }
      row := Row(nextId, id, rowName);
      rows, nextId := t.rows, t.nextId;
      rowOrder := t.rowOrder;
    }

    /** `add_row`: a default-named row appended after the others. */
    method AddRow() returns (r: Response)
      requires Valid()
      modifies this
      ensures Valid()
      ensures State() == BS.InsertRow(old(State()), DefaultRowName, |old(rowOrder)| + 1)
      ensures rowOrder == old(rowOrder) + [old(nextId)]
      ensures r == Synced(Diff(AddRowSync, RowSubject(Row(old(nextId), id, DefaultRowName)), NoBefore))
      ensures published == old(published) + [r.diff]
    {
      var row := InsertRow(DefaultRowName, None);
      r := Publish(Diff(AddRowSync, RowSubject(row), NoBefore));
    }

    /** `remove_row`: `remove_from_list`, then `delete`. Cards keep the row
        id they were tagged with. */
    method RemoveRow(idParam: Param) returns (r: Response)
      requires Valid()
      modifies this
      ensures Valid()
      ensures ParamToI(idParam) !in old(rows) ==> r == Raised(RecordNotFound) && unchanged(this)
      ensures ParamToI(idParam) in old(rows) ==>
        var k := ParamToI(idParam);
        && State() == BS.DropRow(old(State()), k)
        && |rowOrder| == |old(rowOrder)| - 1
        && cards == old(cards)
        && r == Synced(Diff(DeleteRowSync, RowSubject(old(rows)[k]), NoBefore))
        && published == old(published) + [r.diff]
    {
      var k := ParamToI(idParam);
      if k !in rows {
        r := Raised(RecordNotFound);
        return;
      }
      var row := rows[k];
      var t := BS.DropRow(State(), k);
      BS.DropRowConsistent(State(), k);
      rowOrder := t.rowOrder;
      rows := t.rows;
      r := Publish(Diff(DeleteRowSync, RowSubject(row), NoBefore));
    }

    // ---- cards ------------------------------------------------------------

    /** `save!` of a new card, which takes the next id, then
        `insert_at(position)` in its column's card list. */
    method SaveCard(card: Card, position: int)
      requires card.id == nextId
      modifies this`cards, this`cardLists, this`nextId
      ensures State() == BS.PlaceNewCard(old(State()), card, position)
      ensures published == old(published)
    {
      var t := BS.PlaceNewCard(State(), card, position);
      cards, nextId := t.cards, t.nextId;
      cardLists := t.cardLists;
    }

    /** The insertion loop of `add_card`: each survivor in fetch order is
        stamped with the taskboard, column and row, saved, and inserted at
        position 1 of the column. */
    method PlaceSurvivors(survivors: seq<Candidate>, column: Id, row: Id) returns (added: seq<Card>)
      modifies this`cards, this`cardLists, this`nextId
      ensures added == StampAll(survivors, old(State()).nextId, id, column, row)
      ensures State() == BS.PlaceAll(old(State()), added)
      ensures published == old(published)
    {
      added := StampAll(survivors, nextId, id, column, row);
      StampAllLength(survivors, nextId, id, column, row);
      for i := 0 to |added|
        invariant State() == BS.PlaceAll(old(State()), added[..i])
        invariant nextId == old(nextId) + i
      {
        StampAllId(survivors, old(nextId), id, column, row, i);
        assert added[..i + 1] == added[..i] + [added[i]];
        BS.PlaceAllSnoc(old(State()), added[..i], added[i]);
        SaveCard(added[i], 1);
      }
      assert added[..|added|] == added;
    }

    /** The column step of `add_card`: with no column id, a default-named
        column is inserted at position 1 and announced. */
    method ResolveColumn(columnParam: Param) returns (column: Id)
      requires Valid()
      modifies this
      ensures Valid()
      ensures column == TargetColumn(old(State()), columnParam)
      ensures State() == WithTargetColumn(old(State()), columnParam)
      ensures published == old(published) + ColumnDiffs(old(State()), columnParam)
    {
      if IsMissing(columnParam) {
        var newColumn := InsertColumn(Some(DefaultColumnName), 1);
        column := newColumn.id;
        var _ := Publish(Diff(AddColumnSync, ColumnSubject(newColumn), NoBefore));
      } else {
        column := ParamToI(columnParam);
      }
    }

    /** The row step of `add_card`: the first row for a missing row id,
        which is `nil` on a taskboard without rows, else the id's `to_i`. */
    method ResolveRow(rowParam: Param) returns (row: Option<Id>)
      ensures row.None? <==> NoRow(State(), rowParam)
      ensures row.Some? ==> row.value == TargetRow(State(), rowParam)
    {
      if IsMissing(rowParam) {
        if rowOrder == [] {
          return None;
        }
        row := Some(rowOrder[0]);
      } else {
        row := Some(ParamToI(rowParam));
      }
    }

    /** The import step of `add_card`: the candidates whose issue key is
        already on the taskboard are dropped, the survivors are placed, and
        the answer is a bare success if none survived, else the published
        diff of the survivors. */
    method ImportCards(candidates: seq<Candidate>, column: Id, row: Id) returns (r: Response)
      requires Valid()
      modifies this
      ensures Valid()
      ensures var added := StampAll(Survivors(KnownIssues(old(cards)), candidates), old(nextId), id, column, row);
        && State() == BS.PlaceAll(old(State()), added)
        && r == (if added == [] then Success else Synced(Diff(AddCardsSync, CardsSubject(added), NoBefore)))
        && published == old(published) + (if added == [] then [] else [r.diff])
    {
      var known := KnownIssues(cards);
      var survivors := Survivors(known, candidates);
      var added := PlaceSurvivors(survivors, column, row);
      StampAllAt(survivors, old(nextId), id, column, row);
      BS.PlaceAllConsistent(old(State()), added);
      if added == [] {
        r := Success;
      } else {
        r := Publish(Diff(AddCardsSync, CardsSubject(added), NoBefore));
      }
    }

    /** `add_card`. A missing column id first creates (and announces) a
        default-named column at position 1; a missing row id means the
        taskboard's first row. A failed lookup answers with its message and
        adds nothing; otherwise the candidates whose issue key is already on
        the taskboard are dropped, the survivors are placed on top of the
        column, and the answer is a bare success if none survived, else the
        diff of the survivors. */
    method AddCard(nameParam: Param, columnParam: Param, rowParam: Param, lookup: Lookup) returns (r: Response)
      requires Valid()
      modifies this
      ensures Valid()
      ensures published == old(published) + ColumnDiffs(old(State()), columnParam) + (if r.Synced? then [r.diff] else [])
      ensures NoRow(old(State()), rowParam) ==>
        && r == Raised(NilReceiver)
        && State() == WithTargetColumn(old(State()), columnParam)
      ensures !NoRow(old(State()), rowParam) && lookup.FetchFailed? ==>
        && r == Error(lookup.message)
        && State() == WithTargetColumn(old(State()), columnParam)
      ensures !NoRow(old(State()), rowParam) && !lookup.FetchFailed? ==>
        var s1 := WithTargetColumn(old(State()), columnParam);
        var added := Imported(old(State()), nameParam, columnParam, rowParam, lookup);
        && State() == BS.PlaceAll(s1, added)
        && r == (if added == [] then Success else Synced(Diff(AddCardsSync, CardsSubject(added), NoBefore)))
    {
      var column := ResolveColumn(columnParam);
      var row := ResolveRow(rowParam);
      assert State().rowOrder == old(State()).rowOrder;
      if row.None? {
        r := Raised(NilReceiver);
        return;
      }

      if lookup.FetchFailed? {
        r := Error(lookup.message);
        return;
      }
      assert cards == old(cards);
      r := ImportCards(Candidates(nameParam, lookup), column, row.value);
    }

    /** `Card#move_to`, under the contract `BoardState.MoveCard` assumes for
        it, followed by reading the position the card then reports, which
        `BoardState.MoveCardPosition` gives in terms of the request. */
    method MoveCardTo(k: Id, column: Option<Id>, row: Option<Id>, position: Option<int>)
      returns (newPosition: int)
      requires Valid() && k in cards
      modifies this
      ensures Valid()
      ensures k in BS.CardListOf(old(cardLists), old(cards)[k].columnId)
      ensures State() == BS.MoveCard(old(State()), k, column, row, position)
      ensures k in BS.CardListOf(cardLists, cards[k].columnId)
      ensures newPosition == PositionOf(BS.CardListOf(cardLists, cards[k].columnId), k)
      ensures published == old(published)
    {
      var t := BS.MoveCard(State(), k, column, row, position);
      BS.MoveCardConsistent(State(), k, column, row, position);
      cardLists, cards := t.cardLists, t.cards;
      newPosition := PositionOf(BS.CardListOf(cardLists, cards[k].columnId), k);
    }

    /** `reorder_cards`: the `before` text is read from the card's position
        and its column's name before the move; each blank target parameter
        is passed to `move_to` as `nil`. The diff carries the card with the
        position it reports after the move, which `BoardState.MoveCardPosition`
        relates to the requested one. */
    method ReorderCards(idParam: Param, columnParam: Param, rowParam: Param, positionParam: Param)
      returns (r: Response)
      requires Valid()
      modifies this
      ensures Valid()
      ensures ParamToI(idParam) !in old(cards) ==> r == Raised(RecordNotFound) && unchanged(this)
      ensures ParamToI(idParam) in old(cards) && old(cards)[ParamToI(idParam)].columnId !in old(columns) ==>
        r == Raised(NilReceiver) && unchanged(this)
      ensures ParamToI(idParam) in old(cards) && old(cards)[ParamToI(idParam)].columnId in old(columns) ==>
        var k := ParamToI(idParam);
        var c := old(cards)[k].columnId;
        && k in BS.CardListOf(old(cardLists), c)
        && State() == BS.MoveCard(old(State()), k, Target(columnParam), Target(rowParam), Target(positionParam))
        && k in BS.CardListOf(cardLists, cards[k].columnId)
        && r == Synced(Diff(MoveCardSync,
                            MovedCardSubject(cards[k], PositionOf(BS.CardListOf(cardLists, cards[k].columnId), k)),
                            BeforeText(CardBefore(PositionOf(BS.CardListOf(old(cardLists), c), k), old(columns)[c].name))))
        && published == old(published) + [r.diff]
    {
      var k := ParamToI(idParam);
      if k !in cards {
        r := Raised(RecordNotFound);
        return;
      }
      var c := cards[k].columnId;
      if c !in columns {
        r := Raised(NilReceiver);
        return;
      }
      assert k in BS.CardListOf(cardLists, c);
      var before := CardBefore(PositionOf(BS.CardListOf(cardLists, c), k), columns[c].name);
      var position := MoveCardTo(k, Target(columnParam), Target(rowParam), Target(positionParam));
      r := Publish(Diff(MoveCardSync, MovedCardSubject(cards[k], position), BeforeText(before)));
    }

    /** `remove_card`: `remove_from_list`, then `delete`. */
    method RemoveCard(idParam: Param) returns (r: Response)
      requires Valid()
      modifies this
      ensures Valid()
      ensures ParamToI(idParam) !in old(cards) ==> r == Raised(RecordNotFound) && unchanged(this)
      ensures ParamToI(idParam) in old(cards) ==>
        var k := ParamToI(idParam);
        var c := old(cards)[k].columnId;
        && State() == BS.DropCard(old(State()), k)
        && k !in cards && |BS.CardListOf(cardLists, c)| == |BS.CardListOf(old(cardLists), c)| - 1
        && r == Synced(Diff(DeleteCardSync, CardSubject(old(cards)[k]), NoBefore))
        && published == old(published) + [r.diff]
    {
      var k := ParamToI(idParam);
      if k !in cards {
        r := Raised(RecordNotFound);
        return;
      }
      var card := cards[k];
      var t := BS.DropCard(State(), k);
      BS.DropCardConsistent(State(), k);
      cardLists := t.cardLists;
      cards := t.cards;
      r := Publish(Diff(DeleteCardSync, CardSubject(card), NoBefore));
    }
  }

  /** `add_taskboard`: without a project id nothing is created and the
      flash says so; otherwise a taskboard with the given name (the default
      one when blank), one column and one row is created. */
  method AddTaskboard(id: Id, projectParam: Param, nameParam: Param) returns (board: Board?, flash: Option<string>)
    ensures board == null <==> IsBlank(projectParam)
    ensures board == null ==> flash == Some(ProjectIdMissing)
    ensures board != null ==>
      && flash == None && fresh(board) && board.Valid()
      && board.id == id && board.projectId == ParamToI(projectParam)
      && board.name == (if IsBlank(nameParam) then DefaultTaskboardName else nameParam.value)
      && |board.columnOrder| == 1 && (forall c :: c in board.columns ==> board.columns[c].name == Some(DefaultColumnName))
      && |board.rowOrder| == 1 && (forall k :: k in board.rows ==> board.rows[k].name == DefaultRowName)
      && board.cards == map[] && board.published == []
  {
    if IsBlank(projectParam) {
      board := null;
      flash := Some(ProjectIdMissing);
    } else {
      var taskboardName := if IsBlank(nameParam) then DefaultTaskboardName else nameParam.value;
      board := new Board(id, ParamToI(projectParam), taskboardName);
      flash := None;
    }
  }
}
