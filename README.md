# Taskboard controller, modelled in Dafny

This project models the actions of the taskboard controller of Taskboard, a
Rails application for team task boards. A taskboard has ordered columns, ordered
rows (swimlanes), and cards. Each card sits in one column's card list and is
tagged with a row. The controller's actions create and rename taskboards, add,
move, rename and remove columns, add and remove rows, and add, move and remove
cards. Each action on an existing taskboard publishes the diff of its change
on the taskboard's synchronisation channel. Most also answer the request with
that diff. Two actions differ. add_taskboard publishes nothing and redirects.
add_card publishes the column it creates when no column id is given, but
answers with an error, a bare success or the diff of the added cards. The card-add
action can import several cards at once from an issue tracker or a web page.
It drops the ones whose issue key is already on the taskboard and puts the rest
on top of the target column.

Modules:

- `Params` models request parameters: `nil` or a string. It gives Rails'
  `blank?`, the controller's own "nil or empty" test, Ruby's `String#to_i`, and
  integer rendering.
- `Ordering` models the list-position primitives the controller calls
  (`insert_at`, `remove_from_list`, `position`). Each ordered list is a sequence
  of ids, and a record's position is its index plus one.
- `Records` holds the column, row, card and import-candidate records.
- `Import` is the pure part of card-add: the duplicate-key filter, stamping the
  survivors into cards, and repeated insertion at position 1.
- `BoardState` is the stored state of one taskboard as a value. It defines the
  consistency invariant and the state change of each step an action takes. A
  step is often two calls fused: `save!` then `insert_at` for a new column, row
  or card, and `remove_from_list` then `delete` for a removal. The others are a
  column's `save!` after a rename, `insert_at` on a listed column, and
  `move_to`. For each step a lemma proves that consistency is kept.
- `Sync` holds the diffs and the action responses.
- `Controller` has the class `Board`. It keeps the taskboard's state in fields
  that its methods update in place, one method per action. Each method is proved
  against the transitions of `BoardState`. The module-level lemmas state what
  card-add does to the board.

The fetchers for issue trackers and web pages become a `Lookup` argument of
`AddCard`. It says whether the name was literal text, which candidate cards were
fetched, or which message the failed fetch raised.

## Model

| member | source | states |
|---|---|---|
| Params.IsBlank | app/controllers/taskboard_controller.rb:179-181 | `blank?` holds for `nil` and for `""`, and fails for any string that starts with a non-space character |
| Params.IsMissing | app/controllers/taskboard_controller.rb:128 | a parameter that card-add treats as missing (`nil` or `""`) is also blank |
| Params.BlankButNotMissing | app/controllers/taskboard_controller.rb:179 | a non-empty all-space parameter is blank, so reorder_cards ignores it, but it is not missing, so card-add reads it as an id |
| Params.ToI | app/controllers/taskboard_controller.rb:83 | `String#to_i` reads an all-space string as 0, and gives a negative number only when a minus sign follows the leading spaces |
| Params.ParamToI | app/controllers/taskboard_controller.rb:76 | `to_i` of a parameter is 0 for every blank parameter, `nil` included, and the string's `to_i` otherwise |
| Params.ToIOfDigits | app/controllers/taskboard_controller.rb:124 | `to_i` of a digit string followed by a non-digit is the digits' decimal value |
| Params.ToIOfNegatedDigits | app/controllers/taskboard_controller.rb:83 | `to_i` of `-` followed by digits is the negated value, so a negative position parameter reaches `insert_at` as a negative number |
| Params.ToIOfShow | app/controllers/taskboard_controller.rb:178 | `to_i` reads back an integer rendered into text, whatever non-digit text follows it |
| Ordering.Remove | app/controllers/taskboard_controller.rb:103 | `remove_from_list` leaves exactly the other ids, the removed id is gone, and an unlisted id leaves the list unchanged |
| Ordering.PositionOf | app/controllers/taskboard_controller.rb:82 | a record's position is the 1-based index where it is listed, and it occurs nowhere earlier |
| Ordering.RemoveAt | app/controllers/taskboard_controller.rb:103 | in a list without duplicates, `remove_from_list` cuts out exactly the record's slot |
| Ordering.InsertAt | app/controllers/taskboard_controller.rb:83 | after `insert_at` the record is listed, whether or not it was before |
| Ordering.InsertAtPosition | app/controllers/taskboard_controller.rb:83 | after `insert_at(p)` the record is listed at `p` clamped to `1..n+1`, the list holds exactly the old ids and the record, and it is one longer than the old list without the record |
| Ordering.InsertAtIndex | app/controllers/taskboard_controller.rb:83 | after `insert_at(p)` each slot holds the other ids before the clamped position, the record at it, and the remaining others after it |
| Ordering.InsertAtKeepsOthers | app/controllers/taskboard_controller.rb:83 | `insert_at` keeps every other record in its old relative order |
| Ordering.InsertAtDistinct | app/controllers/taskboard_controller.rb:83 | `insert_at` never lists a record twice |
| Ordering.InsertAtCurrentPosition | app/controllers/taskboard_controller.rb:83 | moving a record to the position it already holds changes nothing |
| Ordering.InsertThenRemove | app/controllers/taskboard_controller.rb:206 | inserting a new record and then removing it gives back the original list |
| Ordering.InsertAtFront | app/controllers/taskboard_controller.rb:206 | `insert_at(1)` of a new record puts it before all others |
| Ordering.InsertAtEnd | app/controllers/taskboard_controller.rb:211-214 | `insert_at(size + 1)` of a new record appends it |
| Import.KnownIssues | app/controllers/taskboard_controller.rb:156 | the known keys are exactly the non-`nil` issue keys of the taskboard's cards |
| Import.Survivors | app/controllers/taskboard_controller.rb:158-159 | every kept candidate was fetched and passes the filter (no key, or a key not yet known) |
| Import.SurvivorsCount | app/controllers/taskboard_controller.rb:158-159 | each candidate is kept as often as it was fetched if it passes the filter, and not at all otherwise |
| Import.SurvivorsConcat | app/controllers/taskboard_controller.rb:158-159 | the filter keeps fetch order: it distributes over concatenation |
| Import.KeylessCandidateSurvives | app/controllers/taskboard_controller.rb:159 | a candidate without an issue key is never dropped |
| Import.KnownIssueDropped | app/controllers/taskboard_controller.rb:159 | a candidate whose key is already on the taskboard is always dropped |
| Import.SameBatchDuplicatesKept | app/controllers/taskboard_controller.rb:156-159 | the known keys are collected once before any insertion, so two fetched candidates sharing a new key are both kept |
| Import.LiteralCandidateAdded | app/controllers/taskboard_controller.rb:150 | a literal name always gives exactly one card of that name with no key |
| Import.StampAllAt | app/controllers/taskboard_controller.rb:160-164 | the i-th saved card has the i-th survivor's name and key, the target taskboard, column and row, and the i-th consecutive new id |
| Import.WithCardsAt | app/controllers/taskboard_controller.rb:164 | saving cards under fresh distinct ids keeps every old record and adds exactly the new ones |
| Import.PushEachOnTop | app/controllers/taskboard_controller.rb:160-166 | inserting new cards one by one at position 1 leaves them on top in reverse fetch order, with the old cards below in their old order |
| Import.LastAddedOnTop | app/controllers/taskboard_controller.rb:165 | the last card inserted ends up at position 1 |
| Import.SurvivorsKeysDistinct | app/controllers/taskboard_controller.rb:158-159 | filtering a batch with no repeated key leaves a batch with no repeated key |
| Import.ImportKeepsKeysUnique | app/controllers/taskboard_controller.rb:155-166 | if the taskboard's keys are unique and the batch repeats no key, the keys are still unique after the import |
| Import.RepeatedKeyInBatchIsDuplicated | app/controllers/taskboard_controller.rb:156-166 | a batch that repeats an unknown key stores two cards with the same key: the filter only checks against keys stored before the call |
| BoardState.CardInOneList | app/controllers/taskboard_controller.rb:191 | in a consistent board a card is listed in its own column's card list and in no other |
| BoardState.InsertColumnConsistent | app/controllers/taskboard_controller.rb:203-208 | saving a new column and inserting it keeps the board consistent |
| BoardState.InsertColumnPosition | app/controllers/taskboard_controller.rb:203-208 | the new column is listed at the requested position clamped to the list, the list grows by one, and the other columns keep their order |
| BoardState.InsertColumnFirst | app/controllers/taskboard_controller.rb:203 | a column inserted at the default position 1 comes first, followed by the old order |
| BoardState.MoveColumnConsistent | app/controllers/taskboard_controller.rb:80-85 | moving a column keeps the board consistent and leaves the column at the clamped requested position |
| BoardState.MoveColumnToCurrent | app/controllers/taskboard_controller.rb:83 | moving a column to its current position leaves the board unchanged |
| BoardState.RenameColumnConsistent | app/controllers/taskboard_controller.rb:90-92 | saving a renamed column keeps the board consistent, changes only that column's name, and keeps the column order |
| BoardState.DropColumnConsistent | app/controllers/taskboard_controller.rb:99-106 | removing a column from the list and then deleting it keeps the board consistent and shortens the order by one |
| BoardState.InsertRowConsistent | app/controllers/taskboard_controller.rb:210-216 | saving a new row and inserting it keeps the board consistent |
| BoardState.InsertRowLast | app/controllers/taskboard_controller.rb:211 | a row inserted at the default position `rows.size + 1` is appended |
| BoardState.DropRowConsistent | app/controllers/taskboard_controller.rb:113-120 | removing a row from the list and then deleting it keeps the board consistent and shortens the order by one |
| BoardState.PlaceNewCardConsistent | app/controllers/taskboard_controller.rb:164-165 | saving a card of this taskboard under the next id and inserting it in its column keeps the board consistent |
| BoardState.PlaceAllRecords | app/controllers/taskboard_controller.rb:160-166 | the import loop changes only the card store, the card lists and the next id; the store gains exactly the new cards |
| BoardState.PlaceAllConsistent | app/controllers/taskboard_controller.rb:160-166 | the import loop keeps the board consistent |
| BoardState.PlaceAllCardLists | app/controllers/taskboard_controller.rb:160-166 | the import loop changes only the target column's card list, pushing each new id at position 1 in turn |
| BoardState.PlaceAllOnTop | app/controllers/taskboard_controller.rb:160-166 | after the import loop the target column lists the new cards in reverse fetch order above its old cards |
| BoardState.MoveCard | app/controllers/taskboard_controller.rb:183 | the contract assumed for `move_to`: no card is added or removed, the moved card keeps its id, name and key and is listed in its new column's list, and columns and rows are untouched |
| BoardState.MoveCardPosition | app/controllers/taskboard_controller.rb:183 | the card lands at the requested position, or its old one when none is given, clamped to the target column's list without it; a move with neither a column nor a position keeps the card's position |
| BoardState.MoveCardList | app/controllers/taskboard_controller.rb:183 | after a move the target list has the card inserted at the position, the source list (if different) has it removed, and the others are unchanged |
| BoardState.MoveCardConsistent | app/controllers/taskboard_controller.rb:183 | a card move keeps the board consistent |
| BoardState.MoveCardAcrossConserves | app/controllers/taskboard_controller.rb:183 | a move to another column shrinks the source list by one and grows the target list by one |
| BoardState.MoveCardNowhere | app/controllers/taskboard_controller.rb:179-183 | a move with every target parameter blank leaves the board unchanged |
| BoardState.DropCardConsistent | app/controllers/taskboard_controller.rb:190-192 | removing a card from its list and then deleting it keeps the board consistent and shortens its column's list by one |
| Sync.CardBeforeReadsBack | app/controllers/taskboard_controller.rb:178 | the card-move `before` text gives back the old position through `to_i`, and the column name after the ` @ ` separator |
| Controller.NoRow | app/controllers/taskboard_controller.rb:136-137 | on a consistent board, `rows.first.id` fails on `nil` exactly when the row id is missing and the taskboard has no row record |
| Controller.TargetRow | app/controllers/taskboard_controller.rb:136-140 | a missing row id means the row at position 1; any other value is read with `to_i` |
| Controller.Target | app/controllers/taskboard_controller.rb:179-181 | a blank target parameter becomes `nil` and any other its `to_i`; a parameter read this way is never missing |
| Controller.AddCardOnTop | app/controllers/taskboard_controller.rb:160-166 | the cards card-add adds end up on top of the target column, the last fetched first, above the cards already there in their old order |
| Controller.AddCardAddsSurvivors | app/controllers/taskboard_controller.rb:155-166 | card-add adds one card per survivor in fetch order, with its name and key and the target column and row; each has no key or a key no earlier card had |
| Controller.AddCardKeepsKeysUnique | app/controllers/taskboard_controller.rb:155-166 | if the taskboard's keys are unique and the fetched batch repeats no key, they are still unique after card-add |
| Controller.AddTaskboard | app/controllers/taskboard_controller.rb:31-44 | a blank project id creates nothing and flashes the error; otherwise the new taskboard has the given name (the default if blank), the project id, one default column, one default row, and no cards |
| Controller.Board.constructor | app/controllers/taskboard_controller.rb:36-41 | a new taskboard is consistent, with one default column, one default row and no cards |
| Controller.Board.Publish | app/controllers/taskboard_controller.rb:84 | a `sync_*` call appends exactly its diff to the taskboard's channel and answers with it |
| Controller.Board.RenameTaskboard | app/controllers/taskboard_controller.rb:63-73 | a blank name answers the error and changes nothing; otherwise the name is saved and the diff carries the old name |
| Controller.Board.InsertColumn | app/controllers/taskboard_controller.rb:203-208 | the column is saved under the next id with the given name and inserted at the position; the board stays consistent |
| Controller.Board.AddColumn | app/controllers/taskboard_controller.rb:75-78 | a column named by the raw name parameter (even `nil`) is put first, and its diff is published and returned |
| Controller.Board.ReorderColumns | app/controllers/taskboard_controller.rb:80-85 | an unknown id raises RecordNotFound and changes nothing; otherwise the column lands at the clamped position, and the diff carries the column with that new position and its old position |
| Controller.Board.RenameColumn | app/controllers/taskboard_controller.rb:87-97 | an unknown id raises; a `nil` name raises on `empty?`; `""` answers the error; any other name, all-space included, is saved and the diff carries the old name |
| Controller.Board.RemoveColumn | app/controllers/taskboard_controller.rb:99-106 | an unknown id raises; otherwise the column leaves the order and the store, its cards stay stored, and the diff carries the old record |
| Controller.Board.InsertRow | app/controllers/taskboard_controller.rb:210-216 | the row is saved under the next id and inserted at the position, or appended when no position is given; the board stays consistent |
| Controller.Board.AddRow | app/controllers/taskboard_controller.rb:108-111 | a default-named row is appended and its diff is published and returned |
| Controller.Board.RemoveRow | app/controllers/taskboard_controller.rb:113-120 | an unknown id raises; otherwise the row leaves the order and the store, cards keep their row tags, and the diff carries the old record |
| Controller.Board.SaveCard | app/controllers/taskboard_controller.rb:164-165 | a card saved under the next id is inserted at the position in its column's list |
| Controller.Board.PlaceSurvivors | app/controllers/taskboard_controller.rb:160-166 | the loop saves the stamped survivors in fetch order, each inserted at position 1, and returns exactly those cards |
| Controller.Board.ResolveColumn | app/controllers/taskboard_controller.rb:128-134 | a missing column id creates a default column at position 1 and announces it; otherwise the id parameter's `to_i` is the target |
| Controller.Board.ResolveRow | app/controllers/taskboard_controller.rb:136-140 | the row step of card-add gives no row exactly when `rows.first` is `nil`, and otherwise the row `TargetRow` names |
| Controller.Board.ImportCards | app/controllers/taskboard_controller.rb:155-172 | the survivors of the key filter are placed; the answer is a bare success when none survived, else the published diff of the added cards |
| Controller.Board.AddCard | app/controllers/taskboard_controller.rb:122-174 | the column step runs first; no row id and no rows raises on `nil`; a failed fetch answers its message and adds no card; otherwise exactly the imported survivors are placed and the answer matches whether any survived; the board stays consistent |
| Controller.Board.MoveCardTo | app/controllers/taskboard_controller.rb:183 | the card is moved as `BoardState.MoveCard` describes, the board stays consistent, and the returned position is the card's place in its new column's list |
| Controller.Board.ReorderCards | app/controllers/taskboard_controller.rb:176-185 | an unknown card raises; a card whose column record is gone raises on `nil`; otherwise blank targets become `nil` and the card is moved; the diff carries the card with the position it then holds in its new column's list, which `BoardState.MoveCardPosition` gives as the requested one (its old one when blank) clamped to that list, and `"<old position> @ <column name>"` |
| Controller.Board.RemoveCard | app/controllers/taskboard_controller.rb:187-194 | an unknown id raises; otherwise the card leaves its column's list and the store, and the diff carries the old record |

## Left out

- The read-only actions (index, show, get_taskboard, load_burndown), clone_taskboard and the `authorize_read_only` filter are not part of this model.
- Rendering is reduced to a `Response` value. The JSON and text payloads, redirects and `send_error`'s escaping are not modelled.
- The issue-tracker and URL fetchers are foreign code. Their outcome is the `Lookup` argument of `AddCard`.
- The acts_as_list plugin and the Card, Column, Row and Taskboard models are not part of this model. `insert_at`, `remove_from_list` and `position` have the contracts in `Ordering`.
- `Card#move_to` is not part of this model either. `BoardState.MoveCard` states the contract assumed for it.
- The `sync_*` helpers are not part of this model. They are taken to publish one diff on the channel and return it.
- Only the move diffs carry the record's position. The add, rename and delete diffs carry the record without it. For an added record, the position is stated by the lemmas of the transition instead, such as `BoardState.InsertColumnPosition`.
- A `Board` is one taskboard. The `taskboard_id` parameter of add_column, add_row and add_card, and the `id` parameter of rename_taskboard, are taken to name that board. Other taskboard ids are not modelled. For an id with no record, add_column and the column step of add_card would save a column under it, while rename_taskboard, add_row and the later steps of add_card would raise in `Taskboard.find`.
- Records of other taskboards are not modelled. `Column.find`, `Row.find` and `Card.find` in reorder_columns, rename_column, remove_column, remove_row, reorder_cards and remove_card look ids up only among this board's records, so an id of another taskboard's record is modelled as not found (`Raised(RecordNotFound)`). The same holds for a card's column: reorder_cards can move a card to a column id that is not this board's. `card.column` then reaches a record the model does not hold, and the model answers `Raised(NilReceiver)` instead of reading that column's name and moving the card.
- Database ids come from one counter per board, `nextId`, shared by columns, rows and cards. The model only needs fresh, increasing ids.
- `save!` and `delete` never fail in the model. Database errors, validations and concurrent requests are not modelled.
- Controller.AddTaskboard: the taskboard's `project_id` is stored as the parameter's `to_i`, standing in for Rails' integer cast.
- The default names of new taskboards, columns and rows are constants of the model classes, which are not part of this model. The model uses placeholder strings, and nothing proved depends on their values.
- `Params.ToI` handles leading whitespace, a sign and decimal digits. Two forms Ruby's base-10 `String#to_i` also accepts are not modelled: underscores between digits, and a `0d`/`0D` prefix. For example, `"0d12".to_i` is 12 while `ToI("0d12")` is 0.
- The model assumes Ruby 1.9 or later, or Rails' whiny nils turned on, where `nil.id` raises. Under that assumption, `Controller.Board.AddCard` answers `Raised(NilReceiver)` when the row id is missing and the taskboard has no rows. On Ruby 1.8 with whiny nils off, `nil.id` is 4, so the cards would be saved with row id 4.
- The order of the individual `save!`, `insert_at`, `remove_from_list` and `delete` calls inside one action is only visible through the resulting state, not as a call sequence.
