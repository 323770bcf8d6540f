/**
 What an action answers and publishes: a diff of the given kind about the
 changed record together with its value before the change, the bare success
 answer of a card-add that added nothing, an error payload, or an exception
 the action does not rescue.
 */
module Sync {
  import opened Params
  import opened Ordering
  import opened Records

  /** One kind per `sync_*` helper the controller calls. */
  datatype SyncKind =
    | RenameTaskboardSync | AddColumnSync | MoveColumnSync | RenameColumnSync | DeleteColumnSync
    | AddRowSync | DeleteRowSync | AddCardsSync | MoveCardSync | DeleteCardSync

  /** The record (or, for a card import, the records) a diff is about. A
      moved column or card comes with the position it reports after the
      move. */
  datatype Subject =
    | TaskboardSubject(taskboardId: Id, name: string)
    | ColumnSubject(column: Column)
    | MovedColumnSubject(column: Column, position: int)
    | RowSubject(row: Row)
    | CardSubject(card: Card)
    | MovedCardSubject(card: Card, position: int)
    | CardsSubject(cards: seq<Card>)

  /** The `before` entry of a diff. */
  datatype Before =
    | NoBefore
    | BeforeName(name: Option<string>)
    | BeforePosition(position: int)
    | BeforeText(text: string)

  datatype Diff = Diff(kind: SyncKind, subject: Subject, before: Before)

  /** Exceptions an action lets escape: a `find` of an id with no record,
      and a method called on `nil`. */
  datatype Failure = RecordNotFound | NilReceiver

  datatype Response =
    | Synced(diff: Diff)
    | Success
    | Error(message: string)
    | Raised(failure: Failure)

  /** The text of an absent name when interpolated into a string. */
  function NameText(name: Option<string>): string {
    if name.Some? then name.value else ""
  }

  /** The `before` text of a card move: `"<position> @ <column name>"`. */
  function CardBefore(position: int, columnName: Option<string>): string {
    ShowInt(position) + " @ " + NameText(columnName)
  }

  /** The card-move `before` text carries both facts recoverably: `to_i`
      reads the old position back, and the column name is what follows the
      ` @ ` separator. */
  lemma CardBeforeReadsBack(position: int, columnName: Option<string>)
    ensures ToI(CardBefore(position, columnName)) == position
    ensures var t := CardBefore(position, columnName);
      var n := |ShowInt(position)|;
      |t| >= n + 3 && t[n..n + 3] == " @ " && t[n + 3..] == NameText(columnName)
  {
    var rest := " @ " + NameText(columnName);
    assert CardBefore(position, columnName) == ShowInt(position) + rest;
    ToIOfShow(position, rest);
  }
}
