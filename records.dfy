/**
 The records the controller reads and writes: taskboards' columns, rows and
 cards, and the candidate cards an import produces. Positions are not stored
 in the records; they are the records' places in the ordered id lists of
 `BoardState`.
 */
module Records {
  import opened Params
  import opened Ordering

  /** Default names of new records. The real values are constants of the
      Taskboard, Column and Row model classes, which are not part of this
      model; nothing proved here depends on what they are. */
  const DefaultTaskboardName: string := "Taskboard"
  const DefaultColumnName: string := "Column"
  const DefaultRowName: string := "Row"

  /** A column. Its name may be `nil`: the add-column action passes the
      request's `name` parameter through even when it is absent. */
  datatype Column = Column(id: Id, taskboardId: Id, name: Option<string>)

  /** A row (swimlane). */
  datatype Row = Row(id: Id, taskboardId: Id, name: string)

  /** A card, placed in the column `columnId` and tagged with the row `rowId`;
      `issue` is the key of the external issue it was imported from. */
  datatype Card = Card(id: Id, taskboardId: Id, columnId: Id, rowId: Id,
                       name: Option<string>, issue: Option<string>)

  /** A card proposed by an import, not yet saved: a name and, for cards
      fetched from an issue tracker, the issue key. */
  datatype Candidate = Candidate(name: Option<string>, issue: Option<string>)
}
