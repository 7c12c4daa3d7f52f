/** The two Room entities: the `notes` table row and the `attachments` table
    row, whose `noteId` is a foreign key to `notes.id` with cascading delete. */
module Entities {

  /** Font-size bounds enforced by the editor's steppers. */
  const MinTitleSize := 12
  const MaxTitleSize := 40
  const MinContentSize := 10
  const MaxContentSize := 35

  /** Draft defaults, also the entity's column defaults. */
  const DefaultTitleSize := 20
  const DefaultContentSize := 16

  datatype Note = Note(
    id: int,
    title: string,
    content: string,
    isPriority: bool,
    timestamp: int,
    titleSize: int,
    contentSize: int)

  datatype Attachment = Attachment(id: int, noteId: int, fileUri: string)

  predicate SizesInRange(titleSize: int, contentSize: int) {
    MinTitleSize <= titleSize <= MaxTitleSize && MinContentSize <= contentSize <= MaxContentSize
  }
}
