/** The note database and the view model's multi-step writes over it.
    The `notes` table is a map from primary key to row; the `attachments`
    table is the sequence of its rows in rowid order. Attachment ids are
    assigned by autoincrement; a new note's id is supplied by the caller,
    who picks one the table does not hold. */
module Store {
  import opened Entities
  import opened Lists
  import opened Listing

  /** The rows of `rows` that belong to note `noteId`, in order
      (`SELECT * FROM attachments WHERE noteId = :noteId`). */
  function RowsOf(rows: seq<Attachment>, noteId: int): seq<Attachment> {
    if rows == [] then []
    else
      var last := rows[|rows| - 1];
      RowsOf(rows[..|rows| - 1], noteId) + if last.noteId == noteId then [last] else []
  }

  /** The rows a note selects are exactly the rows whose `noteId` is that note. */
  lemma {:induction false} RowsOfMembership(rows: seq<Attachment>, noteId: int)
    ensures forall a :: a in RowsOf(rows, noteId) <==> a in rows && a.noteId == noteId
  {
    if rows != [] {
      var init := rows[..|rows| - 1];
      RowsOfMembership(init, noteId);
      assert rows == init + [rows[|rows| - 1]];
    }
  }

  /** The rows of `rows` that do not belong to note `noteId`
      (what `DELETE FROM attachments WHERE noteId = :noteId` leaves). */
  function RowsNotOf(rows: seq<Attachment>, noteId: int): seq<Attachment> {
    if rows == [] then []
    else
      var last := rows[|rows| - 1];
      RowsNotOf(rows[..|rows| - 1], noteId) + if last.noteId != noteId then [last] else []
  }

  /** The rows inserted for `uris`, one each, tagged with `noteId`, with
      consecutive ids from `firstId`. */
  function NewRows(noteId: int, uris: seq<string>, firstId: int): (r: seq<Attachment>)
    ensures |r| == |uris|
  {
    if uris == [] then []
    else NewRows(noteId, uris[..|uris| - 1], firstId) + [Attachment(firstId + |uris| - 1, noteId, uris[|uris| - 1])]
  }

  function UrisOf(rows: seq<Attachment>): (r: seq<string>)
    ensures |r| == |rows|
    ensures forall i :: 0 <= i < |rows| ==> r[i] == rows[i].fileUri
  {
    seq(|rows|, i requires 0 <= i < |rows| => rows[i].fileUri)
  }

  lemma {:induction false} RowsOfAppend(a: seq<Attachment>, b: seq<Attachment>, noteId: int)
    ensures RowsOf(a + b, noteId) == RowsOf(a, noteId) + RowsOf(b, noteId)
  {
    if b == [] {
      assert a + b == a;
    } else {
      var b' := b[..|b| - 1];
      assert (a + b)[..|a + b| - 1] == a + b';
      RowsOfAppend(a, b', noteId);
    }
  }

  /** Deleting a note's rows leaves none of them and keeps every other
      note's rows as they were. */
  lemma {:induction false} RowsOfRowsNotOf(rows: seq<Attachment>, deleted: int, noteId: int)
    ensures RowsOf(RowsNotOf(rows, deleted), noteId) == if noteId == deleted then [] else RowsOf(rows, noteId)
  {
    if rows != [] {
      var init, last := rows[..|rows| - 1], rows[|rows| - 1];
      RowsOfRowsNotOf(init, deleted, noteId);
      RowsOfAppend(RowsNotOf(init, deleted), if last.noteId != deleted then [last] else [], noteId);
    }
  }

  /** Freshly inserted rows belong to their note only. */
  lemma {:induction false} RowsOfNewRows(noteId: int, uris: seq<string>, firstId: int, other: int)
    ensures RowsOf(NewRows(noteId, uris, firstId), other) == if other == noteId then NewRows(noteId, uris, firstId) else []
  {
    if uris != [] {
      var init := uris[..|uris| - 1];
      var row := Attachment(firstId + |uris| - 1, noteId, uris[|uris| - 1]);
      RowsOfNewRows(noteId, init, firstId, other);
      RowsOfAppend(NewRows(noteId, init, firstId), [row], other);
    }
  }

  /** The rows inserted for `uris` carry exactly `uris`, in order. */
  lemma {:induction false} UrisOfNewRows(noteId: int, uris: seq<string>, firstId: int)
    ensures UrisOf(NewRows(noteId, uris, firstId)) == uris
  {
    if uris != [] {
      var init := uris[..|uris| - 1];
      UrisOfNewRows(noteId, init, firstId);
      var rows := NewRows(noteId, uris, firstId);
      assert rows[..|rows| - 1] == NewRows(noteId, init, firstId);
      forall i | 0 <= i < |uris| ensures UrisOf(rows)[i] == uris[i] {
        if i < |uris| - 1 {
          assert rows[i] == NewRows(noteId, init, firstId)[i];
          assert UrisOf(NewRows(noteId, init, firstId))[i] == init[i];
        }
      }
    }
  }

  /** A note no row refers to has no attachments. */
  lemma {:induction false} RowsOfAbsent(rows: seq<Attachment>, noteId: int)
    requires forall i :: 0 <= i < |rows| ==> rows[i].noteId != noteId
    ensures RowsOf(rows, noteId) == []
  {
    if rows != [] {
      RowsOfAbsent(rows[..|rows| - 1], noteId);
    }
  }

  lemma NonEmptyHasKey(keys: set<int>)
    requires |keys| > 0
    ensures exists k :: k in keys
  {
    if forall k :: k !in keys {
      assert false;
    }
  }

  /** Attachment ids increase in rowid order. */
  ghost predicate IdsIncreasing(rows: seq<Attachment>) {
    forall i, j :: 0 <= i < j < |rows| ==> rows[i].id < rows[j].id
  }

  /** The note and attachment tables with the DAO operations and the view
      model's writes. */
  class NoteStore {
    var notes: map<int, Note>
    var attachments: seq<Attachment>
    var nextAttachmentId: int

    /** Each row sits under its own primary key, every attachment refers to
        an existing note (the foreign key), and attachment ids increase in
        rowid order and stay below the autoincrement counter. */
    ghost predicate Valid()
      reads this
    {
      && (forall k :: k in notes ==> notes[k].id == k)
      && (forall i :: 0 <= i < |attachments| ==> attachments[i].noteId in notes)
      && IdsIncreasing(attachments)
      && (forall i :: 0 <= i < |attachments| ==> attachments[i].id < nextAttachmentId)
    }

    /** `getAttachments(noteId)` */
    function AttachmentsFor(noteId: int): (r: seq<Attachment>)
      reads this`attachments
      ensures forall a {:trigger a in r} :: a in r <==> a in attachments && a.noteId == noteId
    {
      RowsOfMembership(attachments, noteId);
      RowsOf(attachments, noteId)
    }

    /** The file paths of note `noteId`'s attachments, as the editor shows them. */
    function UrisFor(noteId: int): seq<string>
      reads this`attachments
    {
      UrisOf(AttachmentsFor(noteId))
    }

    constructor ()
      ensures Valid()
      ensures notes == map[] && attachments == [] && nextAttachmentId == 1
    {
      notes := map[];
      attachments := [];
      nextAttachmentId := 1;
    }

    /** `NoteDao.insert` with `OnConflictStrategy.REPLACE`. A row with the same
        id is deleted first, and the foreign key's ON DELETE CASCADE removes
        that note's attachments with it; then the new row is inserted. */
    method InsertNote(n: Note)
      requires Valid()
      modifies this
      ensures Valid()
      ensures notes == old(notes)[n.id := n]
      ensures attachments == if n.id in old(notes) then RowsNotOf(old(attachments), n.id) else old(attachments)
      ensures nextAttachmentId == old(nextAttachmentId)
    {
      if n.id in notes {
        DeleteAttachmentsForNote(n.id);
      }
      notes := notes[n.id := n];
    }

    /** `AttachmentDao.insert` of a row with an autogenerated id. The foreign
        key requires the owning note to exist. */
    method InsertAttachment(noteId: int, fileUri: string)
      requires Valid() && noteId in notes
      modifies this
      ensures Valid()
      ensures attachments == old(attachments) + [Attachment(old(nextAttachmentId), noteId, fileUri)]
      ensures nextAttachmentId == old(nextAttachmentId) + 1
      ensures notes == old(notes)
    {
      attachments := attachments + [Attachment(nextAttachmentId, noteId, fileUri)];
      nextAttachmentId := nextAttachmentId + 1;
    }

    /** `deleteAttachmentsForNote(noteId)` */
    method DeleteAttachmentsForNote(noteId: int)
      requires Valid()
      modifies this
      ensures Valid()
      ensures attachments == RowsNotOf(old(attachments), noteId)
      ensures forall other :: AttachmentsFor(other) == if other == noteId then [] else old(AttachmentsFor(other))
      ensures notes == old(notes) && nextAttachmentId == old(nextAttachmentId)
    {
      RowsNotOfKeeps(attachments, noteId);
      attachments := RowsNotOf(attachments, noteId);
      forall other ensures AttachmentsFor(other) == if other == noteId then [] else old(AttachmentsFor(other)) {
        RowsOfRowsNotOf(old(attachments), noteId, other);
      }
    }

    /** `RowsNotOf` keeps some of the rows, none of note `noteId`, in their
        order, so the table invariant survives it. */
    static lemma {:induction false} RowsNotOfKeeps(rows: seq<Attachment>, noteId: int)
      ensures forall x :: x in RowsNotOf(rows, noteId) ==> x in rows && x.noteId != noteId
      ensures IdsIncreasing(rows) ==> IdsIncreasing(RowsNotOf(rows, noteId))
    {
      if rows != [] {
        var init := rows[..|rows| - 1];
        RowsNotOfKeeps(init, noteId);
        forall x | x in init ensures x in rows {
          var k :| 0 <= k < |init| && init[k] == x;
          assert rows[k] == x;
        }
        if IdsIncreasing(rows) {
          var ri := RowsNotOf(init, noteId);
          forall i | 0 <= i < |ri| ensures ri[i].id < rows[|rows| - 1].id {
            assert ri[i] in init;
            var k :| 0 <= k < |init| && init[k] == ri[i];
            assert rows[k] == ri[i];
          }
        }
      }
    }

    /** The `forEach` loop that inserts one attachment row per path. */
    method InsertAttachments(noteId: int, uris: seq<string>)
      requires Valid() && noteId in notes
      modifies this
      ensures Valid()
      ensures attachments == old(attachments) + NewRows(noteId, uris, old(nextAttachmentId))
      ensures nextAttachmentId == old(nextAttachmentId) + |uris|
      ensures notes == old(notes)
    {
      var i := 0;
      while i < |uris|
        invariant 0 <= i <= |uris|
        invariant Valid()
        invariant attachments == old(attachments) + NewRows(noteId, uris[..i], old(nextAttachmentId))
        invariant nextAttachmentId == old(nextAttachmentId) + i
        invariant notes == old(notes)
      {
        assert uris[..i + 1][..i] == uris[..i];
        InsertAttachment(noteId, uris[i]);
        i := i + 1;
      }
      assert uris[..i] == uris;
    }

    /** `NoteDao.delete`: removes the row with the note's primary key, and the
        foreign key's cascade removes its attachments. */
    method DeleteNote(n: Note)
      requires Valid()
      modifies this
      ensures Valid()
      ensures notes == old(notes) - {n.id}
      ensures attachments == RowsNotOf(old(attachments), n.id)
      ensures AttachmentsFor(n.id) == []
      ensures forall other :: other != n.id ==> AttachmentsFor(other) == old(AttachmentsFor(other))
      ensures nextAttachmentId == old(nextAttachmentId)
    {
      DeleteAttachmentsForNote(n.id);
      RowsNotOfKeeps(old(attachments), n.id);
      notes := notes - {n.id};
    }

    /** `saveNote`: inserts a new note stamped `now`, then one attachment row
        per distinct path, tagged with the new note's id. */
    method SaveNote(title: string, content: string, isPriority: bool, titleSize: int, contentSize: int,
                    uris: seq<string>, freshId: int, now: int) returns (noteId: int)
      requires Valid() && freshId !in notes
      modifies this
      ensures Valid()
      ensures noteId == freshId
      ensures notes == old(notes)[noteId := Note(noteId, title, content, isPriority, now, titleSize, contentSize)]
      ensures attachments == old(attachments) + NewRows(noteId, Distinct(uris), old(nextAttachmentId))
      ensures UrisFor(noteId) == Distinct(uris)
      ensures forall other :: other != noteId ==> AttachmentsFor(other) == old(AttachmentsFor(other))
    {
      noteId := freshId;
      InsertNote(Note(noteId, title, content, isPriority, now, titleSize, contentSize));
      ghost var before := attachments;
      RowsOfAbsent(before, noteId);
      InsertAttachments(noteId, Distinct(uris));
      NewRowsBelongTo(before, noteId, Distinct(uris), old(nextAttachmentId));
    }

    /** Appending fresh rows for `noteId` to a table gives that note those
        rows on top of its old ones, and leaves every other note's rows
        alone. */
    static lemma NewRowsBelongTo(before: seq<Attachment>, noteId: int, uris: seq<string>, firstId: int)
      ensures RowsOf(before + NewRows(noteId, uris, firstId), noteId) == RowsOf(before, noteId) + NewRows(noteId, uris, firstId)
      ensures forall other :: other != noteId ==> RowsOf(before + NewRows(noteId, uris, firstId), other) == RowsOf(before, other)
      ensures RowsOf(before, noteId) == [] ==> UrisOf(RowsOf(before + NewRows(noteId, uris, firstId), noteId)) == uris
    {
      var added := NewRows(noteId, uris, firstId);
      forall other ensures RowsOf(before + added, other) == RowsOf(before, other) + (if other == noteId then added else []) {
        RowsOfAppend(before, added, other);
        RowsOfNewRows(noteId, uris, firstId, other);
      }
      UrisOfNewRows(noteId, uris, firstId);
    }

    /** `updateNote`: rewrites the note row, deletes all of its attachment
        rows, then inserts one row per distinct path: the note's attachments
        are replaced outright. */
    method UpdateNote(note: Note, uris: seq<string>)
      requires Valid()
      modifies this
      ensures Valid()
      ensures notes == old(notes)[note.id := note]
      ensures attachments == RowsNotOf(old(attachments), note.id) + NewRows(note.id, Distinct(uris), old(nextAttachmentId))
      ensures UrisFor(note.id) == Distinct(uris)
      ensures forall other :: other != note.id ==> AttachmentsFor(other) == old(AttachmentsFor(other))
    {
      InsertNote(note);
      DeleteAttachmentsForNote(note.id);
      ghost var before := attachments;
      assert before == RowsNotOf(old(attachments), note.id) by {
        if note.id in old(notes) {
          RowsNotOfTwice(old(attachments), note.id);
        }
      }
      assert RowsOf(before, note.id) == [] by {
        RowsOfRowsNotOf(old(attachments), note.id, note.id);
      }
      InsertAttachments(note.id, Distinct(uris));
      NewRowsBelongTo(before, note.id, Distinct(uris), old(nextAttachmentId));
      forall other | other != note.id ensures AttachmentsFor(other) == old(AttachmentsFor(other)) {
        RowsOfRowsNotOf(old(attachments), note.id, other);
      }
    }

    static lemma {:induction false} RowsNotOfTwice(rows: seq<Attachment>, noteId: int)
      ensures RowsNotOf(RowsNotOf(rows, noteId), noteId) == RowsNotOf(rows, noteId)
    {
      if rows != [] {
        var init, last := rows[..|rows| - 1], rows[|rows| - 1];
        RowsNotOfTwice(init, noteId);
        RowsNotOfAppend(RowsNotOf(init, noteId), if last.noteId != noteId then [last] else [], noteId);
      }
    }

    static lemma {:induction false} RowsNotOfAppend(a: seq<Attachment>, b: seq<Attachment>, noteId: int)
      ensures RowsNotOf(a + b, noteId) == RowsNotOf(a, noteId) + RowsNotOf(b, noteId)
    {
      if b == [] {
        assert a + b == a;
      } else {
        var b' := b[..|b| - 1];
        assert (a + b)[..|a + b| - 1] == a + b';
        RowsNotOfAppend(a, b', noteId);
      }
    }

    /** `getAllNotes()`: every stored note once, in listing order. */
    method AllNotes() returns (listing: seq<Note>)
      requires Valid()
      ensures InListingOrder(listing)
      ensures |listing| == |notes|
      ensures forall n :: n in listing <==> n.id in notes && notes[n.id] == n
    {
      var rows: seq<Note> := [];
      var pending := notes.Keys;
      while |pending| > 0
        invariant pending <= notes.Keys
        invariant |rows| + |pending| == |notes|
        invariant forall n :: n in rows ==> n.id in notes && notes[n.id] == n && n.id !in pending
        invariant forall k :: k in notes && k !in pending ==> notes[k] in rows
        decreases |pending|
      {
        NonEmptyHasKey(pending);
        var k :| k in pending;
        rows := rows + [notes[k]];
        pending := pending - {k};
      }
      listing := SortForListing(rows);
      assert forall n :: n in listing <==> n in multiset(listing);
      assert forall n :: n in rows <==> n in multiset(rows);
    }
  }
}
