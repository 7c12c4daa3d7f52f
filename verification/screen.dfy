/** The state of the main screen and its event handlers: which page is
    shown, the note dialog and its draft, and the search bar. Each handler
    is a method; it may run only while its control is on screen, which its
    `requires` says. The current time and the id the database will give a
    new note are passed in. */
module Screen {
  import opened Entities
  import opened Text
  import opened Lists
  import opened Search
  import opened Store

  /** `currentScreen`: "list" or "settings". */
  datatype Page = ListPage | SettingsPage

  datatype Option<T> = None | Some(value: T)

  /** The dialog's working copy of a note. */
  datatype Draft = Draft(
    title: string,
    text: string,
    isPinned: bool,
    titleSize: int,
    contentSize: int,
    uris: seq<string>,
    editing: Option<Note>)

  /** The draft the "new note" button starts from. */
  const BlankDraft := Draft("", "", false, DefaultTitleSize, DefaultContentSize, [], None)

  class MainScreen {
    const store: NoteStore
    var currentScreen: Page
    var isDialogOpen: bool
    var noteTitle: string
    var noteText: string
    var isPinned: bool
    var titleSize: int
    var contentSize: int
    var selectedUris: seq<string>
    var editingNote: Option<Note>
    var searchQuery: string
    var isSearchActive: bool

    /** The store is consistent, and the draft's font sizes, like those of
        every stored note, lie within the steppers' bounds. */
    ghost predicate Valid()
      reads this, store
    {
      && store.Valid()
      && SizesInRange(titleSize, contentSize)
      && forall id :: id in store.notes ==> SizesInRange(store.notes[id].titleSize, store.notes[id].contentSize)
    }

    function CurrentDraft(): Draft
      reads this
    {
      Draft(noteTitle, noteText, isPinned, titleSize, contentSize, selectedUris, editingNote)
    }

    /** The row a save writes for note `id` at time `now`. */
    function DraftAsNote(id: int, now: int): Note
      reads this
    {
      Note(id, noteTitle, noteText, isPinned, now, titleSize, contentSize)
    }

    /** The note a save writes to: the one being edited, or a new one. */
    function SaveTarget(freshId: int): int
      reads this
    {
      match editingNote
      case None => freshId
      case Some(cur) => cur.id
    }

    /** What the save action does to the store: nothing for a blank draft;
        otherwise the target row becomes the draft, stamped `now`, its
        attachments become the draft's distinct paths, and no other note's
        attachments change. */
    twostate predicate SavedDraft(now: int, freshId: int)
      reads this, store
    {
      if IsBlank(old(noteText)) && IsBlank(old(noteTitle)) then
        store.notes == old(store.notes) && store.attachments == old(store.attachments)
      else
        var target := old(SaveTarget(freshId));
        && store.notes == old(store.notes)[target := old(DraftAsNote(target, now))]
        && store.UrisFor(target) == Distinct(old(selectedUris))
        && forall other :: other != target ==> store.AttachmentsFor(other) == old(store.AttachmentsFor(other))
    }

    constructor (store: NoteStore)
      requires store.Valid()
      requires forall id :: id in store.notes ==> SizesInRange(store.notes[id].titleSize, store.notes[id].contentSize)
      ensures Valid() && this.store == store
      ensures currentScreen == ListPage && !isDialogOpen && !isSearchActive && searchQuery == ""
      ensures CurrentDraft() == BlankDraft
    {
      this.store := store;
      currentScreen := ListPage;
      isDialogOpen := false;
      noteTitle, noteText, isPinned := "", "", false;
      titleSize, contentSize := DefaultTitleSize, DefaultContentSize;
      selectedUris := [];
      editingNote := None;
      searchQuery := "";
      isSearchActive := false;
    }

    /** `saveAction`: writes the draft when its title or content is not
        blank, as a new note or over the note being edited, and closes the
        dialog in every case. */
    method SaveAction(now: int, freshId: int)
      requires Valid() && freshId !in store.notes
      modifies this, store
      ensures Valid()
      ensures !isDialogOpen
      ensures SavedDraft(now, freshId)
      ensures CurrentDraft() == old(CurrentDraft())
      ensures currentScreen == old(currentScreen) && searchQuery == old(searchQuery) && isSearchActive == old(isSearchActive)
    {
      if !IsBlank(noteText) || !IsBlank(noteTitle) {
        match editingNote
        case None =>
          var _ := store.SaveNote(noteTitle, noteText, isPinned, titleSize, contentSize, selectedUris, freshId, now);
        case Some(cur) =>
          var edited := cur.(title := noteTitle, content := noteText, isPriority := isPinned,
                             timestamp := now, titleSize := titleSize, contentSize := contentSize);
          assert edited == DraftAsNote(cur.id, now);
          store.UpdateNote(edited, selectedUris);
      }
      isDialogOpen := false;
    }

    /** The system back gesture. The handler is enabled only on the settings
        page, while searching, or while the dialog is open; otherwise the
        platform handles the gesture and the screen is left as it is. */
    method Back(now: int, freshId: int) returns (handled: bool)
      requires Valid() && freshId !in store.notes
      modifies this, store
      ensures Valid()
      ensures handled == (old(currentScreen) == SettingsPage || old(isSearchActive) || old(isDialogOpen))
      ensures CurrentDraft() == old(CurrentDraft())
      ensures !isDialogOpen
      ensures old(isDialogOpen) ==>
        (SavedDraft(now, freshId) && currentScreen == old(currentScreen)
         && isSearchActive == old(isSearchActive) && searchQuery == old(searchQuery))
      ensures !old(isDialogOpen) ==> store.notes == old(store.notes) && store.attachments == old(store.attachments)
      ensures !old(isDialogOpen) && old(isSearchActive) ==>
        !isSearchActive && searchQuery == "" && currentScreen == old(currentScreen)
      ensures !old(isDialogOpen) && !old(isSearchActive) ==>
        currentScreen == (if handled then ListPage else old(currentScreen)) && !isSearchActive && searchQuery == old(searchQuery)
    {
      handled := currentScreen == SettingsPage || isSearchActive || isDialogOpen;
      if !handled {
        return;
      }
      if isDialogOpen {
        SaveAction(now, freshId);
      } else if isSearchActive {
        isSearchActive := false;
        searchQuery := "";
      } else {
        currentScreen := ListPage;
      }
    }

    /** Tapping outside the dialog: the same save action as the Save button. */
    method DismissDialog(now: int, freshId: int)
      requires Valid() && freshId !in store.notes && isDialogOpen
      modifies this, store
      ensures Valid()
      ensures !isDialogOpen && SavedDraft(now, freshId)
      ensures CurrentDraft() == old(CurrentDraft())
      ensures currentScreen == old(currentScreen) && searchQuery == old(searchQuery) && isSearchActive == old(isSearchActive)
    {
      SaveAction(now, freshId);
    }

    /** The floating "new note" button, shown on the list page. */
    method OpenNewNote()
      requires Valid() && currentScreen == ListPage && !isDialogOpen
      modifies this
      ensures Valid()
      ensures isDialogOpen && CurrentDraft() == BlankDraft
      ensures currentScreen == old(currentScreen) && searchQuery == old(searchQuery) && isSearchActive == old(isSearchActive)
    {
      editingNote := None;
      noteTitle := "";
      noteText := "";
      isPinned := false;
      titleSize := DefaultTitleSize;
      contentSize := DefaultContentSize;
      selectedUris := [];
      isDialogOpen := true;
    }

    /** Tapping a note card: the draft takes the note's fields, and the note
        becomes the one being edited. The attachment paths are filled in
        afterwards by `LoadDraftAttachments`. */
    method OpenNote(note: Note)
      requires Valid() && currentScreen == ListPage && !isDialogOpen
      requires note.id in store.notes && store.notes[note.id] == note
      modifies this
      ensures Valid()
      ensures isDialogOpen && editingNote == Some(note)
      ensures noteTitle == note.title && noteText == note.content && isPinned == note.isPriority
      ensures titleSize == note.titleSize && contentSize == note.contentSize
      ensures selectedUris == old(selectedUris)
      ensures currentScreen == old(currentScreen) && searchQuery == old(searchQuery) && isSearchActive == old(isSearchActive)
    {
      editingNote := Some(note);
      noteTitle := note.title;
      noteText := note.content;
      isPinned := note.isPriority;
      titleSize := note.titleSize;
      contentSize := note.contentSize;
      isDialogOpen := true;
    }

    /** The effect that runs when the dialog opens or closes, or when the
        edited note's attachments change: an open dialog on an existing note
        shows that note's stored paths; a closed dialog drops its paths. */
    method LoadDraftAttachments()
      requires Valid()
      modifies this`selectedUris
      ensures Valid()
      ensures selectedUris ==
        if isDialogOpen && editingNote.Some? then store.UrisFor(editingNote.value.id)
        else if !isDialogOpen then []
        else old(selectedUris)
    {
      if isDialogOpen && editingNote.Some? {
        selectedUris := store.UrisFor(editingNote.value.id);
      } else if !isDialogOpen {
        selectedUris := [];
      }
    }

    /** The Cancel button: closes the dialog and writes nothing. */
    method Cancel()
      requires Valid() && isDialogOpen
      modifies this`isDialogOpen
      ensures Valid() && !isDialogOpen
    {
      isDialogOpen := false;
    }

    /** The delete button, shown while editing an existing note: deletes it
        (with its attachments) and closes the dialog without saving. */
    method DeleteEditedNote()
      requires Valid() && isDialogOpen && editingNote.Some?
      modifies this`isDialogOpen, store
      ensures Valid() && !isDialogOpen
      ensures store.notes == old(store.notes) - {editingNote.value.id}
      ensures store.AttachmentsFor(editingNote.value.id) == []
      ensures forall other :: other != editingNote.value.id ==> store.AttachmentsFor(other) == old(store.AttachmentsFor(other))
    {
      store.DeleteNote(editingNote.value);
      isDialogOpen := false;
    }

    /** The toolbar's search/close toggle, on the list page. Closing the
        search here keeps the query. */
    method ToggleSearch()
      requires Valid() && currentScreen == ListPage && !isDialogOpen
      modifies this`isSearchActive
      ensures Valid()
      ensures isSearchActive == !old(isSearchActive)
    {
      isSearchActive := !isSearchActive;
    }

    /** The toolbar's settings button, on the list page. */
    method OpenSettings()
      requires Valid() && currentScreen == ListPage && !isDialogOpen
      modifies this`currentScreen
      ensures Valid() && currentScreen == SettingsPage
    {
      currentScreen := SettingsPage;
    }

    /** The toolbar's back arrow, shown on the settings page or while
        searching: leaves the search (clearing the query) if it is active,
        otherwise returns to the list. */
    method NavigateUp()
      requires Valid() && (currentScreen == SettingsPage || isSearchActive) && !isDialogOpen
      modifies this`isSearchActive, this`searchQuery, this`currentScreen
      ensures Valid() && !isSearchActive
      ensures old(isSearchActive) ==> searchQuery == "" && currentScreen == old(currentScreen)
      ensures !old(isSearchActive) ==> searchQuery == old(searchQuery) && currentScreen == ListPage
    {
      if isSearchActive {
        isSearchActive := false;
        searchQuery := "";
      } else {
        currentScreen := ListPage;
      }
    }

    /** Typing in the search field. */
    method EditQuery(query: string)
      requires Valid() && isSearchActive && !isDialogOpen
      modifies this`searchQuery
      ensures Valid() && searchQuery == query
    {
      searchQuery := query;
    }

    /** Typing in the title field. */
    method EditTitle(title: string)
      requires Valid() && isDialogOpen
      modifies this`noteTitle
      ensures Valid() && noteTitle == title
    {
      noteTitle := title;
    }

    /** Typing in the content field. */
    method EditText(text: string)
      requires Valid() && isDialogOpen
      modifies this`noteText
      ensures Valid() && noteText == text
    {
      noteText := text;
    }

    /** The title size's minus button: one smaller, unless at the minimum. */
    method DecreaseTitleSize()
      requires Valid() && isDialogOpen
      modifies this`titleSize
      ensures Valid()
      ensures titleSize == if old(titleSize) > MinTitleSize then old(titleSize) - 1 else old(titleSize)
    {
      if titleSize > MinTitleSize {
        titleSize := titleSize - 1;
      }
    }

    /** The title size's plus button: one larger, unless at the maximum. */
    method IncreaseTitleSize()
      requires Valid() && isDialogOpen
      modifies this`titleSize
      ensures Valid()
      ensures titleSize == if old(titleSize) < MaxTitleSize then old(titleSize) + 1 else old(titleSize)
    {
      if titleSize < MaxTitleSize {
        titleSize := titleSize + 1;
      }
    }

    /** The content size's minus button: one smaller, unless at the minimum. */
    method DecreaseContentSize()
      requires Valid() && isDialogOpen
      modifies this`contentSize
      ensures Valid()
      ensures contentSize == if old(contentSize) > MinContentSize then old(contentSize) - 1 else old(contentSize)
    {
      if contentSize > MinContentSize {
        contentSize := contentSize - 1;
      }
    }

    /** The content size's plus button: one larger, unless at the maximum. */
    method IncreaseContentSize()
      requires Valid() && isDialogOpen
      modifies this`contentSize
      ensures Valid()
      ensures contentSize == if old(contentSize) < MaxContentSize then old(contentSize) + 1 else old(contentSize)
    {
      if contentSize < MaxContentSize {
        contentSize := contentSize + 1;
      }
    }

    /** The Pin chip. */
    method TogglePin()
      requires Valid() && isDialogOpen
      modifies this`isPinned
      ensures Valid() && isPinned == !old(isPinned)
    {
      isPinned := !isPinned;
    }

    /** The close badge on an attachment thumbnail: `selectedUris - path`,
        which drops the first occurrence of the path. */
    method RemoveAttachment(path: string)
      requires Valid() && isDialogOpen && path in selectedUris
      modifies this`selectedUris
      ensures Valid()
      ensures selectedUris == RemoveFirst(old(selectedUris), path)
    {
      selectedUris := RemoveFirst(selectedUris, path);
    }

    /** The file picker's result: the paths of the images that were copied
        into app storage are appended to the draft. */
    method AddPickedFiles(copiedPaths: seq<string>)
      requires Valid()
      modifies this`selectedUris
      ensures Valid()
      ensures selectedUris == old(selectedUris) + copiedPaths
    {
      selectedUris := selectedUris + copiedPaths;
    }
  }
}

/** A client of the screen: a note is created with two attached images and
    found by a search; then it is reopened, edited, stripped of one image and
    dismissed. Everything asserted follows from the handlers' contracts. */
module Scenario {
  import opened Entities
  import opened Text
  import opened Lists
  import opened Search
  import opened Store
  import opened Screen

  const First := "/files/img_1.jpg"
  const Second := "/files/img_2.jpg"

  method CreateGroceries(now: int) returns (screen: MainScreen)
    ensures fresh(screen) && fresh(screen.store) && screen.Valid()
    ensures screen.currentScreen == ListPage && !screen.isDialogOpen
    ensures screen.store.notes == map[1 := Note(1, "Groceries", "milk, eggs", false, now, DefaultTitleSize, DefaultContentSize)]
    ensures screen.store.UrisFor(1) == [First, Second]
  {
    var store := new NoteStore();
    screen := new MainScreen(store);
    screen.OpenNewNote();
    screen.EditTitle("Groceries");
    screen.EditText("milk, eggs");
    screen.AddPickedFiles([First, Second]);
    assert screen.selectedUris == [First, Second];
    assert !IsBlank(screen.noteTitle) by { assert !IsWhitespace(screen.noteTitle[0]); }
    assert Distinct(screen.selectedUris) == [First, Second] by {
      assert First != Second;
      DistinctOfUnique([First, Second]);
    }
    screen.SaveAction(now, 1);
  }

  /** The note created below is found by the query "egg". */
  lemma GroceriesMatchEgg(n: Note)
    requires n.title == "Groceries" && n.content == "milk, eggs"
    ensures Matches(n, "egg")
  {
    ContainsInfix("milk, ", "egg", "s");
    assert "milk, " + "egg" + "s" == n.content;
  }

  method GroceriesScenario(now: int, later: int)
  {
    var screen := CreateGroceries(now);
    var store := screen.store;
    var note := store.notes[1];

    screen.LoadDraftAttachments();
    screen.OpenNote(note);
    screen.LoadDraftAttachments();
    assert screen.selectedUris == [First, Second];
    screen.EditText("milk, eggs, bread");
    screen.RemoveAttachment(First);
    assert screen.selectedUris == [Second] by {
      RemoveFirstAt([First, Second], First, 0);
    }
    assert !IsBlank(screen.noteText) by { assert !IsWhitespace(screen.noteText[0]); }
    assert Distinct(screen.selectedUris) == [Second] by {
      DistinctOfUnique([Second]);
    }
    assert screen.SaveTarget(2) == 1;
    screen.DismissDialog(later, 2);
    assert store.notes[1].content == "milk, eggs, bread";
    assert store.UrisFor(1) == [Second];
    assert |store.AttachmentsFor(1)| == 1;
  }
}
