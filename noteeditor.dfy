/** The note editor (components/NoteEditor.tsx): the form it loads from the
    note being edited, the note it builds on save, and its list operations. */
module NoteEditor {
  import opened Types
  import opened Checklist

  /** The editor's form fields; an absent subcategory or date is the empty text. */
  datatype Form = Form(
    title: string,
    content: string,
    subcategory: string,
    attachments: seq<MediaAttachment>,
    items: seq<NoteItem>,
    scheduledDate: string,
    reminder: Option<Reminder>)

  const EmptyForm := Form("", "", "", [], [], "", None)

  /** The title given to a note saved without one. */
  const UntitledTitle := "Nota Sin Título"

  /** `getDefaultSubcategory`. */
  function DefaultSubcategory(category: string): (s: string)
    ensures category == "gaming" ==> s == "Juego"
    ensures category == "work" ==> s == "Tarea"
    ensures category != "gaming" && category != "work" ==> s == "General"
  {
    if category == "gaming" then "Juego"
    else if category == "work" then "Tarea"
    else "General"
  }

  /** The form after opening: the fields of the note being edited, or an
      empty form with the category's default subcategory. */
  function FormOf(initial: Option<Note>, activeCategory: string): Form {
    if initial.Some? then
      var n := initial.value;
      Form(n.title, n.content,
        if n.subcategory.Some? then n.subcategory.value else "",
        n.attachments, n.items,
        if n.scheduledDate.Some? then n.scheduledDate.value else "",
        n.reminder)
    else EmptyForm.(subcategory := DefaultSubcategory(activeCategory))
  }

  /** `handleSave`'s note. Identity fields come from the note being edited,
      where an empty id or category counts as missing (JavaScript `||`);
      `freshId` and `now` stand for `crypto.randomUUID()` and the clock. */
  function BuildNote(initial: Option<Note>, activeCategory: string, f: Form, freshId: Id, now: int): Note {
    Note(
      if initial.Some? && initial.value.id != "" then initial.value.id else freshId,
      if initial.Some? && initial.value.category != "" then initial.value.category else activeCategory,
      Some(f.subcategory),
      if f.title != "" then f.title else UntitledTitle,
      f.content, f.items, f.attachments,
      initial.Some? && initial.value.isPinned,
      if f.scheduledDate != "" then Some(f.scheduledDate) else None,
      f.reminder,
      if initial.Some? then initial.value.createdAt else now,
      now)
  }

  /** An edit keeps the note's id, category, creation time and pin; a new note
      takes the fresh id, the active category, the current time and no pin.
      Either way the title is never empty and an empty date is no date. */
  lemma BuildNoteIdentity(initial: Option<Note>, activeCategory: string, f: Form, freshId: Id, now: int)
    ensures var r := BuildNote(initial, activeCategory, f, freshId, now);
      && (initial.Some? && initial.value.id != "" && initial.value.category != "" ==>
            r.id == initial.value.id && r.category == initial.value.category
            && r.createdAt == initial.value.createdAt && r.isPinned == initial.value.isPinned)
      && (initial.None? ==> r.id == freshId && r.category == activeCategory && r.createdAt == now && !r.isPinned)
      && r.title != "" && (f.title == "" ==> r.title == UntitledTitle)
      && (r.scheduledDate.Some? <==> f.scheduledDate != "")
      && r.updatedAt == now
  {
  }

  /** Opening a note and saving it untouched gives the same note with a new
      `updatedAt`, as long as its fields are ones the form can hold: a
      non-empty id, category and title, a subcategory, and no empty date. */
  lemma OpenSaveRoundTrip(n: Note, activeCategory: string, freshId: Id, now: int)
    requires n.id != "" && n.category != "" && n.title != ""
    requires n.subcategory.Some? && n.scheduledDate != Some("")
    ensures BuildNote(Some(n), activeCategory, FormOf(Some(n), activeCategory), freshId, now) == n.(updatedAt := now)
  {
  }

  /** A new note saved straight away: untitled, empty, with the category's default subcategory. */
  lemma NewNoteDefaults(activeCategory: string, freshId: Id, now: int)
    ensures var r := BuildNote(None, activeCategory, FormOf(None, activeCategory), freshId, now);
      && r.title == UntitledTitle && r.items == [] && r.attachments == []
      && r.subcategory == Some(DefaultSubcategory(activeCategory))
      && r.scheduledDate.None? && r.reminder.None?
  {
  }

  class Editor {
    var isOpen: bool
    /** The `initialNote` prop: the note being edited, if any. */
    var initialNote: Option<Note>
    var form: Form

    constructor ()
      ensures !isOpen && initialNote == None && form == EmptyForm
    {
      isOpen := false;
      initialNote := None;
      form := EmptyForm;
    }

    /** The effect that runs when the editor opens. */
    method Open(initial: Option<Note>, activeCategory: string)
      modifies this`isOpen, this`initialNote, this`form
      ensures isOpen && initialNote == initial && form == FormOf(initial, activeCategory)
    {
      isOpen := true;
      initialNote := initial;
      if initial.Some? {
        var n := initial.value;
        form := Form(n.title, n.content,
          if n.subcategory.Some? then n.subcategory.value else "",
          n.attachments, n.items,
          if n.scheduledDate.Some? then n.scheduledDate.value else "",
          n.reminder);
      } else {
        form := EmptyForm;
        form := form.(subcategory := DefaultSubcategory(activeCategory));
      }
    }

    method Close()
      modifies this`isOpen
      ensures !isOpen && initialNote == old(initialNote) && form == old(form)
    {
      isOpen := false;
    }

    /** `handleSave`: build the note, hand it to `onSave`, close. */
    method HandleSave(activeCategory: string, freshId: Id, now: int) returns (note: Note)
      modifies this`isOpen
      ensures note == BuildNote(old(initialNote), activeCategory, old(form), freshId, now)
      ensures !isOpen && initialNote == old(initialNote) && form == old(form)
    {
      note := BuildNote(initialNote, activeCategory, form, freshId, now);
      isOpen := false;
    }

    /** `handleDelete`: only an existing note, and only with an `onDelete`
        handler, is handed on for deletion; the editor then closes. */
    method HandleDelete(hasOnDelete: bool) returns (deleted: Option<Id>)
      modifies this`isOpen
      ensures deleted.Some? <==> initialNote.Some? && hasOnDelete
      ensures deleted.Some? ==> deleted.value == initialNote.value.id && !isOpen
      ensures deleted.None? ==> isOpen == old(isOpen)
      ensures initialNote == old(initialNote) && form == old(form)
    {
      if initialNote.Some? && hasOnDelete {
        deleted := Some(initialNote.value.id);
        isOpen := false;
      } else {
        deleted := None;
      }
    }

    /** `handleAddItem`: one empty, unchecked entry at the end. */
    method HandleAddItem(freshId: Id)
      modifies this`form
      ensures form == old(form).(items := old(form).items + [NoteItem(freshId, "", false)])
      ensures isOpen == old(isOpen) && initialNote == old(initialNote)
    {
      form := form.(items := form.items + [NoteItem(freshId, "", false)]);
    }

    method UpdateItem(id: Id, text: string)
      modifies this`form
      ensures form == old(form).(items := ItemsWithText(old(form).items, id, text))
      ensures isOpen == old(isOpen) && initialNote == old(initialNote)
    {
      form := form.(items := ItemsWithText(form.items, id, text));
    }

    method ToggleItem(id: Id)
      modifies this`form
      ensures form == old(form).(items := ItemsToggled(old(form).items, id))
      ensures isOpen == old(isOpen) && initialNote == old(initialNote)
    {
      form := form.(items := ItemsToggled(form.items, id));
    }

    method DeleteItem(id: Id)
      modifies this`form
      ensures form == old(form).(items := ItemsWithout(old(form).items, id))
      ensures isOpen == old(isOpen) && initialNote == old(initialNote)
    {
      form := form.(items := ItemsWithout(form.items, id));
    }

    method RemoveAttachment(id: Id)
      modifies this`form
      ensures form == old(form).(attachments := AttachmentsWithout(old(form).attachments, id))
      ensures isOpen == old(isOpen) && initialNote == old(initialNote)
    {
      form := form.(attachments := AttachmentsWithout(form.attachments, id));
    }
  }
}
