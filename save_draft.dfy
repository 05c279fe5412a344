/**
 * The Save button of the main window: the guard that decides whether the
 * current draft may be stored, the insertion itself, and the selection of
 * the new note in the refreshed notes list.
 */
module SaveDraft {
  import opened Wrappers
  import opened PyStr
  import opened Schema
  import opened CategoryTree
  import opened Queries
  import opened NoteStore
  import opened NotesList
  import opened CategoryPanel

  /** What the guard makes of a draft: a refusal, or the arguments of the insertion. */
  datatype SaveRequest =
    | NothingToSave
    | NoCategorySelected
    | CategoryWithoutId
    | Insert(categoryId: int, excerpt: string, bodyMd: string, pageRef: Option<string>)

  /** What pressing Save ends in. */
  datatype SaveOutcome =
    | Refused(request: SaveRequest)
    | Failed(error: DbError)
    | Saved(noteId: int, items: seq<ListItem>, selected: Option<nat>)

  /** The page field's argument: its stripped text, or None when it is blank. */
  function PageRefArgument(text: string): (r: Option<string>)
    ensures r.None? <==> AllSpace(text)
    ensures r.Some? ==> r.value == Strip(text)
    ensures r.Some? ==> r.value != [] && !IsSpace(r.value[0]) && !IsSpace(r.value[|r.value| - 1])
  {
    StripEmptyIffBlank(text);
    var p := Strip(text);
    if p == [] then None else Some(p)
  }

  /**
   * The guard of the Save button, checked in the source's order: a draft
   * whose excerpt and note are both blank is refused first, then a missing
   * current item, then an item without a category id.
   */
  function SaveRequestFor(excerptText: string, bodyText: string, pageRefText: string,
                          selection: TreeSelection): (r: SaveRequest)
    ensures r.NothingToSave? <==> AllSpace(excerptText) && AllSpace(bodyText)
    ensures r.NoCategorySelected? <==>
      !(AllSpace(excerptText) && AllSpace(bodyText)) && selection.NoCurrentItem?
    ensures r.CategoryWithoutId? <==>
      !(AllSpace(excerptText) && AllSpace(bodyText)) && selection == CurrentItem(None)
    ensures r.Insert? ==>
      && selection == CurrentItem(Some(r.categoryId))
      && (r.excerpt != [] || r.bodyMd != [])
      && r.excerpt == Strip(excerptText) && r.bodyMd == Strip(bodyText)
      && r.pageRef == PageRefArgument(pageRefText)
  {
    StripEmptyIffBlank(excerptText);
    StripEmptyIffBlank(bodyText);
    var excerpt := Strip(excerptText);
    var bodyMd := Strip(bodyText);
    if excerpt == [] && bodyMd == [] then NothingToSave
    else
      match selection
      case NoCurrentItem => NoCategorySelected
      case CurrentItem(None) => CategoryWithoutId
      case CurrentItem(Some(id)) => Insert(id, excerpt, bodyMd, PageRefArgument(pageRefText))
  }

  /** The position of the first list entry that carries the note id, if any. */
  method SelectNoteItem(items: seq<ListItem>, noteId: int) returns (index: Option<nat>)
    ensures index.None? <==> forall i :: 0 <= i < |items| ==> items[i].noteId != Some(noteId)
    ensures index.Some? ==>
      && index.value < |items| && items[index.value].noteId == Some(noteId)
      && forall i :: 0 <= i < index.value ==> items[i].noteId != Some(noteId)
  {
    for i := 0 to |items|
      invariant forall k :: 0 <= k < i ==> items[k].noteId != Some(noteId)
    {
      if items[i].noteId == Some(noteId) {
        return Some(i);
      }
    }
    return None;
  }

  /**
   * A note appended to the table heads the subtree list of its own
   * category: it is in that subtree and has the highest id.
   */
  lemma AppendedNoteListedFirst(cats: seq<Category>, notes: seq<Note>, n: Note)
    requires TreeShaped(cats) && HasCategory(cats, n.categoryId)
    ensures var rows := FetchNotesForCategorySubtree(cats, notes + [n], n.categoryId);
      rows != [] && rows[0] == ViewOf(cats, n)
  {
    assert (notes + [n])[..|notes|] == notes;
  }

  /**
   * After a successful save: refreshes the notes list of the selected
   * category and selects the entry of the new note, which is the first.
   */
  method ShowSavedNote(store: Store, categoryId: int, noteId: int)
    returns (items: seq<ListItem>, selected: Option<nat>)
    requires TreeShaped(store.categories) && store.notes != []
    requires HasCategory(store.categories, categoryId)
    requires store.notes[|store.notes| - 1].id == noteId
    requires store.notes[|store.notes| - 1].categoryId == categoryId
    ensures items != [] && selected == Some(0)
    ensures items[0] == ItemFor(ViewOf(store.categories, store.notes[|store.notes| - 1]))
    ensures var rows := FetchNotesForCategorySubtree(store.categories, store.notes, categoryId);
      |items| == |rows| && forall i :: 0 <= i < |rows| ==> items[i] == ItemFor(rows[i])
  {
    var last := |store.notes| - 1;
    AppendedNoteListedFirst(store.categories, store.notes[..last], store.notes[last]);
    assert store.notes[..last] + [store.notes[last]] == store.notes;
    items := RefreshNotesList(store, categoryId);
    selected := SelectNoteItem(items, noteId);
  }

  /**
   * Pressing Save: the guard's refusal changes nothing; otherwise the
   * default document id is looked up and the note inserted, either of
   * which can fail and then changes nothing; a saved note is listed first
   * in the refreshed list of the selected category and is the entry
   * selected.
   */
  method OnSaveClicked(store: Store, excerptText: string, bodyText: string, pageRefText: string,
                       selection: TreeSelection, now: Timestamp)
    returns (outcome: SaveOutcome)
    requires store.Valid()
    modifies store
    ensures store.Valid()
    ensures store.categories == old(store.categories) && store.documents == old(store.documents)
    ensures !SaveRequestFor(excerptText, bodyText, pageRefText, selection).Insert? ==>
      outcome == Refused(SaveRequestFor(excerptText, bodyText, pageRefText, selection))
    ensures outcome.Refused? <==> !SaveRequestFor(excerptText, bodyText, pageRefText, selection).Insert?
    ensures (SaveRequestFor(excerptText, bodyText, pageRefText, selection).Insert?
             && GetDefaultIds(store.documents, store.categories).Failure?) ==>
      outcome == Failed(NotSeeded)
    ensures outcome.Saved? <==>
      && SaveRequestFor(excerptText, bodyText, pageRefText, selection).Insert?
      && GetDefaultIds(store.documents, store.categories).Success?
      && HasCategory(store.categories, SaveRequestFor(excerptText, bodyText, pageRefText, selection).categoryId)
    ensures outcome.Failed? && GetDefaultIds(store.documents, store.categories).Success? ==>
      outcome.error == ConstraintError
    ensures !outcome.Saved? ==> store.notes == old(store.notes)
    ensures outcome.Saved? ==>
      var request := SaveRequestFor(excerptText, bodyText, pageRefText, selection);
      && store.notes == old(store.notes) + [Note(outcome.noteId,
           GetDefaultIds(store.documents, store.categories).value.0, request.categoryId,
           request.excerpt, request.bodyMd, request.pageRef, now)]
      && outcome.items != [] && outcome.selected == Some(0)
      && outcome.items[0] == ItemFor(ViewOf(store.categories, store.notes[|store.notes| - 1]))
    ensures outcome.Saved? ==>
      var rows := FetchNotesForCategorySubtree(store.categories, store.notes,
                    SaveRequestFor(excerptText, bodyText, pageRefText, selection).categoryId);
      |outcome.items| == |rows| && forall i :: 0 <= i < |rows| ==> outcome.items[i] == ItemFor(rows[i])
  {
    var request := SaveRequestFor(excerptText, bodyText, pageRefText, selection);
    if !request.Insert? {
      return Refused(request);
    }
    var ids := GetDefaultIds(store.documents, store.categories);
    if ids.Failure? {
      return Failed(ids.error);
    }
    var r := store.InsertNote(ids.value.0, request.categoryId, request.excerpt, request.bodyMd,
                              request.pageRef, now);
    if r.Failure? {
      return Failed(r.error);
    }
    var items, selected := ShowSavedNote(store, request.categoryId, r.value);
    outcome := Saved(r.value, items, selected);
  }
}
