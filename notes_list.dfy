/**
 * The notes list of the main window: the label shown for each note and
 * the list built for the selected category's subtree.
 */
module NotesList {
  import opened Wrappers
  import opened PyStr
  import opened CategoryTree
  import opened Queries
  import opened NoteStore

  const NoExcerptText: string := "(no excerpt)"
  const EmptyListText: string := "No notes yet in this category."
  /** Longest label before a page suffix; longer text keeps 67 characters and "...". */
  const MaxLabelLength: nat := 70
  const KeptLength: nat := 67

  /**
   * The label text before any page suffix: the stripped excerpt (or
   * "(no excerpt)"), newlines turned into spaces, stripped again, then
   * truncated to 70 characters.
   */
  function DisplayText(excerpt: string): (d: string)
    ensures |d| <= MaxLabelLength
  {
    var e := Strip(excerpt);
    // The placeholder has no newline and no surrounding whitespace, so
    // replacing and stripping leave it as it is (PlaceholderShown).
    var shown := if e == [] then NoExcerptText else Strip(ReplaceNewlines(e));
    if |shown| > MaxLabelLength then
      assert forall i :: 0 <= i < KeptLength ==> shown[..KeptLength][i] == shown[i];
      shown[..KeptLength] + "..."
    else shown
  }

  /** Replacing newlines and stripping leaves a single line. */
  lemma ShownSingleLine(e: string)
    ensures '\n' !in Strip(ReplaceNewlines(e))
  {
    var replaced := ReplaceNewlines(e);
    ReplaceNewlinesEach(e);
    StripSlice(replaced);
    var a, b :| 0 <= a <= b <= |replaced| && Strip(replaced) == replaced[a..b];
    assert forall i :: 0 <= i < b - a ==> Strip(replaced)[i] == replaced[a + i];
  }

  /** The display text is a single line. */
  lemma DisplayTextSingleLine(excerpt: string)
    ensures '\n' !in DisplayText(excerpt)
  {
    var e := Strip(excerpt);
    var shown := if e == [] then NoExcerptText else Strip(ReplaceNewlines(e));
    if e == [] {
      assert forall i :: 0 <= i < |NoExcerptText| ==> NoExcerptText[i] != '\n';
    } else {
      ShownSingleLine(e);
    }
    assert '\n' !in shown;
    if |shown| > MaxLabelLength {
      assert forall i :: 0 <= i < KeptLength ==> shown[..KeptLength][i] == shown[i];
      assert DisplayText(excerpt) == shown[..KeptLength] + "...";
    }
  }

  /** A blank excerpt is labelled "(no excerpt)". */
  lemma DisplayTextBlank(excerpt: string)
    requires AllSpace(excerpt)
    ensures DisplayText(excerpt) == NoExcerptText
  {
    StripEmptyIffBlank(excerpt);
  }

  /** The placeholder holds no newline ... */
  lemma PlaceholderUnchanged()
    ensures ReplaceNewlines(NoExcerptText) == NoExcerptText
  {
    assert forall i :: 0 <= i < |NoExcerptText| ==> NoExcerptText[i] != '\n';
    ReplaceNoNewlines(NoExcerptText);
  }

  /** ... and no whitespace at either end ... */
  lemma PlaceholderTrimmed()
    ensures Strip(NoExcerptText) == NoExcerptText
  {
    StripTrimmed(NoExcerptText);
  }

  /** ... so replacing newlines in it and stripping it again leave it unchanged. */
  lemma PlaceholderShown()
    ensures Strip(ReplaceNewlines(NoExcerptText)) == NoExcerptText
  {
    PlaceholderUnchanged();
    PlaceholderTrimmed();
  }

  /**
   * A non-blank excerpt is shown stripped with its newlines replaced by
   * spaces; when that is longer than 70 characters, exactly its first 67
   * characters followed by "...".
   */
  lemma DisplayTextOfExcerpt(excerpt: string)
    requires !AllSpace(excerpt)
    ensures var shown := ReplaceNewlines(Strip(excerpt));
      DisplayText(excerpt) == if |shown| > MaxLabelLength then shown[..KeptLength] + "..." else shown
  {
    var e := Strip(excerpt);
    StripEmptyIffBlank(excerpt);
    StripSlice(excerpt);
    var shown := ReplaceNewlines(e);
    ReplaceNewlinesEach(e);
    StripTrimmed(shown);
  }

  /** The label of a note: the display text, then its page reference in brackets if it has one. */
  function NoteLabel(excerpt: string, pageRef: Option<string>): (text: string)
    ensures |DisplayText(excerpt)| <= |text|
    ensures text[..|DisplayText(excerpt)|] == DisplayText(excerpt)
    ensures pageRef.Some? && pageRef.value != [] ==>
      text[|DisplayText(excerpt)|..] == "   [" + pageRef.value + "]"
    ensures pageRef.None? || pageRef.value == [] ==> text == DisplayText(excerpt)
  {
    var d := DisplayText(excerpt);
    if pageRef.Some? && pageRef.value != [] then
      var suffix := "   [" + pageRef.value + "]";
      assert (d + suffix)[|d|..] == suffix;
      d + suffix
    else d
  }

  /** An entry of the notes list; a note's entry carries the note id. */
  datatype ListItem = ListItem(text: string, noteId: Option<int>, selectable: bool)

  /**
   * The selectable entry showing one row of the subtree query: its label,
   * with the note id attached.  What the label says is stated by NoteLabel.
   */
  function ItemFor(row: NoteView): ListItem
  {
    ListItem(NoteLabel(row.excerpt, row.pageRef), Some(row.id), true)
  }

  /** The placeholder entry shown for a category whose subtree holds no note. */
  const EmptyListItem: ListItem := ListItem(EmptyListText, None, false)

  /**
   * The entries for a non-empty result of the subtree query, one per row
   * and in the same order.
   */
  method ItemsForRows(rows: seq<NoteView>) returns (items: seq<ListItem>)
    ensures |items| == |rows|
    ensures forall i :: 0 <= i < |rows| ==> items[i] == ItemFor(rows[i])
  {
    items := [];
    for i := 0 to |rows|
      invariant |items| == i
      invariant forall k :: 0 <= k < i ==> items[k] == ItemFor(rows[k])
    {
      items := items + [ItemFor(rows[i])];
    }
  }

  /**
   * Fills the notes list for a category: one selectable entry per note of
   * its subtree, most recent first, or a single non-selectable placeholder
   * when the subtree holds no note.
   */
  method RefreshNotesList(store: Store, categoryId: int) returns (items: seq<ListItem>)
    requires TreeShaped(store.categories)
    ensures var rows := FetchNotesForCategorySubtree(store.categories, store.notes, categoryId);
      && (rows == [] ==> items == [EmptyListItem])
      && (rows != [] ==> |items| == |rows| && forall i :: 0 <= i < |rows| ==> items[i] == ItemFor(rows[i]))
  {
    var rows := FetchNotesForCategorySubtree(store.categories, store.notes, categoryId);
    if rows == [] {
      items := [EmptyListItem];
    } else {
      items := ItemsForRows(rows);
    }
  }
}
