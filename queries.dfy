/**
 * The read-only queries of the note store, as functions of the table
 * contents.  Tables hold their rows in rowid order.
 */
module Queries {
  import opened Wrappers
  import opened Schema
  import opened CategoryTree
  import opened CategoryOrder

  /** A row of the subtree query: a note joined with its category's name. */
  datatype NoteView = NoteView(
    id: int,
    excerpt: string,
    bodyMd: string,
    pageRef: Option<string>,
    createdAt: Timestamp,
    categoryId: int,
    categoryName: string)

  /** The whole categories table, ordered by parent id (NULL first), then name. */
  function FetchCategories(cats: seq<Category>): (rows: seq<Category>)
    ensures multiset(rows) == multiset(cats)
    ensures Sorted(rows)
  {
    var rows := SortCategories(cats);
    AdjacentIsSorted(rows);
    rows
  }

  /** The ordered category list still forms a forest. */
  lemma FetchCategoriesTreeShaped(cats: seq<Category>)
    requires TreeShaped(cats)
    ensures TreeShaped(FetchCategories(cats))
    ensures forall x :: HasCategory(FetchCategories(cats), x) <==> HasCategory(cats, x)
  {
    var rows := FetchCategories(cats);
    PermutationTreeShaped(cats, rows);
    forall x | HasCategory(cats, x)
      ensures HasCategory(rows, x)
    {
      var i :| 0 <= i < |cats| && cats[i].id == x;
      assert cats[i] in multiset(rows);
    }
    forall x | HasCategory(rows, x)
      ensures HasCategory(cats, x)
    {
      var i :| 0 <= i < |rows| && rows[i].id == x;
      assert rows[i] in multiset(cats);
    }
  }

  /** The note is shown for the queried category: its category is in the subtree. */
  predicate InQueriedSubtree(cats: seq<Category>, categoryId: int, n: Note)
    requires TreeShaped(cats)
  {
    HasCategory(cats, n.categoryId) && InSubtree(cats, categoryId, n.categoryId)
  }

  /** The view row of a note whose category exists. */
  function ViewOf(cats: seq<Category>, n: Note): (v: NoteView)
    requires HasCategory(cats, n.categoryId)
  {
    var k := FindCategory(cats, n.categoryId).value;
    NoteView(n.id, n.excerpt, n.bodyMd, n.pageRef, n.createdAt, n.categoryId, cats[k].name)
  }

  /**
   * The notes whose category is the queried one or one of its descendants,
   * each joined with its category's name, most recent (highest id) first.
   * The notes table is walked from its last row to its first; with ids
   * ascending in rowid order that is `ORDER BY id DESC`.
   */
  function FetchNotesForCategorySubtree(cats: seq<Category>, notes: seq<Note>, categoryId: int)
    : (rows: seq<NoteView>)
    requires TreeShaped(cats)
    ensures |rows| <= |notes|
    ensures forall j :: 0 <= j < |rows| ==>
      HasCategory(cats, rows[j].categoryId) && InSubtree(cats, categoryId, rows[j].categoryId)
  {
    if notes == [] then []
    else
      var last := |notes| - 1;
      var n := notes[last];
      var rest := FetchNotesForCategorySubtree(cats, notes[..last], categoryId);
      if InQueriedSubtree(cats, categoryId, n) then [ViewOf(cats, n)] + rest else rest
  }

  /** Every row of the subtree query shows a note of the table whose category is in the subtree. */
  lemma {:induction false} RowSource(cats: seq<Category>, notes: seq<Note>, categoryId: int, j: nat)
    returns (i: nat)
    requires TreeShaped(cats) && j < |FetchNotesForCategorySubtree(cats, notes, categoryId)|
    ensures i < |notes| && InQueriedSubtree(cats, categoryId, notes[i])
    ensures FetchNotesForCategorySubtree(cats, notes, categoryId)[j] == ViewOf(cats, notes[i])
  {
    var last := |notes| - 1;
    var front := notes[..last];
    if InQueriedSubtree(cats, categoryId, notes[last]) && j == 0 {
      i := last;
    } else {
      var j' := if InQueriedSubtree(cats, categoryId, notes[last]) then j - 1 else j;
      i := RowSource(cats, front, categoryId, j');
      assert front[i] == notes[i];
    }
  }

  /** Every note whose category is in the subtree is shown by a row of the query. */
  lemma {:induction false} RowShown(cats: seq<Category>, notes: seq<Note>, categoryId: int, i: nat)
    requires TreeShaped(cats) && i < |notes| && InQueriedSubtree(cats, categoryId, notes[i])
    ensures ViewOf(cats, notes[i]) in FetchNotesForCategorySubtree(cats, notes, categoryId)
  {
    var last := |notes| - 1;
    var front := notes[..last];
    if i < last {
      assert front[i] == notes[i];
      RowShown(cats, front, categoryId, i);
    }
  }

  /**
   * The rows come strictly in descending id order when note ids ascend in
   * rowid order, as the store keeps them.
   */
  lemma {:induction false} SubtreeNotesDescending(cats: seq<Category>, notes: seq<Note>, categoryId: int)
    requires TreeShaped(cats) && AscendingIds(NoteIds(notes))
    ensures var rows := FetchNotesForCategorySubtree(cats, notes, categoryId);
      forall j, j' :: 0 <= j < j' < |rows| ==> rows[j].id > rows[j'].id
  {
    if notes != [] {
      var last := |notes| - 1;
      var n := notes[last];
      var front := notes[..last];
      var rest := FetchNotesForCategorySubtree(cats, front, categoryId);
      assert NoteIds(front) == NoteIds(notes)[..last];
      SubtreeNotesDescending(cats, front, categoryId);
      forall j | 0 <= j < |rest|
        ensures rest[j].id < n.id
      {
        var i := RowSource(cats, front, categoryId, j);
        assert front[i] == notes[i];
        assert NoteIds(notes)[i] < NoteIds(notes)[last];
      }
    }
  }

  /** Querying an id that names no category yields no notes. */
  lemma UnknownCategoryHasNoNotes(cats: seq<Category>, notes: seq<Note>, categoryId: int)
    requires TreeShaped(cats) && !HasCategory(cats, categoryId)
    ensures FetchNotesForCategorySubtree(cats, notes, categoryId) == []
  {
    var rows := FetchNotesForCategorySubtree(cats, notes, categoryId);
    if rows != [] {
      InSubtreeRootExists(cats, categoryId, rows[0].categoryId);
    }
  }

  /**
   * The subtree query selects exactly the notes whose category the
   * recursive query produces at some iteration.
   */
  lemma SubtreeNotesFollowQuery(cats: seq<Category>, notes: seq<Note>, categoryId: int, i: nat)
    requires TreeShaped(cats) && i < |notes| && HasCategory(cats, notes[i].categoryId)
    ensures ViewOf(cats, notes[i]) in FetchNotesForCategorySubtree(cats, notes, categoryId) <==>
      exists k: nat :: notes[i].categoryId in Level(cats, categoryId, k)
  {
    var rows := FetchNotesForCategorySubtree(cats, notes, categoryId);
    SubtreeQueryIsClosure(cats, categoryId, notes[i].categoryId);
    if ViewOf(cats, notes[i]) in rows {
      var j :| 0 <= j < |rows| && rows[j] == ViewOf(cats, notes[i]);
      assert rows[j].categoryId == notes[i].categoryId;
    } else if InSubtree(cats, categoryId, notes[i].categoryId) {
      RowShown(cats, notes, categoryId, i);
    }
  }

  /** `SELECT ... FROM notes WHERE id = ?`: the note with that id, or None. */
  function FetchNoteById(notes: seq<Note>, noteId: int): (r: Option<Note>)
    ensures r.Some? ==> r.value in notes && r.value.id == noteId
    ensures r.None? <==> forall i :: 0 <= i < |notes| ==> notes[i].id != noteId
  {
    if notes == [] then None
    else if notes[0].id == noteId then Some(notes[0])
    else FetchNoteById(notes[1..], noteId)
  }

  /**
   * A note appended under a fresh id is what fetching that id returns,
   * and fetching any other id returns what it returned before.
   */
  lemma {:induction false} FetchAppended(notes: seq<Note>, n: Note, noteId: int)
    requires forall i :: 0 <= i < |notes| ==> notes[i].id != n.id
    ensures FetchNoteById(notes + [n], noteId) ==
      if noteId == n.id then Some(n) else FetchNoteById(notes, noteId)
  {
    if notes != [] {
      assert (notes + [n])[1..] == notes[1..] + [n];
      if notes[0].id != noteId {
        FetchAppended(notes[1..], n, noteId);
      }
    }
  }

  /**
   * `(document_id, category_id)` defaults: the smallest id of each table;
   * reading a row of an empty table fails.
   */
  function GetDefaultIds(docs: seq<Document>, cats: seq<Category>): (r: Result<(int, int), DbError>)
    ensures r.Failure? <==> docs == [] || cats == []
    ensures r.Failure? ==> r.error == NotSeeded
    ensures r.Success? ==>
      && HasDocument(docs, r.value.0) && (forall i :: 0 <= i < |docs| ==> r.value.0 <= docs[i].id)
      && HasCategory(cats, r.value.1) && (forall i :: 0 <= i < |cats| ==> r.value.1 <= cats[i].id)
  {
    if docs == [] || cats == [] then Failure(NotSeeded)
    else
      var d := SmallestId(DocumentIds(docs));
      var c := SmallestId(CategoryIds(cats));
      assert forall i :: 0 <= i < |docs| ==> DocumentIds(docs)[i] == docs[i].id;
      assert forall i :: 0 <= i < |cats| ==> CategoryIds(cats)[i] == cats[i].id;
      Success((d, c))
  }
}
