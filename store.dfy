/**
 * The note store: three tables that seeding and note insertion append to.
 * Foreign keys are enforced, so every parent link and every note's
 * document and category name an existing row.
 */
module NoteStore {
  import opened Wrappers
  import opened Schema
  import opened CategoryTree
  import opened Queries

  const PlaceholderTitle: string := "(Placeholder) No document selected yet"

  /** The category tree seeded into an empty table: a root and two children. */
  const DefaultCategoryTree: seq<Category> := [
    Category(1, "All notes", None),
    Category(2, "Reading", Some(1)),
    Category(3, "Ideas", Some(1))
  ]

  /** The placeholder document seeded into an empty table. */
  const PlaceholderDocument: Document := Document(1, PlaceholderTitle, "", None, "")

  /** Every note names an existing document and an existing category. */
  ghost predicate NotesReferToRows(notes: seq<Note>, docs: seq<Document>, cats: seq<Category>)
  {
    forall i :: 0 <= i < |notes| ==>
      HasDocument(docs, notes[i].documentId) && HasCategory(cats, notes[i].categoryId)
  }

  /** Appending rows keeps every foreign key of the notes satisfied. */
  lemma ReferencesKept(notes: seq<Note>, docs: seq<Document>, cats: seq<Category>,
                       moreDocs: seq<Document>, moreCats: seq<Category>)
    requires NotesReferToRows(notes, docs, cats)
    ensures NotesReferToRows(notes, docs + moreDocs, cats + moreCats)
  {
    forall i | 0 <= i < |notes|
      ensures HasDocument(docs + moreDocs, notes[i].documentId)
      ensures HasCategory(cats + moreCats, notes[i].categoryId)
    {
      var j :| 0 <= j < |docs| && docs[j].id == notes[i].documentId;
      assert (docs + moreDocs)[j] == docs[j];
      var k :| 0 <= k < |cats| && cats[k].id == notes[i].categoryId;
      assert (cats + moreCats)[k] == cats[k];
    }
  }

  class Store {
    var categories: seq<Category>
    var documents: seq<Document>
    var notes: seq<Note>

    /**
     * Ids ascend in rowid order in every table, the categories form a
     * forest with parents inserted before their children (hence no
     * cycles), and all foreign keys hold.
     */
    ghost predicate Valid()
      reads this
    {
      && AscendingIds(CategoryIds(categories))
      && TreeShaped(categories)
      && AscendingIds(DocumentIds(documents))
      && AscendingIds(NoteIds(notes))
      && NotesReferToRows(notes, documents, categories)
    }

    /** Both tables that seeding fills hold at least one row. */
    ghost predicate Seeded()
      reads this
    {
      categories != [] && documents != []
    }

    /** A freshly initialised store: the schema exists and every table is empty. */
    constructor ()
      ensures Valid()
      ensures categories == [] && documents == [] && notes == []
    {
      categories, documents, notes := [], [], [];
    }

    /** `INSERT INTO categories (name, parent_id)`, returning the new row id. */
    method AddCategory(name: string, parentId: Option<int>) returns (id: int)
      requires Valid()
      requires parentId.Some? ==> HasCategory(categories, parentId.value)
      modifies this
      ensures Valid()
      ensures id == NextRowId(CategoryIds(old(categories)))
      ensures categories == old(categories) + [Category(id, name, parentId)]
      ensures documents == old(documents) && notes == old(notes)
    {
      id := NextRowId(CategoryIds(categories));
      ghost var before := categories;
      categories := categories + [Category(id, name, parentId)];
      assert CategoryIds(categories) == CategoryIds(before) + [id];
      forall i | 0 <= i < |before|
        ensures before[i].id < id
      {
        assert CategoryIds(before)[i] == before[i].id;
      }
      ReferencesKept(notes, documents, before, [], [Category(id, name, parentId)]);
      assert documents + [] == documents;
      forall i | 0 <= i < |categories| && categories[i].parentId.Some?
        ensures HasCategory(categories, categories[i].parentId.value)
      {
        var p := categories[i].parentId.value;
        var j :| 0 <= j < |before| && before[j].id == p;
        assert categories[j] == before[j];
      }
    }

    /**
     * Seeds the category tree into an empty categories table; leaves a
     * non-empty one alone.
     */
    method EnsureDefaultCategories()
      requires Valid()
      modifies this
      ensures Valid()
      ensures categories == if old(categories) == [] then DefaultCategoryTree else old(categories)
      ensures documents == old(documents) && notes == old(notes)
    {
      if categories != [] {
        return;
      }
      var rootId := AddCategory("All notes", None);
      assert categories[0].id == rootId;
      var readingId := AddCategory("Reading", Some(rootId));
      assert categories[1].id == readingId;
      var _ := AddCategory("Ideas", Some(rootId));
    }

    /**
     * Seeds the category tree and the placeholder document, each only when
     * its table is empty.  Once both tables hold rows, seeding changes
     * nothing, so running it twice is the same as running it once.
     */
    method SeedMinimalData()
      requires Valid()
      modifies this
      ensures Valid() && Seeded()
      ensures categories == if old(categories) == [] then DefaultCategoryTree else old(categories)
      ensures documents == if old(documents) == [] then [PlaceholderDocument] else old(documents)
      ensures notes == old(notes)
      ensures old(Seeded()) ==>
        categories == old(categories) && documents == old(documents) && notes == old(notes)
    {
      EnsureDefaultCategories();
      if documents == [] {
        var id := NextRowId(DocumentIds(documents));
        ReferencesKept(notes, documents, categories, [Document(id, PlaceholderTitle, "", None, "")], []);
        assert categories + [] == categories;
        documents := documents + [Document(id, PlaceholderTitle, "", None, "")];
      }
    }

    /**
     * `INSERT INTO notes`: fails with a constraint error, changing nothing,
     * when the document or the category does not exist; otherwise appends
     * the note under an id larger than every existing note id, stamped
     * with `now`, and returns that id.
     */
    method InsertNote(documentId: int, categoryId: int, excerpt: string, bodyMd: string,
                      pageRef: Option<string>, now: Timestamp)
      returns (r: Result<int, DbError>)
      requires Valid()
      modifies this
      ensures Valid()
      ensures categories == old(categories) && documents == old(documents)
      ensures r.Failure? <==> !HasDocument(documents, documentId) || !HasCategory(categories, categoryId)
      ensures r.Failure? ==> r.error == ConstraintError && notes == old(notes)
      ensures r.Success? ==>
        && (forall i :: 0 <= i < |old(notes)| ==> old(notes)[i].id < r.value)
        && notes == old(notes) + [Note(r.value, documentId, categoryId, excerpt, bodyMd, pageRef, now)]
      ensures r.Success? ==>
        FetchNoteById(notes, r.value) == Some(Note(r.value, documentId, categoryId, excerpt, bodyMd, pageRef, now))
    {
      if !HasDocument(documents, documentId) || !HasCategory(categories, categoryId) {
        return Failure(ConstraintError);
      }
      var id := NextRowId(NoteIds(notes));
      ghost var before := notes;
      notes := notes + [Note(id, documentId, categoryId, excerpt, bodyMd, pageRef, now)];
      assert NoteIds(notes) == NoteIds(before) + [id];
      forall i | 0 <= i < |before|
        ensures before[i].id < id
      {
        assert NoteIds(before)[i] == before[i].id;
      }
      FetchAppended(before, Note(id, documentId, categoryId, excerpt, bodyMd, pageRef, now), id);
      r := Success(id);
    }
  }
}
