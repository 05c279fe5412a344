/**
 * The three tables of the note store and the rule by which the store
 * hands out row ids.
 */
module Schema {
  import opened Wrappers

  /** The insertion time the store stamps on a note; never inspected. */
  type Timestamp = nat

  datatype Category = Category(id: int, name: string, parentId: Option<int>)

  datatype Document = Document(id: int, title: string, authors: string, year: Option<int>, filePath: string)

  datatype Note = Note(
    id: int,
    documentId: int,
    categoryId: int,
    excerpt: string,
    bodyMd: string,
    pageRef: Option<string>,
    createdAt: Timestamp)

  /**
   * ConstraintError: a foreign key names no row.
   * NotSeeded: a default id was asked of an empty table.
   */
  datatype DbError = ConstraintError | NotSeeded

  function CategoryIds(cats: seq<Category>): seq<int>
  {
    seq(|cats|, i requires 0 <= i < |cats| => cats[i].id)
  }

  function DocumentIds(docs: seq<Document>): seq<int>
  {
    seq(|docs|, i requires 0 <= i < |docs| => docs[i].id)
  }

  function NoteIds(notes: seq<Note>): seq<int>
  {
    seq(|notes|, i requires 0 <= i < |notes| => notes[i].id)
  }

  predicate HasCategory(cats: seq<Category>, id: int)
  {
    exists i :: 0 <= i < |cats| && cats[i].id == id
  }

  predicate HasDocument(docs: seq<Document>, id: int)
  {
    exists i :: 0 <= i < |docs| && docs[i].id == id
  }

  /** Row ids are positive and grow in table (rowid) order. */
  ghost predicate AscendingIds(ids: seq<int>)
  {
    && (forall i :: 0 <= i < |ids| ==> ids[i] >= 1)
    && (forall i, j :: 0 <= i < j < |ids| ==> ids[i] < ids[j])
  }

  /** The largest id of a table, 0 for an empty one. */
  function LargestId(ids: seq<int>): (m: int)
    ensures m >= 0
    ensures forall i :: 0 <= i < |ids| ==> ids[i] <= m
    ensures m == 0 || m in ids
  {
    if ids == [] then 0
    else
      var m := LargestId(ids[..|ids| - 1]);
      if ids[|ids| - 1] > m then ids[|ids| - 1] else m
  }

  /**
   * The id an INSERT receives: one more than the largest id in the table,
   * 1 in an empty table (the store's rowid rule; no row is ever deleted).
   */
  function NextRowId(ids: seq<int>): (r: int)
    ensures r >= 1
    ensures forall i :: 0 <= i < |ids| ==> ids[i] < r
    ensures AscendingIds(ids) ==> AscendingIds(ids + [r])
  {
    LargestId(ids) + 1
  }

  /** In an ascending table the next id follows the last row's id. */
  lemma NextRowIdAfterLast(ids: seq<int>)
    requires AscendingIds(ids)
    ensures NextRowId(ids) == if ids == [] then 1 else ids[|ids| - 1] + 1
  {
    if ids != [] {
      var m := LargestId(ids);
      assert m in ids;
    }
  }

  /** The smallest id of a non-empty table (`ORDER BY id ASC LIMIT 1`). */
  function SmallestId(ids: seq<int>): (m: int)
    requires ids != []
    ensures m in ids
    ensures forall i :: 0 <= i < |ids| ==> m <= ids[i]
  {
    if |ids| == 1 then ids[0]
    else
      var m := SmallestId(ids[1..]);
      if ids[0] < m then ids[0] else m
  }
}
