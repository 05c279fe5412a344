/**
 * The order in which the category list is read: by parent id ascending,
 * NULL (a root) first, then by name ascending.  Names compare by code
 * point, which for UTF-8 text is the order of the store's default
 * byte-wise collation.
 */
module CategoryOrder {
  import opened Wrappers
  import opened Schema
  import opened CategoryTree

  /** Strict order on nullable parent ids: NULL sorts before every id. */
  predicate ParentBefore(a: Option<int>, b: Option<int>)
  {
    match (a, b)
    case (None, Some(_)) => true
    case (Some(x), Some(y)) => x < y
    case _ => false
  }

  /** Lexicographic order on names, character by character. */
  predicate NameAtMost(a: string, b: string)
  {
    a == [] || (b != [] && (a[0] < b[0] || (a[0] == b[0] && NameAtMost(a[1..], b[1..]))))
  }

  /** `ORDER BY parent_id ASC, name ASC`. */
  predicate CategoryAtMost(a: Category, b: Category)
  {
    ParentBefore(a.parentId, b.parentId) || (a.parentId == b.parentId && NameAtMost(a.name, b.name))
  }

  lemma {:induction false} NameAtMostTotal(a: string, b: string)
    ensures NameAtMost(a, b) || NameAtMost(b, a)
  {
    if a != [] && b != [] && a[0] == b[0] {
      NameAtMostTotal(a[1..], b[1..]);
    }
  }

  lemma {:induction false} NameAtMostTransitive(a: string, b: string, c: string)
    requires NameAtMost(a, b) && NameAtMost(b, c)
    ensures NameAtMost(a, c)
  {
    if a != [] && a[0] == b[0] && b[0] == c[0] {
      NameAtMostTransitive(a[1..], b[1..], c[1..]);
    }
  }

  lemma CategoryAtMostTotal(a: Category, b: Category)
    ensures CategoryAtMost(a, b) || CategoryAtMost(b, a)
  {
    NameAtMostTotal(a.name, b.name);
  }

  lemma CategoryAtMostTransitive(a: Category, b: Category, c: Category)
    requires CategoryAtMost(a, b) && CategoryAtMost(b, c)
    ensures CategoryAtMost(a, c)
  {
    if a.parentId == b.parentId == c.parentId {
      NameAtMostTransitive(a.name, b.name, c.name);
    }
  }

  /** Each row is at most the next one. */
  ghost predicate SortedAdjacent(rows: seq<Category>)
  {
    forall i :: 0 <= i < |rows| - 1 ==> CategoryAtMost(rows[i], rows[i + 1])
  }

  /** Every row is at most every later row. */
  ghost predicate Sorted(rows: seq<Category>)
  {
    forall i, j :: 0 <= i < j < |rows| ==> CategoryAtMost(rows[i], rows[j])
  }

  lemma {:induction false} AdjacentIsSorted(rows: seq<Category>)
    requires SortedAdjacent(rows)
    ensures Sorted(rows)
  {
    if |rows| > 1 {
      AdjacentIsSorted(rows[1..]);
      forall j | 1 <= j < |rows|
        ensures CategoryAtMost(rows[0], rows[j])
      {
        if j > 1 {
          assert CategoryAtMost(rows[1..][0], rows[1..][j - 1]);
          CategoryAtMostTransitive(rows[0], rows[1], rows[j]);
        }
      }
      forall i, j | 0 <= i < j < |rows|
        ensures CategoryAtMost(rows[i], rows[j])
      {
        if i > 0 {
          assert CategoryAtMost(rows[1..][i - 1], rows[1..][j - 1]);
        }
      }
    }
  }

  /** Places `c` in front of the first row it is at most. */
  function Insert(c: Category, rows: seq<Category>): (r: seq<Category>)
    ensures multiset(r) == multiset(rows) + multiset{c}
    ensures r[0] == c || (rows != [] && r[0] == rows[0])
    ensures SortedAdjacent(rows) ==> SortedAdjacent(r)
  {
    if rows == [] || CategoryAtMost(c, rows[0]) then [c] + rows
    else
      CategoryAtMostTotal(c, rows[0]);
      assert rows == [rows[0]] + rows[1..];
      [rows[0]] + Insert(c, rows[1..])
  }

  /** Insertion sort of the categories table. */
  function SortCategories(cats: seq<Category>): (rows: seq<Category>)
    ensures multiset(rows) == multiset(cats)
    ensures SortedAdjacent(rows)
  {
    if cats == [] then []
    else
      assert cats == [cats[0]] + cats[1..];
      Insert(cats[0], SortCategories(cats[1..]))
  }

  /** Occurrences of `v` in `s` before and after position `i`. */
  lemma CountAround<T>(s: seq<T>, i: nat)
    requires i < |s|
    ensures multiset(s)[s[i]] == multiset(s[..i])[s[i]] + 1 + multiset(s[i + 1..])[s[i]]
  {
    assert s == s[..i] + [s[i]] + s[i + 1..];
  }

  /** With distinct ids, each row of a category table occurs once. */
  lemma OccursOnce(cats: seq<Category>, k: nat)
    requires TreeShaped(cats) && k < |cats|
    ensures multiset(cats)[cats[k]] == 1
  {
    var v := cats[k];
    CountAround(cats, k);
    forall m | 0 <= m < k
      ensures cats[..k][m] != v
    {
      assert cats[..k][m].id == cats[m].id;
    }
    forall m | k < m < |cats|
      ensures cats[m] != v
    {
    }
    assert v !in cats[k + 1..];
  }

  /** A row repeated at two positions occurs at least twice. */
  lemma OccursTwice(rows: seq<Category>, i: nat, j: nat)
    requires i < j < |rows| && rows[i] == rows[j]
    ensures multiset(rows)[rows[i]] >= 2
  {
    CountAround(rows, i);
    assert rows[i + 1..][j - i - 1] == rows[i];
  }

  /**
   * Reordering a category table keeps it a forest: the same rows have the
   * same ids and parent links, and distinct ids stay distinct.
   */
  lemma PermutationTreeShaped(cats: seq<Category>, rows: seq<Category>)
    requires multiset(rows) == multiset(cats) && TreeShaped(cats)
    ensures TreeShaped(rows)
  {
    forall i | 0 <= i < |rows|
      ensures exists k :: 0 <= k < |cats| && cats[k] == rows[i]
    {
      assert rows[i] in multiset(cats);
    }
    forall i | 0 <= i < |rows| && rows[i].parentId.Some?
      ensures HasCategory(rows, rows[i].parentId.value)
    {
      var k :| 0 <= k < |cats| && cats[k] == rows[i];
      var l :| 0 <= l < |cats| && cats[l].id == rows[i].parentId.value;
      assert cats[l] in multiset(rows);
    }
    forall i, j | 0 <= i < j < |rows|
      ensures rows[i].id != rows[j].id
    {
      var k :| 0 <= k < |cats| && cats[k] == rows[i];
      if rows[i] == rows[j] {
        OccursOnce(cats, k);
        OccursTwice(rows, i, j);
      }
    }
  }
}
