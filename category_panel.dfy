/**
 * The category tree of the main window: the lookup tables built from the
 * ordered category list, the recursive construction of the tree items, and
 * the item selected by default.
 */
module CategoryPanel {
  import opened Wrappers
  import opened Schema
  import opened CategoryTree
  import opened Queries
  import opened NoteStore

  /** A tree item: the category's name, its id, and the items under it. */
  datatype TreeItem = TreeItem(name: string, id: int, children: seq<TreeItem>)

  /** The category tree's current item: none, or an item that may carry a category id. */
  datatype TreeSelection = NoCurrentItem | CurrentItem(categoryId: Option<int>)

  /** `children.get(parent_id, [])`. */
  function ChildrenOf(children: map<Option<int>, seq<int>>, parentId: Option<int>): seq<int>
  {
    if parentId in children then children[parentId] else []
  }

  /** The ids of the rows whose parent is `parentId`, in row order. */
  function ChildIds(rows: seq<Category>, parentId: Option<int>): seq<int>
  {
    if rows == [] then []
    else
      var last := |rows| - 1;
      ChildIds(rows[..last], parentId) + (if rows[last].parentId == parentId then [rows[last].id] else [])
  }

  /** An id is listed as a child of `parentId` exactly when some row with that id has that parent. */
  lemma {:induction false} ChildIdsMember(rows: seq<Category>, parentId: Option<int>, x: int)
    ensures x in ChildIds(rows, parentId) <==>
      exists i :: 0 <= i < |rows| && rows[i].id == x && rows[i].parentId == parentId
  {
    if rows != [] {
      var last := |rows| - 1;
      var front := rows[..last];
      ChildIdsMember(front, parentId, x);
      assert forall i :: 0 <= i < last ==> front[i] == rows[i];
    }
  }

  /** No value occurs twice. */
  predicate NoDup(s: seq<int>)
  {
    forall i, j :: 0 <= i < j < |s| ==> s[i] != s[j]
  }

  /** With distinct ids, no id is listed twice as a child. */
  lemma {:induction false} ChildIdsNoDup(rows: seq<Category>, parentId: Option<int>)
    requires forall i, j :: 0 <= i < j < |rows| ==> rows[i].id != rows[j].id
    ensures NoDup(ChildIds(rows, parentId))
  {
    if rows != [] {
      var last := |rows| - 1;
      var front := rows[..last];
      assert forall i :: 0 <= i < last ==> front[i] == rows[i];
      ChildIdsNoDup(front, parentId);
      var kids := ChildIds(front, parentId);
      forall k | 0 <= k < |kids|
        ensures kids[k] != rows[last].id
      {
        ChildIdsMember(front, parentId, kids[k]);
        assert kids[k] in kids;
      }
    }
  }

  /**
   * The lookup tables are those of the rows: every row is found under its
   * id, and every parent id lists its children in row order.
   */
  ghost predicate Lookups(rows: seq<Category>, byId: map<int, Category>,
                          children: map<Option<int>, seq<int>>)
  {
    && (forall id :: id in byId <==> HasCategory(rows, id))
    && (forall id :: id in byId ==> byId[id].id == id && byId[id] in rows)
    && (forall p :: ChildrenOf(children, p) == ChildIds(rows, p))
  }

  /** A category exists after appending a row when it existed before or is that row. */
  lemma HasCategoryAppend(rows: seq<Category>, r: Category)
    ensures forall id :: HasCategory(rows + [r], id) <==> HasCategory(rows, id) || id == r.id
  {
    var longer := rows + [r];
    assert longer[|rows|] == r;
    forall id | HasCategory(rows, id)
      ensures HasCategory(longer, id)
    {
      var j :| 0 <= j < |rows| && rows[j].id == id;
      assert longer[j] == rows[j];
    }
    forall id | HasCategory(longer, id)
      ensures HasCategory(rows, id) || id == r.id
    {
      var j :| 0 <= j < |longer| && longer[j].id == id;
      if j < |rows| {
        assert longer[j] == rows[j];
      }
    }
  }

  /** Appending a row appends its id to its parent's children and to no other list. */
  lemma ChildIdsAppend(rows: seq<Category>, r: Category)
    ensures forall p :: ChildIds(rows + [r], p) == ChildIds(rows, p) + (if r.parentId == p then [r.id] else [])
  {
    assert (rows + [r])[..|rows|] == rows;
  }

  /** Entering one more row into the lookup tables gives the tables of the longer list. */
  lemma LookupsExtend(rows: seq<Category>, r: Category, byId: map<int, Category>,
                      children: map<Option<int>, seq<int>>)
    requires Lookups(rows, byId, children)
    ensures Lookups(rows + [r], byId[r.id := r],
                    children[r.parentId := ChildrenOf(children, r.parentId) + [r.id]])
  {
    var longer := rows + [r];
    HasCategoryAppend(rows, r);
    ChildIdsAppend(rows, r);
    assert longer[|rows|] == r;
    forall id | id in byId
      ensures byId[id] in longer
    {
      var j :| 0 <= j < |rows| && rows[j] == byId[id];
      assert longer[j] == rows[j];
    }
  }

  /**
   * One pass over the rows filling `by_id` and, with `setdefault(...)
   * .append`, the children lists.
   */
  method BuildLookups(rows: seq<Category>) returns (byId: map<int, Category>,
                                                    children: map<Option<int>, seq<int>>)
    ensures Lookups(rows, byId, children)
  {
    byId := map[];
    children := map[];
    for i := 0 to |rows|
      invariant Lookups(rows[..i], byId, children)
    {
      var r := rows[i];
      LookupsExtend(rows[..i], r, byId, children);
      assert rows[..i + 1] == rows[..i] + [r];
      byId := byId[r.id := r];
      children := children[r.parentId := ChildrenOf(children, r.parentId) + [r.id]];
    }
    assert rows[..|rows|] == rows;
  }

  /** The name of the category with the given id. */
  function NameOf(rows: seq<Category>, id: int): string
    requires HasCategory(rows, id)
  {
    rows[FindCategory(rows, id).value].name
  }

  /** How far a parent is from the largest id; children rank strictly lower. */
  function Rank(rows: seq<Category>, parentId: Option<int>): int
  {
    var top := LargestId(CategoryIds(rows));
    if parentId.None? then top + 1 else top - parentId.value
  }

  /** A listed child is a category whose parent is the given one, and it ranks lower. */
  lemma ChildRank(rows: seq<Category>, byId: map<int, Category>,
                  children: map<Option<int>, seq<int>>, parentId: Option<int>, c: int)
    requires TreeShaped(rows) && Lookups(rows, byId, children)
    requires c in ChildrenOf(children, parentId)
    ensures HasCategory(rows, c) && ParentOf(rows, c) == parentId
    ensures c in byId && byId[c].name == NameOf(rows, c)
    ensures 0 <= Rank(rows, Some(c)) < Rank(rows, parentId)
  {
    ChildIdsMember(rows, parentId, c);
    var i :| 0 <= i < |rows| && rows[i].id == c && rows[i].parentId == parentId;
    FindCategoryUnique(rows, i);
    var j :| 0 <= j < |rows| && rows[j] == byId[c];
    FindCategoryUnique(rows, j);
    assert CategoryIds(rows)[i] == c;
  }

  /** Every listed child is a category found under its id. */
  lemma ChildrenListed(rows: seq<Category>, byId: map<int, Category>,
                       children: map<Option<int>, seq<int>>, parentId: Option<int>)
    requires TreeShaped(rows) && Lookups(rows, byId, children)
    ensures forall c :: c in ChildrenOf(children, parentId) ==>
      HasCategory(rows, c) && c in byId && byId[c].name == NameOf(rows, c)
  {
    forall c | c in ChildrenOf(children, parentId)
      ensures HasCategory(rows, c) && c in byId && byId[c].name == NameOf(rows, c)
    {
      ChildRank(rows, byId, children, parentId, c);
    }
  }

  /**
   * `build_subtree(parent_id)`: one item per child of `parentId`, in the
   * order of the children list, each holding the items built for its own
   * children.
   */
  function BuildSubtree(byId: map<int, Category>, children: map<Option<int>, seq<int>>,
                        parentId: Option<int>, ghost rows: seq<Category>): (items: seq<TreeItem>)
    requires TreeShaped(rows) && Lookups(rows, byId, children)
    decreases Rank(rows, parentId)
    ensures |items| == |ChildIds(rows, parentId)|
    ensures forall i :: 0 <= i < |items| ==>
      && items[i].id == ChildIds(rows, parentId)[i]
      && HasCategory(rows, items[i].id)
      && items[i].name == NameOf(rows, items[i].id)
  {
    var kids := ChildrenOf(children, parentId);
    ChildrenListed(rows, byId, children, parentId);
    seq(|kids|, i requires 0 <= i < |kids| =>
      var c := kids[i];
      ChildRank(rows, byId, children, parentId, c);
      TreeItem(byId[c].name, c, BuildSubtree(byId, children, Some(c), rows)))
  }

  /** The ids of a forest, each item before the items under it. */
  function Flatten(items: seq<TreeItem>): seq<int>
    decreases items
  {
    if items == [] then []
    else [items[0].id] + Flatten(items[0].children) + Flatten(items[1..])
  }

  /** An id is in a forest when it is a top item's id or in the forest under a top item. */
  lemma {:induction false} FlattenMember(items: seq<TreeItem>, x: int)
    decreases items
    ensures x in Flatten(items) <==>
      exists i :: 0 <= i < |items| && (items[i].id == x || x in Flatten(items[i].children))
  {
    if items != [] {
      FlattenMember(items[1..], x);
      assert forall i :: 1 <= i < |items| ==> items[1..][i - 1] == items[i];
      if x in Flatten(items[1..]) {
        var i :| 0 <= i < |items[1..]| && (items[1..][i].id == x || x in Flatten(items[1..][i].children));
        assert items[i + 1] == items[1..][i];
      }
    }
  }

  /** `x` lies strictly below `parentId`; every category lies below None. */
  ghost predicate Below(rows: seq<Category>, parentId: Option<int>, x: int)
    requires TreeShaped(rows)
  {
    HasCategory(rows, x) && (parentId.Some? ==> x != parentId.value && InSubtree(rows, parentId.value, x))
  }

  /** What lies below a parent is what lies in the subtree of one of its children. */
  lemma BelowViaChild(rows: seq<Category>, parentId: Option<int>, x: int)
    requires TreeShaped(rows)
    ensures Below(rows, parentId, x) <==>
      exists c :: HasCategory(rows, c) && ParentOf(rows, c) == parentId && HasCategory(rows, x)
        && InSubtree(rows, c, x)
  {
    if Below(rows, parentId, x) {
      if parentId.None? {
        HasRoot(rows, x);
      } else {
        InSubtreeViaChild(rows, parentId.value, x);
        var c :| ParentOf(rows, c) == parentId && InSubtree(rows, c, x);
        ParentOfBelow(rows, c);
      }
    }
    if exists c :: HasCategory(rows, c) && ParentOf(rows, c) == parentId && HasCategory(rows, x)
        && InSubtree(rows, c, x) {
      var c :| HasCategory(rows, c) && ParentOf(rows, c) == parentId && HasCategory(rows, x)
        && InSubtree(rows, c, x);
      if parentId.Some? {
        var q := parentId.value;
        ParentOfBelow(rows, c);
        assert InSubtree(rows, q, c);
        InSubtreeTransitive(rows, q, c, x);
        InSubtreeNotBelow(rows, c, x);
      }
    }
  }

  /** Two different children of one parent span disjoint subtrees. */
  lemma SiblingsDisjoint(rows: seq<Category>, parentId: Option<int>, c1: int, c2: int, x: int)
    requires TreeShaped(rows)
    requires ParentOf(rows, c1) == parentId && ParentOf(rows, c2) == parentId && c1 != c2
    requires HasCategory(rows, c1) && HasCategory(rows, c2)
    ensures !(InSubtree(rows, c1, x) && InSubtree(rows, c2, x))
  {
    if InSubtree(rows, c1, x) && InSubtree(rows, c2, x) {
      InSubtreeLinear(rows, c1, c2, x);
      ParentOfBelow(rows, c1);
      ParentOfBelow(rows, c2);
      if InSubtree(rows, c1, c2) {
        assert parentId.Some? && InSubtree(rows, c1, parentId.value);
        InSubtreeNotBelow(rows, c1, parentId.value);
      } else {
        assert parentId.Some? && InSubtree(rows, c2, parentId.value);
        InSubtreeNotBelow(rows, c2, parentId.value);
      }
    }
  }

  /** Concatenating sequences without common values keeps them free of duplicates. */
  lemma NoDupConcat(a: seq<int>, b: seq<int>)
    requires NoDup(a) && NoDup(b) && forall x :: x in a ==> x !in b
    ensures NoDup(a + b)
  {
    forall i, j | 0 <= i < j < |a + b|
      ensures (a + b)[i] != (a + b)[j]
    {
      if i < |a| && j >= |a| {
        assert (a + b)[i] in a && (a + b)[j] == b[j - |a|];
      }
    }
  }

  /**
   * The forest of a parent's children holds no id twice, given that each
   * child's own forest holds exactly what lies below that child, once.
   */
  lemma {:induction false} ChildForestsNoDup(rows: seq<Category>, parentId: Option<int>,
                                             items: seq<TreeItem>)
    requires TreeShaped(rows)
    requires forall i, j :: 0 <= i < j < |items| ==> items[i].id != items[j].id
    requires forall i :: 0 <= i < |items| ==>
      HasCategory(rows, items[i].id) && ParentOf(rows, items[i].id) == parentId
    requires forall i :: 0 <= i < |items| ==> NoDup(Flatten(items[i].children))
    requires forall i, x :: 0 <= i < |items| ==>
      (x in Flatten(items[i].children) <==> Below(rows, Some(items[i].id), x))
    ensures NoDup(Flatten(items))
    ensures forall x :: x in Flatten(items) ==>
      exists i :: 0 <= i < |items| && InSubtree(rows, items[i].id, x)
  {
    if items != [] {
      var rest := items[1..];
      assert forall i :: 0 <= i < |rest| ==> rest[i] == items[i + 1];
      ChildForestsNoDup(rows, parentId, rest);
      var c := items[0].id;
      var under := Flatten(items[0].children);
      var others := Flatten(rest);
      forall x | x in others
        ensures x != c && x !in under
      {
        var i :| 0 <= i < |rest| && InSubtree(rows, rest[i].id, x);
        SiblingsDisjoint(rows, parentId, c, rest[i].id, x);
      }
      assert c !in under;
      NoDupConcat([c], under);
      NoDupConcat([c] + under, others);
      forall x | x in Flatten(items)
        ensures exists i :: 0 <= i < |items| && InSubtree(rows, items[i].id, x)
      {
        if x in others {
          var i :| 0 <= i < |rest| && InSubtree(rows, rest[i].id, x);
          assert InSubtree(rows, items[i + 1].id, x);
        } else {
          assert InSubtree(rows, items[0].id, x);
        }
      }
    }
  }

  /**
   * The items built under a parent hold exactly the categories strictly
   * below it; under None, every category.
   */
  lemma {:induction false} ForestMembers(byId: map<int, Category>, children: map<Option<int>, seq<int>>,
                                         parentId: Option<int>, rows: seq<Category>)
    requires TreeShaped(rows) && Lookups(rows, byId, children)
    decreases Rank(rows, parentId)
    ensures forall x :: x in Flatten(BuildSubtree(byId, children, parentId, rows)) <==> Below(rows, parentId, x)
  {
    var items := BuildSubtree(byId, children, parentId, rows);
    var kids := ChildrenOf(children, parentId);
    forall i | 0 <= i < |items|
      ensures forall x :: x in Flatten(items[i].children) <==> Below(rows, Some(items[i].id), x)
    {
      ChildRank(rows, byId, children, parentId, kids[i]);
      ForestMembers(byId, children, Some(kids[i]), rows);
    }
    forall x
      ensures x in Flatten(items) <==> Below(rows, parentId, x)
    {
      FlattenMember(items, x);
      BelowViaChild(rows, parentId, x);
      if Below(rows, parentId, x) {
        var c :| HasCategory(rows, c) && ParentOf(rows, c) == parentId && HasCategory(rows, x)
          && InSubtree(rows, c, x);
        assert FindCategory(rows, c).Some?;
        ChildIdsMember(rows, parentId, c);
        assert c in kids;
        var i :| 0 <= i < |kids| && kids[i] == c;
        assert items[i].id == c;
        if x != c {
          assert x in Flatten(items[i].children);
        }
      }
      if x in Flatten(items) {
        var i :| 0 <= i < |items| && (items[i].id == x || x in Flatten(items[i].children));
        ChildRank(rows, byId, children, parentId, kids[i]);
        if items[i].id != x {
          assert Below(rows, Some(items[i].id), x);
        }
        assert InSubtree(rows, items[i].id, x);
      }
    }
  }

  /** The items built under a parent hold no category twice. */
  lemma {:induction false} ForestNoDup(byId: map<int, Category>, children: map<Option<int>, seq<int>>,
                                       parentId: Option<int>, rows: seq<Category>)
    requires TreeShaped(rows) && Lookups(rows, byId, children)
    decreases Rank(rows, parentId)
    ensures NoDup(Flatten(BuildSubtree(byId, children, parentId, rows)))
  {
    var items := BuildSubtree(byId, children, parentId, rows);
    var kids := ChildrenOf(children, parentId);
    forall i | 0 <= i < |items|
      ensures HasCategory(rows, items[i].id) && ParentOf(rows, items[i].id) == parentId
      ensures NoDup(Flatten(items[i].children))
      ensures forall x :: x in Flatten(items[i].children) <==> Below(rows, Some(items[i].id), x)
    {
      ChildRank(rows, byId, children, parentId, kids[i]);
      ForestNoDup(byId, children, Some(kids[i]), rows);
      ForestMembers(byId, children, Some(kids[i]), rows);
    }
    ChildIdsNoDup(rows, parentId);
    ChildForestsNoDup(rows, parentId, items);
  }

  /**
   * Each item sits under its parent: the items under a parent are its
   * children in row order, named after their rows, each with its own
   * children under it.
   */
  ghost predicate WellPlaced(rows: seq<Category>, items: seq<TreeItem>, parentId: Option<int>)
    decreases items
  {
    && |items| == |ChildIds(rows, parentId)|
    && forall i :: 0 <= i < |items| ==>
      && items[i].id == ChildIds(rows, parentId)[i]
      && HasCategory(rows, items[i].id)
      && items[i].name == NameOf(rows, items[i].id)
      && WellPlaced(rows, items[i].children, Some(items[i].id))
  }

  /** The items built from the lookup tables sit under their parents. */
  lemma {:induction false} BuiltWellPlaced(byId: map<int, Category>, children: map<Option<int>, seq<int>>,
                                           parentId: Option<int>, rows: seq<Category>)
    requires TreeShaped(rows) && Lookups(rows, byId, children)
    decreases Rank(rows, parentId)
    ensures WellPlaced(rows, BuildSubtree(byId, children, parentId, rows), parentId)
  {
    var items := BuildSubtree(byId, children, parentId, rows);
    var kids := ChildrenOf(children, parentId);
    forall i | 0 <= i < |items|
      ensures WellPlaced(rows, items[i].children, Some(items[i].id))
    {
      ChildRank(rows, byId, children, parentId, kids[i]);
      BuiltWellPlaced(byId, children, Some(kids[i]), rows);
    }
  }

  /**
   * `load_categories_tree`: fetches the ordered categories, builds the
   * lookup tables and the tree from the roots down, and makes the first
   * top-level item current.  Every category appears exactly once, under
   * its parent, and a non-empty table always yields a current category.
   */
  method LoadCategoriesTree(store: Store) returns (top: seq<TreeItem>, selection: TreeSelection)
    requires TreeShaped(store.categories)
    ensures WellPlaced(FetchCategories(store.categories), top, None)
    ensures NoDup(Flatten(top))
    ensures forall x :: x in Flatten(top) <==> HasCategory(store.categories, x)
    ensures selection == if top == [] then NoCurrentItem else CurrentItem(Some(top[0].id))
    ensures store.categories != [] ==>
      selection.CurrentItem? && selection.categoryId.Some?
      && HasCategory(store.categories, selection.categoryId.value)
  {
    var cats := store.categories;
    var rows := FetchCategories(cats);
    FetchCategoriesTreeShaped(cats);
    var byId, children := BuildLookups(rows);
    top := BuildSubtree(byId, children, None, rows);
    ForestMembers(byId, children, None, rows);
    ForestNoDup(byId, children, None, rows);
    BuiltWellPlaced(byId, children, None, rows);
    if cats != [] {
      assert cats[0] in multiset(rows);
      HasRoot(rows, cats[0].id);
      var r :| HasCategory(rows, r) && ParentOf(rows, r).None? && InSubtree(rows, r, cats[0].id);
      assert r in Flatten(top);
      FlattenMember(top, r);
    }
    selection := if top == [] then NoCurrentItem else CurrentItem(Some(top[0].id));
    if top != [] {
      FlattenMember(top, top[0].id);
    }
  }
}
