/**
 * The category hierarchy: parent links, the subtree a category spans, and
 * the level-by-level evaluation of the recursive subtree query.
 */
module CategoryTree {
  import opened Wrappers
  import opened Schema

  /**
   * A table of categories forms a forest: ids are positive and distinct,
   * and every parent link names an existing category with a smaller id
   * (parents are inserted before their children).  The last condition
   * rules out cycles.
   */
  ghost predicate TreeShaped(cats: seq<Category>)
  {
    && (forall i :: 0 <= i < |cats| ==> cats[i].id >= 1)
    && (forall i, j :: 0 <= i < j < |cats| ==> cats[i].id != cats[j].id)
    && (forall i :: 0 <= i < |cats| && cats[i].parentId.Some? ==>
          HasCategory(cats, cats[i].parentId.value) && cats[i].parentId.value < cats[i].id)
  }

  /** The position of the category with the given id, if there is one. */
  function FindCategory(cats: seq<Category>, id: int): (r: Option<nat>)
    ensures r.Some? ==> r.value < |cats| && cats[r.value].id == id
    ensures r.Some? ==> forall j :: 0 <= j < r.value ==> cats[j].id != id
    ensures r.None? <==> !HasCategory(cats, id)
  {
    if cats == [] then None
    else if cats[0].id == id then Some(0)
    else
      match FindCategory(cats[1..], id)
      case None => None
      case Some(k) => Some(k + 1)
  }

  /** With distinct ids, the category found is the only one with that id. */
  lemma FindCategoryUnique(cats: seq<Category>, i: nat)
    requires TreeShaped(cats) && i < |cats|
    ensures FindCategory(cats, cats[i].id) == Some(i)
  {
    var r := FindCategory(cats, cats[i].id);
    assert r.Some?;
  }

  /** The parent id of category `d`; None for a root or an unknown id. */
  function ParentOf(cats: seq<Category>, d: int): Option<int>
  {
    match FindCategory(cats, d)
    case None => None
    case Some(k) => cats[k].parentId
  }

  /** A parent link found by ParentOf names an existing, smaller id. */
  lemma ParentOfBelow(cats: seq<Category>, d: int)
    requires TreeShaped(cats)
    ensures ParentOf(cats, d).Some? ==>
      HasCategory(cats, d) && 1 <= ParentOf(cats, d).value < d
      && HasCategory(cats, ParentOf(cats, d).value)
  {
    match FindCategory(cats, d)
    case None =>
    case Some(k) =>
      if cats[k].parentId.Some? {
        var p := cats[k].parentId.value;
        assert HasCategory(cats, p);
      }
  }

  /**
   * `d` lies in the subtree of `root`: it is `root`, or following parent
   * links upwards from `d` reaches `root`.
   */
  function InSubtree(cats: seq<Category>, root: int, d: int): (r: bool)
    requires TreeShaped(cats)
    decreases if d < 0 then 0 else d
  {
    if d == root then true
    else
      match ParentOf(cats, d)
      case None => false
      case Some(p) =>
        ParentOfBelow(cats, d);
        InSubtree(cats, root, p)
  }

  /** Ids grow downwards: nothing in the subtree of `root` has a smaller id. */
  lemma {:induction false} InSubtreeNotBelow(cats: seq<Category>, root: int, d: int)
    requires TreeShaped(cats) && InSubtree(cats, root, d)
    ensures root <= d
    decreases if d < 0 then 0 else d
  {
    if d != root {
      ParentOfBelow(cats, d);
      InSubtreeNotBelow(cats, root, ParentOf(cats, d).value);
    }
  }

  /**
   * No cycles: following parent links from a category never leads back to
   * it, so no category lies in the subtree of its own child.
   */
  lemma Acyclic(cats: seq<Category>, d: int)
    requires TreeShaped(cats) && ParentOf(cats, d).Some?
    ensures !InSubtree(cats, d, ParentOf(cats, d).value)
  {
    ParentOfBelow(cats, d);
    if InSubtree(cats, d, ParentOf(cats, d).value) {
      InSubtreeNotBelow(cats, d, ParentOf(cats, d).value);
    }
  }

  /** A subtree that holds an existing category is rooted at an existing one. */
  lemma {:induction false} InSubtreeRootExists(cats: seq<Category>, root: int, d: int)
    requires TreeShaped(cats) && HasCategory(cats, d) && InSubtree(cats, root, d)
    ensures HasCategory(cats, root)
    decreases if d < 0 then 0 else d
  {
    if d != root {
      ParentOfBelow(cats, d);
      InSubtreeRootExists(cats, root, ParentOf(cats, d).value);
    }
  }

  /** Subtrees nest: the subtree of a member of a's subtree lies inside a's. */
  lemma {:induction false} InSubtreeTransitive(cats: seq<Category>, a: int, b: int, d: int)
    requires TreeShaped(cats) && InSubtree(cats, a, b) && InSubtree(cats, b, d)
    ensures InSubtree(cats, a, d)
    decreases if d < 0 then 0 else d
  {
    if d != b {
      ParentOfBelow(cats, d);
      InSubtreeTransitive(cats, a, b, ParentOf(cats, d).value);
    }
  }

  /**
   * The ancestors of a category form a chain: of two subtrees holding the
   * same category, one contains the other's root.
   */
  lemma {:induction false} InSubtreeLinear(cats: seq<Category>, a: int, b: int, d: int)
    requires TreeShaped(cats) && InSubtree(cats, a, d) && InSubtree(cats, b, d)
    ensures InSubtree(cats, a, b) || InSubtree(cats, b, a)
    decreases if d < 0 then 0 else d
  {
    if d != a && d != b {
      ParentOfBelow(cats, d);
      InSubtreeLinear(cats, a, b, ParentOf(cats, d).value);
    }
  }

  /**
   * A category strictly below `root` lies below one of root's children:
   * the subtree of `root` is `root` plus the subtrees of its children.
   */
  lemma {:induction false} InSubtreeViaChild(cats: seq<Category>, root: int, d: int)
    requires TreeShaped(cats) && InSubtree(cats, root, d) && d != root
    ensures exists k :: ParentOf(cats, k) == Some(root) && InSubtree(cats, k, d)
    decreases if d < 0 then 0 else d
  {
    ParentOfBelow(cats, d);
    var p := ParentOf(cats, d).value;
    if p == root {
      assert ParentOf(cats, d) == Some(root) && InSubtree(cats, d, d);
    } else {
      InSubtreeViaChild(cats, root, p);
      var k :| ParentOf(cats, k) == Some(root) && InSubtree(cats, k, p);
      assert InSubtree(cats, k, d);
    }
  }

  /** Every category lies below a root category (one whose parent is NULL). */
  lemma {:induction false} HasRoot(cats: seq<Category>, d: int)
    requires TreeShaped(cats) && HasCategory(cats, d)
    ensures exists r :: HasCategory(cats, r) && ParentOf(cats, r).None? && InSubtree(cats, r, d)
    decreases if d < 0 then 0 else d
  {
    ParentOfBelow(cats, d);
    match ParentOf(cats, d)
    case None =>
      assert InSubtree(cats, d, d);
    case Some(p) =>
      HasRoot(cats, p);
      var r :| HasCategory(cats, r) && ParentOf(cats, r).None? && InSubtree(cats, r, p);
      assert InSubtree(cats, r, d);
  }

  /**
   * The rows the recursive subtree query produces at iteration k: the
   * queried id itself at k = 0, then the ids of the categories whose
   * parent was produced at iteration k - 1.
   */
  function Level(cats: seq<Category>, root: int, k: nat): set<int>
  {
    if k == 0 then {root}
    else
      var prev := Level(cats, root, k - 1);
      set i | 0 <= i < |cats| && cats[i].parentId.Some? && cats[i].parentId.value in prev :: cats[i].id
  }

  /** Every id the query produces lies in the subtree of the queried id. */
  lemma {:induction false} LevelInSubtree(cats: seq<Category>, root: int, k: nat, d: int)
    requires TreeShaped(cats) && d in Level(cats, root, k)
    ensures InSubtree(cats, root, d)
  {
    if k > 0 {
      var i :| 0 <= i < |cats| && cats[i].parentId.Some?
        && cats[i].parentId.value in Level(cats, root, k - 1) && cats[i].id == d;
      FindCategoryUnique(cats, i);
      LevelInSubtree(cats, root, k - 1, cats[i].parentId.value);
    }
  }

  /** Every category of the subtree is produced at some iteration. */
  lemma {:induction false} SubtreeInLevel(cats: seq<Category>, root: int, d: int)
    requires TreeShaped(cats) && InSubtree(cats, root, d)
    ensures exists k: nat :: d in Level(cats, root, k)
    decreases if d < 0 then 0 else d
  {
    if d == root {
      assert d in Level(cats, root, 0);
    } else {
      ParentOfBelow(cats, d);
      var p := ParentOf(cats, d).value;
      SubtreeInLevel(cats, root, p);
      var k: nat :| p in Level(cats, root, k);
      var i := FindCategory(cats, d).value;
      assert d in Level(cats, root, k + 1);
    }
  }

  /**
   * The recursive query computes the reflexive-transitive closure of the
   * child relation: an id is produced at some iteration exactly when it
   * lies in the subtree of the queried id.
   */
  lemma SubtreeQueryIsClosure(cats: seq<Category>, root: int, d: int)
    requires TreeShaped(cats)
    ensures (exists k: nat :: d in Level(cats, root, k)) <==> InSubtree(cats, root, d)
  {
    if exists k: nat :: d in Level(cats, root, k) {
      var k: nat :| d in Level(cats, root, k);
      LevelInSubtree(cats, root, k, d);
    }
    if InSubtree(cats, root, d) {
      SubtreeInLevel(cats, root, d);
    }
  }

  /** An id produced at iteration k >= 1 is at least k above the queried id. */
  lemma {:induction false} LevelDepth(cats: seq<Category>, root: int, k: nat, d: int)
    requires TreeShaped(cats) && k >= 1 && d in Level(cats, root, k)
    ensures root >= 1 && d >= root + k && d <= LargestId(CategoryIds(cats))
  {
    var i :| 0 <= i < |cats| && cats[i].parentId.Some?
      && cats[i].parentId.value in Level(cats, root, k - 1) && cats[i].id == d;
    var p := cats[i].parentId.value;
    assert CategoryIds(cats)[i] == d;
    if k == 1 {
      assert p == root && HasCategory(cats, p);
    } else {
      LevelDepth(cats, root, k - 1, p);
    }
  }

  /**
   * The recursive query stops: because the hierarchy has no cycles, no
   * iteration beyond the largest category id produces a row, although
   * UNION ALL keeps no record of ids already seen.
   */
  lemma QueryTerminates(cats: seq<Category>, root: int, k: nat)
    requires TreeShaped(cats) && k >= 1 && k >= LargestId(CategoryIds(cats))
    ensures Level(cats, root, k) == {}
  {
    if d :| d in Level(cats, root, k) {
      LevelDepth(cats, root, k, d);
    }
  }
}
