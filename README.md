# Eye-file note store and main window, modelled in Dafny

Eye-file is a desktop application for keeping reading notes. This project models two parts of it:

- The persistence core, `eye_file/data/db.py`. It holds three SQLite tables: `categories`, which form a tree; `documents`; and `notes`. It seeds a default category tree and a placeholder document. It inserts notes under foreign-key enforcement. It answers the application's queries:
  - the ordered category list;
  - the notes of a category's whole subtree, computed with a recursive query and listed newest first;
  - a note by id;
  - the default document and category ids.
- The logic of the main window, `eye_file/ui/main_window.py`:
  - the Save button's guard, the insertion, and the selection of the saved note;
  - the label shown for each note in the notes list;
  - how the category tree is rebuilt from the flat category list.

Modules, one per file:

| module | file | role |
|---|---|---|
| `Wrappers` | `wrappers.dfy` | `Option` and `Result` |
| `PyStr` | `pystr.dfy` | Python's `str.strip()` with its whitespace set, and `replace("\n", " ")` |
| `Schema` | `schema.dfy` | table rows, the two error kinds, and the rowid rule (a new row gets one more than the largest id) |
| `CategoryTree` | `category_tree.dfy` | parent links, subtree membership, and the iterations of the recursive subtree query |
| `CategoryOrder` | `category_order.dfy` | `ORDER BY parent_id ASC, name ASC`, as an insertion sort proved sorted and a permutation |
| `Queries` | `queries.dfy` | the read-only queries, as functions of the table contents |
| `NoteStore` | `store.dfy` | class `Store`: the three tables as `seq` fields that seeding and insertion append to |
| `NotesList` | `notes_list.dfy` | note labels and the list built by `refresh_notes_list` |
| `CategoryPanel` | `category_panel.dfy` | the lookup maps, `build_subtree`, and `load_categories_tree` |
| `SaveDraft` | `save_draft.dfy` | `on_save_clicked` |

The store keeps three invariants in `NoteStore.Store.Valid`:

- In every table, ids ascend in rowid order.
- Every category's parent exists and has a smaller id than the category. No code path creates a category any other way, and this rules out cycles.
- Every note names an existing document and an existing category.

The recursive subtree query is modelled twice:

- as `CategoryTree.Level`, the ids produced at each iteration of the recursive query;
- as `CategoryTree.InSubtree`, found by walking up parent links.

`CategoryTree.SubtreeQueryIsClosure` proves the two agree. The note query is defined with the second.

Three points where the model names or reads the code in a particular way:

- **Default ids on an empty table.** `get_default_ids` reads `["id"]` off the `None` that `fetchone()` returns for an empty table, which raises `TypeError` (db.py:78-79). The model calls this failure `NotSeeded`.
- **Cycles.** Nothing in the schema prevents a category from being its own ancestor. Only seeding creates categories (db.py:119-123), and always under a parent inserted earlier. The model makes "the parent exists and has a smaller id" a store invariant and proves acyclicity from it.
- **Save uses the selected category.** The docstring of `on_save_clicked` (main_window.py:224-226) says it uses the default ids. The code takes the category from the tree's current item instead (main_window.py:238-248), and uses `get_default_ids` only for the document. The model follows the code.

## Model

| member | source | states |
|---|---|---|
| NoteStore.Store.constructor | eye_file/data/db.py:34-42 | a freshly initialised store has three empty tables and satisfies the store invariant |
| NoteStore.Store.AddCategory | eye_file/data/db.py:119-123 | an INSERT into categories appends the row under the next rowid (one more than the largest id) and keeps ascending ids, the tree shape and the foreign keys of the notes |
| NoteStore.Store.EnsureDefaultCategories | eye_file/data/db.py:104-124 | an empty categories table receives exactly the tree "All notes" (id 1), "Reading" and "Ideas" under it (ids 2, 3); a non-empty table is left alone; no other table changes |
| NoteStore.Store.SeedMinimalData | eye_file/data/db.py:45-67 | afterwards both tables are non-empty; categories become the default tree only if they were empty, documents become the placeholder document only if they were empty, notes are unchanged, and on an already seeded store nothing changes (idempotence) |
| NoteStore.Store.InsertNote | eye_file/data/db.py:83-102 | fails with a constraint error exactly when the document or the category does not exist, and then changes nothing; otherwise appends the note under an id larger than every existing note id and returns that id, and fetching that id returns exactly the inserted note; the invariant is preserved |
| NoteStore.ReferencesKept | eye_file/data/db.py:60-65 | appending documents or categories never breaks a note's foreign keys |
| Schema.NextRowId | eye_file/data/db.py:119-120 | the id handed out is positive, larger than every id in the table, and keeps the table's ids ascending |
| Schema.NextRowIdAfterLast | eye_file/data/db.py:119-120 | in an ascending table the next id is the last row's id plus one, or 1 when the table is empty |
| Queries.GetDefaultIds | eye_file/data/db.py:70-80 | fails with NotSeeded exactly when documents or categories is empty; otherwise returns an existing document id and an existing category id, each no larger than any id in its table |
| Queries.FetchCategories | eye_file/data/db.py:127-133 | the result is a permutation of the categories table, sorted by parent id (NULL first) and then by name |
| Queries.FetchCategoriesTreeShaped | eye_file/data/db.py:127-133 | the reordered list is still a forest and holds exactly the same category ids |
| CategoryOrder.Insert | eye_file/data/db.py:132 | inserting one row adds exactly that row (multiset) and keeps a sorted list sorted |
| CategoryOrder.SortCategories | eye_file/data/db.py:132 | the sort returns a permutation of its input in which every row is at most the next one |
| CategoryOrder.AdjacentIsSorted | eye_file/data/db.py:132 | a list whose neighbours are in order is ordered throughout |
| CategoryOrder.CategoryAtMostTotal | eye_file/data/db.py:132 | any two categories are comparable under the parent-then-name order |
| CategoryOrder.CategoryAtMostTransitive | eye_file/data/db.py:132 | the parent-then-name order is transitive |
| CategoryOrder.PermutationTreeShaped | eye_file/data/db.py:127-133 | reordering the rows of a forest gives a forest |
| Queries.FetchNotesForCategorySubtree | eye_file/data/db.py:135-164 | returns no more rows than there are notes, and every row is of an existing category in the subtree of the queried id |
| Queries.RowSource | eye_file/data/db.py:158-160 | each row of the subtree query is the joined view of some note in the table whose category is in the subtree (soundness) |
| Queries.RowShown | eye_file/data/db.py:158-160 | every note whose category is in the subtree appears as a row (completeness) |
| Queries.SubtreeNotesDescending | eye_file/data/db.py:161 | with ids ascending in rowid order, the rows come in strictly descending id order |
| Queries.UnknownCategoryHasNoNotes | eye_file/data/db.py:143-160 | querying an id that names no category yields no rows, not an error |
| Queries.SubtreeNotesFollowQuery | eye_file/data/db.py:143-160 | a note is listed exactly when its category is produced at some iteration of the recursive query |
| Queries.FetchNoteById | eye_file/data/db.py:167-178 | returns a note of the table with the requested id, or None exactly when no note has that id |
| Queries.FetchAppended | eye_file/data/db.py:167-178 | after a note is appended under a fresh id, fetching that id returns it, and fetching any other id returns what it did before |
| CategoryTree.TreeShaped | eye_file/data/db.py:119-123 | definition: ids are positive and distinct, and every parent link names an existing category with a smaller id, as seeding inserts them |
| CategoryTree.InSubtree | eye_file/data/db.py:143-149 | definition: a category is in the subtree of `root` when it is `root` or its parent link leads up to `root` |
| CategoryTree.Level | eye_file/data/db.py:143-149 | definition: the ids the recursive query produces at iteration k, the queried id at k = 0 and then the children of the previous iteration's ids |
| Queries.InQueriedSubtree | eye_file/data/db.py:159-160 | definition: the `JOIN categories` and `WHERE n.category_id IN subtree` filter, the note's category existing and lying in the subtree |
| Queries.ViewOf | eye_file/data/db.py:150-159 | definition: the selected columns of a note joined with its category's name |
| CategoryOrder.ParentBefore | eye_file/data/db.py:132 | definition: `parent_id ASC` with NULL before every id |
| CategoryOrder.NameAtMost | eye_file/data/db.py:132 | definition: `name ASC` as character-by-character comparison |
| CategoryOrder.CategoryAtMost | eye_file/data/db.py:132 | definition: the whole `ORDER BY parent_id ASC, name ASC` relation |
| Schema.SmallestId | eye_file/data/db.py:78-79 | `ORDER BY id ASC LIMIT 1`: an id of the table no larger than any other |
| NoteStore.Store.Valid | eye_file/data/db.py:30 | definition: the store invariant; ids ascend, the categories form a forest, and every note's document and category exist (foreign keys enforced) |
| CategoryTree.FindCategory | eye_file/data/db.py:159 | finds the first row with the given id, or None exactly when no row has it |
| CategoryTree.FindCategoryUnique | eye_file/data/db.py:159 | with distinct ids the row found is the only one with that id |
| CategoryTree.ParentOfBelow | eye_file/data/db.py:148 | a parent link names an existing category with a smaller positive id |
| CategoryTree.InSubtreeNotBelow | eye_file/data/db.py:143-149 | nothing in a subtree has an id smaller than the subtree's root |
| CategoryTree.Acyclic | eye_file/data/db.py:143-149 | no category lies in the subtree of its own child: following parent links never loops |
| CategoryTree.InSubtreeRootExists | eye_file/data/db.py:143-149 | a subtree holding an existing category has an existing root |
| CategoryTree.InSubtreeTransitive | eye_file/data/db.py:143-149 | subtrees nest |
| CategoryTree.InSubtreeLinear | eye_file/data/db.py:143-149 | two subtrees holding the same category are nested one in the other |
| CategoryTree.InSubtreeViaChild | eye_file/data/db.py:143-149 | a category strictly below a root lies in the subtree of one of its children |
| CategoryTree.HasRoot | eye_file/data/db.py:143-149 | every category lies below a category whose parent is NULL |
| CategoryTree.LevelInSubtree | eye_file/data/db.py:143-149 | every id the recursive query produces is in the subtree |
| CategoryTree.SubtreeInLevel | eye_file/data/db.py:143-149 | every category of the subtree is produced at some iteration |
| CategoryTree.SubtreeQueryIsClosure | eye_file/data/db.py:143-149 | an id is produced at some iteration if and only if it lies in the subtree |
| CategoryTree.LevelDepth | eye_file/data/db.py:143-149 | an id produced at iteration k lies at least k above the queried id and does not exceed the largest category id |
| CategoryTree.QueryTerminates | eye_file/data/db.py:143-149 | no iteration past the largest category id produces a row, so the UNION ALL recursion stops |
| PyStr.IsSpace | eye_file/ui/main_window.py:403 | definition: the characters Python's `str.isspace()` accepts, which `strip()` removes |
| PyStr.LeadingSpaceRun | eye_file/ui/main_window.py:403 | the leading run that `strip` drops is whitespace and ends at a non-whitespace character |
| PyStr.TrailingStartRun | eye_file/ui/main_window.py:403 | the trailing run that `strip` drops is whitespace and begins after a non-whitespace character |
| PyStr.Strip | eye_file/ui/main_window.py:403 | the result is no longer than the input and neither starts nor ends with whitespace |
| PyStr.StripSlice | eye_file/ui/main_window.py:403 | the result is one contiguous piece of the input with only whitespace around it |
| PyStr.StripEmptyIffBlank | eye_file/ui/main_window.py:228-233 | stripping yields the empty string exactly for all-whitespace input |
| PyStr.StripTrimmed | eye_file/ui/main_window.py:413 | stripping a string without whitespace at either end changes nothing |
| PyStr.ReplaceNewlines | eye_file/ui/main_window.py:413 | the length is unchanged |
| PyStr.ReplaceNewlinesEach | eye_file/ui/main_window.py:413 | each newline becomes a space, every other character stays, and no newline is left |
| PyStr.ReplaceNoNewlines | eye_file/ui/main_window.py:413 | a string without newlines is left as it is |
| NotesList.DisplayText | eye_file/ui/main_window.py:403-415 | the display text is at most 70 characters long |
| NotesList.DisplayTextSingleLine | eye_file/ui/main_window.py:412-415 | the display text holds no newline |
| NotesList.DisplayTextBlank | eye_file/ui/main_window.py:403-412 | a blank excerpt is shown as "(no excerpt)" |
| NotesList.DisplayTextOfExcerpt | eye_file/ui/main_window.py:403-415 | a non-blank excerpt is shown stripped with newlines replaced by spaces; when that is longer than 70 characters, exactly its first 67 characters followed by "..." |
| NotesList.ShownSingleLine | eye_file/ui/main_window.py:413 | replacing newlines and then stripping leaves no newline |
| NotesList.PlaceholderUnchanged | eye_file/ui/main_window.py:412-413 | "(no excerpt)" has no newline to replace |
| NotesList.PlaceholderTrimmed | eye_file/ui/main_window.py:412-413 | "(no excerpt)" has no whitespace to strip |
| NotesList.PlaceholderShown | eye_file/ui/main_window.py:412-413 | replacing and stripping leave "(no excerpt)" unchanged |
| NotesList.NoteLabel | eye_file/ui/main_window.py:411-418 | the label begins with the display text; a non-empty page reference adds exactly three spaces and the reference in brackets, and an absent or empty one adds nothing |
| NotesList.ItemFor | eye_file/ui/main_window.py:420-421 | definition: the selectable entry showing the row's label and carrying its note id (what the label says is NoteLabel's contract) |
| NotesList.ItemsForRows | eye_file/ui/main_window.py:397-422 | one entry per row of the query, in the query's order |
| NotesList.RefreshNotesList | eye_file/ui/main_window.py:388-422 | a subtree without notes shows only the non-selectable "No notes yet in this category." entry; otherwise the list has exactly the entries of the query's rows, newest first |
| CategoryPanel.ChildrenOf | eye_file/ui/main_window.py:307 | definition: `children.get(parent_id, [])` |
| CategoryPanel.ChildIds | eye_file/ui/main_window.py:299-304 | definition: the children list that the `setdefault(pid, []).append(cid)` loop produces for a parent, the ids of its child rows in row order |
| CategoryPanel.ChildIdsMember | eye_file/ui/main_window.py:299-304 | an id is listed among the children of a parent exactly when some row with that id has that parent |
| CategoryPanel.ChildIdsNoDup | eye_file/ui/main_window.py:299-304 | with distinct category ids, no children list repeats an id |
| CategoryPanel.HasCategoryAppend | eye_file/ui/main_window.py:303 | after one more row, an id is known exactly when it was known before or is that row's id |
| CategoryPanel.ChildIdsAppend | eye_file/ui/main_window.py:304 | one more row extends only its own parent's children list, by its id at the end |
| CategoryPanel.LookupsExtend | eye_file/ui/main_window.py:299-304 | entering one row into `by_id` and `children` gives the lookup tables of the longer row list |
| CategoryPanel.BuildLookups | eye_file/ui/main_window.py:295-304 | after the loop, `by_id` maps exactly the ids of the rows to their rows, and `children.get(p, [])` lists the ids of p's children in row order for every p |
| CategoryPanel.ChildRank | eye_file/ui/main_window.py:307-317 | a listed child exists, has the given parent and is found in `by_id` under its name; it also ranks strictly lower, so `build_subtree` terminates |
| CategoryPanel.ChildrenListed | eye_file/ui/main_window.py:307-308 | every listed child is found in `by_id` under its own name |
| CategoryPanel.BuildSubtree | eye_file/ui/main_window.py:306-317 | one item per child of the parent, in children-list order, each with the category's id and name |
| CategoryPanel.FlattenMember | eye_file/ui/main_window.py:306-317 | an id is in a forest when it is a top item or lies in the forest under a top item |
| CategoryPanel.BelowViaChild | eye_file/ui/main_window.py:306-317 | what lies strictly below a parent is what lies in the subtree of one of its children |
| CategoryPanel.SiblingsDisjoint | eye_file/ui/main_window.py:306-317 | the subtrees of two different children of one parent share no category |
| CategoryPanel.ChildForestsNoDup | eye_file/ui/main_window.py:306-317 | sibling items with duplicate-free subforests below them give a duplicate-free forest |
| CategoryPanel.ForestMembers | eye_file/ui/main_window.py:306-319 | the items built under a parent hold exactly the categories strictly below it; from the root call, every category |
| CategoryPanel.ForestNoDup | eye_file/ui/main_window.py:306-319 | the items built hold no category twice |
| CategoryPanel.BuiltWellPlaced | eye_file/ui/main_window.py:306-319 | at every depth, the items under a parent are that parent's children, in row order and named after their rows |
| CategoryPanel.LoadCategoriesTree | eye_file/ui/main_window.py:281-325 | the tree shows every category exactly once, under its parent; the first top-level item becomes current, and a non-empty table always yields a current item with an existing category id |
| SaveDraft.PageRefArgument | eye_file/ui/main_window.py:230 | `strip() or None`: None exactly for a blank field, otherwise the field's own stripped text, which is non-empty and trimmed |
| SaveDraft.SaveRequestFor | eye_file/ui/main_window.py:228-248 | the guard refuses a draft whose excerpt and note are both blank, then one with no current item, then one whose item has no id, each exactly in its case; otherwise it asks to insert the stripped texts under the selected id |
| SaveDraft.SelectNoteItem | eye_file/ui/main_window.py:273-278 | finds the first entry carrying the note id, or None exactly when no entry carries it |
| SaveDraft.AppendedNoteListedFirst | eye_file/ui/main_window.py:270-277 | a note just appended to an existing category is the first row of that category's subtree list |
| SaveDraft.ShowSavedNote | eye_file/ui/main_window.py:270-278 | after a save, the refreshed list has exactly one entry per row of the category's subtree query, in order; its first entry is the new note's, and that entry is selected |
| SaveDraft.OnSaveClicked | eye_file/ui/main_window.py:220-278 | a refused draft changes nothing; an empty documents or categories table fails with NotSeeded; a nonexistent selected category fails with a constraint error; the note is saved exactly when the guard passes, the defaults exist and the category exists; a save appends exactly the new note, refreshes the list to one entry per row of the selected category's subtree query, lists the new note first and selects it; categories and documents never change |

## Left out

- `get_db_path`, `connect` and `init_db` (db.py:7-42): the file system, opening the connection, and running `schema.sql`. Foreign-key enforcement is modelled as the store invariant together with InsertNote's failure case. The constructor stands for a freshly initialised empty store.
- The SQL text itself. Each statement is modelled by what it computes over the table contents.
- Commit durability and transactions. Every operation is modelled as complete or not done at all.
- `created_at`: the store's clock becomes the `now` parameter of InsertNote.
- NoteStore.Store.EnsureDefaultCategories: a failure between the three inserts cannot happen in the model.
- Queries.FetchNotesForCategorySubtree: the recursive query's `UNION ALL` multiplicities are not modelled. Membership in the subtree is a predicate, which is enough for the `IN (SELECT id FROM subtree)` test.
- Queries.FetchNotesForCategorySubtree: `ORDER BY n.id DESC` is modelled as reverse table order. SubtreeNotesDescending shows this equals descending id order under the store's ascending-ids invariant.
- CategoryOrder.SortCategories: SQLite leaves the order of equal rows (same parent and name) unspecified. The model fixes one order, and the contract states only sortedness and permutation.
- The `TypeError` raised on an empty table (db.py:78-79) and SQLite's `IntegrityError` become the DbError values NotSeeded and ConstraintError. No exception propagation is modelled.
- Qt widgets and the status bar: status-bar messages, clearing the editors after a save (main_window.py:263-268), `expandAll`, header settings, and the Qt item flags other than the placeholder's being unselectable (`ListItem.selectable` models `setFlags(Qt.NoItemFlags)`, main_window.py:393). The list and the tree are modelled as the values they display.
- NotesList.RefreshNotesList: the defensive lookups of the `note_id` column (main_window.py:398-409) are not modelled. The query always returns `id`, `excerpt` and `page_ref`, so those branches are never taken.
- CategoryPanel.BuildSubtree: the items are built as a value rather than by attaching Qt items to a parent one by one.
- CategoryPanel.LoadCategoriesTree: `by_id[cid]` assumes distinct ids, which the tree invariant guarantees.
- SaveDraft.OnSaveClicked: the refresh reads the category of the tree's current item. The model uses the category id the guard accepted, which is the same item.
- `on_note_clicked`, `_selected_category_id`, `on_category_changed` and `refresh_notes_list_from_current_category`: event plumbing that only passes values between the modelled operations.
- `main.py`, `eye_file/ui/theme.py` and `check_db.py`: bootstrap, styling and a diagnostic script. None of them is part of this model.
