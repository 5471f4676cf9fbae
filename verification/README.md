# Item tree of a drag-and-drop tree-view demo, in Dafny

The program backs a desktop tree view with a hierarchy of `Item`s.  Each item
holds a key (`login`), a row of display fields (`itemData`, which starts with
an empty field followed by the constructor arguments), the ordered list of
children it owns, a back-reference to its parent and a check mark.  A
`TreeModel` adapts that tree to the toolkit's model interface: it turns
(parent, row) addresses into item handles and back, decides per item which
capabilities (drag, drop, select, edit, check) the view offers, and removes
runs of rows.

This project models that core and proves its properties.

- `items.dfy`, module `Items`.  Python object references become `Id`s into an
  arena, the class `Forest`, whose field `items: map<Id, Item>` holds one
  record per item.  `Forest.Valid()` says that every reference names an
  existing item.  The arena never forgets an item, just as a Python reference
  never dangles.  The in-place operations are methods of `Forest`:
  `NewItem` (the constructor with its optional parent), `AddChild`,
  `RemoveChild` and `SetData`.  Each method states the new arena in terms of
  the old one, through the record functions `Item.Appended`, `Item.Without`
  and `Item.Written`.  The queries are functions: `Item.Child`,
  `Item.ChildCount` (`childCount` and `__len__`), `Item.ColumnCount`,
  `Item.IsRoot`, `Row` and `Data`.
- Tree consistency is the predicate `WellFormed`.  It says that every listed
  child points back at the item that lists it, and that no item lists a child
  twice.  It is not a class invariant, because `addChild` never unlinks a
  child from its previous parent.  So `AddChild` keeps the tree consistent
  only for a detached child.  The constructor (example.py:19-20) calls it on a
  fresh, detached item.  The drop path calls it on deep copies, which their
  copied parents still list; that path is left out.  All other
  operations always keep it.  `removeChild` leaves the popped child's parent
  reference in place; after that, the child's `row()` raises `ValueError`.
- `tree_model.dfy`, module `TreeModel`.  The model's only state is its root
  item.  A `ModelIndex` is either `Invalid` (the toolkit's invalid index,
  which stands for the root) or a handle `At(row, column, item)`.  `Flags`,
  `Index`, `Parent` and `RowCount` are functions over the arena and the root.
  `RemoveRows` is a method that changes the arena with a loop over
  `Forest.RemoveChild`.
- `example_tree.dfy`, module `ExampleTree`, is a client.  It builds small trees
  of the shape the demonstration program sets up.  Then it asserts what the
  contracts give a caller: child counts, rows, displayed data, the clamped
  `child(5)`, an index/parent round trip and a `removeRows`.

Python exceptions are part of the model: a call's outcome is
`Result<T> = Ok(value) | Raised(error)`.  The model raises where the source
raises:

- `child` on an item with no children (`IndexError`);
- `data` and `flags` on a root item, which dereference its missing parent
  (`AttributeError`);
- `row` on a child that its parent no longer lists (`ValueError`);
- `parent` on the root (`AttributeError`) or on an item whose parent is some
  other root (`TypeError`);
- `removeChild` and `removeRows` past the end (`IndexError`);
- `Item()` called without arguments (`IndexError`).

The toolkit's flag values are kept as 32-bit masks with the toolkit's own
numbers: selectable 1, editable 2, drag 4, drop 8, user-checkable 16,
enabled 32.

`parent()` takes exactly one step up the back-reference, and `row()` returns
`None` for a root.

## Model

| member | source | states |
|---|---|---|
| `Items.Forest.NewItem` | example.py:11-20 | A new item has key `args[0]`, fields `[''] + args`, no children, the given parent and an unchecked mark, so `ColumnCount() == len(args) + 2`. With a parent, it becomes that parent's last child. Without arguments it raises `IndexError` and nothing changes. It keeps `Valid` and `WellFormed`. |
| `Items.Forest.AddChild` | example.py:22-24 | The child is appended after the existing children, and its parent reference is set to the item. Nothing else changes. The tree stays well formed when the child was detached. |
| `Items.Item.Appended` | example.py:22-24 | The child count rises by exactly one. The earlier children keep their order, the new child is last, and every other field is unchanged. |
| `Items.AttachedIffListed` | example.py:22-24 | In a well-formed tree, an item is listed as somebody's child exactly when its own parent lists it. |
| `Items.Forest.RemoveChild` | example.py:26-27 | For `row < childCount()`, exactly the child at `row` is popped. Past the end it raises `IndexError` and nothing changes. Well-formedness is kept. |
| `Items.Item.Without` | example.py:26-27 | The count drops by one. Children before `row` stay where they are, later ones move down one place. The children's multiset loses exactly the popped child. Other fields are unchanged. |
| `Items.Item.Child` | example.py:29-33 | In range, the result is `children[row]`. Past the end it is the last child. It raises `IndexError` exactly when there are no children. |
| `Items.Forest.SetData` | example.py:41-45 | Returns True exactly when `0 <= column < len(itemData)` and then overwrites that one field. Otherwise it returns False and nothing changes. |
| `Items.Item.Written` | example.py:41-45 | The written column holds the new value. Every other column and every other field keeps its old value, and the length does not change. |
| `Items.Item.ChildCount` | example.py:35-36 | `childCount()` and `__len__()`: the number of children. Its changes are stated by `Appended` and `Without`. |
| `Items.Item.ColumnCount` | example.py:38-39 | `columnCount()`: one more than the number of fields. `NewItem` states its value for a new item, and `LastColumnHoldsNoField` states what its last column holds. |
| `Items.Item.IsRoot` | example.py:59-60 | `is_root()`: the item has no parent. `Row`, `Data`, `Flags` and `RootIsNobodysChild` state what follows from it. |
| `Items.LastColumnHoldsNoField` | example.py:38-50 | For a non-root item with fields, `data` at the last column `columnCount()` reports shows `''`, and `setData`'s column test rejects that column. |
| `Items.Data` | example.py:47-50 | A top-level item shows its key in column 0 and `''` elsewhere. A deeper item shows `itemData[column]`, or `''` past its fields. It raises `AttributeError` exactly on a root. |
| `Items.DataAfterWrite` | example.py:41-50 | After a successful `setData`, a deeper item shows the written value in that column. Every other column, and every column of a top-level item, shows what it showed before. |
| `Items.IndexOf` | example.py:57 | `list.index`: the first position holding the element, and `None` exactly when the element is absent. |
| `Items.Row` | example.py:55-57 | `row()` is `None` exactly for a root. It is the first position holding the item in its parent's children. It raises `ValueError` exactly when the parent no longer lists the item. |
| `Items.RowOfChild` | example.py:55-57 | In a well-formed tree, the child at position `k` has `row() == k`. |
| `Items.ChildOfRow` | example.py:29-57 | In a well-formed tree, `parent.child(c.row()) == c` for every item that its parent lists. |
| `Items.RootIsNobodysChild` | example.py:59-60 | In a well-formed tree, a root (no parent) is listed by no item, and its `row()` is `None`. |
| `TreeModel.ItemFromIndex` | example.py:111-114 | `itemFromIndex`: the invalid index stands for the model's root, and a handle stands for its item. `RowCount`, `Index` and `Parent` state their results through it. |
| `TreeModel.RowCount` | example.py:116-118 | The invalid index counts the root's children. A handle counts its item's children. |
| `TreeModel.Flags` | example.py:125-153 | Invalid index: enabled only. Non-root item: always checkable and enabled. Drag and select exactly below top level, drop exactly at top level, edit exactly in column 8, no other bits. It raises `AttributeError` on a root item. |
| `TreeModel.Index` | example.py:165-170 | A handle exists exactly for `row < rowCount(parent)`. It carries the row and column asked for and names the child at that row, never the clamped one. |
| `TreeModel.Parent` | example.py:172-177 | Children of the model root get the invalid index. An item whose parent is listed by its own parent gets a column-0 handle on that parent, at the parent's first position. Otherwise it raises: `AttributeError` with no parent, `TypeError` when the parent is another root, `ValueError` when the parent's parent no longer lists it. It succeeds exactly in the first two cases. |
| `TreeModel.IndexParentRoundTrip` | example.py:165-177 | In a well-formed tree, addressing a child under any index the view can hold gives a handle the view can hold. Asking for that handle's parent gives back the parent index. |
| `TreeModel.ParentIndexRoundTrip` | example.py:165-177 | For a handle the view can hold whose parent can be addressed, addressing its row under its parent gives the same handle back. |
| `TreeModel.RemovedRun` | example.py:179-187 | Removing `count` rows from `row` within range leaves `len - count` children. The earlier ones stay in place and later ones move down by `count`. A run past the end removes everything from `row` on. |
| `TreeModel.Pops` | example.py:183-185 | The `removeRows` loop step by step. It never grows the children. When every pop succeeds, exactly `count` children are gone. When a pop fails, at most `row` children are left. |
| `TreeModel.PopsIsRemovedRun` | example.py:183-185 | Popping at `row` `count` times, stopping at the first pop past the end, leaves exactly the closed-form remainder. Every pop succeeds exactly when `count == 0` or the run ends within the children. |
| `TreeModel.RemoveRows` | example.py:179-187 | The parent of a root index is left unchanged and the call returns True. On any other parent, the run is removed and the call returns True. If the run passes the end, it removes what is there and raises `IndexError`. Well-formedness is kept. |

## Left out

- `PyObjMime`, `mimeData` and `dropMimeData` (example.py:72-97, 192-204) are left out. They move items through the drag-and-drop clipboard by pickling them and by `copy.deepcopy`. These are calls into Python's object serialisation with no format that can be stated.
- The toolkit's change notifications are left out: `beginRemoveRows`, `endRemoveRows` and `dataChanged.emit`.
- `createIndex`, `QModelIndex` and `internalPointer` are replaced by the two-case `ModelIndex`.
- `headerData`, `supportedDropActions`, `mimeTypes` and the constant `TreeModel.columnCount` are left out. They are toolkit plumbing that returns constants.
- `TreeModel.data` is left out. It is a dispatch on the toolkit's display role and check-state role. Its display part is `Items.Data`, and its check-state part reads the `checkState` field.
- `checkState()` and the empty `setCheckState` stub are left out. The check mark is kept as a field that nothing changes.
- `__repr__` and `__hash__` are left out. They are Python string formatting and hashing; list lookups use identity, which `Id` equality models.
- The `__main__` block is left out. It is GUI setup. `ExampleTree` builds trees of the same shape as a client of the contracts.
- Python's negative indexing and negative counts are not modelled. Rows and columns are natural numbers in `child`, `removeChild`, `index`, `data` and `removeRows`, and so is `removeRows`'s `count`. With a negative `count` the source's `range(count)` is empty, so it removes nothing and returns True; the model cannot express that call. `setData` takes any integer, because the source itself rejects negative columns.
- Item keys and fields are strings. `Item(*args)` and `setData(column, data)` accept any Python object, but the model has `login: string` and `itemData: seq<string>`.
- Nothing in the source prevents reparenting an item under itself or under one of its descendants, so cycles are possible. `WellFormed` does not exclude them, and the model claims nothing about acyclicity.
