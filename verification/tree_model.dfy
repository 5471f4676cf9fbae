/**
 * The tree model the view queries, with the toolkit taken out: a model index
 * is either a handle on an item at a (row, column) position or the invalid
 * index, which stands for the model's root item.  The model's only state is
 * its root; everything it changes, it changes in the item arena.
 */
module TreeModel {
  import opened Items

  /** A model index: an item shown at (row, column), or the invalid index. */
  datatype ModelIndex = Invalid | At(row: nat, column: nat, item: Id)

  // The item flags of the toolkit, with their numeric values.
  const NoItemFlags: bv32 := 0
  const ItemIsSelectable: bv32 := 1
  const ItemIsEditable: bv32 := 2
  const ItemIsDragEnabled: bv32 := 4
  const ItemIsDropEnabled: bv32 := 8
  const ItemIsUserCheckable: bv32 := 16
  const ItemIsEnabled: bv32 := 32

  predicate Has(flags: bv32, flag: bv32) {
    flags & flag != 0
  }

  /** The handle names items of the arena (the root for the invalid index). */
  predicate Handle(h: map<Id, Item>, root: Id, idx: ModelIndex) {
    root in h && (idx.At? ==> idx.item in h)
  }

  /** The item an index stands for: the root for the invalid index. */
  function ItemFromIndex(root: Id, idx: ModelIndex): Id {
    if idx.At? then idx.item else root
  }

  /**
   * The index is one the view can hold: invalid, or a handle on a non-root
   * item whose row is the item's position among its parent's children.
   */
  ghost predicate Addresses(h: map<Id, Item>, root: Id, idx: ModelIndex)
    requires Closed(h)
  {
    Handle(h, root, idx) &&
    (idx.At? ==> idx.item != root && Row(h, idx.item) == Ok(Some(idx.row)))
  }

  /** `rowCount(index)`: the number of children of the item the index stands for. */
  function RowCount(h: map<Id, Item>, root: Id, idx: ModelIndex): (n: nat)
    requires Handle(h, root, idx)
    ensures idx.Invalid? ==> n == |h[root].children|
    ensures idx.At? ==> n == |h[idx.item].children|
  {
    h[ItemFromIndex(root, idx)].ChildCount()
  }

  /**
   * `flags(index)`: the invalid index is only enabled.  Any other item is
   * checkable; draggable and selectable below top level; a drop target at
   * top level; editable in column 8 only.  On a root item the source
   * dereferences the missing parent and raises `AttributeError`.
   */
  function Flags(h: map<Id, Item>, idx: ModelIndex): (r: Result<bv32>)
    requires Closed(h) && (idx.At? ==> idx.item in h)
    ensures idx.Invalid? ==> r == Ok(ItemIsEnabled)
    ensures idx.At? ==> (r.Raised? <==> h[idx.item].IsRoot())
    ensures r.Raised? ==> r.error == AttributeError
    ensures idx.At? && r.Ok? ==>
      var top := TopLevel(h, idx.item);
      Has(r.value, ItemIsUserCheckable) && Has(r.value, ItemIsEnabled) &&
      (Has(r.value, ItemIsDragEnabled) <==> !top) &&
      (Has(r.value, ItemIsSelectable) <==> !top) &&
      (Has(r.value, ItemIsDropEnabled) <==> top) &&
      (Has(r.value, ItemIsEditable) <==> idx.column == 8)
    ensures r.Ok? ==> r.value & !(ItemIsSelectable | ItemIsEditable | ItemIsDragEnabled |
                                  ItemIsDropEnabled | ItemIsUserCheckable | ItemIsEnabled) == 0
  {
    match idx
    case Invalid => Ok(ItemIsEnabled)
    case At(_, column, c) =>
      var item := h[c];
      var deep := !item.IsRoot() && !h[item.parent.value].IsRoot();
      var enabled := if deep then ItemIsEnabled else NoItemFlags;
      var selectable := if deep then ItemIsSelectable else NoItemFlags;
      var draggable := if deep then ItemIsDragEnabled else NoItemFlags;
      if item.IsRoot() then Raised(AttributeError)
      else
        var top := h[item.parent.value].IsRoot();
        var droppable := if top then ItemIsDropEnabled else NoItemFlags;
        var enabled' := if top then ItemIsEnabled else enabled;
        var editable := if column == 8 then ItemIsEditable else NoItemFlags;
        Ok(enabled' | selectable | editable | draggable | droppable | ItemIsUserCheckable)
  }

  /**
   * `index(row, column, parent)`: a handle on the child at `row` of the item
   * `parent` stands for, or the invalid index past the last child.
   */
  function Index(h: map<Id, Item>, root: Id, row: nat, column: nat, parent: ModelIndex): (r: ModelIndex)
    requires Handle(h, root, parent)
    ensures r.At? <==> row < RowCount(h, root, parent)
    ensures r.At? ==> r.row == row && r.column == column &&
                      r.item == h[ItemFromIndex(root, parent)].children[row]
  {
    var item := h[ItemFromIndex(root, parent)];
    if row < item.ChildCount() then At(row, column, item.Child(row).value)
    else Invalid
  }

  /**
   * `parent(index)`: the invalid index for a child of the model's root,
   * otherwise a handle on the parent at its own row, in column 0.  Raises
   * where the source does: on an item without a parent (`AttributeError`),
   * on a parent that is another root (its row is `None`: `TypeError`) and on a
   * parent its own parent no longer lists (`ValueError`).
   */
  function Parent(h: map<Id, Item>, root: Id, idx: ModelIndex): (r: Result<ModelIndex>)
    requires Closed(h) && Handle(h, root, idx)
    ensures h[ItemFromIndex(root, idx)].parent.None? ==> r == Raised(AttributeError)
    ensures h[ItemFromIndex(root, idx)].parent == Some(root) ==> r == Ok(Invalid)
    ensures
      var parent := h[ItemFromIndex(root, idx)].parent;
      parent.Some? && parent.value != root ==>
        var p := parent.value;
        (Row(h, p) == Ok(None) ==> r == Raised(TypeError)) &&
        (Row(h, p).Raised? ==> r == Raised(ValueError)) &&
        (Row(h, p).Ok? && Row(h, p).value.Some? ==> r == Ok(At(Row(h, p).value.value, 0, p)))
    ensures r.Ok? <==>
      var parent := h[ItemFromIndex(root, idx)].parent;
      parent.Some? && (parent.value == root || (Row(h, parent.value).Ok? && Row(h, parent.value).value.Some?))
    ensures r.Ok? && r.value.At? ==>
      r.value.column == 0 && h[ItemFromIndex(root, idx)].parent == Some(r.value.item) &&
      Row(h, r.value.item) == Ok(Some(r.value.row))
  {
    match h[ItemFromIndex(root, idx)].parent
    case None => Raised(AttributeError)
    case Some(p) =>
      if p == root then Ok(Invalid)
      else match Row(h, p)
        case Raised(e) => Raised(e)
        case Ok(None) => Raised(TypeError)
        case Ok(Some(k)) => Ok(At(k, 0, p))
  }

  /**
   * Addressing a child and asking for its parent gives back the parent
   * index (in column 0), and the child's handle is itself one the view can
   * hold: its row is its position among its parent's children.
   */
  lemma IndexParentRoundTrip(h: map<Id, Item>, root: Id, parent: ModelIndex, row: nat, column: nat)
    requires WellFormed(h) && Addresses(h, root, parent) && h[root].IsRoot()
    requires row < RowCount(h, root, parent)
    ensures Index(h, root, row, column, parent).At?
    ensures Addresses(h, root, Index(h, root, row, column, parent))
    ensures Parent(h, root, Index(h, root, row, column, parent)) ==
            Ok(if parent.Invalid? then Invalid else parent.(column := 0))
  {
    var p := ItemFromIndex(root, parent);
    var c := h[p].children[row];
    RowOfChild(h, p, row);
    RootIsNobodysChild(h, root);
    assert c != root;
    assert h[c].parent == Some(p);
  }

  /**
   * The other direction: for a handle the view can hold whose parent can be
   * addressed, addressing the handle's row under its parent gives the handle
   * back.
   */
  lemma ParentIndexRoundTrip(h: map<Id, Item>, root: Id, idx: ModelIndex)
    requires Closed(h) && Addresses(h, root, idx) && idx.At?
    requires Parent(h, root, idx).Ok?
    ensures Addresses(h, root, Parent(h, root, idx).value)
    ensures Index(h, root, idx.row, idx.column, Parent(h, root, idx).value) == idx
  {
    var p := h[idx.item].parent.value;
    assert ItemFromIndex(root, Parent(h, root, idx).value) == p;
  }

  /**
   * What `removeRows(row, count, parent)` leaves of the children `s`: the run
   * of `count` children from `row` is gone, or, when the run passes the end,
   * everything from `row` on, after which the source raises `IndexError`.
   */
  function RemovedRun(s: seq<Id>, row: nat, count: nat): (r: seq<Id>)
    ensures row + count <= |s| ==>
      |r| == |s| - count &&
      (forall k :: 0 <= k < row ==> r[k] == s[k]) &&
      (forall k :: row <= k < |r| ==> r[k] == s[k + count])
    ensures |s| < row + count ==> r == s[..if row < |s| then row else |s|]
  {
    var lo := if row < |s| then row else |s|;
    var hi := if row + count < |s| then row + count else |s|;
    s[..lo] + s[hi..]
  }

  /** Popping at `row` once more removes one more element of the run. */
  lemma RemovedRunStep(s: seq<Id>, row: nat, i: nat)
    requires i > 0 ==> row + i <= |s|
    requires row < |RemovedRun(s, row, i)|
    ensures row + i + 1 <= |s|
    ensures RemovedRun(s, row, i)[..row] + RemovedRun(s, row, i)[row + 1..] == RemovedRun(s, row, i + 1)
  {
    var t := RemovedRun(s, row, i);
    assert t == s[..row] + s[row + i..];
    assert t[..row] == s[..row];
    assert t[row + 1..] == s[row + i + 1..];
  }

  /** Once nothing is left at `row`, further pops remove nothing more. */
  lemma RemovedRunSaturates(s: seq<Id>, row: nat, i: nat, count: nat)
    requires i > 0 ==> row + i <= |s|
    requires |RemovedRun(s, row, i)| <= row && i < count
    ensures |s| < row + count
    ensures RemovedRun(s, row, i) == RemovedRun(s, row, count)
  {
  }

  /**
   * The loop of `removeRows` step by step: pop at `row`, `count` times,
   * stopping at the first pop past the end.  Answers the children left and
   * whether every pop succeeded.
   */
  function Pops(s: seq<Id>, row: nat, count: nat): (r: (seq<Id>, bool))
    ensures |r.0| <= |s|
    ensures r.1 ==> |r.0| + count == |s|
    ensures !r.1 ==> |r.0| <= row
    decreases count
  {
    if count == 0 then (s, true)
    else if row < |s| then Pops(s[..row] + s[row + 1..], row, count - 1)
    else (s, false)
  }

  /** The step-by-step loop and the closed form agree, failures included. */
  lemma {:induction false} PopsIsRemovedRun(s: seq<Id>, row: nat, count: nat)
    ensures Pops(s, row, count) == (RemovedRun(s, row, count), count == 0 || row + count <= |s|)
    decreases count
  {
    if count > 0 && row < |s| {
      var t := s[..row] + s[row + 1..];
      PopsIsRemovedRun(t, row, count - 1);
      if row + count <= |s| {
        assert t[..row] == s[..row];
        assert t[row + count - 1..] == s[row + count..];
      } else {
        assert t[..row] == s[..row];
      }
    } else {
      var lo := if row < |s| then row else |s|;
      assert s[..lo] + s[lo..] == s;
    }
  }

  /**
   * `removeRows(row, count, parent)`: pops the child at `row` `count` times
   * from the item `parent` stands for, unless that item is a root; answers
   * `True`, or raises `IndexError` from the first pop past the end.
   */
  method RemoveRows(forest: Forest, root: Id, row: nat, count: nat, parentIndex: ModelIndex)
    returns (r: Result<bool>)
    requires forest.Valid() && Handle(forest.items, root, parentIndex)
    modifies forest
    ensures forest.Valid() && forest.next == old(forest.next)
    ensures
      var p := ItemFromIndex(root, parentIndex);
      var before := old(forest.items)[p];
      if before.IsRoot() then
        r == Ok(true) && forest.items == old(forest.items)
      else
        r == (if count == 0 || row + count <= before.ChildCount() then Ok(true) else Raised(IndexError)) &&
        forest.items == old(forest.items)[p := before.(children := RemovedRun(before.children, row, count))]
    ensures WellFormed(old(forest.items)) ==> WellFormed(forest.items)
  {
    var p := ItemFromIndex(root, parentIndex);
    if forest.items[p].IsRoot() {
      return Ok(true);
    }
    ghost var h0 := forest.items;
    ghost var s := h0[p].children;
    assert RemovedRun(s, row, 0) == s;
    assert h0[p := h0[p].(children := RemovedRun(s, row, 0))] == h0;
    var i := 0;
    while i < count
      invariant 0 <= i <= count
      invariant forest.Valid() && forest.next == old(forest.next)
      invariant i > 0 ==> row + i <= |s|
      invariant forest.items == h0[p := h0[p].(children := RemovedRun(s, row, i))]
      invariant WellFormed(h0) ==> WellFormed(forest.items)
    {
      var popped := forest.RemoveChild(p, row);
      if popped.Raised? {
        RemovedRunSaturates(s, row, i, count);
        return Raised(IndexError);
      }
      RemovedRunStep(s, row, i);
      i := i + 1;
    }
    r := Ok(true);
  }
}
