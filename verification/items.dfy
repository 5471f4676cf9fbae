/**
 * The display items of the tree view: every node holds a key (`login`), a row
 * of display fields (`itemData`), the ordered list of children it owns and a
 * back-reference to its parent.
 *
 * Python object references become `Id`s into an arena (`Forest.items`).  The
 * arena never forgets an item, just as a Python reference never dangles; this
 * is the class invariant `Forest.Valid()`.  Whether the items form a
 * consistent tree (`WellFormed`) is a separate property, which the mutating
 * operations preserve under the conditions their contracts state.
 */
module Items {

  type Id = nat

  datatype Option<T> = None | Some(value: T)

  /** The Python exceptions the item and model code can raise. */
  datatype Exception = IndexError | AttributeError | ValueError | TypeError

  /** The outcome of a Python call: a returned value or a raised exception. */
  datatype Result<T> = Ok(value: T) | Raised(error: Exception)

  /** The tri-state check mark of a view item. */
  datatype CheckState = Unchecked | PartiallyChecked | Checked

  predicate Distinct(s: seq<Id>) {
    forall i, j :: 0 <= i < j < |s| ==> s[i] != s[j]
  }

  /** One tree node.  `parent == None` marks a root. */
  datatype Item = Item(
    login: string,
    itemData: seq<string>,
    children: seq<Id>,
    parent: Option<Id>,
    checkState: CheckState)
  {
    /** `childCount()` and `__len__()` alike. */
    function ChildCount(): nat {
      |children|
    }

    /** One more than the number of fields: the last column reported has no field. */
    function ColumnCount(): nat {
      |itemData| + 1
    }

    predicate IsRoot() {
      parent.None?
    }

    /**
     * `child(row)`: the child at `row`; past the end, the last child instead
     * (the `IndexError` handler reads `children[-1]`), which itself raises
     * when there are no children.
     */
    function Child(row: nat): (r: Result<Id>)
      ensures r.Ok? <==> children != []
      ensures r.Raised? ==> r.error == IndexError
      ensures row < |children| ==> r == Ok(children[row])
      ensures r.Ok? ==> r.value in children
      ensures |children| <= row && r.Ok? ==> r.value == children[|children| - 1]
    {
      if row < |children| then Ok(children[row])
      else if children != [] then Ok(children[|children| - 1])
      else Raised(IndexError)
    }

    /** The item after `addChild` has appended `c` to its children. */
    function Appended(c: Id): (r: Item)
      ensures r.ChildCount() == ChildCount() + 1
      ensures r.children[..ChildCount()] == children && r.children[ChildCount()] == c
      ensures r.(children := children) == this
    {
      this.(children := children + [c])
    }

    /** The item after `removeChild(row)` has popped the child at `row`. */
    function Without(row: nat): (r: Item)
      requires row < ChildCount()
      ensures r.ChildCount() == ChildCount() - 1
      ensures forall k :: 0 <= k < row ==> r.children[k] == children[k]
      ensures forall k :: row <= k < r.ChildCount() ==> r.children[k] == children[k + 1]
      ensures multiset(r.children) + multiset{children[row]} == multiset(children)
      ensures r.(children := children) == this
    {
      assert children == children[..row] + [children[row]] + children[row + 1..];
      this.(children := children[..row] + children[row + 1..])
    }

    /** The item after `setData(column, d)` has overwritten one field. */
    function Written(column: nat, d: string): (r: Item)
      requires column < |itemData|
      ensures |r.itemData| == |itemData| && r.itemData[column] == d
      ensures forall k :: 0 <= k < |itemData| && k != column ==> r.itemData[k] == itemData[k]
      ensures r.(itemData := itemData) == this
    {
      this.(itemData := itemData[column := d])
    }
  }

  /** Every id the arena refers to, as a child or as a parent, names an item of it. */
  ghost predicate Closed(h: map<Id, Item>) {
    forall p :: p in h ==>
      (forall k :: 0 <= k < |h[p].children| ==> h[p].children[k] in h) &&
      (h[p].parent.Some? ==> h[p].parent.value in h)
  }

  /**
   * The items form a consistent tree: every listed child points back at the
   * item that lists it, and no child is listed twice by the same item.
   */
  ghost predicate Linked(h: map<Id, Item>)
    requires Closed(h)
  {
    forall p :: p in h ==>
      Distinct(h[p].children) &&
      forall k :: 0 <= k < |h[p].children| ==> h[h[p].children[k]].parent == Some(p)
  }

  ghost predicate WellFormed(h: map<Id, Item>) {
    Closed(h) && Linked(h)
  }

  /** No item lists `c` among its children. */
  ghost predicate Detached(h: map<Id, Item>, c: Id) {
    forall p :: p in h ==> c !in h[p].children
  }

  /** `c` is listed by the item its parent reference names. */
  ghost predicate Attached(h: map<Id, Item>, c: Id)
    requires Closed(h) && c in h
  {
    h[c].parent.Some? && c in h[h[c].parent.value].children
  }

  /** `list.index(x)`: the first position of `x` in `s`, `None` where Python raises `ValueError`. */
  function IndexOf(s: seq<Id>, x: Id): (r: Option<nat>)
    ensures r.Some? <==> x in s
    ensures r.Some? ==> r.value < |s| && s[r.value] == x
    ensures r.Some? ==> forall j :: 0 <= j < r.value ==> s[j] != x
  {
    if s == [] then None
    else if s[0] == x then Some(0)
    else match IndexOf(s[1..], x)
      case None => None
      case Some(k) => Some(k + 1)
  }

  /** `row()`: the item's position among its parent's children; `None` for a root. */
  function Row(h: map<Id, Item>, c: Id): (r: Result<Option<nat>>)
    requires Closed(h) && c in h
    ensures r == Ok(None) <==> h[c].IsRoot()
    ensures r.Raised? <==> !h[c].IsRoot() && !Attached(h, c)
    ensures r.Raised? ==> r.error == ValueError
    ensures r.Ok? && r.value.Some? ==>
      var p := h[c].parent.value;
      r.value.value < h[p].ChildCount() && h[p].children[r.value.value] == c
    ensures r.Ok? && r.value.Some? ==>
      forall j :: 0 <= j < r.value.value ==> h[h[c].parent.value].children[j] != c
  {
    match h[c].parent
    case None => Ok(None)
    case Some(p) =>
      match IndexOf(h[p].children, c)
      case None => Raised(ValueError)
      case Some(k) => Ok(Some(k))
  }

  /** The item's parent is a root, so the view shows it at top level. */
  ghost predicate TopLevel(h: map<Id, Item>, c: Id)
    requires Closed(h) && c in h
  {
    h[c].parent.Some? && h[h[c].parent.value].IsRoot()
  }

  /**
   * `data(column)`: a top-level item shows its key in column 0 and nothing
   * elsewhere; a deeper item shows its fields.  On a root the source
   * dereferences the missing parent and raises `AttributeError`.
   */
  function Data(h: map<Id, Item>, c: Id, column: nat): (r: Result<string>)
    requires Closed(h) && c in h
    ensures r.Raised? <==> h[c].IsRoot()
    ensures r.Raised? ==> r.error == AttributeError
    ensures r.Ok? && TopLevel(h, c) ==> r.value == (if column == 0 then h[c].login else "")
    ensures r.Ok? && !TopLevel(h, c) && column < |h[c].itemData| ==> r.value == h[c].itemData[column]
    ensures r.Ok? && !TopLevel(h, c) && |h[c].itemData| <= column ==> r.value == ""
  {
    match h[c].parent
    case None => Raised(AttributeError)
    case Some(p) =>
      if h[p].IsRoot() then Ok(if column == 0 then h[c].login else "")
      else Ok(if column < |h[c].itemData| then h[c].itemData[column] else "")
  }

  /** In a consistent tree, a listed child's `row()` is its position in the list. */
  lemma RowOfChild(h: map<Id, Item>, p: Id, k: nat)
    requires WellFormed(h) && p in h && k < h[p].ChildCount()
    ensures Row(h, h[p].children[k]) == Ok(Some(k))
  {
    var c := h[p].children[k];
    assert h[c].parent == Some(p);
    var j := IndexOf(h[p].children, c).value;
    assert h[p].children[j] == h[p].children[k];
  }

  /** `child(row())` gives the item back, for every item its parent lists. */
  lemma ChildOfRow(h: map<Id, Item>, c: Id)
    requires WellFormed(h) && c in h && Attached(h, c)
    ensures Row(h, c).Ok? && Row(h, c).value.Some?
    ensures h[h[c].parent.value].Child(Row(h, c).value.value) == Ok(c)
  {
  }

  /** In a consistent tree, an item is listed by some item exactly when its parent lists it. */
  lemma AttachedIffListed(h: map<Id, Item>, c: Id)
    requires WellFormed(h) && c in h
    ensures Attached(h, c) <==> !Detached(h, c)
  {
    if !Detached(h, c) {
      var p :| p in h && c in h[p].children;
      var k :| 0 <= k < |h[p].children| && h[p].children[k] == c;
      assert h[c].parent == Some(p);
    }
  }

  /** A root is nobody's child, and `row()` of a root is `None`. */
  lemma RootIsNobodysChild(h: map<Id, Item>, c: Id)
    requires WellFormed(h) && c in h && h[c].IsRoot()
    ensures Detached(h, c) && Row(h, c) == Ok(None)
  {
    AttachedIffListed(h, c);
  }

  /**
   * The last column `columnCount()` reports holds no field: `data` shows
   * nothing there, and `setData` rejects it (its column test fails).
   */
  lemma LastColumnHoldsNoField(h: map<Id, Item>, c: Id)
    requires Closed(h) && c in h && !h[c].IsRoot() && h[c].itemData != []
    ensures Data(h, c, h[c].ColumnCount() - 1) == Ok("")
    ensures !(0 <= h[c].ColumnCount() - 1 <= |h[c].itemData| - 1)
  {
  }

  /**
   * What `data` shows after `setData(column, d)` succeeded: a deeper item
   * shows `d` in that column and nothing else changes; a top-level item shows
   * exactly what it showed before.
   */
  lemma DataAfterWrite(h: map<Id, Item>, c: Id, column: nat, d: string, shown: nat)
    requires Closed(h) && c in h && column < |h[c].itemData|
    ensures Closed(h[c := h[c].Written(column, d)])
    ensures TopLevel(h, c) || shown != column || h[c].IsRoot() ==>
      Data(h[c := h[c].Written(column, d)], c, shown) == Data(h, c, shown)
    ensures !h[c].IsRoot() && !TopLevel(h, c) ==>
      Data(h[c := h[c].Written(column, d)], c, column) == Ok(d)
  {
    var h' := h[c := h[c].Written(column, d)];
    assert h'.Keys == h.Keys;
    forall p | p in h' ensures h'[p].children == h[p].children && h'[p].parent == h[p].parent {
    }
    if h[c].parent.Some? {
      var p := h[c].parent.value;
      assert h'[p].IsRoot() == h[p].IsRoot();
    }
  }

  /**
   * The arena of all items the program has created.  Python frees nothing
   * that is still referenced, so every reference stays valid.
   */
  class Forest {
    var items: map<Id, Item>
    var next: Id

    ghost predicate Valid()
      reads this
    {
      Closed(items) && forall c :: c in items ==> c < next
    }

    constructor ()
      ensures Valid() && items == map[] && next == 0
    {
      items := map[];
      next := 0;
    }

    /**
     * `Item(*args, parent=parent)`: a fresh item keyed by `args[0]`, with
     * fields `[''] + args`, no children and an unchecked mark, appended to
     * `parent`'s children when there is a parent.  No arguments: `IndexError`.
     */
    method NewItem(args: seq<string>, parent: Option<Id>) returns (r: Result<Id>)
      requires Valid()
      requires parent.Some? ==> parent.value in items
      modifies this
      ensures Valid()
      ensures args == [] ==> r == Raised(IndexError) && items == old(items)
      ensures args != [] ==> r.Ok? && r.value !in old(items)
      ensures args != [] ==>
        var item := Item(args[0], [""] + args, [], parent, Unchecked);
        items == match parent
          case None => old(items)[r.value := item]
          case Some(p) => old(items)[r.value := item][p := old(items)[p].Appended(r.value)]
      ensures args != [] ==> items[r.value].ColumnCount() == |args| + 2
      ensures WellFormed(old(items)) ==> WellFormed(items)
    {
      if args == [] {
        return Raised(IndexError);
      }
      var c := next;
      next := next + 1;
      ghost var h0 := items;
      var item := Item(args[0], [""] + args, [], parent, Unchecked);
      items := items[c := item];
      forall p | p in items ensures c !in items[p].children {
      }
      assert WellFormed(h0) ==> WellFormed(items) by {
        if WellFormed(h0) {
          forall p | p in items
            ensures forall k :: 0 <= k < |items[p].children| ==> items[items[p].children[k]].parent == Some(p)
          {
            if p != c {
              forall k | 0 <= k < |items[p].children|
                ensures items[items[p].children[k]].parent == Some(p)
              {
                assert h0[p].children[k] != c;
              }
            }
          }
        }
      }
      if parent.Some? {
        AddChild(parent.value, c);
        assert items[c] == item;
      }
      r := Ok(c);
    }

    /**
     * `addChild(child)`: appends `child` to `id`'s children and points the
     * child back at `id`.  The child's previous parent is not told, so the
     * tree stays consistent only when the child was detached.
     */
    method AddChild(id: Id, child: Id)
      requires Valid() && id in items && child in items
      modifies this
      ensures Valid() && next == old(next)
      ensures
        var h1 := old(items)[id := old(items)[id].Appended(child)];
        items == h1[child := h1[child].(parent := Some(id))]
      ensures WellFormed(old(items)) && Detached(old(items), child) ==> WellFormed(items)
    {
      ghost var h0 := items;
      items := items[id := items[id].Appended(child)];
      items := items[child := items[child].(parent := Some(id))];
      if WellFormed(h0) && Detached(h0, child) {
        forall p | p in items
          ensures Distinct(items[p].children)
          ensures forall k :: 0 <= k < |items[p].children| ==> items[items[p].children[k]].parent == Some(p)
        {
          assert child !in h0[p].children;
          forall k | 0 <= k < |items[p].children|
            ensures items[items[p].children[k]].parent == Some(p)
          {
            if p != id || k < |h0[id].children| {
              assert items[p].children[k] == h0[p].children[k];
            }
          }
        }
      }
    }

    /**
     * `removeChild(row)`: pops the child at `row`; `IndexError` past the end.
     * The removed child keeps its (now stale) parent reference.
     */
    method RemoveChild(id: Id, row: nat) returns (r: Result<()>)
      requires Valid() && id in items
      modifies this
      ensures Valid() && next == old(next)
      ensures r.Ok? <==> row < old(items)[id].ChildCount()
      ensures r.Raised? ==> r.error == IndexError
      ensures items == if r.Ok? then old(items)[id := old(items)[id].Without(row)] else old(items)
      ensures WellFormed(old(items)) ==> WellFormed(items)
    {
      if row >= items[id].ChildCount() {
        return Raised(IndexError);
      }
      ghost var h0 := items;
      items := items[id := items[id].Without(row)];
      assert forall k :: 0 <= k < |items[id].children| ==> items[id].children[k] in h0[id].children;
      r := Ok(());
    }

    /**
     * `setData(column, d)`: overwrites one field and answers `True`, or
     * answers `False` and changes nothing when `column` is outside the fields.
     */
    method SetData(id: Id, column: int, d: string) returns (ok: bool)
      requires Valid() && id in items
      modifies this
      ensures Valid() && next == old(next)
      ensures ok <==> 0 <= column < |old(items)[id].itemData|
      ensures items == if ok then old(items)[id := old(items)[id].Written(column, d)] else old(items)
      ensures WellFormed(old(items)) ==> WellFormed(items)
    {
      if column < 0 || column > |items[id].itemData| - 1 {
        return false;
      }
      items := items[id := items[id].Written(column, d)];
      ok := true;
    }
  }
}
