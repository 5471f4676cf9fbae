/**
 * A client of the item and model contracts: trees like the one the
 * demonstration program builds before it shows the view, and what the
 * contracts let a caller conclude about them.
 */
module ExampleTree {
  import opened Items
  import opened TreeModel

  /** A root with groups A, B and C, and an item D under A. */
  method BuildGroups() returns (forest: Forest, root: Id, a: Id, b: Id, d: Id)
    ensures WellFormed(forest.items)
    ensures root in forest.items && a in forest.items && b in forest.items && d in forest.items
    ensures forest.items[root].IsRoot() && forest.items[root].ChildCount() == 3
    ensures forest.items[root].children[0] == a && forest.items[root].children[1] == b
    ensures forest.items[a].children == [d]
    ensures forest.items[a].login == "No group"
    ensures forest.items[d].itemData == ["", "ItemD", "Description D"]
  {
    forest := new Forest();
    assert WellFormed(forest.items);
    var r := forest.NewItem(["root"], None);
    root := r.value;
    r := forest.NewItem(["No group"], Some(root));
    a := r.value;
    r := forest.NewItem(["Group B"], Some(root));
    b := r.value;
    r := forest.NewItem(["Group C"], Some(root));
    var c := r.value;
    assert forest.items[root].children == [a, b, c];
    r := forest.NewItem(["ItemD", "Description D"], Some(a));
    d := r.value;
  }

  /** What the contracts say about that tree. */
  method QueryGroups()
  {
    var forest, root, a, b, d := BuildGroups();
    var h := forest.items;

    // Rows are positions in the parent's children.
    RowOfChild(h, a, 0);
    assert Row(h, d) == Ok(Some(0));
    RowOfChild(h, root, 1);
    assert Row(h, b) == Ok(Some(1));

    // A top-level item shows its key; a deeper item shows its fields.
    assert h[a].parent == Some(root) && h[d].parent == Some(a);
    assert Data(h, a, 0) == Ok("No group");
    assert Data(h, d, 2) == Ok("Description D");
    assert Data(h, root, 0) == Raised(AttributeError);

    // Addressing D under A, then asking for D's parent, gives back A's index.
    var aIndex := Index(h, root, 0, 0, Invalid);
    RowOfChild(h, root, 0);
    IndexParentRoundTrip(h, root, aIndex, 0, 1);
    assert Parent(h, root, Index(h, root, 0, 1, aIndex)) == Ok(aIndex);
  }

  /** Past the end, `child` answers the last child; `removeRows` pops a run. */
  method ChildrenOfAGroup()
  {
    var forest := new Forest();
    var r := forest.NewItem(["root"], None);
    var root := r.value;
    r := forest.NewItem(["Group C"], Some(root));
    var c := r.value;
    r := forest.NewItem(["ItemF", "Description F"], Some(c));
    var f := r.value;
    r := forest.NewItem(["ItemG", "Description G"], Some(c));
    var g := r.value;
    assert forest.items[c].children == [f, g];
    assert forest.items[c].Child(5) == Ok(g);

    var removed := RemoveRows(forest, root, 0, 1, At(0, 0, c));
    assert removed == Ok(true);
    assert forest.items[c].children == [g];

    // The model's root is a root: removing rows from it changes nothing.
    removed := RemoveRows(forest, root, 0, 1, Invalid);
    assert removed == Ok(true);
    assert forest.items[root].children == [c];
  }
}
