/** `removeItem` exactly as the source writes its recursive branch: when removing a
    child fails, the loop is left by `break` and `removeItem` is called again on the
    same item, whose children are still there. The `fuel` bound only makes the
    definition total; running out of it (`None`) stands for a call that never returns. */
module MenuRemovalAsWritten {
  import opened MenuTree
  import MenuTreeFacts

  function RemoveAsWritten(m: Menu, id: string, native: Native, fuel: nat): (r: Option<(Menu, bool)>)
    ensures r.Some? ==> r.value.0.items.Keys <= m.items.Keys && r.value.0.counter == m.counter
    ensures r.Some? && r.value.1 ==> id in m.items && id !in r.value.0.items
    decreases fuel
  {
    if fuel == 0 then None
    else if id !in m.items then Some((m, false))
    else if m.items[id].children == [] then
      if native(DeleteItem(m.items[id].commandId)) then Some((RemoveSubtree(m, id), true))
      else Some((m, false))
    else RemoveChildrenAsWritten(m, id, native, fuel - 1)
  }

  /** The `while` loop over the first child, followed by `return removeItem(menuId)`,
      which is reached both when the children are gone and after the `break`. */
  function RemoveChildrenAsWritten(m: Menu, id: string, native: Native, fuel: nat): (r: Option<(Menu, bool)>)
    ensures r.Some? ==> r.value.0.items.Keys <= m.items.Keys && r.value.0.counter == m.counter
    ensures r.Some? && r.value.1 ==> id in m.items && id !in r.value.0.items
    decreases fuel
  {
    if fuel == 0 then None
    else if id !in m.items || m.items[id].children == [] then RemoveAsWritten(m, id, native, fuel - 1)
    else
      match RemoveAsWritten(m, m.items[id].children[0], native, fuel - 1)
      case None => None
      case Some((m', removed)) =>
        if removed then RemoveChildrenAsWritten(m', id, native, fuel - 1)
        else RemoveAsWritten(m', id, native, fuel - 1)
  }

  /** A child's subtree lies strictly inside its parent's. */
  lemma ChildSubtreeInside(m: Menu, id: string, c: string)
    requires Valid(m) && id in m.items && c in m.items[id].children
    ensures Subtree(m, c) <= Subtree(m, id) && id !in Subtree(m, c)
  {
    MenuTreeFacts.ChildSubtreeNested(m, id, c);
  }

  /** Removing a child's subtree takes exactly that subtree out of the parent's. */
  lemma SubtreeAfterChildRemoval(m: Menu, id: string, c: string)
    requires Valid(m) && id in m.items && c in m.items[id].children
    ensures Subtree(RemoveSubtree(m, c), id) == Subtree(m, id) - Subtree(m, c)
    ensures |Subtree(RemoveSubtree(m, c), id)| == |Subtree(m, id)| - |Subtree(m, c)|
    ensures |Subtree(m, c)| < |Subtree(m, id)|
  {
    ChildSubtreeInside(m, id, c);
    var r := RemoveSubtree(m, c);
    MenuTreeFacts.RemoveChildWithin(m, id, c);
    MenuTreeFacts.RemoveSubtreeValid(m, c);
    MenuTreeFacts.ParentsClosed(r);
    forall x | x in r.items ensures InSubtree(r.items, id, x) == InSubtree(m.items, id, x) {
      MenuTreeFacts.SubtreeStable(m.items, r.items, id, x);
    }
    var a := Subtree(m, id);
    var b := Subtree(m, c);
    assert Subtree(r, id) == a - b;
    SetDifferenceSize(a, b, id);
  }

  lemma SetDifferenceSize(a: set<string>, b: set<string>, x: string)
    requires b <= a && x in a && x !in b
    ensures |a - b| == |a| - |b| && |b| < |a|
  {
    assert a == (a - b) + b && (a - b) * b == {};
    assert x in a - b;
  }

  /** One step of the definitions: a leaf whose deletion succeeds is removed. */
  lemma AsWrittenLeaf(m: Menu, id: string, native: Native, fuel: nat)
    requires id in m.items && m.items[id].children == [] && native(DeleteItem(m.items[id].commandId))
    requires fuel >= 1
    ensures RemoveAsWritten(m, id, native, fuel) == Some((RemoveSubtree(m, id), true))
  {
  }

  /** One step of the definitions: a successful removal of the first child moves the
      loop on to the menu it left. */
  lemma AsWrittenStep(m: Menu, id: string, native: Native, fuel: nat, rest: nat, r: Menu)
    requires id in m.items && m.items[id].children != [] && fuel == rest + 1
    requires RemoveAsWritten(m, m.items[id].children[0], native, rest) == Some((r, true))
    ensures RemoveChildrenAsWritten(m, id, native, fuel) == RemoveChildrenAsWritten(r, id, native, rest)
  {
  }

  /** One step of the definitions: once the children are gone, the loop ends in
      another removal of the item itself. */
  lemma AsWrittenDone(m: Menu, id: string, native: Native, fuel: nat, rest: nat)
    requires id in m.items && m.items[id].children == [] && fuel == rest + 1
    ensures RemoveChildrenAsWritten(m, id, native, fuel) == RemoveAsWritten(m, id, native, rest)
  {
  }

  /** One step of the definitions: an item with children is removed by the loop. */
  lemma AsWrittenUnfold(m: Menu, id: string, native: Native, fuel: nat, rest: nat)
    requires id in m.items && m.items[id].children != [] && fuel == rest + 1
    ensures RemoveAsWritten(m, id, native, fuel) == RemoveChildrenAsWritten(m, id, native, rest)
  {
  }

  /** A deletable leaf is removed as soon as there is any fuel. */
  lemma AsWrittenLeafRemoves(m: Menu, id: string, native: Native, fuel: nat)
    requires id in m.items && m.items[id].children == [] && Deletable(m, id, native) && fuel >= 1
    ensures RemoveAsWritten(m, id, native, fuel) == Some((RemoveSubtree(m, id), true))
  {
    assert InSubtree(m.items, id, id);
    AsWrittenLeaf(m, id, native, fuel);
  }

  /** With every deletion succeeding and enough fuel, the as-written removal returns,
      reports success and leaves exactly the state of the corrected removal. */
  lemma {:induction false} AsWrittenRemoves(m: Menu, id: string, native: Native, fuel: nat)
    requires Valid(m) && id in m.items && Deletable(m, id, native)
    requires fuel >= 2 * |Subtree(m, id)| + 1
    ensures RemoveAsWritten(m, id, native, fuel) == Some((RemoveSubtree(m, id), true))
    decreases fuel, 4
  {
    if m.items[id].children == [] {
      AsWrittenLeafRemoves(m, id, native, fuel);
    } else {
      AsWrittenGroupRemoves(m, id, native, fuel);
    }
  }

  lemma {:induction false} AsWrittenGroupRemoves(m: Menu, id: string, native: Native, fuel: nat)
    requires Valid(m) && id in m.items && m.items[id].children != [] && Deletable(m, id, native)
    requires fuel >= 2 * |Subtree(m, id)| + 1
    ensures RemoveAsWritten(m, id, native, fuel) == Some((RemoveSubtree(m, id), true))
    decreases fuel, 3
  {
    var rest := fuel - 1;
    MenuTreeFacts.WithinItself(m, id);
    AsWrittenChildren(m, m, id, native, rest);
    AsWrittenUnfold(m, id, native, fuel, rest);
  }

  /** The loop over the children, started from `m0` and arrived at `m`. */
  lemma {:induction false} AsWrittenChildren(m0: Menu, m: Menu, id: string, native: Native, fuel: nat)
    requires Valid(m0) && Valid(m) && Within(m0, m, id)
    requires id in m0.items && id in m.items && Deletable(m0, id, native)
    requires fuel >= 2 * |Subtree(m, id)|
    ensures RemoveChildrenAsWritten(m, id, native, fuel) == Some((RemoveSubtree(m0, id), true))
    decreases fuel, 2
  {
    if m.items[id].children == [] {
      AsWrittenLoopEnds(m0, m, id, native, fuel);
    } else {
      AsWrittenLoopStep(m0, m, id, native, fuel);
    }
  }

  /** The loop's exit: the item has no children left and is removed itself. */
  lemma AsWrittenLoopEnds(m0: Menu, m: Menu, id: string, native: Native, fuel: nat)
    requires Valid(m0) && Valid(m) && Within(m0, m, id)
    requires id in m0.items && id in m.items && m.items[id].children == [] && Deletable(m0, id, native)
    requires fuel >= 2 * |Subtree(m, id)|
    ensures RemoveChildrenAsWritten(m, id, native, fuel) == Some((RemoveSubtree(m0, id), true))
  {
    assert id in Subtree(m, id) by { assert InSubtree(m.items, id, id); }
    MenuTreeFacts.LeafSubtreeSet(m, id);
    assert InSubtree(m0.items, id, id);
    assert m.items[id].commandId == m0.items[id].commandId;
    var rest := fuel - 1;
    AsWrittenDone(m, id, native, fuel, rest);
    AsWrittenLeaf(m, id, native, rest);
    MenuTreeFacts.WithinLeafRemoval(m0, m, id);
  }

  /** One pass of the loop: the first child's subtree goes, and the loop continues on a
      smaller subtree. */
  lemma {:induction false} AsWrittenLoopStep(m0: Menu, m: Menu, id: string, native: Native, fuel: nat)
    requires Valid(m0) && Valid(m) && Within(m0, m, id)
    requires id in m0.items && id in m.items && m.items[id].children != [] && Deletable(m0, id, native)
    requires fuel >= 2 * |Subtree(m, id)|
    ensures RemoveChildrenAsWritten(m, id, native, fuel) == Some((RemoveSubtree(m0, id), true))
    decreases fuel, 1
  {
    var c := m.items[id].children[0];
    var r := RemoveSubtree(m, c);
    FirstChildDeletable(m0, m, id, native);
    ChildFuel(m, id, fuel);
    LoopMovesOn(m0, m, id, c);
    var rest := fuel - 1;
    AsWrittenChildren(m0, r, id, native, rest);
    AsWrittenFirstChild(m, id, native, fuel, rest, Some((RemoveSubtree(m0, id), true)));
  }

  /** The pass itself: the first child's subtree is removed, and the loop goes on, with
      `rest` fuel, from the menu that removal leaves, whatever that continuation returns. */
  lemma {:induction false} AsWrittenFirstChild(m: Menu, id: string, native: Native, fuel: nat, rest: nat,
                                               out: Option<(Menu, bool)>)
    requires Valid(m) && id in m.items && m.items[id].children != [] && fuel == rest + 1
    requires m.items[id].children[0] in m.items && Deletable(m, m.items[id].children[0], native)
    requires rest >= 2 * |Subtree(m, m.items[id].children[0])| + 1
    requires RemoveChildrenAsWritten(RemoveSubtree(m, m.items[id].children[0]), id, native, rest) == out
    ensures RemoveChildrenAsWritten(m, id, native, fuel) == out
    decreases fuel, 0
  {
    var c := m.items[id].children[0];
    var r := RemoveSubtree(m, c);
    AsWrittenRemoves(m, c, native, rest);
    AsWrittenStep(m, id, native, fuel, rest, r);
  }

  /** Every deletion below the item succeeds, so every deletion below its first child does. */
  lemma FirstChildDeletable(m0: Menu, m: Menu, id: string, native: Native)
    requires Valid(m) && Within(m0, m, id)
    requires id in m.items && m.items[id].children != [] && Deletable(m0, id, native)
    ensures m.items[id].children[0] in m.items && Deletable(m, m.items[id].children[0], native)
  {
    var c := m.items[id].children[0];
    MenuTreeFacts.ChildInSubtree(m, id, c);
    if !Deletable(m, c, native) {
      MenuTreeFacts.StuckBelowChild(m0, m, id, c, native);
    }
  }

  /** The fuel the loop has is enough for the first child's removal and for the rest of
      the loop after it. */
  lemma ChildFuel(m: Menu, id: string, fuel: nat)
    requires Valid(m) && id in m.items && m.items[id].children != []
    requires fuel >= 2 * |Subtree(m, id)|
    ensures m.items[id].children[0] in m.items && fuel >= 1
    ensures fuel - 1 >= 2 * |Subtree(m, m.items[id].children[0])| + 1
    ensures fuel - 1 >= 2 * |Subtree(RemoveSubtree(m, m.items[id].children[0]), id)|
  {
    var c := m.items[id].children[0];
    MenuTreeFacts.ChildInSubtree(m, id, c);
    SubtreeAfterChildRemoval(m, id, c);
    assert c in Subtree(m, c) by { assert InSubtree(m.items, c, c); }
  }

  /** After the first child's subtree is gone the loop's invariant still holds. */
  lemma LoopMovesOn(m0: Menu, m: Menu, id: string, c: string)
    requires Valid(m) && Within(m0, m, id) && id in m.items && c in m.items[id].children
    ensures Valid(RemoveSubtree(m, c)) && Within(m0, RemoveSubtree(m, c), id)
    ensures id in RemoveSubtree(m, c).items
  {
    MenuTreeFacts.RemoveChildWithin(m, id, c);
    MenuTreeFacts.RemoveSubtreeValid(m, c);
    MenuTreeFacts.WithinTransitive(m0, m, RemoveSubtree(m, c), id);
  }

  /** An item whose first child is a leaf the native layer refuses to delete: the
      as-written removal of the item never returns, whatever the fuel. */
  lemma {:induction false} StuckChildDiverges(m: Menu, id: string, native: Native, fuel: nat)
    requires id in m.items && m.items[id].children != []
    requires m.items[id].children[0] in m.items
    requires m.items[m.items[id].children[0]].children == []
    requires !native(DeleteItem(m.items[m.items[id].children[0]].commandId))
    ensures RemoveAsWritten(m, id, native, fuel) == None
    ensures RemoveChildrenAsWritten(m, id, native, fuel) == None
    decreases fuel
  {
    if fuel > 0 {
      StuckChildDiverges(m, id, native, fuel - 1);
      var child := m.items[id].children[0];
      if fuel - 1 > 0 {
        assert RemoveAsWritten(m, child, native, fuel - 1) == Some((m, false));
      }
    }
  }

  /** A concrete instance: menu "file" with the single entry "open", and a native layer
      that refuses every deletion. */
  function StuckMenu(): (m: Menu)
    ensures Valid(m)
  {
    var file := Node(Root, ["open"], 0x1001, "File", true, false, true, true);
    var open := Node(Under("file"), [], 0x1002, "Open", true, false, false, false);
    var m := Menu(map["file" := file, "open" := open], ["file"], map[0x1001 := "file", 0x1002 := "open"], 0x1002);
    assert ParentLinked(m, "file") && ParentLinked(m, "open");
    assert forall x :: x in m.items ==> x == "file" || x == "open";
    m
  }

  lemma StuckMenuDiverges(fuel: nat)
    ensures RemoveAsWritten(StuckMenu(), "file", (c: NativeCall) => !c.DeleteItem?, fuel) == None
  {
    StuckChildDiverges(StuckMenu(), "file", (c: NativeCall) => !c.DeleteItem?, fuel);
  }
}
