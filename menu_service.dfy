/** The menu service object: `PlayerMenuServiceWin` with its item table, the root's
    children, the command table and the command-id counter, updated in place. */
module MenuServiceWin {
  import opened MenuTree
  import MenuTreeFacts

  class MenuService {
    var items: map<string, Node>
    var rootChildren: seq<string>
    var cmdToId: map<nat, string>
    var counter: nat

    function Model(): Menu
      reads this
    {
      Menu(items, rootChildren, cmdToId, counter)
    }

    ghost predicate Valid()
      reads this
    {
      MenuTree.Valid(Model())
    }

    /** A service with an empty menu bar; the counter starts at 0x1000. */
    constructor ()
      ensures Valid() && Model() == Empty()
    {
      items := map[];
      rootChildren := [];
      cmdToId := map[];
      counter := InitialCommandId;
    }

    method AddItem(menuId: string, title: string, parentId: string, order: int, native: Native)
      returns (item: Option<Node>)
      requires Valid()
      modifies this
      ensures Valid()
      ensures Model() == MenuTree.AddItem(old(Model()), menuId, title, parentId, order, native).menu
      ensures item == MenuTree.AddItem(old(Model()), menuId, title, parentId, order, native).item
    {
      MenuTreeFacts.AddItemPreservesValid(Model(), menuId, title, parentId, order, native);
      if |menuId| == 0 || |title| == 0 {
        return None;
      }
      if menuId in items {
        return None;
      }

      var parent := Root;
      if |parentId| > 0 {
        if parentId in items {
          parent := Under(parentId);
        }
      }

      if parent.Under? && !items[parent.id].hasMenu {
        // turn the parent into a group that owns a submenu
        var node := items[parent.id];
        var created := native(CreateMenu);
        items := items[parent.id := node.(hasMenu := created, isGroup := true)];
        if !native(AttachSubmenu(node.commandId)) {
          return None;
        }
      }
      item := InsertNew(menuId, title, parent, order, native);
    }

    /** Allocates the next command id, asks the native menu to insert the entry at the
        clamped position, and on success records it in the parent's list and both tables. */
    method InsertNew(menuId: string, title: string, parent: Parent, order: int, native: Native)
      returns (item: Option<Node>)
      requires menuId !in items && (parent.Under? ==> parent.id in items)
      modifies this
      ensures Model() == MenuTree.InsertNew(old(Model()), menuId, title, parent, order, native).menu
      ensures item == MenuTree.InsertNew(old(Model()), menuId, title, parent, order, native).item
    {
      counter := counter + 1;
      var node := Node(parent, [], counter, title, NewItemEnabled, NewItemChecked, false, false);

      var siblings := if parent.Root? then rootChildren else items[parent.id].children;
      var position := order;
      if position > |siblings| {
        position := |siblings|;
      } else if position < 0 {
        position := 0;
      }

      if !native(InsertItem(parent, position, counter, KindOf(title), title, NewItemEnabled, NewItemChecked)) {
        return None;
      }

      var placed := siblings[..position] + [menuId] + siblings[position..];
      if parent.Root? {
        rootChildren := placed;
      } else {
        items := items[parent.id := items[parent.id].(children := placed)];
      }
      items := items[menuId := node];
      cmdToId := cmdToId[counter := menuId];
      item := Some(node);
    }

    /** The two-argument overload: add under the menu bar at the default order. */
    method AddRootItem(menuId: string, title: string, defaultOrder: int, native: Native)
      returns (item: Option<Node>)
      requires Valid()
      modifies this
      ensures Valid()
      ensures Model() == MenuTree.AddItem(old(Model()), menuId, title, "", defaultOrder, native).menu
      ensures item == MenuTree.AddItem(old(Model()), menuId, title, "", defaultOrder, native).item
    {
      item := AddItem(menuId, title, "", defaultOrder, native);
    }

    method GetItem(id: string) returns (item: Option<Node>)
      ensures item.Some? <==> id in items
      ensures item.Some? ==> item.value == items[id]
    {
      if id !in items {
        return None;
      }
      return Some(items[id]);
    }

    method SetTitle(id: string, title: string, native: Native)
      requires Valid() && id in items
      modifies this
      ensures Valid() && Model() == MenuTree.SetTitle(old(Model()), id, title, native)
    {
      MenuTreeFacts.FieldUpdateValid(Model(), MenuTree.SetTitle(Model(), id, title, native), id);
      if |title| == 0 {
        return;
      }
      var node := items[id];
      if native(SetItemType(node.commandId, KindOf(title), title)) {
        items := items[id := node.(title := title)];
      }
    }

    method SetEnabled(id: string, enabled: bool, native: Native)
      requires Valid() && id in items
      modifies this
      ensures Valid() && Model() == MenuTree.SetEnabled(old(Model()), id, enabled, native)
    {
      MenuTreeFacts.FieldUpdateValid(Model(), MenuTree.SetEnabled(Model(), id, enabled, native), id);
      var node := items[id];
      if native(SetItemEnabled(node.commandId, enabled)) {
        items := items[id := node.(enabled := enabled)];
      }
    }

    method SetChecked(id: string, checked: bool, native: Native)
      requires Valid() && id in items
      modifies this
      ensures Valid() && Model() == MenuTree.SetChecked(old(Model()), id, checked, native)
    {
      MenuTreeFacts.FieldUpdateValid(Model(), MenuTree.SetChecked(Model(), id, checked, native), id);
      var node := items[id];
      if native(SetItemChecked(node.commandId, checked)) {
        items := items[id := node.(checked := checked)];
      }
    }

    /** The scan of the parent's children for the entry with the given command id. */
    method FindChild(children: seq<string>, commandId: nat) returns (found: bool, k: nat)
      requires forall c :: c in children ==> c in items
      ensures found ==> k < |children| && items[children[k]].commandId == commandId
      ensures found ==> forall j :: 0 <= j < k ==> items[children[j]].commandId != commandId
      ensures !found ==> forall j :: 0 <= j < |children| ==> items[children[j]].commandId != commandId
    {
      k := 0;
      while k < |children|
        invariant k <= |children|
        invariant forall j :: 0 <= j < k ==> items[children[j]].commandId != commandId
      {
        if items[children[k]].commandId == commandId {
          return true, k;
        }
        k := k + 1;
      }
      return false, k;
    }

    /** The branch of `removeItem` for an item without children: delete the native
        entry, then erase the item from its parent's list and from both tables. */
    method RemoveLeaf(id: string, native: Native) returns (ok: bool)
      requires Valid() && id in items && items[id].children == []
      modifies this
      ensures Valid()
      ensures ok <==> native(DeleteItem(old(items[id].commandId)))
      ensures ok ==> Model() == RemoveSubtree(old(Model()), id)
      ensures !ok ==> Model() == old(Model())
    {
      var node := items[id];
      ghost var m0 := Model();
      if !native(DeleteItem(node.commandId)) {
        return false;
      }
      MenuTreeFacts.LeafInParentList(m0, id);
      var siblings := if node.parent.Root? then rootChildren else items[node.parent.id].children;
      var found, k := FindChild(siblings, node.commandId);
      assert found by {
        var j :| 0 <= j < |siblings| && siblings[j] == id;
        assert items[siblings[j]].commandId == node.commandId;
      }
      if found {
        MenuTreeFacts.CommandIdsUnique(m0, siblings[k], id);
        var rest := siblings[..k] + siblings[k + 1..];
        if node.parent.Root? {
          rootChildren := rest;
        } else {
          items := items[node.parent.id := items[node.parent.id].(children := rest)];
        }
        assert Model() == SetChildren(m0, node.parent, rest);
      }
      ghost var after := Model();
      items := items - {id};
      cmdToId := cmdToId - {node.commandId};
      assert Model() == after.(items := after.items - {id}, cmdToId := m0.cmdToId - {node.commandId});
      MenuTreeFacts.RemoveLeafAt(m0, id, k);
      MenuTreeFacts.RemoveSubtreeValid(m0, id);
      return true;
    }

    /** Removes an item and, first, all its descendants. Unlike the source, a failed
        descendant removal makes it return false at once instead of retrying. */
    method RemoveItem(id: string, native: Native) returns (ok: bool)
      requires Valid()
      modifies this
      ensures Valid()
      ensures id !in old(items) ==> !ok && Model() == old(Model())
      ensures ok ==> id in old(items) && Model() == RemoveSubtree(old(Model()), id)
      ensures !ok && id in old(items) ==> id in items && Within(old(Model()), Model(), id)
      ensures !ok && id in old(items) && old(items[id].children) == [] ==> Model() == old(Model())
      ensures id in old(items) && old(items[id].children) == [] ==>
                (ok <==> native(DeleteItem(old(items[id].commandId))))
      ensures id in old(items) ==> (ok <==> Deletable(old(Model()), id, native))
      decreases if id in items && items[id].commandId <= counter then counter - items[id].commandId else 0,
                if id in items && items[id].children != [] then 1 else 0
    {
      if id !in items {
        return false;
      }
      if items[id].children == [] {
        ok := RemoveLeaf(id, native);
        MenuTreeFacts.LeafDeletable(old(Model()), id, native);
        return;
      }

      ghost var m0 := Model();
      while items[id].children != []
        invariant Valid() && id in items
        invariant Within(m0, Model(), id)
        invariant forall x :: x in m0.items && x !in items ==> native(DeleteItem(m0.items[x].commandId))
        decreases items.Keys
      {
        var child := items[id].children[0];
        ghost var m1 := Model();
        MenuTreeFacts.ChildInSubtree(m1, id, child);
        var removed := RemoveItem(child, native);
        if !removed {
          MenuTreeFacts.WithinWiden(m1, Model(), id, child);
          MenuTreeFacts.WithinTransitive(m0, m1, Model(), id);
          MenuTreeFacts.StuckBelowChild(m0, m1, id, child, native);
          return false;
        }
        MenuTreeFacts.GoneDeletable(m0, m1, id, child, native);
        MenuTreeFacts.RemoveChildWithin(m1, id, child);
        MenuTreeFacts.WithinTransitive(m0, m1, Model(), id);
      }
      ghost var m1 := Model();
      MenuTreeFacts.FinalDeletable(m0, m1, id, native);
      ok := RemoveItem(id, native);
      if ok {
        MenuTreeFacts.WithinLeafRemoval(m0, m1, id);
      }
    }
  }
}
