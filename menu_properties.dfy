/** What `addItem` and `removeItem` promise callers, stated on the value model:
    the outcome of an insertion, where the new entry lands, freshness of command ids,
    what a failed call leaves behind, and removal undoing a successful insertion. */
module MenuProperties {
  import opened MenuTree
  import MenuTreeFacts

  /** The menu `addItem` works on once the parent owns a submenu handle: the parent is
      converted into a group first when it has none. */
  function WithSubmenu(m: Menu, parent: Parent, native: Native): (r: Menu)
    requires parent.Under? ==> parent.id in m.items
    ensures r.items.Keys == m.items.Keys && r.cmdToId == m.cmdToId
    ensures r.rootChildren == m.rootChildren && r.counter == m.counter
    ensures forall x :: x in m.items ==> r.items[x].children == m.items[x].children
    ensures forall x :: x in m.items && Under(x) != parent ==> r.items[x] == m.items[x]
    ensures parent.Under? ==>
              r.items[parent.id] == m.items[parent.id].(hasMenu := r.items[parent.id].hasMenu,
                                                         isGroup := r.items[parent.id].isGroup)
    ensures NeedsSubmenu(m, parent) ==>
              r.items[parent.id].isGroup && r.items[parent.id].hasMenu == native(CreateMenu)
    ensures !NeedsSubmenu(m, parent) ==> r == m
  {
    if NeedsSubmenu(m, parent) then ConvertToGroup(m, parent.id, native(CreateMenu)) else m
  }

  /** When `addItem` succeeds, and exactly when: the arguments pass validation, the
      parent's submenu could be attached, and the native insertion at the clamped
      position succeeded. The new item hangs under the chosen parent with the next
      command id, is enabled and unchecked, and is recorded in the command table. */
  lemma AddItemOutcome(m: Menu, menuId: string, title: string, parentId: string, order: int,
                       native: Native)
    requires Valid(m)
    ensures var r := AddItem(m, menuId, title, parentId, order, native);
            var p := ParentFor(m, parentId);
            var s := ChildrenOf(m, p);
            var k := Clamp(order, |s|);
            var cmd := m.counter + 1;
            (r.item.Some? <==>
               |menuId| > 0 && |title| > 0 && menuId !in m.items &&
               (NeedsSubmenu(m, p) ==> native(AttachSubmenu(m.items[p.id].commandId))) &&
               native(InsertItem(p, k, cmd, KindOf(title), title, NewItemEnabled, NewItemChecked))) &&
            (r.item.Some? ==>
               r.menu.counter == cmd &&
               r.item.value.parent == p && r.item.value.commandId == cmd &&
               r.item.value.title == title && r.item.value.enabled && !r.item.value.checked &&
               r.item.value.children == [] && !r.item.value.isGroup &&
               r.menu.items[menuId] == r.item.value &&
               cmd in r.menu.cmdToId && r.menu.cmdToId[cmd] == menuId)
  {
    if |menuId| > 0 && |title| > 0 && menuId !in m.items {
      var p := ParentFor(m, parentId);
      var base := WithSubmenu(m, p, native);
      assert ChildrenOf(base, p) == ChildrenOf(m, p);
    }
  }

  /** Past validation and the submenu step, `addItem` is the insertion proper. */
  lemma AddItemInserts(m: Menu, menuId: string, title: string, parentId: string, order: int,
                       native: Native)
    requires |menuId| > 0 && |title| > 0 && menuId !in m.items
    ensures var p := ParentFor(m, parentId);
            AddItem(m, menuId, title, parentId, order, native).item.Some? ==>
              AddItem(m, menuId, title, parentId, order, native) ==
                InsertNew(WithSubmenu(m, p, native), menuId, title, p, order, native)
  {
  }

  /** A successful insertion places the new id at exactly the clamped index of the
      parent's list, and the siblings that were there keep their relative order. */
  lemma InsertNewPlacement(m: Menu, menuId: string, title: string, parent: Parent, order: int,
                           native: Native)
    requires Valid(m) && menuId !in m.items && (parent.Under? ==> parent.id in m.items)
    ensures var r := InsertNew(m, menuId, title, parent, order, native);
            var s := ChildrenOf(m, parent);
            var k := Clamp(order, |s|);
            r.item.Some? ==>
              ChildrenOf(r.menu, parent) == s[..k] + [menuId] + s[k..] &&
              ChildrenOf(r.menu, parent)[k] == menuId &&
              Erase(ChildrenOf(r.menu, parent), menuId) == s
  {
    var s := ChildrenOf(m, parent);
    var k := Clamp(order, |s|);
    assert menuId !in s by {
      if parent.Root? { assert ListValid(m, m.rootChildren, Root); }
      else { assert ListValid(m, m.items[parent.id].children, parent); }
    }
    MenuTreeFacts.EraseInserted(s, k, menuId);
  }

  /** The same for `addItem`: placement at the clamped index of the chosen parent's
      list, siblings in their old relative order. */
  lemma AddItemPlacement(m: Menu, menuId: string, title: string, parentId: string, order: int,
                         native: Native)
    requires Valid(m)
    ensures var r := AddItem(m, menuId, title, parentId, order, native);
            var p := ParentFor(m, parentId);
            var s := ChildrenOf(m, p);
            var k := Clamp(order, |s|);
            r.item.Some? ==>
              ChildrenOf(r.menu, p) == s[..k] + [menuId] + s[k..] &&
              ChildrenOf(r.menu, p)[k] == menuId &&
              Erase(ChildrenOf(r.menu, p), menuId) == s
  {
    var r := AddItem(m, menuId, title, parentId, order, native);
    if r.item.Some? {
      var p := ParentFor(m, parentId);
      var base := WithSubmenu(m, p, native);
      AddItemInserts(m, menuId, title, parentId, order, native);
      assert ChildrenOf(base, p) == ChildrenOf(m, p);
      if NeedsSubmenu(m, p) {
        MenuTreeFacts.ConvertToGroupValid(m, p.id, native(CreateMenu));
      }
      InsertNewPlacement(base, menuId, title, p, order, native);
    }
  }

  /** The command id `addItem` allocates is above every id already in use, so it is
      unused, whatever became of earlier calls. */
  lemma AddItemFreshCommandId(m: Menu, menuId: string, title: string, parentId: string, order: int,
                              native: Native)
    requires Valid(m)
    ensures var r := AddItem(m, menuId, title, parentId, order, native);
            r.item.Some? ==>
              r.item.value.commandId !in m.cmdToId &&
              forall x :: x in m.items ==> m.items[x].commandId < r.item.value.commandId
  {
    MenuTreeFacts.FreshCommandId(m);
    AddItemOutcome(m, menuId, title, parentId, order, native);
  }

  /** A failed `addItem` adds no item, changes neither table nor any children list, and
      moves no item to another parent. */
  lemma AddItemFailureKeepsTree(m: Menu, menuId: string, title: string, parentId: string, order: int,
                                native: Native)
    ensures var r := AddItem(m, menuId, title, parentId, order, native);
            r.item.None? ==>
              r.menu.items.Keys == m.items.Keys && r.menu.cmdToId == m.cmdToId &&
              r.menu.rootChildren == m.rootChildren &&
              forall x :: x in m.items ==>
                r.menu.items[x].children == m.items[x].children &&
                r.menu.items[x].parent == m.items[x].parent &&
                r.menu.items[x].commandId == m.items[x].commandId
  {
  }

  /** A parent without a submenu handle becomes a group before the insertion is tried,
      and stays one even when the call then fails; its handle is whatever the native
      layer created. */
  lemma AddItemConvertsParent(m: Menu, menuId: string, title: string, parentId: string, order: int,
                              native: Native)
    ensures var r := AddItem(m, menuId, title, parentId, order, native);
            var p := ParentFor(m, parentId);
            |menuId| > 0 && |title| > 0 && menuId !in m.items && NeedsSubmenu(m, p) ==>
              p.id in r.menu.items && r.menu.items[p.id].isGroup &&
              r.menu.items[p.id].hasMenu == native(CreateMenu)
  {
  }

  /** Taking an inserted entry back out of the explicit insertion shape restores the
      tables and the parent's list. */
  lemma InsertedUndone(m: Menu, r: Menu, menuId: string, node: Node, s: seq<string>, k: nat)
    requires k <= |s| && s == ChildrenOf(m, node.parent)
    requires MenuTreeFacts.Inserted(m, r, menuId, node, s[..k] + [menuId] + s[k..])
    requires node.commandId !in m.cmdToId
    ensures var after := SetChildren(r, node.parent, s);
            after.(items := after.items - {menuId}, cmdToId := r.cmdToId - {node.commandId}) ==
              m.(counter := m.counter + 1)
  {
    var after := SetChildren(r, node.parent, s);
    var back := after.(items := after.items - {menuId}, cmdToId := r.cmdToId - {node.commandId});
    assert back.items == m.items by {
      forall x | x in m.items ensures back.items[x] == m.items[x] {
        if node.parent.Under? && x == node.parent.id { } else { }
      }
    }
    assert back.cmdToId == m.cmdToId;
  }

  /** Removing an entry just inserted undoes the insertion, except for the counter:
      command ids are never reused. */
  lemma InsertThenRemove(m: Menu, menuId: string, title: string, parent: Parent, order: int,
                         native: Native)
    requires Valid(m) && menuId !in m.items
    requires parent.Under? ==> parent.id in m.items && m.items[parent.id].isGroup
    ensures var r := InsertNew(m, menuId, title, parent, order, native);
            r.item.Some? ==> RemoveSubtree(r.menu, menuId) == m.(counter := m.counter + 1)
  {
    var r := InsertNew(m, menuId, title, parent, order, native);
    if r.item.Some? {
      var s := ChildrenOf(m, parent);
      var k := Clamp(order, |s|);
      MenuTreeFacts.InsertNewShape(m, menuId, title, parent, order, native);
      MenuTreeFacts.InsertNewValid(m, menuId, title, parent, order, native);
      MenuTreeFacts.FreshCommandId(m);
      InsertNewPlacement(m, menuId, title, parent, order, native);
      MenuTreeFacts.RemoveLeafAt(r.menu, menuId, k);
      InsertedUndone(m, r.menu, menuId, r.item.value, s, k);
    }
  }

  /** Removing an item just added undoes `addItem`: what remains is the menu it started
      from, with the parent converted if it had to be and the counter still advanced. */
  lemma AddThenRemove(m: Menu, menuId: string, title: string, parentId: string, order: int,
                      native: Native)
    requires Valid(m)
    ensures var r := AddItem(m, menuId, title, parentId, order, native);
            r.item.Some? ==>
              RemoveSubtree(r.menu, menuId) ==
                WithSubmenu(m, ParentFor(m, parentId), native).(counter := m.counter + 1)
  {
    var r := AddItem(m, menuId, title, parentId, order, native);
    if r.item.Some? {
      var p := ParentFor(m, parentId);
      AddItemInserts(m, menuId, title, parentId, order, native);
      if NeedsSubmenu(m, p) {
        MenuTreeFacts.ConvertToGroupValid(m, p.id, native(CreateMenu));
      } else if p.Under? {
        assert m.items[p.id].hasMenu;
      }
      InsertThenRemove(WithSubmenu(m, p, native), menuId, title, p, order, native);
    }
  }

  /** A successful removal takes the item out of its parent's list, keeping the other
      siblings in order; every remaining item outside that list is untouched, and no
      removed id is left in either table. */
  lemma RemoveSubtreeDetaches(m: Menu, id: string)
    requires Valid(m) && id in m.items
    ensures var r := RemoveSubtree(m, id);
            var p := m.items[id].parent;
            id !in r.items &&
            (p.Under? ==> p.id in r.items) &&
            id !in ChildrenOf(r, p) &&
            ChildrenOf(r, p) == Erase(ChildrenOf(m, p), id) &&
            (forall x :: x in r.items && Under(x) != p ==> r.items[x] == m.items[x]) &&
            (forall c :: c in r.cmdToId ==> r.cmdToId[c] in r.items) &&
            Valid(r)
  {
    var p := m.items[id].parent;
    MenuTreeFacts.ParentSurvives(m, id);
    MenuTreeFacts.RemoveSubtreeShape(m, id);
    MenuTreeFacts.RemoveSubtreeValid(m, id);
    MenuTreeFacts.LeafInParentList(m, id);
    assert NoDuplicates(ChildrenOf(m, p)) by {
      if p.Root? { assert ListValid(m, m.rootChildren, Root); }
      else { assert ListValid(m, m.items[p.id].children, p); }
    }
    MenuTreeFacts.EraseUnique(ChildrenOf(m, p), id);
  }
}
