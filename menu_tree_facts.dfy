/** Properties of the menu-tree model: what each operation guarantees, that the
    invariant is preserved, and how removal relates to the tree's shape. */
module MenuTreeFacts {
  import opened MenuTree

  // ---------------------------------------------------------------- sequences

  lemma {:induction false} EraseAt(s: seq<string>, k: nat, x: string)
    requires k < |s| && s[k] == x && x !in s[..k]
    ensures Erase(s, x) == s[..k] + s[k + 1..]
  {
    if k > 0 {
      assert s[0] in s[..k];
      assert s[1..][..k - 1] == s[..k][1..];
      EraseAt(s[1..], k - 1, x);
      assert s[1..][k - 1 + 1..] == s[k + 1..];
      assert s[..k] == [s[0]] + s[1..][..k - 1];
    }
  }

  lemma RemoveAtNoDuplicates(s: seq<string>, k: nat)
    requires k < |s| && NoDuplicates(s)
    ensures NoDuplicates(s[..k] + s[k + 1..])
  {
    var r := s[..k] + s[k + 1..];
    forall i, j | 0 <= i < j < |r| ensures r[i] != r[j] {
      var i' := if i < k then i else i + 1;
      var j' := if j < k then j else j + 1;
      assert r[i] == s[i'] && r[j] == s[j'];
    }
  }

  lemma RemoveAtMembers(s: seq<string>, k: nat, y: string)
    requires k < |s| && NoDuplicates(s)
    ensures y in s[..k] + s[k + 1..] <==> y in s && y != s[k]
  {
    var r := s[..k] + s[k + 1..];
    if y in r {
      var i :| 0 <= i < |r| && r[i] == y;
      var i' := if i < k then i else i + 1;
      assert s[i'] == y;
    }
    if y in s && y != s[k] {
      var i :| 0 <= i < |s| && s[i] == y;
      if i < k { assert r[i] == y; } else { assert r[i - 1] == y; }
    }
  }

  /** In a list without duplicates, erasing a member removes exactly that member. */
  lemma EraseUnique(s: seq<string>, x: string)
    requires NoDuplicates(s) && x in s
    ensures NoDuplicates(Erase(s, x))
    ensures forall y :: y in Erase(s, x) <==> y in s && y != x
  {
    var k :| 0 <= k < |s| && s[k] == x;
    assert x !in s[..k];
    EraseAt(s, k, x);
    RemoveAtNoDuplicates(s, k);
    forall y ensures y in Erase(s, x) <==> y in s && y != x {
      RemoveAtMembers(s, k, y);
    }
  }

  /** Inserting a fresh element and erasing it again gives back the list. */
  lemma EraseInserted(s: seq<string>, k: nat, x: string)
    requires k <= |s| && x !in s
    ensures Erase(s[..k] + [x] + s[k..], x) == s
  {
    var t := s[..k] + [x] + s[k..];
    assert t[k] == x;
    assert t[..k] == s[..k];
    assert x !in s[..k] by {
      forall y | y in s[..k] ensures y in s { }
    }
    EraseAt(t, k, x);
    assert t[k + 1..] == s[k..];
    assert s[..k] + s[k..] == s;
  }

  lemma InsertMembers(s: seq<string>, k: nat, x: string)
    requires k <= |s|
    ensures forall y :: y in s[..k] + [x] + s[k..] <==> y in s || y == x
  {
    assert s == s[..k] + s[k..];
  }

  lemma InsertNoDuplicates(s: seq<string>, k: nat, x: string)
    requires k <= |s| && NoDuplicates(s) && x !in s
    ensures NoDuplicates(s[..k] + [x] + s[k..])
  {
    var t := s[..k] + [x] + s[k..];
    forall i, j | 0 <= i < j < |t| ensures t[i] != t[j] {
      if i == k {
        assert t[j] == s[j - 1];
      } else if j == k {
        assert t[i] == s[i];
      } else {
        var i' := if i < k then i else i - 1;
        var j' := if j < k then j else j - 1;
        assert t[i] == s[i'] && t[j] == s[j'];
      }
    }
  }

  // ---------------------------------------------------------------- subtrees

  /** A strict descendant has a larger command id than its ancestor, so an item is
      never below one of its own descendants. */
  lemma {:induction false} SubtreeCommandIds(items: map<string, Node>, top: string, x: string)
    requires InSubtree(items, top, x) && x != top
    ensures x in items && top in items && items[top].commandId < items[x].commandId
    decreases if x in items then items[x].commandId else 0
  {
    var p := items[x].parent.id;
    if p != top {
      SubtreeCommandIds(items, top, p);
    }
  }

  lemma {:induction false} SubtreeTransitive(items: map<string, Node>, a: string, b: string, x: string)
    requires InSubtree(items, a, x) && InSubtree(items, b, a)
    ensures InSubtree(items, b, x)
    decreases if x in items then items[x].commandId else 0
  {
    if x != a {
      SubtreeTransitive(items, a, b, items[x].parent.id);
    }
  }

  /** Membership in a subtree depends only on the parent links and command ids, so it
      survives removing other items and changing children lists. */
  lemma {:induction false} SubtreeStable(i0: map<string, Node>, i1: map<string, Node>, top: string, x: string)
    requires x in i1
    requires forall y :: y in i1 ==>
               y in i0 && i1[y].parent == i0[y].parent && i1[y].commandId == i0[y].commandId
    requires forall y :: y in i1 && i1[y].parent.Under? ==> i1[y].parent.id in i1
    ensures InSubtree(i1, top, x) == InSubtree(i0, top, x)
    decreases i1[x].commandId
  {
    if x != top && i1[x].parent.Under? {
      var p := i1[x].parent.id;
      if i1[p].commandId < i1[x].commandId {
        SubtreeStable(i0, i1, top, p);
      }
    }
  }

  /** An item without children is its own whole subtree. */
  lemma {:induction false} LeafSubtree(m: Menu, id: string, x: string)
    requires Valid(m) && id in m.items && m.items[id].children == []
    requires InSubtree(m.items, id, x)
    ensures x == id
    decreases if x in m.items then m.items[x].commandId else 0
  {
    if x != id {
      var p := m.items[x].parent.id;
      assert ParentLinked(m, x);
      LeafSubtree(m, id, p);
    }
  }

  lemma ParentOutsideSubtree(m: Menu, id: string, x: string)
    requires Valid(m) && x in m.items && m.items[x].parent.Under?
    requires m.items[x].parent.id in Subtree(m, id)
    ensures x in Subtree(m, id)
  {
    assert ParentLinked(m, x);
  }

  // ---------------------------------------------------------------- tables

  /** Under the invariant the command table is determined by the item table. */
  lemma TablesDetermined(m1: Menu, m2: Menu)
    requires TablesInverse(m1) && TablesInverse(m2) && m1.items == m2.items
    ensures m1.cmdToId == m2.cmdToId
  {
    forall c | c in m1.cmdToId ensures c in m2.cmdToId && m2.cmdToId[c] == m1.cmdToId[c] {
      var x := m1.cmdToId[c];
      assert m2.items[x].commandId == c;
    }
    forall c | c in m2.cmdToId ensures c in m1.cmdToId {
      var x := m2.cmdToId[c];
      assert m1.items[x].commandId == c;
    }
  }

  /** Command ids are unique: the table maps each one back to its only owner. */
  lemma CommandIdsUnique(m: Menu, x: string, y: string)
    requires Valid(m) && x in m.items && y in m.items
    requires m.items[x].commandId == m.items[y].commandId
    ensures x == y
  {
    assert m.cmdToId[m.items[x].commandId] == x;
  }

  // ---------------------------------------------------------------- addItem

  lemma ConvertToGroupValid(m: Menu, id: string, created: bool)
    requires Valid(m) && id in m.items
    ensures Valid(ConvertToGroup(m, id, created))
  {
    var r := ConvertToGroup(m, id, created);
    assert Relabelled(m, r);
    RelabelledTables(m, r);
    RelabelledParents(m, r);
    RelabelledChildren(m, r);
  }

  /** The fresh command id is above every id in use and is not in the table. */
  lemma FreshCommandId(m: Menu)
    requires Valid(m)
    ensures forall x :: x in m.items ==> m.items[x].commandId < m.counter + 1
    ensures m.counter + 1 !in m.cmdToId
  {
    forall c | c in m.cmdToId ensures c <= m.counter {
      assert m.items[m.cmdToId[c]].commandId == c;
    }
  }

  /** The shape of a successful insertion: `r` is `m` with `menuId` added as `node`
      under `parent`, whose children list becomes `t`, and with the counter bumped. */
  ghost predicate Inserted(m: Menu, r: Menu, menuId: string, node: Node, t: seq<string>)
  {
    menuId !in m.items &&
    r.counter == m.counter + 1 && node.commandId == r.counter &&
    node.children == [] && !node.hasMenu &&
    r.cmdToId == m.cmdToId[node.commandId := menuId] &&
    r.items.Keys == m.items.Keys + {menuId} &&
    r.items[menuId] == node &&
    (forall x :: x in m.items && Under(x) != node.parent ==> r.items[x] == m.items[x]) &&
    (node.parent.Under? ==> node.parent.id in m.items) &&
    (node.parent.Under? ==> r.items[node.parent.id] == m.items[node.parent.id].(children := t)) &&
    r.rootChildren == (if node.parent == Root then t else m.rootChildren) &&
    (forall y :: y in t <==> y in ChildrenOf(m, node.parent) || y == menuId) &&
    NoDuplicates(t)
  }

  lemma InsertedTables(m: Menu, r: Menu, menuId: string, node: Node, t: seq<string>)
    requires Valid(m) && Inserted(m, r, menuId, node, t)
    ensures CommandIdsValid(r) && TablesInverse(r)
  {
    FreshCommandId(m);
    forall x | x in r.items
      ensures r.items[x].commandId in r.cmdToId && r.cmdToId[r.items[x].commandId] == x
    {
      if x != menuId {
        assert r.items[x].commandId == m.items[x].commandId;
      }
    }
    forall c | c in r.cmdToId
      ensures r.cmdToId[c] in r.items && r.items[r.cmdToId[c]].commandId == c
    {
      if c != node.commandId {
        assert r.items[m.cmdToId[c]].commandId == m.items[m.cmdToId[c]].commandId;
      }
    }
  }

  lemma InsertedParents(m: Menu, r: Menu, menuId: string, node: Node, t: seq<string>)
    requires Valid(m) && Inserted(m, r, menuId, node, t)
    requires node.parent.Under? ==> node.parent.id in m.items
    ensures ParentsValid(r)
  {
    forall x | x in r.items ensures ParentLinked(r, x) {
      if x == menuId {
        assert ChildrenOf(r, node.parent) == t;
      } else {
        assert ParentLinked(m, x);
        var p := m.items[x].parent;
        assert r.items[x].parent == p;
        if p.Under? {
          assert r.items[p.id].commandId == m.items[p.id].commandId;
        }
        if p == node.parent {
          assert ChildrenOf(r, p) == t;
        } else {
          assert ChildrenOf(r, p) == ChildrenOf(m, p);
        }
      }
    }
  }

  lemma InsertedChildren(m: Menu, r: Menu, menuId: string, node: Node, t: seq<string>)
    requires Valid(m) && Inserted(m, r, menuId, node, t)
    ensures ChildrenValid(r)
  {
    forall c | c in t ensures c in r.items && r.items[c].parent == node.parent {
      if c != menuId {
        if node.parent.Root? {
          assert ListValid(m, m.rootChildren, Root);
        } else {
          assert ListValid(m, m.items[node.parent.id].children, node.parent);
        }
      }
    }
    assert ListValid(r, r.rootChildren, Root) by {
      if node.parent != Root {
        assert ListValid(m, m.rootChildren, Root);
      }
    }
    forall x | x in r.items ensures ListValid(r, r.items[x].children, Under(x)) {
      if x != menuId && Under(x) != node.parent {
        assert ListValid(m, m.items[x].children, Under(x));
      }
    }
  }

  lemma InsertedValid(m: Menu, r: Menu, menuId: string, node: Node, t: seq<string>)
    requires Valid(m) && Inserted(m, r, menuId, node, t)
    requires node.parent.Under? ==> node.parent.id in m.items && m.items[node.parent.id].isGroup
    ensures Valid(r)
  {
    InsertedTables(m, r, menuId, node, t);
    InsertedParents(m, r, menuId, node, t);
    InsertedChildren(m, r, menuId, node, t);
  }

  lemma InsertNewShape(m: Menu, menuId: string, title: string, parent: Parent, order: int, native: Native)
    requires Valid(m) && menuId !in m.items
    requires parent.Under? ==> parent.id in m.items
    ensures var r := InsertNew(m, menuId, title, parent, order, native);
            var s := ChildrenOf(m, parent);
            var k := Clamp(order, |s|);
            r.item.Some? ==>
              r.item.value.parent == parent &&
              Inserted(m, r.menu, menuId, r.item.value, s[..k] + [menuId] + s[k..])
  {
    InsertNewEntry(m, menuId, title, parent, order, native);
    InsertNewList(m, menuId, title, parent, order, native);
  }

  /** The new entry, its command id and both tables after a successful insertion. */
  lemma InsertNewEntry(m: Menu, menuId: string, title: string, parent: Parent, order: int, native: Native)
    requires menuId !in m.items
    requires parent.Under? ==> parent.id in m.items
    ensures var r := InsertNew(m, menuId, title, parent, order, native);
            r.item.Some? ==>
              var node := r.item.value;
              node.parent == parent &&
              r.menu.counter == m.counter + 1 && node.commandId == r.menu.counter &&
              node.children == [] && !node.hasMenu &&
              r.menu.cmdToId == m.cmdToId[node.commandId := menuId] &&
              r.menu.items.Keys == m.items.Keys + {menuId} &&
              r.menu.items[menuId] == node
  {
  }

  /** The parent's children list and every other entry after a successful insertion. */
  lemma InsertNewList(m: Menu, menuId: string, title: string, parent: Parent, order: int, native: Native)
    requires Valid(m) && menuId !in m.items
    requires parent.Under? ==> parent.id in m.items
    ensures var r := InsertNew(m, menuId, title, parent, order, native);
            var s := ChildrenOf(m, parent);
            var t := s[..Clamp(order, |s|)] + [menuId] + s[Clamp(order, |s|)..];
            r.item.Some? ==>
              (forall x :: x in m.items && Under(x) != parent ==> r.menu.items[x] == m.items[x]) &&
              (parent.Under? ==> r.menu.items[parent.id] == m.items[parent.id].(children := t)) &&
              r.menu.rootChildren == (if parent == Root then t else m.rootChildren) &&
              (forall y :: y in t <==> y in s || y == menuId) &&
              NoDuplicates(t)
  {
    var s := ChildrenOf(m, parent);
    var k := Clamp(order, |s|);
    assert menuId !in s by {
      if parent.Root? { assert ListValid(m, m.rootChildren, Root); }
      else { assert ListValid(m, m.items[parent.id].children, parent); }
      assert ListValid(m, s, parent);
    }
    InsertMembers(s, k, menuId);
    InsertNoDuplicates(s, k, menuId);
  }

  lemma InsertNewValid(m: Menu, menuId: string, title: string, parent: Parent, order: int, native: Native)
    requires Valid(m) && menuId !in m.items
    requires parent.Under? ==> parent.id in m.items && m.items[parent.id].isGroup
    ensures Valid(InsertNew(m, menuId, title, parent, order, native).menu)
  {
    var r := InsertNew(m, menuId, title, parent, order, native);
    if r.item.Some? {
      InsertNewShape(m, menuId, title, parent, order, native);
      var s := ChildrenOf(m, parent);
      var k := Clamp(order, |s|);
      InsertedValid(m, r.menu, menuId, r.item.value, s[..k] + [menuId] + s[k..]);
    } else {
      BumpedValid(m);
    }
  }

  /** Allocating a command id that is then not used keeps the invariant. */
  lemma BumpedValid(m: Menu)
    requires Valid(m)
    ensures Valid(m.(counter := m.counter + 1))
  {
    var r := m.(counter := m.counter + 1);
    assert CommandIdsValid(r) && TablesInverse(r) && GroupsValid(r);
    forall x | x in r.items ensures ParentLinked(r, x) {
      assert ParentLinked(m, x);
      assert ChildrenOf(r, r.items[x].parent) == ChildrenOf(m, m.items[x].parent);
    }
    assert ListValid(m, m.rootChildren, Root);
    forall x | x in r.items ensures ListValid(r, r.items[x].children, Under(x)) {
      assert ListValid(m, m.items[x].children, Under(x));
    }
  }

  lemma AddItemPreservesValid(m: Menu, menuId: string, title: string, parentId: string, order: int,
                              native: Native)
    requires Valid(m)
    ensures Valid(AddItem(m, menuId, title, parentId, order, native).menu)
  {
    if |menuId| > 0 && |title| > 0 && menuId !in m.items {
      var parent := ParentFor(m, parentId);
      if NeedsSubmenu(m, parent) {
        var converted := ConvertToGroup(m, parent.id, native(CreateMenu));
        ConvertToGroupValid(m, parent.id, native(CreateMenu));
        InsertNewValid(converted, menuId, title, parent, order, native);
      } else {
        InsertNewValid(m, menuId, title, parent, order, native);
      }
    }
  }

  // ---------------------------------------------------------------- removeItem

  /** The shape of a subtree removal: the items of `gone` leave both tables and the
      parent's children list becomes `t`; nothing else changes. */
  ghost predicate Removed(m: Menu, r: Menu, id: string, gone: set<string>, t: seq<string>)
  {
    id in m.items && gone == Subtree(m, id) &&
    var p := m.items[id].parent;
    r.counter == m.counter &&
    r.items.Keys == m.items.Keys - gone &&
    (forall x :: x in r.items && Under(x) != p ==> r.items[x] == m.items[x]) &&
    (p.Under? ==> p.id in m.items && p.id in r.items && r.items[p.id] == m.items[p.id].(children := t)) &&
    r.rootChildren == (if p == Root then t else m.rootChildren) &&
    t == Erase(ChildrenOf(m, p), id) &&
    r.cmdToId == map c | c in m.cmdToId && m.cmdToId[c] !in gone :: m.cmdToId[c]
  }

  /** The removed item's parent is not part of the removed subtree. */
  lemma ParentSurvives(m: Menu, id: string)
    requires Valid(m) && id in m.items
    ensures m.items[id].parent.Under? ==>
              m.items[id].parent.id in m.items && m.items[id].parent.id !in Subtree(m, id)
  {
    var p := m.items[id].parent;
    assert ParentLinked(m, id);
    if p.Under? && InSubtree(m.items, id, p.id) {
      SubtreeCommandIds(m.items, id, p.id);
    }
  }

  lemma RemoveSubtreeShape(m: Menu, id: string)
    requires id in m.items
    requires m.items[id].parent.Under? ==>
               m.items[id].parent.id in m.items && m.items[id].parent.id !in Subtree(m, id)
    ensures var p := m.items[id].parent;
            Removed(m, RemoveSubtree(m, id), id, Subtree(m, id), Erase(ChildrenOf(m, p), id))
  {
    var p := m.items[id].parent;
    var gone := Subtree(m, id);
    var keptItems := map x | x in m.items && x !in gone :: m.items[x];
    var kept := m.(items := keptItems,
                   cmdToId := map c | c in m.cmdToId && m.cmdToId[c] !in gone :: m.cmdToId[c]);
    assert ChildrenOf(kept, p) == ChildrenOf(m, p);
  }

  lemma RemovedTables(m: Menu, r: Menu, id: string, gone: set<string>, t: seq<string>)
    requires Valid(m) && Removed(m, r, id, gone, t)
    ensures CommandIdsValid(r) && TablesInverse(r)
  {
    forall x | x in r.items
      ensures r.items[x].commandId in r.cmdToId && r.cmdToId[r.items[x].commandId] == x
    {
      assert r.items[x].commandId == m.items[x].commandId;
    }
    forall c | c in r.cmdToId
      ensures r.cmdToId[c] in r.items && r.items[r.cmdToId[c]].commandId == c
    {
      assert r.items[m.cmdToId[c]].commandId == m.items[m.cmdToId[c]].commandId;
    }
  }

  /** Facts about the erased children list of the removed item's parent. */
  lemma RemovedList(m: Menu, r: Menu, id: string, gone: set<string>, t: seq<string>)
    requires Valid(m) && Removed(m, r, id, gone, t)
    ensures NoDuplicates(t)
    ensures forall y :: y in t <==> y in ChildrenOf(m, m.items[id].parent) && y != id
  {
    var p := m.items[id].parent;
    assert ParentLinked(m, id);
    if p.Root? { assert ListValid(m, m.rootChildren, Root); }
    else { assert ListValid(m, m.items[p.id].children, p); }
    EraseUnique(ChildrenOf(m, p), id);
  }

  lemma RemovedParents(m: Menu, r: Menu, id: string, gone: set<string>, t: seq<string>)
    requires Valid(m) && Removed(m, r, id, gone, t)
    ensures ParentsValid(r)
  {
    RemovedList(m, r, id, gone, t);
    var p := m.items[id].parent;
    forall x | x in r.items ensures ParentLinked(r, x) {
      assert ParentLinked(m, x);
      var q := m.items[x].parent;
      assert r.items[x].parent == q && r.items[x].commandId == m.items[x].commandId;
      if q.Under? {
        if q.id in gone {
          ParentOutsideSubtree(m, id, x);
        }
        assert r.items[q.id].commandId == m.items[q.id].commandId;
      }
      if q == p {
        assert ChildrenOf(r, q) == t;
      } else {
        assert ChildrenOf(r, q) == ChildrenOf(m, q);
      }
    }
  }

  lemma RemovedChildren(m: Menu, r: Menu, id: string, gone: set<string>, t: seq<string>)
    requires Valid(m) && Removed(m, r, id, gone, t)
    ensures ChildrenValid(r) && GroupsValid(r)
  {
    RemovedLists(m, r, id, gone, t);
    RemovedGroups(m, r, id, gone, t);
  }

  lemma RemovedLists(m: Menu, r: Menu, id: string, gone: set<string>, t: seq<string>)
    requires Valid(m) && Removed(m, r, id, gone, t)
    ensures ChildrenValid(r)
  {
    RemovedList(m, r, id, gone, t);
    forall c, q | c in m.items && m.items[c].parent == q && c != id && c in gone
      ensures q.Under? && q.id in gone
    {
      assert InSubtree(m.items, id, c);
    }
    assert ListValid(m, m.rootChildren, Root);
    assert ListValid(r, r.rootChildren, Root);
    forall x | x in r.items ensures ListValid(r, r.items[x].children, Under(x)) {
      assert ListValid(m, m.items[x].children, Under(x));
    }
  }

  lemma RemovedGroups(m: Menu, r: Menu, id: string, gone: set<string>, t: seq<string>)
    requires Valid(m) && Removed(m, r, id, gone, t)
    ensures GroupsValid(r)
  {
    var p := m.items[id].parent;
    forall x | x in r.items
      ensures r.items[x].children != [] ==> r.items[x].isGroup
    {
      if Under(x) == p && r.items[x].children != [] {
        assert ChildrenOf(m, p) != [];
      }
    }
  }

  lemma RemoveSubtreeValid(m: Menu, id: string)
    requires Valid(m) && id in m.items
    ensures Valid(RemoveSubtree(m, id))
  {
    var p := m.items[id].parent;
    var r := RemoveSubtree(m, id);
    var t := Erase(ChildrenOf(m, p), id);
    ParentSurvives(m, id);
    RemoveSubtreeShape(m, id);
    RemovedTables(m, r, id, Subtree(m, id), t);
    RemovedParents(m, r, id, Subtree(m, id), t);
    RemovedChildren(m, r, id, Subtree(m, id), t);
  }

  // ---------------------------------------------------------------- recursive removal

  lemma ParentsClosed(m: Menu)
    requires Valid(m)
    ensures forall y :: y in m.items && m.items[y].parent.Under? ==> m.items[y].parent.id in m.items
  {
    forall y | y in m.items && m.items[y].parent.Under? ensures m.items[y].parent.id in m.items {
      assert ParentLinked(m, y);
    }
  }

  lemma WithinItself(m: Menu, id: string)
    ensures Within(m, m, id)
  {
  }

  lemma WithinTransitive(m0: Menu, m1: Menu, m2: Menu, top: string)
    requires Valid(m1) && Within(m0, m1, top) && Within(m1, m2, top)
    ensures Within(m0, m2, top)
  {
    ParentsClosed(m1);
    forall x | x in m1.items ensures InSubtree(m1.items, top, x) == InSubtree(m0.items, top, x) {
      SubtreeStable(m0.items, m1.items, top, x);
    }
  }

  /** A child lies in its parent's subtree, strictly below it. */
  lemma ChildInSubtree(m: Menu, id: string, c: string)
    requires Valid(m) && id in m.items && c in m.items[id].children
    ensures c in m.items && InSubtree(m.items, id, c)
    ensures m.items[id].commandId < m.items[c].commandId
  {
    assert ListValid(m, m.items[id].children, Under(id));
    assert ParentLinked(m, c);
  }

  lemma WithinWiden(m1: Menu, m2: Menu, id: string, c: string)
    requires Valid(m1) && id in m1.items && c in m1.items[id].children
    requires Within(m1, m2, c)
    ensures Within(m1, m2, id)
  {
    ChildInSubtree(m1, id, c);
    forall x | InSubtree(m1.items, c, x) ensures InSubtree(m1.items, id, x) && x != id {
      SubtreeTransitive(m1.items, c, id, x);
      if x != c {
        SubtreeCommandIds(m1.items, c, x);
      }
    }
  }

  /** Removing the subtree of one child stays within the parent's subtree and erases
      that child from the parent's list. */
  lemma RemoveChildWithin(m: Menu, id: string, c: string)
    requires Valid(m) && id in m.items && c in m.items[id].children
    ensures var r := RemoveSubtree(m, id := c);
            Within(m, r, id) && id in r.items && c !in r.items &&
            r.items[id].children == Erase(m.items[id].children, c)
  {
    ParentSurvives(m, c);
    RemoveSubtreeShape(m, c);
    assert m.items[c].parent == Under(id) by {
      assert ListValid(m, m.items[id].children, Under(id));
    }
    ChildSubtreeNested(m, id, c);
  }

  /** A child's subtree lies inside its parent's and does not reach the parent. */
  lemma ChildSubtreeNested(m: Menu, id: string, c: string)
    requires Valid(m) && id in m.items && c in m.items[id].children
    ensures forall x :: InSubtree(m.items, c, x) ==> InSubtree(m.items, id, x) && x != id
  {
    ChildInSubtree(m, id, c);
    forall x | InSubtree(m.items, c, x) ensures InSubtree(m.items, id, x) && x != id {
      SubtreeTransitive(m.items, c, id, x);
      if x != c {
        SubtreeCommandIds(m.items, c, x);
      }
    }
  }

  /** After the children loop only the item itself is left of its original subtree. */
  lemma WithinLeafSubtree(m0: Menu, m1: Menu, id: string)
    requires Valid(m1) && Within(m0, m1, id) && id in m1.items && m1.items[id].children == []
    ensures forall x :: x in m1.items ==> (InSubtree(m0.items, id, x) <==> x == id)
  {
    ParentsClosed(m1);
    forall x | x in m1.items ensures InSubtree(m0.items, id, x) <==> x == id {
      SubtreeStable(m0.items, m1.items, id, x);
      if InSubtree(m1.items, id, x) {
        LeafSubtree(m1, id, x);
      }
    }
  }

  lemma LeafSubtreeSet(m: Menu, id: string)
    requires Valid(m) && id in m.items && m.items[id].children == []
    ensures Subtree(m, id) == {id}
  {
    forall x | x in Subtree(m, id) ensures x == id {
      LeafSubtree(m, id, x);
    }
  }

  lemma WithinLeafKeys(m0: Menu, m1: Menu, r0: Menu, r1: Menu, id: string)
    requires Within(m0, m1, id) && id in m1.items
    requires forall x :: x in m1.items ==> (InSubtree(m0.items, id, x) <==> x == id)
    requires Subtree(m1, id) == {id}
    requires Removed(m0, r0, id, Subtree(m0, id), Erase(ChildrenOf(m0, m0.items[id].parent), id))
    requires Removed(m1, r1, id, Subtree(m1, id), Erase(ChildrenOf(m1, m1.items[id].parent), id))
    ensures r1.items.Keys == r0.items.Keys
  {
    forall x | x in r1.items ensures x in r0.items {
      assert x in m1.items && x != id;
    }
    forall x | x in r0.items ensures x in r1.items {
      assert x in m0.items && !InSubtree(m0.items, id, x);
    }
  }

  lemma WithinLeafItems(m0: Menu, m1: Menu, r0: Menu, r1: Menu, id: string)
    requires Within(m0, m1, id) && id in m1.items && r1.items.Keys == r0.items.Keys
    requires forall x :: x in m1.items ==> (InSubtree(m0.items, id, x) <==> x == id)
    requires Removed(m0, r0, id, Subtree(m0, id), Erase(ChildrenOf(m0, m0.items[id].parent), id))
    requires Removed(m1, r1, id, Subtree(m1, id), Erase(ChildrenOf(m1, m1.items[id].parent), id))
    ensures r1.items == r0.items && r1.rootChildren == r0.rootChildren && r1.counter == r0.counter
  {
    var p := m0.items[id].parent;
    assert m1.items[id].parent == p;
    if p.Under? {
      assert m1.items[p.id] == m0.items[p.id];
    }
    forall x | x in r1.items ensures r1.items[x] == r0.items[x] {
      if Under(x) != p {
        assert r1.items[x] == m1.items[x] == m0.items[x];
      }
    }
  }

  /** Once every descendant is gone, removing the item itself leaves exactly the state
      that removing its whole original subtree describes. */
  lemma WithinLeafRemoval(m0: Menu, m1: Menu, id: string)
    requires Valid(m0) && Valid(m1) && Within(m0, m1, id)
    requires id in m0.items && id in m1.items && m1.items[id].children == []
    ensures RemoveSubtree(m1, id) == RemoveSubtree(m0, id)
  {
    ParentSurvives(m0, id);
    ParentSurvives(m1, id);
    RemoveSubtreeShape(m0, id);
    RemoveSubtreeShape(m1, id);
    WithinLeafSubtree(m0, m1, id);
    LeafSubtreeSet(m1, id);
    var r0 := RemoveSubtree(m0, id);
    var r1 := RemoveSubtree(m1, id);
    WithinLeafKeys(m0, m1, r0, r1, id);
    WithinLeafItems(m0, m1, r0, r1, id);
    RemoveSubtreeValid(m0, id);
    RemoveSubtreeValid(m1, id);
    TablesDetermined(r1, r0);
  }

  // ---------------------------------------------------------------- removal outcome

  /** A leaf's subtree is deletable exactly when the leaf's own deletion succeeds. */
  lemma LeafDeletable(m: Menu, id: string, native: Native)
    requires Valid(m) && id in m.items && m.items[id].children == []
    ensures Deletable(m, id, native) <==> native(DeleteItem(m.items[id].commandId))
  {
    assert InSubtree(m.items, id, id);
    forall x | x in m.items && InSubtree(m.items, id, x) ensures x == id {
      LeafSubtree(m, id, x);
    }
  }

  /** An item below a child that cannot be deleted, once removal has only progressed
      inside the parent's subtree, is an item of the parent's original subtree. */
  lemma StuckBelowChild(m0: Menu, m1: Menu, id: string, c: string, native: Native)
    requires Valid(m1) && Within(m0, m1, id) && id in m1.items && c in m1.items[id].children
    requires !Deletable(m1, c, native)
    ensures !Deletable(m0, id, native)
  {
    var x :| x in m1.items && InSubtree(m1.items, c, x) && !native(DeleteItem(m1.items[x].commandId));
    ChildInSubtree(m1, id, c);
    SubtreeTransitive(m1.items, c, id, x);
    ParentsClosed(m1);
    SubtreeStable(m0.items, m1.items, id, x);
    assert m0.items[x].commandId == m1.items[x].commandId;
  }

  /** The items a successful child removal takes away were all deletable. */
  lemma GoneDeletable(m0: Menu, m1: Menu, id: string, c: string, native: Native)
    requires Within(m0, m1, id) && c in m1.items && Deletable(m1, c, native)
    requires forall x :: x in m0.items && x !in m1.items ==> native(DeleteItem(m0.items[x].commandId))
    ensures forall x :: x in m0.items && x !in RemoveSubtree(m1, c).items ==>
              native(DeleteItem(m0.items[x].commandId))
  {
    forall x | x in m0.items && x !in RemoveSubtree(m1, c).items
      ensures native(DeleteItem(m0.items[x].commandId))
    {
      if x in m1.items {
        assert x in Subtree(m1, c);
        assert m1.items[x].commandId == m0.items[x].commandId;
      }
    }
  }

  /** Once the children are gone, the original subtree was deletable exactly when the
      item's own deletion succeeds. */
  lemma FinalDeletable(m0: Menu, m1: Menu, id: string, native: Native)
    requires Valid(m1) && Within(m0, m1, id) && id in m1.items && m1.items[id].children == []
    requires forall x :: x in m0.items && x !in m1.items ==> native(DeleteItem(m0.items[x].commandId))
    ensures Deletable(m0, id, native) <==> native(DeleteItem(m1.items[id].commandId))
  {
    WithinLeafSubtree(m0, m1, id);
    assert InSubtree(m0.items, id, id);
    assert m0.items[id].commandId == m1.items[id].commandId;
  }

  /** Where the leaf sits in its parent's list: it is there, and all its siblings are
      items of the menu. */
  lemma LeafInParentList(m: Menu, id: string)
    requires Valid(m) && id in m.items
    ensures var p := m.items[id].parent;
            (p.Under? ==> p.id in m.items) &&
            id in ChildrenOf(m, p) &&
            forall c :: c in ChildrenOf(m, p) ==> c in m.items
  {
    var p := m.items[id].parent;
    assert ParentLinked(m, id);
    if p.Root? { assert ListValid(m, m.rootChildren, Root); }
    else { assert ListValid(m, m.items[p.id].children, p); }
  }

  /** A removal whose subtree is the item alone, in explicit form. */
  lemma LeafRemovedForm(m: Menu, r: Menu, id: string, t: seq<string>)
    requires TablesInverse(m) && Removed(m, r, id, {id}, t)
    ensures var after := SetChildren(m, m.items[id].parent, t);
            r == after.(items := after.items - {id}, cmdToId := m.cmdToId - {m.items[id].commandId})
  {
    var p := m.items[id].parent;
    var after := SetChildren(m, p, t);
    assert r.items == after.items - {id} by {
      forall x | x in r.items ensures r.items[x] == after.items[x] {
        if p.Under? && x == p.id { } else { }
      }
    }
    assert r.cmdToId == m.cmdToId - {m.items[id].commandId} by {
      forall c | c in m.cmdToId ensures m.cmdToId[c] == id <==> c == m.items[id].commandId { }
    }
  }

  /** Removing a leaf found at index `k` of its parent's list, the way `removeItem`
      does it, is the removal of its (one-item) subtree. */
  lemma RemoveLeafAt(m: Menu, id: string, k: nat)
    requires Valid(m) && id in m.items && m.items[id].children == []
    requires k < |ChildrenOf(m, m.items[id].parent)| && ChildrenOf(m, m.items[id].parent)[k] == id
    ensures var p := m.items[id].parent;
            var s := ChildrenOf(m, p);
            var after := SetChildren(m, p, s[..k] + s[k + 1..]);
            RemoveSubtree(m, id) ==
              after.(items := after.items - {id}, cmdToId := m.cmdToId - {m.items[id].commandId})
  {
    var p := m.items[id].parent;
    var s := ChildrenOf(m, p);
    LeafInParentList(m, id);
    assert NoDuplicates(s) by {
      if p.Root? { assert ListValid(m, m.rootChildren, Root); }
      else { assert ListValid(m, m.items[p.id].children, p); }
    }
    assert id !in s[..k] by {
      forall j | 0 <= j < k ensures s[j] != id { }
    }
    EraseAt(s, k, id);
    LeafSubtreeSet(m, id);
    ParentSurvives(m, id);
    RemoveSubtreeShape(m, id);
    LeafRemovedForm(m, RemoveSubtree(m, id), id, s[..k] + s[k + 1..]);
  }

  // ---------------------------------------------------------------- setters

  /** `r` differs from `m` at most in titles and enabled/checked flags. */
  ghost predicate Relabelled(m: Menu, r: Menu)
  {
    r.items.Keys == m.items.Keys && r.cmdToId == m.cmdToId &&
    r.rootChildren == m.rootChildren && r.counter == m.counter &&
    forall x :: x in m.items ==>
      r.items[x].parent == m.items[x].parent && r.items[x].children == m.items[x].children &&
      r.items[x].commandId == m.items[x].commandId
  }

  lemma RelabelledTables(m: Menu, r: Menu)
    requires CommandIdsValid(m) && TablesInverse(m) && Relabelled(m, r)
    ensures CommandIdsValid(r) && TablesInverse(r)
  {
    forall c | c in r.cmdToId ensures r.cmdToId[c] in r.items && r.items[r.cmdToId[c]].commandId == c {
      assert m.items[m.cmdToId[c]].commandId == c;
    }
  }

  lemma RelabelledParents(m: Menu, r: Menu)
    requires ParentsValid(m) && Relabelled(m, r)
    ensures ParentsValid(r)
  {
    forall x | x in r.items ensures ParentLinked(r, x) {
      assert ParentLinked(m, x);
      assert ChildrenOf(r, r.items[x].parent) == ChildrenOf(m, m.items[x].parent);
    }
  }

  lemma RelabelledChildren(m: Menu, r: Menu)
    requires ChildrenValid(m) && Relabelled(m, r)
    ensures ChildrenValid(r)
  {
    assert ListValid(m, m.rootChildren, Root);
    forall x | x in r.items ensures ListValid(r, r.items[x].children, Under(x)) {
      assert ListValid(m, m.items[x].children, Under(x));
    }
  }

  /** Changing an item's title, enabled or checked flag keeps the invariant. */
  lemma FieldUpdateValid(m: Menu, r: Menu, id: string)
    requires Valid(m) && id in m.items
    requires r.items.Keys == m.items.Keys && r.cmdToId == m.cmdToId
    requires r.rootChildren == m.rootChildren && r.counter == m.counter
    requires forall x :: x in m.items && x != id ==> r.items[x] == m.items[x]
    requires r.items[id] == m.items[id].(title := r.items[id].title, enabled := r.items[id].enabled,
                                         checked := r.items[id].checked)
    ensures Valid(r)
  {
    assert Relabelled(m, r);
    RelabelledTables(m, r);
    RelabelledParents(m, r);
    RelabelledChildren(m, r);
  }
}
