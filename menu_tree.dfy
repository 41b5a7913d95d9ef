/** Value-level model of the Win32 player menu service: the tree of menu items,
    the two lookup tables and the command-id counter, and the effect of each
    operation on them given the answers of the native menu layer. */
module MenuTree {

  datatype Option<T> = None | Some(value: T)

  /** The counter's initial value; the first item gets the next id. */
  const InitialCommandId: nat := 0x1000

  /** Assumed defaults of a freshly created item (set by the base item class). */
  const NewItemEnabled: bool := true
  const NewItemChecked: bool := false

  /** Where an item hangs: directly under the menu bar (the root item) or under another item. */
  datatype Parent = Root | Under(id: string)

  /** The native item type chosen from the title. */
  datatype ItemKind = Separator | Text

  datatype Node = Node(
    parent: Parent,
    children: seq<string>,
    commandId: nat,
    title: string,
    enabled: bool,
    checked: bool,
    isGroup: bool,
    hasMenu: bool)   // the item owns a native submenu handle

  /** The service's bookkeeping: `_items`, the root's `_children`, `_commandId2menuId`
      and `_newCommandId`. */
  datatype Menu = Menu(
    items: map<string, Node>,
    rootChildren: seq<string>,
    cmdToId: map<nat, string>,
    counter: nat)

  /** The requests the bookkeeping makes of the native menu layer. */
  datatype NativeCall =
    | CreateMenu
    | AttachSubmenu(commandId: nat)
    | InsertItem(menu: Parent, position: nat, commandId: nat, kind: ItemKind, title: string,
                 enabled: bool, checked: bool)
    | SetItemType(commandId: nat, kind: ItemKind, title: string)
    | SetItemEnabled(commandId: nat, enabled: bool)
    | SetItemChecked(commandId: nat, checked: bool)
    | DeleteItem(commandId: nat)

  /** The native layer as an oracle: whether a given request succeeds. */
  type Native = NativeCall -> bool

  datatype AddResult = AddResult(menu: Menu, item: Option<Node>)

  // ---------------------------------------------------------------- helpers

  predicate NoDuplicates(s: seq<string>)
  {
    forall i, j :: 0 <= i < j < |s| ==> s[i] != s[j]
  }

  function ChildrenOf(m: Menu, p: Parent): seq<string>
  {
    match p
    case Root => m.rootChildren
    case Under(id) => if id in m.items then m.items[id].children else []
  }

  function SetChildren(m: Menu, p: Parent, s: seq<string>): (r: Menu)
    ensures ChildrenOf(r, p) == s || (p.Under? && p.id !in m.items)
    ensures r.items.Keys == m.items.Keys && r.cmdToId == m.cmdToId && r.counter == m.counter
    ensures p.Under? ==> r.rootChildren == m.rootChildren
    ensures forall x :: x in m.items && Under(x) != p ==> r.items[x] == m.items[x]
    ensures p.Under? && p.id in m.items ==> r.items[p.id] == m.items[p.id].(children := s)
  {
    match p
    case Root => m.(rootChildren := s)
    case Under(id) =>
      if id in m.items then m.(items := m.items[id := m.items[id].(children := s)]) else m
  }

  /** Removes the first occurrence of `x`, as erasing the matching child does. */
  function Erase(s: seq<string>, x: string): (r: seq<string>)
    ensures x !in s ==> r == s
    ensures x in s ==> |r| == |s| - 1
    ensures forall y :: y in r ==> y in s
  {
    if s == [] then []
    else if s[0] == x then s[1..]
    else [s[0]] + Erase(s[1..], x)
  }

  function KindOf(title: string): (k: ItemKind)
    ensures k == Separator <==> title == "-"
  {
    if title == "-" then Separator else Text
  }

  /** Position clamping of `addItem`: above the child count means last, below zero means first. */
  function Clamp(order: int, count: nat): (k: nat)
    ensures k <= count
    ensures 0 <= order <= count ==> k == order
    ensures order < 0 ==> k == 0
    ensures order > count ==> k == count
  {
    if order > count then count else if order < 0 then 0 else order
  }

  // ---------------------------------------------------------------- invariant

  predicate CommandIdsValid(m: Menu)
  {
    InitialCommandId <= m.counter &&
    forall x :: x in m.items ==> InitialCommandId < m.items[x].commandId <= m.counter
  }

  predicate TablesInverse(m: Menu)
  {
    (forall x :: x in m.items ==>
       m.items[x].commandId in m.cmdToId && m.cmdToId[m.items[x].commandId] == x) &&
    (forall c :: c in m.cmdToId ==>
       m.cmdToId[c] in m.items && m.items[m.cmdToId[c]].commandId == c)
  }

  /** The item's parent exists, is older (smaller command id) and lists the item. */
  predicate ParentLinked(m: Menu, x: string)
  {
    x in m.items &&
    (m.items[x].parent.Under? ==>
       m.items[x].parent.id in m.items &&
       m.items[m.items[x].parent.id].commandId < m.items[x].commandId) &&
    x in ChildrenOf(m, m.items[x].parent)
  }

  /** Every item is linked to its parent. The trigger keeps the solver from walking up
      parent chains on its own. */
  predicate ParentsValid(m: Menu)
  {
    forall x {:trigger ParentLinked(m, x)} :: x in m.items ==> ParentLinked(m, x)
  }

  predicate ListValid(m: Menu, s: seq<string>, p: Parent)
  {
    NoDuplicates(s) && forall c :: c in s ==> c in m.items && m.items[c].parent == p
  }

  predicate ChildrenValid(m: Menu)
  {
    ListValid(m, m.rootChildren, Root) &&
    forall x :: x in m.items ==> ListValid(m, m.items[x].children, Under(x))
  }

  /** Only groups own a submenu handle or have children. */
  predicate GroupsValid(m: Menu)
  {
    forall x :: x in m.items ==>
      (m.items[x].hasMenu ==> m.items[x].isGroup) &&
      (m.items[x].children != [] ==> m.items[x].isGroup)
  }

  predicate Valid(m: Menu)
  {
    CommandIdsValid(m) && TablesInverse(m) && ParentsValid(m) && ChildrenValid(m) && GroupsValid(m)
  }

  function Empty(): (m: Menu)
    ensures Valid(m) && m.items == map[] && m.counter == InitialCommandId
  {
    Menu(map[], [], map[], InitialCommandId)
  }

  // ---------------------------------------------------------------- addItem

  /** The parent `addItem` uses: the named item when it exists, the root otherwise. */
  function ParentFor(m: Menu, parentId: string): (p: Parent)
    ensures p.Under? ==> p.id == parentId && parentId in m.items
    ensures p == Root <==> |parentId| == 0 || parentId !in m.items
  {
    if |parentId| > 0 && parentId in m.items then Under(parentId) else Root
  }

  /** The root always owns a submenu handle; an item needs one created first. */
  predicate NeedsSubmenu(m: Menu, p: Parent)
  {
    p.Under? && p.id in m.items && !m.items[p.id].hasMenu
  }

  function ConvertToGroup(m: Menu, id: string, created: bool): (r: Menu)
    requires id in m.items
    ensures r.items.Keys == m.items.Keys && r.cmdToId == m.cmdToId
    ensures r.rootChildren == m.rootChildren && r.counter == m.counter
    ensures r.items[id].isGroup && r.items[id].hasMenu == created
    ensures r.items[id] == m.items[id].(hasMenu := created, isGroup := true)
    ensures forall x :: x in m.items && x != id ==> r.items[x] == m.items[x]
  {
    m.(items := m.items[id := m.items[id].(hasMenu := created, isGroup := true)])
  }

  function AddItem(m: Menu, menuId: string, title: string, parentId: string, order: int,
                   native: Native): (r: AddResult)
    ensures |menuId| == 0 || |title| == 0 || menuId in m.items ==> r == AddResult(m, None)
    ensures r.item.Some? ==>
              menuId !in m.items && menuId in r.menu.items && r.menu.items[menuId] == r.item.value
    ensures r.menu.counter == m.counter || r.menu.counter == m.counter + 1
  {
    if |menuId| == 0 || |title| == 0 || menuId in m.items then AddResult(m, None)
    else
      var parent := ParentFor(m, parentId);
      if NeedsSubmenu(m, parent) then
        var converted := ConvertToGroup(m, parent.id, native(CreateMenu));
        if native(AttachSubmenu(m.items[parent.id].commandId)) then
          InsertNew(converted, menuId, title, parent, order, native)
        else
          AddResult(converted, None)
      else
        InsertNew(m, menuId, title, parent, order, native)
  }

  /** The part of `addItem` after the parent owns a submenu: allocate the command id,
      ask the native layer to insert, and on success record the item. */
  function InsertNew(m: Menu, menuId: string, title: string, parent: Parent, order: int,
                     native: Native): (r: AddResult)
    requires menuId !in m.items
    ensures r.menu.counter == m.counter + 1
    ensures r.item.Some? ==> menuId in r.menu.items && r.menu.items[menuId] == r.item.value
  {
    var commandId := m.counter + 1;
    var siblings := ChildrenOf(m, parent);
    var k := Clamp(order, |siblings|);
    var node := Node(parent, [], commandId, title, NewItemEnabled, NewItemChecked, false, false);
    var bumped := m.(counter := commandId);
    if native(InsertItem(parent, k, commandId, KindOf(title), title, NewItemEnabled, NewItemChecked)) then
      var placed := SetChildren(bumped, parent, siblings[..k] + [menuId] + siblings[k..]);
      AddResult(placed.(items := placed.items[menuId := node],
                        cmdToId := placed.cmdToId[commandId := menuId]),
                Some(node))
    else
      AddResult(bumped, None)
  }

  // ---------------------------------------------------------------- setters

  function SetTitle(m: Menu, id: string, title: string, native: Native): (r: Menu)
    requires id in m.items
    ensures r.items.Keys == m.items.Keys && r.cmdToId == m.cmdToId
    ensures r.rootChildren == m.rootChildren && r.counter == m.counter
    ensures forall x :: x in m.items && x != id ==> r.items[x] == m.items[x]
    ensures r.items[id] == m.items[id].(title := r.items[id].title)
    ensures r.items[id].title ==
              if |title| > 0 && native(SetItemType(m.items[id].commandId, KindOf(title), title))
              then title else m.items[id].title
  {
    if |title| == 0 then m
    else if native(SetItemType(m.items[id].commandId, KindOf(title), title)) then
      m.(items := m.items[id := m.items[id].(title := title)])
    else m
  }

  function SetEnabled(m: Menu, id: string, enabled: bool, native: Native): (r: Menu)
    requires id in m.items
    ensures r.items.Keys == m.items.Keys && r.cmdToId == m.cmdToId
    ensures r.rootChildren == m.rootChildren && r.counter == m.counter
    ensures forall x :: x in m.items && x != id ==> r.items[x] == m.items[x]
    ensures r.items[id] == m.items[id].(enabled := r.items[id].enabled)
    ensures r.items[id].enabled ==
              if native(SetItemEnabled(m.items[id].commandId, enabled)) then enabled
              else m.items[id].enabled
  {
    if native(SetItemEnabled(m.items[id].commandId, enabled)) then
      m.(items := m.items[id := m.items[id].(enabled := enabled)])
    else m
  }

  function SetChecked(m: Menu, id: string, checked: bool, native: Native): (r: Menu)
    requires id in m.items
    ensures r.items.Keys == m.items.Keys && r.cmdToId == m.cmdToId
    ensures r.rootChildren == m.rootChildren && r.counter == m.counter
    ensures forall x :: x in m.items && x != id ==> r.items[x] == m.items[x]
    ensures r.items[id] == m.items[id].(checked := r.items[id].checked)
    ensures r.items[id].checked ==
              if native(SetItemChecked(m.items[id].commandId, checked)) then checked
              else m.items[id].checked
  {
    if native(SetItemChecked(m.items[id].commandId, checked)) then
      m.(items := m.items[id := m.items[id].(checked := checked)])
    else m
  }

  // ---------------------------------------------------------------- removeItem

  /** `x` is `top` or lies below it: the parent chain of `x` reaches `top`.
      Parents have smaller command ids, which bounds the chain. */
  predicate InSubtree(items: map<string, Node>, top: string, x: string)
    decreases if x in items then items[x].commandId else 0
  {
    x == top ||
    (x in items && items[x].parent.Under? && items[x].parent.id in items &&
     items[items[x].parent.id].commandId < items[x].commandId &&
     InSubtree(items, top, items[x].parent.id))
  }

  function Subtree(m: Menu, top: string): set<string>
  {
    set x | x in m.items && InSubtree(m.items, top, x)
  }

  /** The state a successful `removeItem(id)` leaves: the item and all its descendants
      gone from both tables, and the item erased from its parent's children. */
  function RemoveSubtree(m: Menu, id: string): (r: Menu)
    requires id in m.items
    ensures r.counter == m.counter
    ensures r.items.Keys == m.items.Keys - Subtree(m, id)
    ensures forall c :: c in r.cmdToId ==> c in m.cmdToId && r.cmdToId[c] !in Subtree(m, id)
  {
    var gone := Subtree(m, id);
    var kept := m.(items := map x | x in m.items && x !in gone :: m.items[x],
                   cmdToId := map c | c in m.cmdToId && m.cmdToId[c] !in gone :: m.cmdToId[c]);
    var parent := m.items[id].parent;
    SetChildren(kept, parent, Erase(ChildrenOf(kept, parent), id))
  }

  /** `m1` differs from `m0` only inside the subtree of `top`: some strict descendants
      of `top` are gone and some children lists inside the subtree are shorter. */
  ghost predicate Within(m0: Menu, m1: Menu, top: string)
  {
    m1.counter == m0.counter && m1.rootChildren == m0.rootChildren &&
    m1.items.Keys <= m0.items.Keys &&
    (forall x :: x in m0.items && x !in m1.items ==> x != top && InSubtree(m0.items, top, x)) &&
    (forall x :: x in m1.items ==> m1.items[x] == m0.items[x].(children := m1.items[x].children)) &&
    (forall x :: x in m0.items && !InSubtree(m0.items, top, x) ==>
       x in m1.items && m1.items[x] == m0.items[x])
  }

  /** Every item of the subtree of `id` is one whose native deletion succeeds: exactly
      the condition under which removing `id` succeeds. */
  predicate Deletable(m: Menu, id: string, native: Native)
  {
    forall x {:trigger InSubtree(m.items, id, x)} ::
      x in m.items && InSubtree(m.items, id, x) ==> native(DeleteItem(m.items[x].commandId))
  }
}
