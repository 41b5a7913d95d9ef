# Win32 player menu and message-box services, modelled in Dafny

This project models two services of the Quick player's Windows front end.

**The menu service** (`PlayerMenuServiceWin`) keeps a tree of menu items in step with the
native Win32 menu. It holds:
- a root item;
- a table from menu id to item;
- a table from command id back to menu id;
- a command-id counter that starts at `0x1000`.

Each item has a parent, an ordered list of children, a title, enabled and checked
flags, a group flag, a submenu handle and a command id. The service adds items, looks
them up, changes their title and flags, and removes items together with everything
below them.

**The message-box service** (`PlayerMessageBoxServiceWin`) turns an abstract button set
into Win32 style flags. It turns the dialog's Win32 result code back into one of four
abstract results.

Files:
- `menu_tree.dfy` (module `MenuTree`) is the value model of the menu. It defines the
  data, the invariant `Valid`, and each operation as a function of the old menu and
  the native layer's answers. `RemoveSubtree` is the closed form of a successful
  removal.
- `menu_tree_facts.dfy` (module `MenuTreeFacts`) proves that every operation keeps
  `Valid`. It also proves how the stepwise recursive removal relates to
  `RemoveSubtree`.
- `menu_service.dfy` (module `MenuServiceWin`) is the service object. `MenuService` is
  a class whose fields are the two tables, the root's children and the counter. Its
  methods update them in place and follow the source's branches and loops. The one
  departure is in `RemoveItem`: when removing a child fails, it returns false instead
  of retrying (see Findings). `AddItem`, `AddRootItem`, the three setters and
  `RemoveLeaf` are proved to keep `Valid` and to produce exactly the state of the
  value model. `InsertNew` is the inner insertion step; it is proved to produce the
  value model's state, and `AddItem` carries the invariant across it. `RemoveItem`
  keeps `Valid`. It succeeds exactly when every native deletion in the item's subtree
  succeeds, and then leaves `RemoveSubtree`. When it fails it changes nothing outside
  the item's subtree, and nothing at all for a leaf.
- `menu_properties.dfy` (module `MenuProperties`) holds what `addItem` and
  `removeItem` promise: exactly when insertion succeeds, where the new item lands,
  fresh command ids, what a failed call leaves behind, and that removal undoes a
  successful insertion.
- `menu_removal_as_written.dfy` (module `MenuRemovalAsWritten`) models the recursive
  branch of `removeItem` exactly as written, for the finding below. It also proves
  that, when every deletion succeeds, the as-written removal returns and agrees with
  the corrected one.
- `message_box.dfy` (module `MessageBoxServiceWin`) holds the two switch mappings.

Every Win32 call is a request to an oracle `native: NativeCall -> bool`, which answers
success or failure. The dialog of `showMessageBox` is a function parameter that
returns a result code.

The invariant `Valid` states these properties:
- every command id lies in `(0x1000, counter]`;
- the two tables are mutual inverses;
- every item's parent exists, has a smaller command id and lists the item, which
  makes the tree acyclic;
- every children list has no duplicates and points back to its parent;
- only groups own a submenu handle or have children.

## Model

| member | source | states |
|---|---|---|
| MenuTree.Empty | quick/player/proj.win32/PlayerMenuServiceWin.cpp:103-112 | a fresh service has no items, counter 0x1000, and satisfies the invariant |
| MenuServiceWin.MenuService.constructor | quick/player/proj.win32/PlayerMenuServiceWin.cpp:103-112 | the constructed service is the empty valid menu with the counter at 0x1000 |
| MenuTree.AddItem | quick/player/proj.win32/PlayerMenuServiceWin.cpp:118-131 | an empty menu id, an empty title or an existing id yields no item and an unchanged menu; a returned item is new and stored under its id; the counter advances by at most one |
| MenuTree.ParentFor | quick/player/proj.win32/PlayerMenuServiceWin.cpp:134-143 | the parent is the named item when it exists, and the root exactly when the id is empty or unknown |
| MenuTree.ConvertToGroup | quick/player/proj.win32/PlayerMenuServiceWin.cpp:145-151 | converting a parent marks it as a group whose handle exists exactly when creation succeeded; every other item, both tables, the root's list and the counter are unchanged |
| MenuTree.Clamp | quick/player/proj.win32/PlayerMenuServiceWin.cpp:182-189 | the position lies in [0, count]; it equals the order when that is in range, is 0 below and is count above |
| MenuTree.KindOf | quick/player/proj.win32/PlayerMenuServiceWin.cpp:47 | a title is a separator exactly when it is "-" |
| MenuTree.InsertNew | quick/player/proj.win32/PlayerMenuServiceWin.cpp:162-203 | the counter always advances by one; a returned item is stored under its id |
| MenuTree.SetTitle | quick/player/proj.win32/PlayerMenuServiceWin.cpp:36-60 | the title changes to the new one exactly when it is non-empty and the native update succeeds; nothing else in the menu changes |
| MenuTree.SetEnabled | quick/player/proj.win32/PlayerMenuServiceWin.cpp:62-77 | the enabled flag takes the new value exactly when the native update succeeds; nothing else changes |
| MenuTree.SetChecked | quick/player/proj.win32/PlayerMenuServiceWin.cpp:79-94 | the checked flag takes the new value exactly when the native update succeeds; nothing else changes |
| MenuTree.SetChildren | quick/player/proj.win32/PlayerMenuServiceWin.cpp:201 | after the update, the parent's children list is the given list; every other item, the parent's other fields, both tables, the counter and, for an item parent, the root's list are unchanged |
| MenuTree.Erase | quick/player/proj.win32/PlayerMenuServiceWin.cpp:247-256 | erasing a child shortens the list by one when it is present, leaves the list alone otherwise, and adds nothing |
| MenuTree.RemoveSubtree | quick/player/proj.win32/PlayerMenuServiceWin.cpp:225-285 | after a successful removal exactly the items of the subtree are gone, no removed id is left in the command table, and the counter is unchanged |
| MenuTreeFacts.AddItemPreservesValid | quick/player/proj.win32/PlayerMenuServiceWin.cpp:118-206 | `addItem` keeps the invariant on every outcome of the native calls |
| MenuTreeFacts.ConvertToGroupValid | quick/player/proj.win32/PlayerMenuServiceWin.cpp:145-151 | turning an item into a group keeps the invariant |
| MenuTreeFacts.FreshCommandId | quick/player/proj.win32/PlayerMenuServiceWin.cpp:163-165 | the next command id is above every id in use and absent from the command table |
| MenuTreeFacts.SubtreeCommandIds | quick/player/proj.win32/PlayerMenuServiceWin.cpp:163-166 | a descendant always has a larger command id than its ancestor, because ids are handed out in increasing order |
| MenuTreeFacts.InsertNewValid | quick/player/proj.win32/PlayerMenuServiceWin.cpp:162-203 | the insertion step keeps the invariant, whether the native insert succeeds or not |
| MenuTreeFacts.EraseInserted | quick/player/proj.win32/PlayerMenuServiceWin.cpp:201 | erasing an id just inserted at any position gives back the original list |
| MenuTreeFacts.EraseUnique | quick/player/proj.win32/PlayerMenuServiceWin.cpp:247-256 | in a duplicate-free list, erasing a member removes exactly that member and keeps the list duplicate-free |
| MenuTreeFacts.RemoveSubtreeValid | quick/player/proj.win32/PlayerMenuServiceWin.cpp:225-285 | removing a subtree keeps the invariant, so the tables stay mutual inverses |
| MenuTreeFacts.RemoveLeafAt | quick/player/proj.win32/PlayerMenuServiceWin.cpp:245-265 | removing a leaf at its index in the parent's list, and from both tables, is exactly the removal of its subtree |
| MenuTreeFacts.RemoveChildWithin | quick/player/proj.win32/PlayerMenuServiceWin.cpp:270-281 | removing the first child's subtree changes only the parent's subtree and erases that child from the parent's list |
| MenuTreeFacts.WithinLeafRemoval | quick/player/proj.win32/PlayerMenuServiceWin.cpp:270-282 | removing all children one by one and then the item itself amounts to removing the item's whole subtree at once |
| MenuTreeFacts.LeafDeletable | quick/player/proj.win32/PlayerMenuServiceWin.cpp:234-241 | for a leaf, "every deletion in the subtree succeeds" is exactly "the leaf's own deletion succeeds" |
| MenuTreeFacts.StuckBelowChild | quick/player/proj.win32/PlayerMenuServiceWin.cpp:272-280 | when some item under a child cannot be deleted, some item under the parent, as it was when the loop began, cannot be deleted either |
| MenuTreeFacts.GoneDeletable | quick/player/proj.win32/PlayerMenuServiceWin.cpp:272-281 | after a child's subtree is removed, every item gone since the loop began is one whose native deletion succeeded |
| MenuTreeFacts.FinalDeletable | quick/player/proj.win32/PlayerMenuServiceWin.cpp:270-284 | once the loop has emptied the children, with every item gone so far deleted successfully, every deletion in the original subtree succeeds exactly when the item's own deletion does |
| MenuTreeFacts.FieldUpdateValid | quick/player/proj.win32/PlayerMenuServiceWin.cpp:36-94 | changing a title, enabled flag or checked flag keeps the invariant |
| MenuProperties.WithSubmenu | quick/player/proj.win32/PlayerMenuServiceWin.cpp:145-160 | preparing the parent keeps both tables and every children list; a parent without a handle becomes a group whose handle is what the native layer created; every other item is unchanged, and the parent changes in nothing but its handle and group flag |
| MenuProperties.AddItemOutcome | quick/player/proj.win32/PlayerMenuServiceWin.cpp:118-206 | `addItem` succeeds exactly when validation passes, the submenu attaches if needed and the native insert succeeds; the new item then has the chosen parent, the next command id, the title, enabled and unchecked, and is in both tables |
| MenuProperties.AddItemInserts | quick/player/proj.win32/PlayerMenuServiceWin.cpp:145-203 | once validated and given a submenu, a successful `addItem` is the insertion step on the prepared menu |
| MenuProperties.InsertNewPlacement | quick/player/proj.win32/PlayerMenuServiceWin.cpp:182-201 | a successful insertion puts the id at exactly the clamped index, and the old siblings keep their relative order |
| MenuProperties.AddItemPlacement | quick/player/proj.win32/PlayerMenuServiceWin.cpp:182-201 | the same placement and sibling order for `addItem` and the chosen parent |
| MenuProperties.AddItemFreshCommandId | quick/player/proj.win32/PlayerMenuServiceWin.cpp:163-165 | a new item's command id is unused and greater than every earlier item's |
| MenuProperties.AddItemFailureKeepsTree | quick/player/proj.win32/PlayerMenuServiceWin.cpp:192-198 | a failed `addItem` leaves the item set, the command table, every children list, every parent and every command id unchanged |
| MenuProperties.AddItemConvertsParent | quick/player/proj.win32/PlayerMenuServiceWin.cpp:145-160 | a parent without a submenu handle is a group afterwards even when the call fails, and its handle exists exactly when creation succeeded |
| MenuProperties.InsertedUndone | quick/player/proj.win32/PlayerMenuServiceWin.cpp:199-203 | taking an inserted entry out of its parent's list and both tables restores the menu apart from the counter |
| MenuProperties.InsertThenRemove | quick/player/proj.win32/PlayerMenuServiceWin.cpp:162-265 | removing an entry right after inserting it restores the menu, except that the counter stays advanced |
| MenuProperties.AddThenRemove | quick/player/proj.win32/PlayerMenuServiceWin.cpp:118-265 | `removeItem` right after a successful `addItem` restores the menu, except for the parent's conversion to a group and the advanced counter |
| MenuProperties.RemoveSubtreeDetaches | quick/player/proj.win32/PlayerMenuServiceWin.cpp:245-265 | a removed item leaves its parent's list with the other siblings in order; items outside that list are untouched; the result is valid |
| MenuServiceWin.MenuService.AddItem | quick/player/proj.win32/PlayerMenuServiceWin.cpp:118-206 | the in-place `addItem` keeps the invariant and produces exactly the menu and the item of the value model |
| MenuServiceWin.MenuService.InsertNew | quick/player/proj.win32/PlayerMenuServiceWin.cpp:162-203 | the in-place insertion step produces exactly the value model's state and item |
| MenuServiceWin.MenuService.AddRootItem | quick/player/proj.win32/PlayerMenuServiceWin.cpp:208-211 | the two-argument overload is `addItem` with an empty parent id, so it adds under the menu bar |
| MenuServiceWin.MenuService.GetItem | quick/player/proj.win32/PlayerMenuServiceWin.cpp:213-223 | an item is returned exactly when the id is known, and it is the stored item |
| MenuServiceWin.MenuService.SetTitle | quick/player/proj.win32/PlayerMenuServiceWin.cpp:36-60 | the in-place title change keeps the invariant and matches the value model |
| MenuServiceWin.MenuService.SetEnabled | quick/player/proj.win32/PlayerMenuServiceWin.cpp:62-77 | the in-place enabled change keeps the invariant and matches the value model |
| MenuServiceWin.MenuService.SetChecked | quick/player/proj.win32/PlayerMenuServiceWin.cpp:79-94 | the in-place checked change keeps the invariant and matches the value model |
| MenuServiceWin.MenuService.FindChild | quick/player/proj.win32/PlayerMenuServiceWin.cpp:247-256 | the scan finds the first child with the given command id, or reports that none has it |
| MenuServiceWin.MenuService.RemoveLeaf | quick/player/proj.win32/PlayerMenuServiceWin.cpp:234-266 | removing a leaf succeeds exactly when its native deletion succeeds; success removes exactly the leaf from its parent's list and both tables, failure changes nothing; the invariant is kept |
| MenuServiceWin.MenuService.RemoveItem | quick/player/proj.win32/PlayerMenuServiceWin.cpp:225-285 | an unknown id gives false and no change; the call succeeds exactly when every native deletion in the item's subtree succeeds, for a leaf exactly when its own deletion does; success removes exactly the item's subtree; failure changes nothing outside the subtree, and nothing at all for a leaf; the invariant is kept and every call returns |
| MenuRemovalAsWritten.RemoveAsWritten | quick/player/proj.win32/PlayerMenuServiceWin.cpp:225-285 | `removeItem` as written, with a step bound: `None` is a call that does not return within the bound, `Some((m', ok))` the state and result of a call that returns; a returning call never adds items and leaves the command-id counter alone, and it reports success only for an item that was in the menu and is gone afterwards |
| MenuRemovalAsWritten.RemoveChildrenAsWritten | quick/player/proj.win32/PlayerMenuServiceWin.cpp:270-282 | the loop over the first child and the final `return removeItem(menuId)`, as written, with the same reading of `None` and `Some((m', ok))`: a returning loop never adds items, keeps the counter, and reports success only once the item itself is gone |
| MenuRemovalAsWritten.StuckChildDiverges | quick/player/proj.win32/PlayerMenuServiceWin.cpp:270-281 | as written, removing an item whose first child is a leaf that cannot be deleted never returns |
| MenuRemovalAsWritten.AsWrittenRemoves | quick/player/proj.win32/PlayerMenuServiceWin.cpp:225-285 | as written, when every deletion in the subtree succeeds, the removal returns within 2·(subtree size)+1 steps, reports success and leaves exactly the state of the corrected removal |
| MenuRemovalAsWritten.AsWrittenChildren | quick/player/proj.win32/PlayerMenuServiceWin.cpp:270-284 | as written, the loop over the children, from any point it reaches, ends in the removal of the item's original subtree |
| MenuRemovalAsWritten.SubtreeAfterChildRemoval | quick/player/proj.win32/PlayerMenuServiceWin.cpp:272-281 | removing a child's subtree takes exactly that subtree out of the parent's, which strictly shrinks it |
| MenuRemovalAsWritten.StuckMenuDiverges | quick/player/proj.win32/PlayerMenuServiceWin.cpp:270-281 | a concrete two-item menu on which the as-written removal never returns |
| MessageBoxServiceWin.StyleFlags | quick/player/proj.win32/PlayerMessageBoxServiceWin.cpp:20-37 | the style always has the application-modal flag and exactly one button group and one icon; the question icon appears exactly for OK/Cancel, Yes/No and Yes/No/Cancel, otherwise the information icon |
| MessageBoxServiceWin.Offered | quick/player/proj.win32/PlayerMessageBoxServiceWin.cpp:20-37 | every button type offers at least one button |
| MessageBoxServiceWin.StyleShowsOffered | quick/player/proj.win32/PlayerMessageBoxServiceWin.cpp:20-37 | the style draws exactly the buttons the caller asked for; any other value gets OK alone |
| MessageBoxServiceWin.ResultOf | quick/player/proj.win32/PlayerMessageBoxServiceWin.cpp:42-58 | IDCANCEL, IDYES and IDNO map to Cancel, Yes and No, each exactly; every other code, IDOK and 0 included, maps to OK |
| MessageBoxServiceWin.NativeCode | quick/player/proj.win32/PlayerMessageBoxServiceWin.cpp:42-58 | every abstract result has a positive Win32 code, never the failure code 0 |
| MessageBoxServiceWin.ResultRoundTrip | quick/player/proj.win32/PlayerMessageBoxServiceWin.cpp:42-58 | mapping a result to its Win32 code and back gives the same result |
| MessageBoxServiceWin.ShowMessageBox | quick/player/proj.win32/PlayerMessageBoxServiceWin.cpp:11-63 | each of the codes IDOK, IDCANCEL, IDYES and IDNO is reported as its own button, whatever style was asked for; a failed dialog reads as OK; a result other than OK comes only from its own code |

## Left out

- Win32 calls (`CreateMenu`, `SetMenu`, `SetMenuItemInfo`, `InsertMenuItem`,
  `DeleteMenu`, `DrawMenuBar`, `GetLastError`, `MessageBoxW`) are an oracle that
  answers success or failure. It gives the same answer to the same request, and the
  contents of the native menu are not modelled. `MessageBoxW` is a parameter that
  returns a code.
- The root's `CreateMenu` in the constructor is taken to succeed. The root always
  owns the menu-bar handle.
- `MENUITEMINFO` packing, UTF-8 to UTF-16 conversion and `CCLOG` logging are not
  modelled. Only the separator/string, enabled and checked decisions appear, as
  fields of the native requests.
- Reference counting (`autorelease`, `retain`, `release`) and the item destructor
  with its `DestroyMenu` are not modelled.
- `setShortcut` has an empty body and is not modelled.
- The header files are not part of this model. `MAX_ORDER`, the default order of the
  two-argument `addItem`, is a parameter of `AddRootItem`. The numeric values of
  `BUTTONS_*` and `BUTTON_*` become the enumerations `ButtonsType` and `ButtonResult`.
- The header is also where a new item's enabled, checked and group defaults come
  from. A new item is taken as enabled, unchecked and not a group
  (`NewItemEnabled`, `NewItemChecked`, `isGroup = false`). It owns no submenu handle
  (`hasMenu = false`), as the item constructor sets the handle to null.
- The child count is compared with `order` as a signed number, as with the
  container's signed `size()`.
- The counter is a static field shared by all service instances. The model gives
  each service its own counter.
- MenuTreeFacts.FreshCommandId: the counter is an unbounded `nat`. In the source it
  is a 32-bit `UINT` that wraps to 0 after 2^32 − 0x1000 allocations, after which a
  new command id can equal one still in use. Freshness is proved only for menus that
  have not reached that point.
- MenuProperties.AddItemFreshCommandId: the same unbounded counter. The promise that
  a new id is unused and above every earlier id does not survive the 32-bit
  wrap-around.
- MenuTree.AddItem: the counter advances without bound, so the invariant's range
  `(0x1000, counter]` for command ids does not model the wrap-around either.
- `MenuServiceWin.MenuService.GetItem` returns a copy of the stored item, not a
  pointer into the tree. Aliasing between items is not modelled.
- `setTitle`, `setEnabled` and `setChecked` are methods of the item in the source.
  Here they are service methods that take the item's id.
- The log message for a leaf missing from its parent's list is not modelled. Under
  the invariant that case cannot happen.
- MenuServiceWin.MenuService.RemoveItem: returns false as soon as removing a
  descendant fails, instead of retrying as the source does (see Findings).
- MenuRemovalAsWritten.RemoveAsWritten: the `fuel` bound only makes the definition
  total. Running out of fuel stands for a call that never returns. This reading is
  justified by `AsWrittenRemoves`: when every deletion succeeds, a fuel of
  2·(subtree size)+1 is enough, and the result equals `RemoveSubtree`.

## Findings

| source | as written | input that shows it | evidently intended | confidence | as-written member | corrected member |
|---|---|---|---|---|---|---|
| quick/player/proj.win32/PlayerMenuServiceWin.cpp:272-281 | when removing a child fails, `break` leaves the loop and `removeItem(menuId)` is called again on the same item, whose children are unchanged; the `return false` after `break` is never reached | an item "file" whose only child "open" is a leaf, with `DeleteMenu` failing for "open": every retry fails the same way and the call never returns | return false as soon as a descendant cannot be removed | not executed | MenuRemovalAsWritten.StuckChildDiverges | MenuServiceWin.MenuService.RemoveItem |
