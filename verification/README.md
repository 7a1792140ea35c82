# YesAlready rule trees, modelled in Dafny

YesAlready's settings window keeps three trees of rules: the yes/no texts,
the list lines and the talk targets. Each tree hangs from a root folder, and
each node is either a folder with an ordered list of children or an entry
holding one rule. Through the window a user can:

- add entries and folders;
- delete a node, which takes its whole subtree with it;
- toggle, edit and rename nodes;
- drag a node onto another node to move it.

The window also keeps a few settings in line: the two hotkeys, the item
inspection rate limiter and the two ContentsFinder switches.

This project models those edits as pure functions over an immutable forest,
and proves what each one does.

- **Forest and nodes.** A `Forest` has three root folders.
- **Node identity.** In the program, node identity is object identity. Here
  every node carries a `nat` id, and `WellFormed` requires the ids to be
  unique across the forest.
- **Specifications.** Each edit is specified by three things:
  - `AllIds`, the multiset of ids, shows that nothing is lost or duplicated;
  - `ViewAt` shows what one node looks like: a folder's name and its
    children's ids, or an entry's rule;
  - a frame says that every other node looks the same.
- **Parent lookup.** The parent lookup the window calls is not part of this
  model. `Tree.ParentIn` defines it as the first folder, searching from the
  three roots, whose children contain the node. This meaning is an
  assumption. `Tree.ParentIsOwner` proves that, with unique ids, the
  folder found is the only owner, whatever the search order.

Modules:

- `Results`: `Option` and `Result`.
- `Seqs`: `List.IndexOf`, `List.Remove` (through a `RemoveAt` helper) and
  `List.Insert` on sequences.
- `Rules`: the three kinds of rule, their validity, tooltip and colour, and
  the popup edits.
- `Tree`: nodes, lookup, the parent search, and replacing a folder's children.
- `Forests`: the three-root forest and its removal, insertion and replacement
  primitives.
- `Editing`: delete, add, the empty-root placeholder, toggle, popup edits and
  rename.
- `DragDrop`: moving a node by drag and drop.
- `Settings`: hotkeys, the rate limiter and the ContentsFinder switches.

## Model

| member | source | states |
|---|---|---|
| Seqs.IndexOf | YesAlready/Interface/ConfigWindow.cs:1194 | The index is the first occurrence of the node, or -1 exactly when the node is absent. |
| Seqs.Without | YesAlready/Interface/ConfigWindow.cs:1186 | Removing a node: an absent node leaves the list as it was. A present node is taken out at its first occurrence, the rest keep their order, and only that node's count drops. |
| Seqs.Insert | YesAlready/Interface/ConfigWindow.cs:1205 | Inserting at an index puts the node there and shifts the later elements up by one. |
| Seqs.MoveLandsBefore | YesAlready/Interface/ConfigWindow.cs:1194-1205 | Removing the dragged element and reinserting it at the target's index works as follows: one less when it came first, the target's index otherwise. The dragged element lands immediately before the target, the others keep their order, and the contents are a permutation. |
| Rules.Faults | YesAlready/Interface/ConfigWindow.cs:666-667 | A rule's text is faulty iff it is a regex with no compiled form. Its zone or list target is faulty only while its restriction is on. A talk target is judged always. |
| Rules.UnrestrictedZoneIgnored | YesAlready/Interface/ConfigWindow.cs:667 | With the zone restriction off, the zone pattern never makes a rule faulty, whatever it is. |
| Rules.UnrestrictedTargetIgnored | YesAlready/Interface/ConfigWindow.cs:724 | With the target restriction off, a list rule's target pattern never makes it faulty. |
| Rules.Warning | YesAlready/Interface/ConfigWindow.cs:682-687 | There is no tooltip exactly when nothing is faulty. Each combination of faults gets its own fixed message, as for text entries here and for list and talk entries at lines 739-744 and 795-796. |
| Rules.ShadeOf | YesAlready/Interface/ConfigWindow.cs:669-674 | The four line colours correspond one to one to "enabled or not" × "faulty or not". |
| Rules.Toggled | YesAlready/Interface/ConfigWindow.cs:693 | A double click flips the enabled flag, changes no other field and keeps validity. |
| Rules.FlipYes | YesAlready/Interface/ConfigWindow.cs:889-893 | The yes/no button flips the choice and changes nothing else. |
| Rules.FillZoneSpec | YesAlready/Interface/ConfigWindow.cs:935-945 | "Fill with current zone" stores the territory's name when the table knows it and "Could not find name" otherwise. It clears any zone fault and keeps the rest of the rule's validity. |
| Rules.FillTargetSpec | YesAlready/Interface/ConfigWindow.cs:1000-1012 | "Fill with current target" on a list entry, and on a talk entry at lines 1053-1065, stores the target's name when it is non-empty and "Could not find target" otherwise. It clears any target fault and keeps the rest of the rule's validity. |
| Rules.Apply | YesAlready/Interface/ConfigWindow.cs:881-1075 | A popup edit keeps the rule's kind and writes only the edited field; a widget the rule's kind lacks changes nothing. The validity of other parts is unchanged, and the edited part's new validity follows from the new pattern and restriction. |
| Rules.ApplyTwice | YesAlready/Interface/ConfigWindow.cs:881-1075 | Repeating a popup edit changes nothing more, except the yes/no button, whose second press undoes the first. |
| Tree.ParentIsOwner | YesAlready/Interface/ConfigWindow.cs:1182 | With unique ids, the parent search returns the one folder that holds the node as a child. |
| Forests.FreshId | YesAlready/Interface/ConfigWindow.cs:425 | A newly created node's identity is used by no node in the forest. |
| Forests.RootFound | YesAlready/Interface/ConfigWindow.cs:1160 | A root is found under its own id and has no parent. |
| Forests.RemoveChildSpec | YesAlready/Interface/ConfigWindow.cs:1186 | Removing a child from a folder takes out exactly that child's subtree. The folder shows the child gone and the other nodes are unchanged. |
| Forests.InsertChildSpec | YesAlready/Interface/ConfigWindow.cs:1205 | Inserting a tree into a folder at an index adds exactly its ids. The folder shows it at that index and the inserted nodes look as they did. |
| Forests.AppendIsInsertChild | YesAlready/Interface/ConfigWindow.cs:1187 | Appending to a folder is inserting at the end of its children. |
| Forests.SoleParent | YesAlready/Interface/ConfigWindow.cs:1192 | A node listed among a folder's children has that folder as its parent. |
| Editing.DeleteSpec | YesAlready/Interface/ConfigWindow.cs:702-708 | Deleting a node with no parent changes nothing. Otherwise exactly its subtree leaves the forest, the parent shows the other children in order, and every other node is unchanged. |
| Editing.DeleteUndone | YesAlready/Interface/ConfigWindow.cs:841-847 | Reinserting a deleted node at its old index restores the forest. |
| Editing.AdoptSpec | YesAlready/Interface/ConfigWindow.cs:1126-1129 | A new node goes at the end of the folder and brings exactly one new id. Nothing else changes, and a non-folder target changes nothing. |
| Editing.Placeholder | YesAlready/Interface/ConfigWindow.cs:425 | A default entry is disabled, valid, of the tree's kind, and carries the given text. |
| Editing.AddEntrySpec | YesAlready/Interface/ConfigWindow.cs:423-428 | "Add new entry" appends to the tree's root one disabled, valid entry of the tree's own kind with the text "Your text goes here", and changes nothing else. |
| Editing.AddFolderSpec | YesAlready/Interface/ConfigWindow.cs:443-448 | "Add folder" appends an empty "Untitled folder" to the folder and changes nothing else. |
| Editing.AddEntryInSpec | YesAlready/Interface/ConfigWindow.cs:1082-1096 | A folder's "Add entry" appends a disabled placeholder in the text and list trees, and does nothing in the talk tree. |
| Editing.AddListSelectionSpec | YesAlready/Interface/ConfigWindow.cs:512-517 | "Add last selected" appends an enabled list entry restricted to the target. Its faults are exactly those of the two patterns. |
| Editing.AddTalkTargetSpec | YesAlready/Interface/ConfigWindow.cs:583-593 | "Add current target" appends an enabled talk entry that is valid iff its pattern is usable. |
| Editing.RefillSpec | YesAlready/Interface/ConfigWindow.cs:484-487 | After drawing a tree, its root is never empty. An empty root receives exactly one disabled "Add some text here!" entry, and a non-empty one is left alone. |
| Editing.RefillIdempotent | YesAlready/Interface/ConfigWindow.cs:555-557 | Drawing the tree a second time adds no second placeholder. |
| Editing.SetRuleSpec | YesAlready/Interface/ConfigWindow.cs:884 | Storing a rule in an entry changes that entry only, and no node appears or disappears. |
| Editing.ToggleSpec | YesAlready/Interface/ConfigWindow.cs:691-695 | A double click shows the entry's rule with only its enabled flag flipped, so its validity is kept. Every other node is unchanged. |
| Editing.ToggleTwice | YesAlready/Interface/ConfigWindow.cs:691-695 | Two double clicks on the same entry leave the forest exactly as it was. |
| Editing.EditRuleSpec | YesAlready/Interface/ConfigWindow.cs:909-955 | A popup edit changes the edited entry to the edited rule and leaves every other node and id as it was. |
| Editing.RenameSpec | YesAlready/Interface/ConfigWindow.cs:1146-1151 | Renaming a folder changes its name only. Its children and every other node are unchanged. |
| DragDrop.RelocateFailure | YesAlready/Interface/ConfigWindow.cs:1182-1217 | A drop fails iff the dragged node has no parent, or the target is not a folder and has no parent. The error names the dragged node first. |
| DragDrop.RootsStay | YesAlready/Interface/ConfigWindow.cs:1160 | A root cannot be moved: dragging one is an error. |
| DragDrop.RelocateSteps | YesAlready/Interface/ConfigWindow.cs:1184-1205 | Every successful drop is the deletion of the dragged node followed by an append to the target folder, or an insert at the compensated index of the target. |
| DragDrop.Move | YesAlready/Interface/ConfigWindow.cs:1204-1205 | Detaching a tree and inserting it into a folder outside that tree loses and duplicates nothing. The folder shows it at the index, and the other nodes keep their views. |
| DragDrop.DropOnFolder | YesAlready/Interface/ConfigWindow.cs:1184-1188 | Dropping on a folder outside the dragged tree makes the node the folder's last child and takes it from its old parent. The other children of both keep their order. |
| DragDrop.DropBesideSibling | YesAlready/Interface/ConfigWindow.cs:1194-1205 | Dropping on a sibling entry puts the node immediately before it, the others in order, and changes nothing elsewhere. |
| DragDrop.DropOnItself | YesAlready/Interface/ConfigWindow.cs:1195-1205 | Dropping an entry on itself leaves the forest unchanged. |
| DragDrop.DropBesideOther | YesAlready/Interface/ConfigWindow.cs:1192-1205 | Dropping on an entry in another folder inserts the node at the target's index, just before the target, and removes it from its old parent. |
| DragDrop.SafeDropConserves | YesAlready/Interface/ConfigWindow.cs:1186-1187 | A drop whose target lies outside the dragged tree keeps every node of the forest. |
| DragDrop.UnsafeDropLoses | YesAlready/Interface/ConfigWindow.cs:1204-1205 | A drop on the dragged folder itself, or on a node inside the dragged tree, leaves the forest as if the node had been deleted. |
| DragDrop.RelocateConserves | YesAlready/Interface/ConfigWindow.cs:1184-1205 | A successful drop keeps exactly the nodes of the forest iff it is safe. An unsafe one loses exactly the dragged tree. |
| Settings.Normalize | YesAlready/Interface/ConfigWindow.cs:192-196 | A stored hotkey outside the four choices becomes "no key"; one among them is kept. |
| Settings.HotkeyIndex | YesAlready/Interface/ConfigWindow.cs:198 | The combo position shown for a hotkey lies in 0..3 and names the normalised key. |
| Settings.ChooseHotkey | YesAlready/Interface/ConfigWindow.cs:201-204 | Choosing a position stores one of the four keys, and it is shown at that position again. |
| Settings.ShowHotkeys | YesAlready/Interface/ConfigWindow.cs:192-216 | Drawing the tab keeps each hotkey that is among the four choices, turns an unknown one into no key, and touches no other setting. |
| Settings.PickDisableKey | YesAlready/Interface/ConfigWindow.cs:201-205 | Picking a disable hotkey stores the key at that position and nothing else. |
| Settings.PickForcedYesKey | YesAlready/Interface/ConfigWindow.cs:221-225 | Picking a forced-yes hotkey stores the key at that position and nothing else. |
| Settings.SetRateLimiter | YesAlready/Interface/ConfigWindow.cs:293-305 | A negative rate-limiter entry leaves the settings unchanged; any other entry is stored. |
| Settings.RateLimiterStaysNonNegative | YesAlready/Interface/ConfigWindow.cs:296-304 | No sequence of entries makes the limiter negative. After them it holds the last non-negative entry, and nothing else changed. |
| Settings.SetConfirm | YesAlready/Interface/ConfigWindow.cs:370-379 | Switching the confirm off also switches the one-time confirm off. Afterwards "one-time ⇒ confirm" holds, whatever held before. |
| Settings.SetOneTimeConfirm | YesAlready/Interface/ConfigWindow.cs:386-395 | Switching the one-time confirm on also switches the confirm on. Afterwards "one-time ⇒ confirm" holds. |

## Left out

- ImGui drawing, colours, tooltips, popups, tab bars and mouse detection are
  left out. Each user action is a function call instead, and the colour and
  tooltip are computed as values.
- The input boxes' 100-character buffer is not modelled: every string
  entered is stored whole.
- Saving the configuration is left out. It is persistence only and changes
  no state the window reads.
- `CreateTextNode` ("Add last seen" in the text tree) is not part of this
  model, because its code is outside ConfigWindow.cs.
- Turning text into a pattern is left out. That covers detecting a
  slash-wrapped regex and compiling it, so `Pattern` carries `isRegex` and
  `compiled` as plain fields. Text typed into a popup reaches `Rules.Apply`
  as a ready `Pattern`.
- The game lookups are left out:
  - the current target's name;
  - the current territory and the territory table;
  - the last seen list selection, list target and talk target.

  Each one becomes a plain input.
- Storing the current target as the last seen talk target is left out.
  "Add current target" has this side effect; it changes no state in the
  model.
- Entry fields no constructor call in the window sets take assumed
  defaults, because those defaults live in classes not modelled here. A
  text rule says yes and is not zone restricted; a list rule is not target
  restricted; default patterns are empty literals.
- The rule-matching engine is not part of this model.
- The context icon menu feature is not part of this model.
- The other Bothers checkboxes are left out: each one only stores its
  boolean.
- The parent search is modelled, not copied, because its code is outside
  ConfigWindow.cs. See `Tree.ParentIn` above.
- An unsafe drop is modelled without its cycle. The program inserts the
  dragged node into a folder of the detached subtree, which makes the
  detached part cyclic. That part is no longer reachable from any root; the
  model leaves it out and proves the loss (`DragDrop.UnsafeDropLoses`).
- Forests.InsertChildSpec: an index out of range leaves the forest as it
  was, where `List.Insert` would throw. Every call in the model stays in
  range: `DragDrop.Move` requires the index to be in range, and
  `DragDrop.DropBesideSibling` and `DragDrop.DropBesideOther` establish it
  for the drops that insert at an index.
- The throw on a missing parent is modelled as a `Failure` result. The
  dragged-node state and the UI state that follow it are not modelled.
- Settings.SetRateLimiter: the value is an unbounded integer, not a 32-bit
  one. The widget's own overflow handling is not modelled.
- Hotkey values are taken from the Windows virtual-key table: no key 0x00,
  Shift 0x10, Control 0x11, Alt (Menu) 0x12. The enumeration that defines
  them is outside ConfigWindow.cs.
- The fill buttons store a territory or target name, or a notice, as a
  literal pattern. The program would read a name written between slashes
  as a regex; game names and the notices never take that form, so
  `Rules.FillZoneSpec` and `Rules.FillTargetSpec` rest on that reading.
