# NekoTerm window core in Dafny

NekoTerm is a macOS terminal emulator. Each window keeps an ordered registry of
terminals and groups them by project, where the project is derived from the
terminal's working directory. A tree view beside the terminals shows the groups, a
small preview of each terminal, and a green hint for terminals whose content changed
in the last twenty seconds. This project models that logic and proves its
properties.

It models four things:

- **The window controller.** This is the class `Window.WindowController`, with these fields:
  - the registry `terminalStates`;
  - the selection `selectedTerminalId`;
  - the per-group record of the last selection, `lastSelectedInGroup`;
  - the pending first stroke of a Command-digit selection, `pendingGroupIndex`.

  The operations are its methods: creating, selecting, removing and updating terminals; building the project groups; the two drag-and-drop reorderings; keyboard navigation; and the shell callbacks.
  - Its invariant `Valid()` holds before and after every method. It says:
    - ids are unique;
    - every state carries the project label of its directory;
    - the selection timer is armed exactly while a first stroke is pending.
  - Each method is tied to a specification given as functions over values. These live in `Registry` (grouping and reordering) and `Navigation` (what each selection command picks). The lemmas there prove what the program promises: permutation, nothing else moves, order of first appearance, and wrap-around.
- **The project classifier** (`ProjectClassifier`). This is a pure function from an optional directory to a group label.
- **Activity detection** (`Activity`). This is the per-drawing update of a terminal's content hash and activity time, plus the twenty-second active/idle rule.
- **The tree view's preview** (`Preview`, `Tree`):
  - the 256-colour palette and the colour lookup;
  - the bottom-up choice of the preview lines;
  - the header padding;
  - the check that decides whether the tree needs a full reload;
  - the sampling step that writes the activity fields back into the window's registry.

Ids and terminal views come from a counter (`issued`) and are never reused. Times are integer milliseconds. Content hashes are opaque integers.

File layout:

- `wrappers.dfy`: `Option`.
- `classifier.dfy`: the project classifier.
- `registry.dfy`:
  - the state record, the grouping and the reorderings, all as values;
  - a small `Permutations` module.
- `navigation.dfy`: the targets of the selection commands.
- `window.dfy`: the window controller class.
- `activity.dfy`: the activity hint.
- `preview.dfy`: the preview.
- `treeview.dfy`: the tree view class.

Two behaviours of the code worth knowing:

- `selectTerminal(id:)` sets the selection even for an id that no terminal carries. In that case it leaves the per-group record alone (`Window.WindowController.SelectTerminal`).
- A Command-digit typed while a first stroke is pending is always taken as the second stroke. It selects that slot, or nothing when the slot is out of range, and ends the pending state. It does not start a new first stroke (`Window.WindowController.HandleKeyEvent`).

## Model

| member | source | states |
|---|---|---|
| ProjectClassifier.ClassifyPath | Sources/NekoTerm/ProjectClassifier.swift:16-43 | The label of a plain path, case by case. The home directory is "~". Under `home + "/"`, the label is the first '/'-free run of the relative path, or "~" when there is none. Another absolute path gives "/" plus its first run, or "Unknown" when it is only slashes. Anything else is "Unknown". |
| ProjectClassifier.ExtractProjectName | Sources/NekoTerm/ProjectClassifier.swift:3-14 | The dispatch of `extractProjectName(from:)`. A nil directory is "Unknown". A `file://` string is "Unknown" when `URL(string:)` gives no path, and otherwise the classification of that path. Any other string is classified as a plain path. |
| ProjectClassifier.ExtractProjectNameFromPath | Sources/NekoTerm/ProjectClassifier.swift:16-43 | `extractProjectNameFromPath`, branch by branch, over `split` as `Components`. Each case is characterised by `ClassifyPath`, and the label is never empty (`PathLabelNeverEmpty`). |
| ProjectClassifier.Components | Sources/NekoTerm/ProjectClassifier.swift:27 | `split(separator: "/")`: the '/'-free runs of the string with empty runs omitted, as `ComponentsAreRuns` and `FirstComponentIsFirstRun` state. |
| ProjectClassifier.FirstComponentIsFirstRun | Sources/NekoTerm/ProjectClassifier.swift:27-28 | `split(separator: "/")` has a first component exactly when the string is not all slashes. That component is the first '/'-free run, located by position. |
| ProjectClassifier.ComponentsAreRuns | Sources/NekoTerm/ProjectClassifier.swift:27 | Every component of `split` is non-empty and holds no '/'. |
| ProjectClassifier.RootIsUnknown | Sources/NekoTerm/ProjectClassifier.swift:35-42 | "/" alone is "Unknown" when home is neither "/" nor a prefix of it. |
| ProjectClassifier.RelativePathIsUnknown | Sources/NekoTerm/ProjectClassifier.swift:42 | With an absolute home directory, a relative path is "Unknown". |
| ProjectClassifier.LabelNeverEmpty | Sources/NekoTerm/ProjectClassifier.swift:3-14 | Every label, including those of nil directories and `file://` strings, is non-empty. |
| ProjectClassifier.PathLabelNeverEmpty | Sources/NekoTerm/ProjectClassifier.swift:16-43 | Every label of a plain path is non-empty, because `split` drops empty components. |
| ProjectClassifier.RunLength | Sources/NekoTerm/ProjectClassifier.swift:27 | The length of the leading '/'-free run. It is bounded by the string and ends at a '/' or at the end. |
| ProjectClassifier.LeadingSlashes | Sources/NekoTerm/ProjectClassifier.swift:27 | The length of the leading run of slashes. It ends at a non-slash or at the end. |
| Registry.UniqueIds | Sources/NekoTerm/TerminalManager.swift:4-12 | No two states of the registry share an id. |
| Registry.IndexOf | Sources/NekoTerm/WindowController.swift:209 | `firstIndex`: None exactly when the element is absent; otherwise the first position holding it. |
| Registry.IndexOfId | Sources/NekoTerm/WindowController.swift:136 | `firstIndex(where: id)`: None exactly when no state has the id; otherwise the first position of a state with it. |
| Registry.IndexOfName | Sources/NekoTerm/WindowController.swift:224 | The first position of a state of the project, or None exactly when there is none. |
| Registry.IndexOfView | Sources/NekoTerm/WindowController.swift:430 | The first position of the state showing the view, or None exactly when no state shows it. |
| Registry.Members | Sources/NekoTerm/WindowController.swift:148-162 | The states of one project in registry order: the per-name `terminalIds` lists the loop builds. `MembersAreFilter`, `MembersPartition` and `MembersConcat` characterise it. |
| Registry.Names | Sources/NekoTerm/WindowController.swift:148-162 | The `orderedNames` array: each project name once, at its first appearance (`NamesComplete`, `NamesDistinct`, `NamesInFirstAppearanceOrder`). |
| Registry.GroupsOf | Sources/NekoTerm/WindowController.swift:148-162 | The reference groups: one per name of `Names`, holding the ids of its `Members`. The loop of `BuildProjectGroups` is proved to return it. |
| Registry.Offsets | Sources/NekoTerm/WindowController.swift:176 | `enumerated().filter` on the project: every offset is in range and holds a state of the project. |
| Registry.OffsetsListMembers | Sources/NekoTerm/WindowController.swift:176 | The offsets list the project's states in increasing order and miss none of them. |
| Registry.MembersAreFilter | Sources/NekoTerm/WindowController.swift:212-215 | A state is among a project's members exactly when it is in the registry with that project name. Likewise, it is among the others exactly when its name differs. |
| Registry.MembersPartition | Sources/NekoTerm/WindowController.swift:212-215 | Members and others together are the registry as a multiset. |
| Registry.MembersConcat | Sources/NekoTerm/WindowController.swift:212-215 | Filtering by project distributes over concatenation. |
| Registry.NamesComplete | Sources/NekoTerm/WindowController.swift:148-162 | A name is a group name exactly when some state carries it. |
| Registry.NamesDistinct | Sources/NekoTerm/WindowController.swift:148-162 | Group names are pairwise distinct. |
| Registry.NamesInFirstAppearanceOrder | Sources/NekoTerm/WindowController.swift:148-162 | Groups are ordered by the first appearance of their name in the registry. |
| Registry.AbsentNameHasNoMembers | Sources/NekoTerm/WindowController.swift:154-157 | A name that is not yet a group has no states. |
| Registry.GroupsAreNonEmpty | Sources/NekoTerm/WindowController.swift:148-162 | Every group lists at least one terminal. |
| Registry.IdInExactlyOneGroup | Sources/NekoTerm/WindowController.swift:148-162 | With unique ids, every registry id is listed by the group of its project. A group listing an id is always the group of that state's project. |
| Registry.GroupNames | Sources/NekoTerm/WindowController.swift:209 | The names of the groups, in order. |
| Registry.GroupNamesOfGroups | Sources/NekoTerm/WindowController.swift:148-162 | The names of the built groups are the registry's names in order of first appearance. |
| Registry.LastSelectedIn | Sources/NekoTerm/WindowController.swift:164-173 | None for an index out of range. The recorded id when it is still a member of the group. Otherwise the result is a member, and it is the recorded id or the group's first id. |
| Registry.LastSelectedIsMember | Sources/NekoTerm/WindowController.swift:164-173 | Over the registry's own groups, every index in range yields some terminal. |
| Registry.IdsAtOffsets | Sources/NekoTerm/WindowController.swift:176-177 | The ids at a project's offsets are the ids of its members. |
| Registry.MoveTerminalPlan | Sources/NekoTerm/WindowController.swift:175-199 | The written plan of `moveTerminal`: the source and the clamped target offsets, or None. `MoveTerminalRefuses`, `MoveTerminalPlanShape` and `MoveToEndStopsBeforeLast` state its behaviour. |
| Registry.MoveTerminalRefuses | Sources/NekoTerm/WindowController.swift:175-198 | `moveTerminal` refuses exactly when the id is not in the group, or when the clamped slot already holds it. |
| Registry.MoveTerminalPlanShape | Sources/NekoTerm/WindowController.swift:176-198 | A planned move takes the state with the id from the group to a different position that also holds a state of the group. |
| Registry.MovedIsPermutation | Sources/NekoTerm/WindowController.swift:200-202 | Remove-then-insert keeps the length and the multiset of states. |
| Registry.MovedKeepsOthersInOrder | Sources/NekoTerm/WindowController.swift:200-202 | After the move, the moved state sits at the adjusted target. Deleting it from the result gives exactly the registry with it deleted, so every other state keeps its relative order. |
| Registry.MovedKeepsOtherGroups | Sources/NekoTerm/WindowController.swift:200-202 | Moving a terminal leaves every other project's members, and their order, unchanged. |
| Registry.MembersOfRemoveAt | Sources/NekoTerm/WindowController.swift:200 | Removing a state of another project leaves a project's members unchanged. |
| Registry.MembersOfInsertAt | Sources/NekoTerm/WindowController.swift:202 | Inserting a state of another project leaves a project's members unchanged. |
| Registry.NoMembersAfterLastOffset | Sources/NekoTerm/WindowController.swift:182-184 | No state of the project lies after its last offset, and that offset holds the project's last member. |
| Registry.AllMembers | Sources/NekoTerm/WindowController.swift:212 | A sequence wholly inside a project filters to itself. |
| Registry.NoMembers | Sources/NekoTerm/WindowController.swift:215 | A sequence wholly outside a project has no members and keeps all its others. |
| Registry.MembersEndWith | Sources/NekoTerm/WindowController.swift:182-202 | A member followed only by non-members is the last member. |
| Registry.MoveToEndStopsBeforeLast | Sources/NekoTerm/WindowController.swift:182-202 | As written, a drop past the end of a group leaves the group's previous last member last. The dragged terminal lands just before it (see Findings). |
| Registry.SplitAroundMove | Sources/NekoTerm/WindowController.swift:200-202 | The shape of a forward move: the states before the target without the moved one, then the moved one, then the rest. |
| Registry.MoveToEndExample | Sources/NekoTerm/WindowController.swift:182-202 | With members A, B, C of one project, dragging A to index 3 plans positions (0, 2) and yields B, A, C. |
| Registry.IntendedMoveTerminalPlan | Sources/NekoTerm/WindowController.swift:182-198 | The corrected plan: both indices are in range as a remove position and an insert position. |
| Registry.IntendedMoveToEndIsLast | Sources/NekoTerm/WindowController.swift:182-202 | With the corrected plan, a drop past the end makes the dragged terminal the group's last member. |
| Registry.IntendedAgreesInsideGroup | Sources/NekoTerm/WindowController.swift:188-198 | Away from the end of the group, the corrected plan is the written one. |
| Registry.IntendedRefusesLikeWritten | Sources/NekoTerm/WindowController.swift:182-198 | The corrected plan refuses exactly when the written one does. When it moves, the source holds the id, belongs to the group and differs from the target. |
| Registry.RemoveThenInsert | Sources/NekoTerm/WindowController.swift:200-202 | `remove(at:)` followed by `insert(_:at:)` with the target lowered by one when it lay after the source is `Moved`. |
| Registry.ThreeMemberOffsets | Sources/NekoTerm/WindowController.swift:176 | Three states of one project sit at group offsets 0, 1, 2. |
| Registry.GroupInsertIndex | Sources/NekoTerm/WindowController.swift:217-229 | The block's insertion index is within the remaining states. |
| Registry.MoveGroupApplies | Sources/NekoTerm/WindowController.swift:207-215 | When `moveGroup` goes ahead: the name is a group, and the target is neither its own index nor the next one (`MoveGroupRefuses`). |
| Registry.GroupMoved | Sources/NekoTerm/WindowController.swift:207-236 | The registry after `moveGroup`: the others with the group's states inserted as one block at `GroupInsertIndex`. Its order, permutation and block properties are the `GroupMoved*` lemmas. |
| Registry.MoveGroupRefuses | Sources/NekoTerm/WindowController.swift:207-213 | `moveGroup` refuses exactly for an unknown name, or for a target equal to the group's index or to that index plus one. |
| Registry.MembersAllNamed | Sources/NekoTerm/WindowController.swift:212-215 | Every member carries the name, and no other state does. |
| Registry.GroupMovedIsPermutation | Sources/NekoTerm/WindowController.swift:212-233 | Moving a group keeps the multiset of states. |
| Registry.FilterAroundBlock | Sources/NekoTerm/WindowController.swift:231-233 | A block of members inserted among non-members filters back to the block, and to the surrounding states. |
| Registry.GroupMovedKeepsOrder | Sources/NekoTerm/WindowController.swift:212-233 | The moved group keeps its internal order, and the remaining states keep theirs. |
| Registry.GroupMovedIsContiguous | Sources/NekoTerm/WindowController.swift:231-233 | The moved group is one contiguous block at the insertion index. No member lies outside it. |
| Registry.GroupMovePlacement | Sources/NekoTerm/WindowController.swift:217-229 | The block lands in one of three places. A target of at most 0 puts it first. A target past the last group puts it last. Otherwise it goes right before the first state of the (different) group that held the target index. |
| Registry.WithoutId | Sources/NekoTerm/WindowController.swift:129 | `removeAll { $0.id == id }`: only registry states without the id remain. |
| Registry.WithoutIdKeepsOthers | Sources/NekoTerm/WindowController.swift:129 | Every state without the id remains. |
| Registry.WithoutAbsentId | Sources/NekoTerm/WindowController.swift:129 | Removing an id nobody carries changes nothing. |
| Registry.WithoutIdRemovesOne | Sources/NekoTerm/WindowController.swift:129 | With unique ids, removing an id deletes exactly the one state carrying it and keeps the rest in order. |
| Registry.RemoveAtKeepsUnique | Sources/NekoTerm/WindowController.swift:129 | Deleting one state keeps ids unique and invents no state. |
| Registry.NavigationWraps | Sources/NekoTerm/WindowController.swift:354-370 | Next and previous stay in range and wrap from last to first (and back), and they undo each other. |
| Permutations.PermutationKeepsUniqueIds | Sources/NekoTerm/WindowController.swift:200-202 | Any rearrangement of a registry with unique ids has unique ids. |
| Permutations.PermutationKeepsStates | Sources/NekoTerm/WindowController.swift:231-233 | A rearrangement holds exactly the same states. |
| Navigation.RecordSelection | Sources/NekoTerm/WindowController.swift:116-121 | The record after a selection. It is unchanged for an id nobody carries. Otherwise the first carrier's project maps to the id, and no other entry changes. |
| Navigation.IndexOfUniqueId | Sources/NekoTerm/WindowController.swift:118 | With unique ids, looking up a state's id finds that state's position. |
| Navigation.SelectionAfterRemoval | Sources/NekoTerm/WindowController.swift:130-132 | A selection of another id stays. A selection of the removed id becomes None exactly when nothing remains, and otherwise the first remaining id. |
| Navigation.NextTerminalTarget | Sources/NekoTerm/WindowController.swift:363-370 | Command-Down picks something exactly when a selected id is in the registry, and what it picks is a registry id. |
| Navigation.PreviousTerminalTarget | Sources/NekoTerm/WindowController.swift:354-361 | Command-Up picks something exactly when a selected id is in the registry, and what it picks is a registry id. |
| Navigation.TerminalStepsUndoEachOther | Sources/NekoTerm/WindowController.swift:354-370 | From position k, down goes to (k+1) mod n and up goes to k-1, or to n-1 at 0. Down then up, and up then down, return to the same terminal. |
| Navigation.FirstGroupWith | Sources/NekoTerm/WindowController.swift:377-383 | The first group listing the id, or None exactly when no group lists it. |
| Navigation.CurrentGroupIndex | Sources/NekoTerm/WindowController.swift:377-383 | The index that group navigation starts from is within the groups whenever there are any. |
| Navigation.NextGroupTarget | Sources/NekoTerm/WindowController.swift:393-412 | With fewer than two groups, or no selection, nothing is picked. Otherwise it picks a member of the group after the current one. |
| Navigation.PreviousGroupTarget | Sources/NekoTerm/WindowController.swift:372-391 | With fewer than two groups, or no selection, nothing is picked. Otherwise it picks a member of the group before the current one. |
| Navigation.GroupOfIdIsUnique | Sources/NekoTerm/WindowController.swift:148-162 | With unique ids, no two groups list the same id. |
| Navigation.MemberIdIsRegistryId | Sources/NekoTerm/WindowController.swift:158 | An id listed by a group belongs to a registry state. |
| Navigation.CurrentGroupOfMember | Sources/NekoTerm/WindowController.swift:377-383 | The navigation starts from the group that lists the selected id. |
| Navigation.NextGroupLands | Sources/NekoTerm/WindowController.swift:393-412 | With two or more groups, Command-Shift-Down from group g always selects a terminal of group (g+1) mod n. |
| Navigation.PreviousGroupLands | Sources/NekoTerm/WindowController.swift:372-391 | With two or more groups, Command-Shift-Up from group g always selects a terminal of group g-1, or of group n-1 at 0. |
| Navigation.GroupStepsUndoEachOther | Sources/NekoTerm/WindowController.swift:372-412 | Command-Shift-Down followed by Command-Shift-Up returns to the starting group. |
| Navigation.SingleGroupDoesNotMove | Sources/NekoTerm/WindowController.swift:372-397 | With at most one project, both group commands pick nothing. |
| Navigation.SlotIsTerminalOfProject | Sources/NekoTerm/WindowController.swift:326-333 | Slot (g, t) picks something exactly when both indices are in range. What it picks is the t-th state of the g-th project, counting projects in order of first appearance. |
| Navigation.SlotTarget | Sources/NekoTerm/WindowController.swift:326-336 | The terminal at slot t of group g, or None when either index is out of range (`SlotIsTerminalOfProject`). |
| Window.NumberFromEvent | Sources/NekoTerm/WindowController.swift:316-324 | A number comes out exactly when the first character is '1' to '9', and it is the number that character denotes. |
| Window.NumberOfDigitKey | Sources/NekoTerm/WindowController.swift:316-324 | Every digit key 1-9 reads back as its number, and '0' reads as nothing. |
| Window.FindCurrentGroupIndex | Sources/NekoTerm/WindowController.swift:377-383 | The search loop returns the first group listing the id, or 0 when none does. |
| Window.InsertStep | Sources/NekoTerm/WindowController.swift:231-233 | One insertion at `insertIndex + i` extends the inserted prefix of the block by one. |
| Window.WindowController.SubsetKeepsValid | Sources/NekoTerm/WindowController.swift:129 | States taken from a valid registry, with unique ids, form a valid registry. |
| Window.WindowController.RemovalKeepsValid | Sources/NekoTerm/WindowController.swift:129 | Removing an id keeps the registry valid. |
| Window.WindowController.SameIdentityKeepsValid | Sources/Nekotty/TreeView.swift:455-466 | Changing only titles and activity fields keeps the registry valid. |
| Window.WindowController.PermutationKeepsValid | Sources/NekoTerm/WindowController.swift:200-233 | Any rearrangement of a valid registry is valid. |
| Window.WindowController.constructor | Sources/NekoTerm/WindowController.swift:12-18 | A new window has no terminals, no selection, an empty record and no pending stroke. |
| Window.WindowController.CreateTerminal | Sources/NekoTerm/WindowController.swift:93-113 | Exactly one fresh state (new id, new view) is appended. Its directory is the requested one only when it exists, and nil otherwise. Its label is derived from that directory. Its title is "Terminal", with distant-past activity and no hash. Earlier states, the selection and the pending stroke are untouched. |
| Window.WindowController.SelectTerminal | Sources/NekoTerm/WindowController.swift:116-121 | The id always becomes the selection. The record gains or updates only the entry of the id's project, and only when a state carries the id. The registry is unchanged. |
| Window.WindowController.SelectedTerminal | Sources/NekoTerm/WindowController.swift:123-126 | With no selection: the first state, or nothing. Otherwise: the registry state carrying the selected id, found exactly when one exists. |
| Window.WindowController.RemoveTerminal | Sources/NekoTerm/WindowController.swift:128-133 | Every state with the id goes and the rest keep their order. The removed selection is handled per `SelectionAfterRemoval`. The record is untouched. |
| Window.WindowController.UpdateTerminalDirectory | Sources/NekoTerm/WindowController.swift:135-140 | The first state with the id gets the directory and the classifier's label for it. Nothing else changes, and an unknown id changes nothing. |
| Window.WindowController.UpdateTerminalTitle | Sources/NekoTerm/WindowController.swift:142-146 | The first state with the id gets the title. Nothing else changes. |
| Window.WindowController.BuildProjectGroups | Sources/NekoTerm/WindowController.swift:148-162 | The dictionary loop returns the reference groups: distinct names in order of first appearance, each with its members' ids in registry order. |
| Window.WindowController.GetLastSelectedInGroup | Sources/NekoTerm/WindowController.swift:164-173 | It returns `LastSelectedIn` on the window's current groups. |
| Window.WindowController.MoveTerminal | Sources/NekoTerm/WindowController.swift:175-205 | It follows the corrected plan `IntendedMoveTerminalPlan` (see Findings): a drop past the end of the group puts the terminal after the group's last member. It returns true exactly when that plan exists, which is exactly when the written code would move (`IntendedRefusesLikeWritten`, `MoveTerminalRefuses`). When it refuses, the registry is unchanged. Otherwise the registry is `Moved` with the planned positions: a permutation (`MovedIsPermutation`) in which the others keep their order (`MovedKeepsOthersInOrder`). The selection and pending stroke are unchanged, and the invariant is kept. |
| Window.PlanTerminalMove | Sources/NekoTerm/WindowController.swift:176-198 | The index computation of `moveTerminal`: it returns the corrected plan, None when the id is not in the group or the clamped slot already holds it. |
| Window.WindowController.MoveGroup | Sources/NekoTerm/WindowController.swift:207-236 | It returns true exactly when `MoveGroupApplies`. On true, the registry is `GroupMoved`: a permutation with the group as one ordered block and the others in order. On false it is unchanged. The invariant is kept. |
| Window.WindowController.SelectTerminalInGroup | Sources/NekoTerm/WindowController.swift:326-336 | It selects the terminal at that slot of that group, or changes nothing when either index is out of range. |
| Window.WindowController.CancelPendingSelection | Sources/NekoTerm/WindowController.swift:338-342 | No stroke is pending and the timer is off. Nothing else changes. |
| Window.WindowController.SelectLastInPendingGroup | Sources/NekoTerm/WindowController.swift:344-352 | The timeout of a pending stroke selects the group's remembered or first terminal, if any. Then the pending state is cleared. |
| Window.WindowController.SelectPreviousTerminal | Sources/NekoTerm/WindowController.swift:354-361 | It selects per `PreviousTerminalTarget`. The registry and the pending stroke are unchanged. |
| Window.WindowController.SelectNextTerminal | Sources/NekoTerm/WindowController.swift:363-370 | It selects per `NextTerminalTarget`. The registry and the pending stroke are unchanged. |
| Window.WindowController.SelectPreviousGroup | Sources/NekoTerm/WindowController.swift:372-391 | It selects per `PreviousGroupTarget` on the current groups. |
| Window.WindowController.SelectNextGroup | Sources/NekoTerm/WindowController.swift:393-412 | It selects per `NextGroupTarget` on the current groups. |
| Window.WindowController.HandleKeyEvent | Sources/NekoTerm/WindowController.swift:272-314 | Every branch is stated:<br>• without Command: not consumed, nothing changes;<br>• Command-Shift-Up/Down: group navigation;<br>• Command-Up/Down: terminal navigation;<br>• a non-digit: not consumed;<br>• a digit while pending: selects the slot and clears the pending state;<br>• a first digit n: pending becomes n-1 and the timer is armed.<br>The registry never changes. |
| Window.WindowController.CreateInitialTerminal | Sources/NekoTerm/WindowController.swift:69-74 | It appends one new terminal and selects it. The terminal has no recorded directory (label "Unknown"), the default title, the distant-past activity time and no content hash. Its id and view are fresh, from the counter. |
| Window.WindowController.NewTab | Sources/NekoTerm/WindowController.swift:253-259 | It appends one new terminal and selects it. The terminal starts in the selected terminal's directory when that directory still exists, labelled by the classifier. It has the default title, the distant-past activity time and no content hash. Its id and view are fresh, from the counter. |
| Window.WindowController.CloseCurrentTerminal | Sources/NekoTerm/WindowController.swift:261-268 | With no selection, nothing changes. Otherwise the selected id is removed and the selection moves to the first remaining terminal, or to nothing. |
| Window.WindowController.ReportedDirectory | Sources/NekoTerm/WindowController.swift:441-444 | The directory the shell reports, replaced by its URL path when `URL(string:)` parses it. |
| Window.WindowController.HostCurrentDirectoryUpdate | Sources/NekoTerm/WindowController.swift:439-447 | The state showing the view records the reported directory, normalised to its URL path when it parses, and is re-labelled. Nothing else changes. |
| Window.WindowController.SetTerminalTitle | Sources/NekoTerm/WindowController.swift:429-437 | The state showing the view records the title. A window title comes out exactly when that state is the selected one, and it is "NekoTerm" for an empty title. |
| Window.WindowController.ProcessTerminated | Sources/NekoTerm/WindowController.swift:449-459 | The state showing the view is removed, with the selection handled as in `removeTerminal`. The window closes exactly when no terminal is left. An unknown view changes nothing. |
| Activity.HintThreshold | Sources/Nekotty/TreeView.swift:112-121 | `getHintColor` (`HintColor`) is green exactly when the elapsed time is below twenty seconds, so the boundary falls between 19 999 ms and 20 000 ms. |
| Activity.Sampled | Sources/Nekotty/TreeView.swift:455-466 | One sample keeps identity, directory, title and label, and always leaves the new hash stored. |
| Activity.FirstSampleOnlyRecords | Sources/Nekotty/TreeView.swift:463-466 | With no stored hash, a sample only stores the hash. The activity time stays. |
| Activity.ActivityTimeRule | Sources/Nekotty/TreeView.swift:455-462 | The activity time becomes `now` exactly when a stored hash differs and the terminal is not selected. An identical hash changes nothing. |
| Activity.SelectedIsGrey | Sources/Nekotty/TreeView.swift:447-472 | A selected terminal always shows the grey hint. |
| Activity.DisplayedHint | Sources/Nekotty/TreeView.swift:447-471 | The hint drawn for a terminal: grey while it is selected (`SelectedIsGrey`), else `HintColor` of the time since its last activity. |
| Activity.UnchangedContentStaysIdle | Sources/Nekotty/TreeView.swift:455-466 | Through any run of samples with the same content, the activity time never moves. |
| Activity.FreshTerminalWithStillContentIsGrey | Sources/NekoTerm/TerminalManager.swift:10-11 | A terminal created with distant-past time, and sampled with unchanging content, is always grey. |
| Activity.ChangeIsActiveForTwentySeconds | Sources/Nekotty/TreeView.swift:455-472 | After a change seen at t0 while unselected, the hint is green exactly while now - t0 < 20 s, as long as the content stays the same. |
| Activity.SampledAfterFirst | Sources/Nekotty/TreeView.swift:449-473 | A run of samples is its first sample followed by the rest. |
| Preview.BuildAnsi256Palette | Sources/Nekotty/TreeView.swift:53-83 | The three append loops build exactly 256 entries. Entry i is `Ansi256Entry(i)`: 16 basic colours, the cube, then the greys. |
| Preview.CubeIndexDecodes | Sources/Nekotty/TreeView.swift:68-74 | Entry 16 + 36r + 6g + b is the cube colour with levels r, g, b. This is the `(i/36)%6, (i/6)%6, i%6` layout. |
| Preview.GreyRamp | Sources/Nekotty/TreeView.swift:77-80 | Grey k is 8 + 10k, between 8 and 238, rising by 10. |
| Preview.MapAttributeColor | Sources/Nekotty/TreeView.swift:85-96 | An ansi256 code maps to the palette entry `code % 256`, always in bounds. |
| Preview.AnsiLookupWraps | Sources/Nekotty/TreeView.swift:92 | Codes 256 apart map to the same colour. |
| Preview.HasContent | Sources/Nekotty/TreeView.swift:502-508 | A line has content when some cell holds a character that is not blank. |
| Preview.LineHasContent | Sources/Nekotty/TreeView.swift:501-508 | The column scan answers true exactly when the line has a character other than space, NUL and whitespace. |
| Preview.RenderCell | Sources/Nekotty/TreeView.swift:538-557 | A cell is drawn in its effective colours, mapped through `MapAttributeColor`. |
| Preview.EffectiveColors | Sources/Nekotty/TreeView.swift:543-550 | The inverse-video swap, with the default colour becoming the inverted default. `InverseSwapsRenderedColors` states its effect on the drawn colours. |
| Preview.IsWhitespace | Sources/Nekotty/TreeView.swift:504 | `Character.isWhitespace` for one scalar: the Unicode White_Space code points. |
| Preview.InverseSwapsRenderedColors | Sources/Nekotty/TreeView.swift:543-550 | Inverse video swaps the drawn foreground and background. |
| Preview.RenderCells | Sources/Nekotty/TreeView.swift:533-558 | NUL cells are skipped. The result is empty exactly when all cells are NUL, has no NUL and is no longer than its input. |
| Preview.RenderLine | Sources/Nekotty/TreeView.swift:530-558 | The column loop renders the first `min(40, count)` cells. The result has at most 40 characters. |
| Preview.LastN | Sources/Nekotty/TreeView.swift:518 | The last n elements; its length is min(n, length). |
| Preview.CollectIsBottomMost | Sources/Nekotty/TreeView.swift:517-566 | The collected lines are the bottom-most `budget` taken rows, in top-to-bottom order. |
| Preview.CollectShape | Sources/Nekotty/TreeView.swift:517-566 | There are at most `budget` lines. Each is the rendering of a row with content, non-empty and at most 40 long. |
| Preview.SkipEmptyBottom | Sources/Nekotty/TreeView.swift:496-517 | Starting at the last content row gives the same lines as starting at the bottom. |
| Preview.Taken | Sources/Nekotty/TreeView.swift:519-562 | A row yields a preview line when it exists, has content and renders to something non-empty. |
| Preview.Collect | Sources/Nekotty/TreeView.swift:517-566 | The lines collected upward from a row within a budget, in screen order. `CollectIsBottomMost` and `CollectShape` characterise them. |
| Preview.FindLastContentRow | Sources/Nekotty/TreeView.swift:496-514 | The first loop finds the lowest row with content, or -1, and no row below it has content. |
| Preview.HeaderPadding | Sources/Nekotty/TreeView.swift:576-578 | The padding is at least 1, brings a short header to 35 columns, and is exactly 1 for long ones. |
| Preview.HeaderFor | Sources/Nekotty/TreeView.swift:570-600 | A header exists exactly when a process name or a hint index is given. Its text is non-empty, and its hint is "[n]" or empty. The hint number is `DecimalString`, which is never empty, and the padding is `Spaces(HeaderPadding(...))`. |
| Preview.GetTerminalPreview | Sources/Nekotty/TreeView.swift:482-610 | The header is `HeaderFor` the inputs. The lines are `Collect` from the bottom row with budget 4 when there is a header and 5 otherwise. |
| Preview.CollectContentLines | Sources/Nekotty/TreeView.swift:517-566 | The collecting loop yields `Collect` from the last content row with the given budget. |
| Preview.BuildHeader | Sources/Nekotty/TreeView.swift:570-600 | The header built is `HeaderFor` the inputs. |
| Preview.PreviewLineBudget | Sources/Nekotty/TreeView.swift:488-566 | The preview holds at most `previewRows - 1` lines with a header and `previewRows` without. They are the lowest taken rows, top to bottom, each 1-40 characters. |
| Preview.HeaderLayout | Sources/Nekotty/TreeView.swift:571-578 | A one-digit hint reads "[d]". With a short process name, text and hint span 35 columns and the text starts with the name. |
| Tree.NeedsFullReloadIffChanged | Sources/Nekotty/TreeView.swift:192-194 | A full reload is asked for exactly when the shown groups differ from the current ones. |
| Tree.NeedsFullReload | Sources/Nekotty/TreeView.swift:193-194 | The reload test: the counts differ, or a pair at the same position differs in name or ids. `NeedsFullReloadIffChanged` shows it is group inequality. |
| Tree.TreeView.constructor | Sources/Nekotty/TreeView.swift:140-143 | A view starts with no groups, attached to the given window. |
| Tree.TreeView.ReloadTerminals | Sources/Nekotty/TreeView.swift:211-219 | The view takes the window's current groups. Without a window, nothing changes. |
| Tree.TreeView.RefreshPreview | Sources/Nekotty/TreeView.swift:188-209 | It reports a full reload exactly when the groups changed, and afterwards the view shows the current groups. |
| Tree.TreeView.SampleActivity | Sources/Nekotty/TreeView.swift:445-473 | The first state with the id becomes `Sampled(...)`, and the hint is the one `DisplayedHint` gives. An unknown id changes nothing and is grey. The window stays valid, and its other fields are unchanged. |

## Left out

- AppKit and the UI are not modelled:
  - window, split-view and outline-view construction;
  - `show`, `showSelectedTerminal`, `expandAllGroups` and `selectCurrentTerminal`;
  - the split-view constraints;
  - drag validation and the pasteboard;
  - `outlineViewSelectionDidChange`;
  - `reloadData` and the row backgrounds.

  They only draw; the model keeps the state these calls read.
- `getShell`, `startProcess`, `changeCurrentDirectoryPath` and `getForegroundProcessName` are left out, because they spawn processes and read system state. Directory existence (`FileManager.fileExists`) is the parameter `fileExists`. The process name is an input of `Preview.GetTerminalPreview`.
- The home directory and Foundation's `URL(string:)?.path` are parameters (`home`, `urlPath`) of the classifier and of the window controller.
- Timers are not modelled. The half-second selection timer is the flag `pendingTimerArmed`, and its firing is an explicit call to `SelectLastInPendingGroup`. The tree view's one-second refresh timer is a call to `RefreshPreview`.
- `Date` is integer milliseconds, and `Date()` is the parameter `now` of `SampleActivity`.
- `String.hashValue` of the preview text is an opaque integer parameter. The model does not compute which text it hashes.
- `NSColor` and `CGFloat` are not modelled. Colours are integer RGB triples on the 0-255 scale, and the active/idle hint colours are the two values of `Activity.Hint`.
- ProjectClassifier.ExtractProjectNameFromPath, Window.NumberFromEvent, Preview.BuildHeader and Preview.HeaderFor: strings are sequences of Unicode scalars, compared and counted code point by code point. Swift's `==` and `hasPrefix` use canonical equivalence, and `count`, `dropFirst`, `split` and the first `Character` step over grapheme clusters. So a home directory written precomposed ("/Users/jos\u{E9}") does not match a reported path written with a combining accent ("/Users/jose\u{301}/app"). The model then returns "/Users" where Swift returns "app". The model also counts a process name with a combining mark one character longer than Swift does, and so pads its header with one space fewer.
- Preview.IsWhitespace: Swift's `Character.isWhitespace` works on grapheme clusters. The model tests one `char` against the Unicode White_Space code points, so a cluster beginning with a space plus a combining mark is not distinguished.
- Preview.GetTerminalPreview: does not build the attributed string.
  - The join of the lines with "\n" and the fonts are left out.
  - The result keeps the header and the lines as separate values.
  - The grey colour of the process name is left out.
- The terminal engine's buffer (`yDisp`, `rows`, `getLine`) is a `Screen`: the visible rows top first, with a missing row as None.
- `UUID()` and the `LocalProcessTerminalView` objects are not real objects in the model. Both are numbered from the counter `issued`, so they are fresh and never reused.
- Menu construction, the key-event monitor and the clipboard image save in the two `AppDelegate.swift` files are not part of this model. Neither are `NekoTerminalView.swift` (mouse and URL hit-testing) or the data-source glue in `Sources/NekoTerm/TreeView.swift`.
- No persistence layer exists in the code, so none is modelled.
- The written `moveTerminal` plan is kept as `Registry.MoveTerminalPlan`, with its lemmas. The class method `MoveTerminal` uses the corrected plan instead (see Findings). Both refuse on the same inputs, and they differ only on drops past the end of the group.

## Findings

| source | as written | input that shows it | evidently intended | confidence | as-written member | corrected member |
|---|---|---|---|---|---|---|
| Sources/NekoTerm/WindowController.swift:182-202 | A drop at an index past the group's end targets the offset of the group's last member. After remove-and-insert, the dragged terminal sits just before that member, which stays last. | One project with terminals A, B, C in that order; `moveTerminal(id: A, toIndex: 3, inGroup: p)` gives B, A, C. | Dropping past the end makes the dragged terminal the group's last member (B, C, A). | not executed | Registry.MoveToEndStopsBeforeLast | Registry.IntendedMoveToEndIsLast |
