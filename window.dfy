/**
 * The window controller: the ordered registry of one window's terminals, the
 * selected terminal, the per-group record of last selections and the pending first
 * stroke of a two-stroke selection, with the operations that change them.
 */
module Window {
  import opened Wrappers
  import opened Registry
  import opened Navigation
  import Permutations
  import ProjectClassifier

  const UpArrowKey: int := 126
  const DownArrowKey: int := 125
  /** The window title used when the selected terminal reports an empty title. */
  const AppTitle: string := "NekoTerm"

  /** What the window reads of a key-down event. */
  datatype KeyEvent = KeyEvent(
    command: bool,
    shift: bool,
    keyCode: int,
    charactersIgnoringModifiers: Option<string>)

  /** The digit 1 to 9 the event's first character denotes, if any. */
  function NumberFromEvent(event: KeyEvent): (r: Option<nat>)
    ensures r.Some? <==>
      event.charactersIgnoringModifiers.Some? && event.charactersIgnoringModifiers.value != [] &&
      '1' <= event.charactersIgnoringModifiers.value[0] <= '9'
    ensures r.Some? ==>
      1 <= r.value <= 9 && event.charactersIgnoringModifiers.value[0] == ('0' as int + r.value) as char
  {
    match event.charactersIgnoringModifiers
    case None => None
    case Some(chars) =>
      if chars != [] && '1' <= chars[0] <= '9' then Some(chars[0] as int - '0' as int) else None
  }

  /** A digit key reads back as the number it shows; '0' is not a stroke. */
  lemma NumberOfDigitKey(d: nat, rest: string, command: bool, shift: bool, keyCode: int)
    requires 1 <= d <= 9
    ensures NumberFromEvent(KeyEvent(command, shift, keyCode, Some([('0' as int + d) as char] + rest))) == Some(d)
    ensures NumberFromEvent(KeyEvent(command, shift, keyCode, Some(['0'] + rest))) == None
  {
  }

  /** The loop of `selectPreviousGroup`/`selectNextGroup` that finds the group of the
      selected terminal. */
  method FindCurrentGroupIndex(groups: seq<ProjectGroup>, currentId: Uuid) returns (index: nat)
    ensures index == CurrentGroupIndex(groups, currentId)
  {
    index := 0;
    var i := 0;
    while i < |groups|
      invariant 0 <= i <= |groups|
      invariant forall g :: 0 <= g < i ==> currentId !in groups[g].terminalIds
    {
      if currentId in groups[i].terminalIds {
        index := i;
        break;
      }
      i := i + 1;
    }
  }

  /** The index computation of `moveTerminal(id:toIndex:inGroup:)`: the global
      positions to take the terminal from and to put it back before, or None when
      the call returns false. A drop past the end of the group targets the position
      after the group's last member. */
  method PlanTerminalMove(s: seq<TerminalState>, id: Uuid, targetIndex: int, groupName: string)
    returns (plan: Option<(nat, nat)>)
    ensures plan == IntendedMoveTerminalPlan(s, id, targetIndex, groupName)
  {
    var groupTerminals := Offsets(s, groupName);
    var slot := IndexOf(IdsAt(s, groupTerminals), id);
    if slot.None? {
      return None;
    }
    var sourceGlobalIndex := groupTerminals[slot.value];
    var clampedGlobalIndex: nat;
    if targetIndex >= |groupTerminals| {
      clampedGlobalIndex := groupTerminals[|groupTerminals| - 1];
    } else if targetIndex <= 0 {
      clampedGlobalIndex := groupTerminals[0];
    } else {
      clampedGlobalIndex := groupTerminals[targetIndex];
    }
    if sourceGlobalIndex == clampedGlobalIndex {
      return None;
    }
    var targetGlobalIndex := if targetIndex >= |groupTerminals| then clampedGlobalIndex + 1 else clampedGlobalIndex;
    return Some((sourceGlobalIndex, targetGlobalIndex));
  }

  /** One round of `moveGroup`'s insertion loop extends the inserted prefix of the block. */
  lemma InsertStep(rest: seq<TerminalState>, block: seq<TerminalState>, at: nat, i: nat)
    requires at <= |rest| && i < |block|
    ensures var t := rest[..at] + block[..i] + rest[at..];
      t[..at + i] + [block[i]] + t[at + i..] == rest[..at] + block[..i + 1] + rest[at..]
  {
    var t := rest[..at] + block[..i] + rest[at..];
    assert t[..at + i] == rest[..at] + block[..i];
    assert t[at + i..] == rest[at..];
    assert block[..i + 1] == block[..i] + [block[i]];
  }

  class WindowController {
    /** The user's home directory, read by the project classifier. */
    const home: string
    /** `URL(string:)?.path`, Foundation's URL parsing. */
    const urlPath: string -> Option<string>

    var terminalStates: seq<TerminalState>
    var selectedTerminalId: Option<Uuid>
    var lastSelectedInGroup: map<string, Uuid>
    /** The first stroke of a two-stroke selection, as a group index. */
    var pendingGroupIndex: Option<nat>
    /** Whether the half-second timer that ends a pending selection is scheduled. */
    var pendingTimerArmed: bool
    /** How many ids and views have been handed out; the next ones are numbered `issued`. */
    var issued: nat

    function ProjectNameOf(directory: Option<string>): string {
      ProjectClassifier.ExtractProjectName(directory, home, urlPath)
    }

    /** Every state is numbered below the counter and carries the project label of its
        directory; ids are unique; the timer runs exactly while a stroke is pending. */
    ghost predicate Valid()
      reads this
    {
      StatesValid(terminalStates) && (pendingTimerArmed <==> pendingGroupIndex.Some?)
    }

    ghost predicate StatesValid(s: seq<TerminalState>)
      reads this`issued
    {
      && (forall st :: st in s ==>
            && st.id.n < issued && st.terminalView.n < issued
            && st.projectName == ProjectNameOf(st.currentDirectory))
      && UniqueIds(s)
    }

    /** A selection of valid states with unique ids is valid. */
    lemma SubsetKeepsValid(a: seq<TerminalState>, b: seq<TerminalState>)
      requires StatesValid(a) && UniqueIds(b)
      requires forall x :: x in b ==> x in a
      ensures StatesValid(b)
    {
    }

    /** Removing the states with an id keeps the rest valid. */
    lemma RemovalKeepsValid(s: seq<TerminalState>, id: Uuid)
      requires StatesValid(s)
      ensures StatesValid(WithoutId(s, id))
    {
      match IndexOfId(s, id) {
        case Some(k) =>
          WithoutIdRemovesOne(s, k);
          RemoveAtKeepsUnique(s, k);
        case None =>
          WithoutAbsentId(s, id);
      }
      SubsetKeepsValid(s, WithoutId(s, id));
    }

    /** A rearranged registry stays valid. */
    lemma PermutationKeepsValid(a: seq<TerminalState>, b: seq<TerminalState>)
      requires StatesValid(a) && multiset(a) == multiset(b)
      ensures StatesValid(b)
    {
      Permutations.PermutationKeepsUniqueIds(a, b);
      Permutations.PermutationKeepsStates(a, b);
    }

    /** Changing only the title and the activity fields of states keeps them valid. */
    lemma SameIdentityKeepsValid(a: seq<TerminalState>, b: seq<TerminalState>)
      requires StatesValid(a) && |a| == |b|
      requires forall j :: 0 <= j < |a| ==>
        && b[j].id == a[j].id && b[j].terminalView == a[j].terminalView
        && b[j].currentDirectory == a[j].currentDirectory && b[j].projectName == a[j].projectName
      ensures StatesValid(b)
    {
      assert forall j :: 0 <= j < |a| ==> a[j] in a;
      forall st | st in b
        ensures st.id.n < issued && st.terminalView.n < issued && st.projectName == ProjectNameOf(st.currentDirectory)
      {
        var j :| 0 <= j < |b| && b[j] == st;
        assert a[j] in a;
      }
    }

    twostate predicate RegistryUnchanged()
      reads this
    {
      terminalStates == old(terminalStates) && issued == old(issued)
    }

    twostate predicate SelectionUnchanged()
      reads this
    {
      selectedTerminalId == old(selectedTerminalId) && lastSelectedInGroup == old(lastSelectedInGroup)
    }

    twostate predicate PendingUnchanged()
      reads this
    {
      pendingGroupIndex == old(pendingGroupIndex) && pendingTimerArmed == old(pendingTimerArmed)
    }

    /** The selection after a command that picks `target`: nothing changes for None,
        otherwise exactly what `selectTerminal(id:)` does. */
    twostate predicate SelectedPer(target: Option<Uuid>)
      reads this
    {
      match target
      case None => SelectionUnchanged()
      case Some(id) =>
        selectedTerminalId == Some(id) &&
        lastSelectedInGroup == RecordSelection(old(terminalStates), old(lastSelectedInGroup), id)
    }

    constructor (home: string, urlPath: string -> Option<string>)
      ensures Valid()
      ensures this.home == home
      ensures terminalStates == [] && selectedTerminalId == None && lastSelectedInGroup == map[]
      ensures pendingGroupIndex == None && !pendingTimerArmed
    {
      this.home := home;
      this.urlPath := urlPath;
      terminalStates := [];
      selectedTerminalId := None;
      lastSelectedInGroup := map[];
      pendingGroupIndex := None;
      pendingTimerArmed := false;
      issued := 0;
    }

    // -------------------------------------------------------------------------
    // Terminal management

    /** `createTerminal(directory:)`: a fresh terminal appended to the registry, started
        in the directory when it exists and recording no directory otherwise. */
    method CreateTerminal(directory: Option<string>, fileExists: string -> bool) returns (state: TerminalState)
      requires Valid()
      modifies this
      ensures Valid()
      ensures terminalStates == old(terminalStates) + [state]
      ensures state.currentDirectory == (if directory.Some? && fileExists(directory.value) then directory else None)
      ensures state.projectName == ProjectNameOf(state.currentDirectory)
      ensures state.title == DefaultTitle && state.lastActivityTime == DistantPast && state.lastContentHash == None
      ensures state.id.n == old(issued) && state.terminalView.n == old(issued) && issued == old(issued) + 1
      ensures forall st :: st in old(terminalStates) ==> st.id != state.id && st.terminalView != state.terminalView
      ensures SelectionUnchanged() && PendingUnchanged()
    {
      var startDir: Option<string> := None;
      if directory.Some? && fileExists(directory.value) {
        startDir := directory;
      }
      state := TerminalState(Uuid(issued), ViewHandle(issued), startDir, DefaultTitle,
                             ProjectNameOf(startDir), DistantPast, None);
      assert forall k :: 0 <= k < |terminalStates| ==> terminalStates[k] in terminalStates;
      terminalStates := terminalStates + [state];
      issued := issued + 1;
    }

    /** `selectTerminal(id:)`: the id becomes the selection (known or not), and the
        record of its group is updated when a state carries it. */
    method SelectTerminal(id: Uuid)
      requires Valid()
      modifies this
      ensures Valid()
      ensures SelectedPer(Some(id))
      ensures RegistryUnchanged() && PendingUnchanged()
    {
      selectedTerminalId := Some(id);
      match IndexOfId(terminalStates, id) {
        case Some(k) =>
          lastSelectedInGroup := lastSelectedInGroup[terminalStates[k].projectName := id];
        case None =>
      }
    }

    /** `getSelectedTerminal()`: the state of the selected id, or the first state when
        nothing is selected. */
    function SelectedTerminal(): (r: Option<TerminalState>)
      reads this
      ensures selectedTerminalId.None? ==> r == (if terminalStates == [] then None else Some(terminalStates[0]))
      ensures selectedTerminalId.Some? ==>
        (r.Some? <==> exists k :: 0 <= k < |terminalStates| && terminalStates[k].id == selectedTerminalId.value)
      ensures r.Some? ==> r.value in terminalStates
      ensures r.Some? && selectedTerminalId.Some? ==> r.value.id == selectedTerminalId.value
    {
      match selectedTerminalId
      case None => if terminalStates == [] then None else Some(terminalStates[0])
      case Some(id) =>
        match IndexOfId(terminalStates, id)
        case None => None
        case Some(k) => Some(terminalStates[k])
    }

    /** `removeTerminal(id:)`. */
    method RemoveTerminal(id: Uuid)
      requires Valid()
      modifies this
      ensures Valid()
      ensures terminalStates == WithoutId(old(terminalStates), id)
      ensures selectedTerminalId == SelectionAfterRemoval(old(selectedTerminalId), id, terminalStates)
      ensures lastSelectedInGroup == old(lastSelectedInGroup) && issued == old(issued)
      ensures PendingUnchanged()
    {
      var remaining := WithoutId(terminalStates, id);
      RemovalKeepsValid(terminalStates, id);
      var selection := selectedTerminalId;
      if selection == Some(id) {
        selection := if remaining == [] then None else Some(remaining[0].id);
      }
      terminalStates, selectedTerminalId := remaining, selection;
    }

    /** `updateTerminalDirectory(id:directory:)`: the first state with the id records the
        directory and the project label the classifier gives it. */
    method UpdateTerminalDirectory(id: Uuid, directory: Option<string>)
      requires Valid()
      modifies this
      ensures Valid()
      ensures match IndexOfId(old(terminalStates), id)
        case None => terminalStates == old(terminalStates)
        case Some(k) =>
          terminalStates == old(terminalStates)[k := old(terminalStates)[k].(
            currentDirectory := directory, projectName := ProjectNameOf(directory))]
      ensures issued == old(issued) && SelectionUnchanged() && PendingUnchanged()
    {
      match IndexOfId(terminalStates, id) {
        case Some(k) =>
          ghost var before := terminalStates;
          assert forall j :: 0 <= j < |before| ==> before[j] in before;
          terminalStates := terminalStates[k := terminalStates[k].(
            currentDirectory := directory, projectName := ProjectNameOf(directory))];
          assert forall j :: 0 <= j < |terminalStates| ==> terminalStates[j].id == before[j].id;
        case None =>
      }
    }

    /** `updateTerminalTitle(id:title:)`. */
    method UpdateTerminalTitle(id: Uuid, title: string)
      requires Valid()
      modifies this
      ensures Valid()
      ensures match IndexOfId(old(terminalStates), id)
        case None => terminalStates == old(terminalStates)
        case Some(k) => terminalStates == old(terminalStates)[k := old(terminalStates)[k].(title := title)]
      ensures issued == old(issued) && SelectionUnchanged() && PendingUnchanged()
    {
      match IndexOfId(terminalStates, id) {
        case Some(k) =>
          ghost var before := terminalStates;
          assert forall j :: 0 <= j < |before| ==> before[j] in before;
          terminalStates := terminalStates[k := terminalStates[k].(title := title)];
          assert forall j :: 0 <= j < |terminalStates| ==> terminalStates[j].id == before[j].id;
        case None =>
      }
    }

    // -------------------------------------------------------------------------
    // Project groups

    /** `buildProjectGroups()`: one pass over the registry collecting the groups in a
        dictionary and their names in order of first appearance. */
    method BuildProjectGroups() returns (groups: seq<ProjectGroup>)
      ensures groups == GroupsOf(terminalStates)
    {
      var groupMap: map<string, ProjectGroup> := map[];
      var orderedNames: seq<string> := [];
      var i := 0;
      while i < |terminalStates|
        invariant 0 <= i <= |terminalStates|
        invariant orderedNames == Names(terminalStates[..i])
        invariant forall n :: n in groupMap <==> n in orderedNames
        invariant forall n :: n in groupMap ==>
          groupMap[n] == ProjectGroup(n, Ids(Members(terminalStates[..i], n)))
      {
        var state := terminalStates[i];
        var projectName := state.projectName;
        ghost var oldMap := groupMap;
        assert DropLast(terminalStates[..i + 1]) == terminalStates[..i];
        assert Last(terminalStates[..i + 1]) == state;
        if projectName !in groupMap {
          AbsentNameHasNoMembers(terminalStates[..i], projectName);
          groupMap := groupMap[projectName := ProjectGroup(projectName, [])];
          orderedNames := orderedNames + [projectName];
        }
        groupMap := groupMap[projectName := groupMap[projectName].(
          terminalIds := groupMap[projectName].terminalIds + [state.id])];
        forall n | n in groupMap
          ensures groupMap[n] == ProjectGroup(n, Ids(Members(terminalStates[..i + 1], n)))
        {
          var before := Members(terminalStates[..i], n);
          assert Members(terminalStates[..i + 1], n) ==
            before + (if projectName == n then [state] else []);
          if n == projectName {
            assert Ids(before + [state]) == Ids(before) + [state.id];
          } else {
            assert groupMap[n] == oldMap[n];
          }
        }
        i := i + 1;
      }
      assert terminalStates[..i] == terminalStates;
      groups := seq(|orderedNames|, k requires 0 <= k < |orderedNames| => groupMap[orderedNames[k]]);
    }

    /** `getLastSelectedInGroup(groupIndex:)`. */
    method GetLastSelectedInGroup(groupIndex: nat) returns (r: Option<Uuid>)
      ensures r == LastSelectedIn(GroupsOf(terminalStates), lastSelectedInGroup, groupIndex)
    {
      var groups := BuildProjectGroups();
      r := LastSelectedIn(groups, lastSelectedInGroup, groupIndex);
    }

    // -------------------------------------------------------------------------
    // Reordering by drag and drop

    /** `moveTerminal(id:toIndex:inGroup:)`, with a drop past the end of the group
        placing the terminal after the group's last member. */
    method MoveTerminal(id: Uuid, targetIndex: int, groupName: string) returns (moved: bool)
      requires Valid()
      modifies this
      ensures Valid()
      ensures moved == IntendedMoveTerminalPlan(old(terminalStates), id, targetIndex, groupName).Some?
      ensures !moved ==> terminalStates == old(terminalStates)
      ensures moved ==>
        var (source, target) := IntendedMoveTerminalPlan(old(terminalStates), id, targetIndex, groupName).value;
        terminalStates == Moved(old(terminalStates), source, target)
      ensures issued == old(issued) && SelectionUnchanged() && PendingUnchanged()
    {
      var plan := PlanTerminalMove(terminalStates, id, targetIndex, groupName);
      if plan.None? {
        return false;
      }
      var (sourceGlobalIndex, targetGlobalIndex) := plan.value;
      ghost var before := terminalStates;
      var state := terminalStates[sourceGlobalIndex];
      var rest := terminalStates[..sourceGlobalIndex] + terminalStates[sourceGlobalIndex + 1..];
      var adjustedTarget := if sourceGlobalIndex < targetGlobalIndex then targetGlobalIndex - 1 else targetGlobalIndex;
      var after := rest[..adjustedTarget] + [state] + rest[adjustedTarget..];
      RemoveThenInsert(before, sourceGlobalIndex, targetGlobalIndex);
      MovedIsPermutation(before, sourceGlobalIndex, targetGlobalIndex);
      PermutationKeepsValid(before, after);
      terminalStates := after;
      moved := true;
    }

    /** `moveGroup(name:toIndex:)`: the group's states, kept in order, are taken out and
        re-inserted in one block before the group that held the target index. */
    method MoveGroup(name: string, targetIndex: int) returns (moved: bool)
      requires Valid()
      modifies this
      ensures Valid()
      ensures moved == MoveGroupApplies(old(terminalStates), name, targetIndex)
      ensures terminalStates == if moved then GroupMoved(old(terminalStates), name, targetIndex) else old(terminalStates)
      ensures issued == old(issued) && SelectionUnchanged() && PendingUnchanged()
    {
      var groups := BuildProjectGroups();
      var sourceIndex := IndexOf(GroupNames(groups), name);
      if sourceIndex.None? {
        return false;
      }
      if sourceIndex.value == targetIndex || sourceIndex.value == targetIndex - 1 {
        return false;
      }
      var groupTerminals := Members(terminalStates, name);
      if groupTerminals == [] {
        return false;
      }
      ghost var before := terminalStates;
      terminalStates := Others(terminalStates, name);
      var insertIndex: nat;
      if targetIndex <= 0 {
        insertIndex := 0;
      } else if targetIndex >= |groups| {
        insertIndex := |terminalStates|;
      } else {
        var targetGroupName := groups[targetIndex].name;
        match IndexOfName(terminalStates, targetGroupName) {
          case Some(k) => insertIndex := k;
          case None => insertIndex := |terminalStates|;
        }
      }
      assert insertIndex == GroupInsertIndex(terminalStates, groups, targetIndex);
      ghost var rest := terminalStates;
      var i := 0;
      while i < |groupTerminals|
        invariant 0 <= i <= |groupTerminals|
        invariant terminalStates == rest[..insertIndex] + groupTerminals[..i] + rest[insertIndex..]
        invariant issued == old(issued) && SelectionUnchanged() && PendingUnchanged()
      {
        InsertStep(rest, groupTerminals, insertIndex, i);
        terminalStates := terminalStates[..insertIndex + i] + [groupTerminals[i]] + terminalStates[insertIndex + i..];
        i := i + 1;
      }
      assert groupTerminals[..i] == groupTerminals;
      assert terminalStates == GroupMoved(before, name, targetIndex);
      GroupMovedIsPermutation(before, name, targetIndex);
      PermutationKeepsValid(before, terminalStates);
      moved := true;
    }

    // -------------------------------------------------------------------------
    // Selection commands

    /** `selectTerminalInGroup(groupIndex:terminalIndex:)`. */
    method SelectTerminalInGroup(groupIndex: nat, terminalIndex: nat)
      requires Valid()
      modifies this
      ensures Valid()
      ensures SelectedPer(SlotTarget(GroupsOf(old(terminalStates)), groupIndex, terminalIndex))
      ensures RegistryUnchanged() && PendingUnchanged()
    {
      var groups := BuildProjectGroups();
      if groupIndex >= |groups| {
        return;
      }
      var group := groups[groupIndex];
      if terminalIndex >= |group.terminalIds| {
        return;
      }
      SelectTerminal(group.terminalIds[terminalIndex]);
    }

    /** `cancelPendingSelection()`: forgets the first stroke and stops its timer. */
    method CancelPendingSelection()
      requires Valid()
      modifies this
      ensures Valid()
      ensures pendingGroupIndex == None && !pendingTimerArmed
      ensures RegistryUnchanged() && SelectionUnchanged()
    {
      pendingGroupIndex := None;
      pendingTimerArmed := false;
    }

    /** `selectLastInPendingGroup()`, run when the timer fires: a single stroke selects
        the group's remembered (or first) terminal. */
    method SelectLastInPendingGroup()
      requires Valid()
      modifies this
      ensures Valid()
      ensures SelectedPer(
        if old(pendingGroupIndex).Some?
        then LastSelectedIn(GroupsOf(old(terminalStates)), old(lastSelectedInGroup), old(pendingGroupIndex).value)
        else None)
      ensures pendingGroupIndex == None && !pendingTimerArmed
      ensures RegistryUnchanged()
    {
      if pendingGroupIndex.Some? {
        var terminalId := GetLastSelectedInGroup(pendingGroupIndex.value);
        if terminalId.Some? {
          SelectTerminal(terminalId.value);
        }
      }
      CancelPendingSelection();
    }

    /** `selectPreviousTerminal()`. */
    method SelectPreviousTerminal()
      requires Valid()
      modifies this
      ensures Valid()
      ensures SelectedPer(PreviousTerminalTarget(old(terminalStates), old(selectedTerminalId)))
      ensures RegistryUnchanged() && PendingUnchanged()
    {
      if selectedTerminalId.None? {
        return;
      }
      var currentIndex := IndexOfId(terminalStates, selectedTerminalId.value);
      if currentIndex.None? {
        return;
      }
      var newIndex := if currentIndex.value > 0 then currentIndex.value - 1 else |terminalStates| - 1;
      SelectTerminal(terminalStates[newIndex].id);
    }

    /** `selectNextTerminal()`. */
    method SelectNextTerminal()
      requires Valid()
      modifies this
      ensures Valid()
      ensures SelectedPer(NextTerminalTarget(old(terminalStates), old(selectedTerminalId)))
      ensures RegistryUnchanged() && PendingUnchanged()
    {
      if selectedTerminalId.None? {
        return;
      }
      var currentIndex := IndexOfId(terminalStates, selectedTerminalId.value);
      if currentIndex.None? {
        return;
      }
      var newIndex := (currentIndex.value + 1) % |terminalStates|;
      SelectTerminal(terminalStates[newIndex].id);
    }

    /** `selectPreviousGroup()`. */
    method SelectPreviousGroup()
      requires Valid()
      modifies this
      ensures Valid()
      ensures SelectedPer(PreviousGroupTarget(GroupsOf(old(terminalStates)), old(selectedTerminalId), old(lastSelectedInGroup)))
      ensures RegistryUnchanged() && PendingUnchanged()
    {
      var groups := BuildProjectGroups();
      if |groups| <= 1 {
        return;
      }
      if selectedTerminalId.None? {
        return;
      }
      var currentGroupIndex := FindCurrentGroupIndex(groups, selectedTerminalId.value);
      var newGroupIndex := if currentGroupIndex > 0 then currentGroupIndex - 1 else |groups| - 1;
      var terminalId := GetLastSelectedInGroup(newGroupIndex);
      assert terminalId == PreviousGroupTarget(groups, selectedTerminalId, lastSelectedInGroup);
      if terminalId.Some? {
        SelectTerminal(terminalId.value);
      }
    }

    /** `selectNextGroup()`. */
    method SelectNextGroup()
      requires Valid()
      modifies this
      ensures Valid()
      ensures SelectedPer(NextGroupTarget(GroupsOf(old(terminalStates)), old(selectedTerminalId), old(lastSelectedInGroup)))
      ensures RegistryUnchanged() && PendingUnchanged()
    {
      var groups := BuildProjectGroups();
      if |groups| <= 1 {
        return;
      }
      if selectedTerminalId.None? {
        return;
      }
      var currentGroupIndex := FindCurrentGroupIndex(groups, selectedTerminalId.value);
      var newGroupIndex := (currentGroupIndex + 1) % |groups|;
      var terminalId := GetLastSelectedInGroup(newGroupIndex);
      assert terminalId == NextGroupTarget(groups, selectedTerminalId, lastSelectedInGroup);
      if terminalId.Some? {
        SelectTerminal(terminalId.value);
      }
    }

    // -------------------------------------------------------------------------
    // Key handling

    /** `handleKeyEvent(_:)`: Command-Shift-Up/Down move between groups, Command-Up/Down
        between terminals, and Command-digit is one stroke of a two-stroke selection;
        the result says whether the window consumed the event. */
    method HandleKeyEvent(event: KeyEvent) returns (consumed: bool)
      requires Valid()
      modifies this
      ensures Valid()
      ensures RegistryUnchanged()
      ensures !event.command ==> !consumed && SelectionUnchanged() && PendingUnchanged()
      ensures event.command && event.shift && event.keyCode == UpArrowKey ==>
        consumed && PendingUnchanged() &&
        SelectedPer(PreviousGroupTarget(GroupsOf(old(terminalStates)), old(selectedTerminalId), old(lastSelectedInGroup)))
      ensures event.command && event.shift && event.keyCode == DownArrowKey ==>
        consumed && PendingUnchanged() &&
        SelectedPer(NextGroupTarget(GroupsOf(old(terminalStates)), old(selectedTerminalId), old(lastSelectedInGroup)))
      ensures event.command && !event.shift && event.keyCode == UpArrowKey ==>
        consumed && PendingUnchanged() &&
        SelectedPer(PreviousTerminalTarget(old(terminalStates), old(selectedTerminalId)))
      ensures event.command && !event.shift && event.keyCode == DownArrowKey ==>
        consumed && PendingUnchanged() &&
        SelectedPer(NextTerminalTarget(old(terminalStates), old(selectedTerminalId)))
      ensures event.command && event.keyCode != UpArrowKey && event.keyCode != DownArrowKey &&
              NumberFromEvent(event).None? ==>
        !consumed && SelectionUnchanged() && PendingUnchanged()
      ensures event.command && event.keyCode != UpArrowKey && event.keyCode != DownArrowKey &&
              NumberFromEvent(event).Some? && old(pendingGroupIndex).Some? ==>
        consumed && pendingGroupIndex == None && !pendingTimerArmed &&
        SelectedPer(SlotTarget(GroupsOf(old(terminalStates)), old(pendingGroupIndex).value,
                               NumberFromEvent(event).value - 1))
      ensures event.command && event.keyCode != UpArrowKey && event.keyCode != DownArrowKey &&
              NumberFromEvent(event).Some? && old(pendingGroupIndex).None? ==>
        consumed && SelectionUnchanged() &&
        pendingGroupIndex == Some(NumberFromEvent(event).value - 1) && pendingTimerArmed
    {
      if !event.command {
        return false;
      }
      if event.shift {
        if event.keyCode == UpArrowKey {
          SelectPreviousGroup();
          return true;
        } else if event.keyCode == DownArrowKey {
          SelectNextGroup();
          return true;
        }
      }
      if event.keyCode == UpArrowKey {
        SelectPreviousTerminal();
        return true;
      } else if event.keyCode == DownArrowKey {
        SelectNextTerminal();
        return true;
      }
      var number := NumberFromEvent(event);
      if number.None? {
        return false;
      }
      if pendingGroupIndex.Some? {
        SelectTerminalInGroup(pendingGroupIndex.value, number.value - 1);
        CancelPendingSelection();
        return true;
      }
      pendingGroupIndex := Some(number.value - 1);
      pendingTimerArmed := true;
      return true;
    }

    // -------------------------------------------------------------------------
    // Tabs and the terminal views' callbacks

    /** `createInitialTerminal()`: a first terminal in the home directory, selected. */
    method CreateInitialTerminal(fileExists: string -> bool) returns (state: TerminalState)
      requires Valid()
      modifies this
      ensures Valid()
      ensures terminalStates == old(terminalStates) + [state]
      ensures state.currentDirectory == None && state.projectName == ProjectClassifier.UnknownLabel
      ensures state.title == DefaultTitle && state.lastActivityTime == DistantPast && state.lastContentHash == None
      ensures state.id.n == old(issued) && state.terminalView.n == old(issued) && issued == old(issued) + 1
      ensures forall st :: st in old(terminalStates) ==> st.id != state.id && st.terminalView != state.terminalView
      ensures selectedTerminalId == Some(state.id)
      ensures lastSelectedInGroup == old(lastSelectedInGroup)[state.projectName := state.id]
      ensures PendingUnchanged()
    {
      state := CreateTerminal(None, fileExists);
      IndexOfUniqueId(terminalStates, |terminalStates| - 1);
      SelectTerminal(state.id);
    }

    /** `newTab()`: a terminal opened in the selected terminal's directory (when it still
        exists), appended and selected. */
    method NewTab(fileExists: string -> bool) returns (state: TerminalState)
      requires Valid()
      modifies this
      ensures Valid()
      ensures terminalStates == old(terminalStates) + [state]
      ensures var inherited := if old(SelectedTerminal()).Some? then old(SelectedTerminal()).value.currentDirectory else None;
        state.currentDirectory == if inherited.Some? && fileExists(inherited.value) then inherited else None
      ensures state.projectName == ProjectNameOf(state.currentDirectory)
      ensures state.title == DefaultTitle && state.lastActivityTime == DistantPast && state.lastContentHash == None
      ensures state.id.n == old(issued) && state.terminalView.n == old(issued) && issued == old(issued) + 1
      ensures forall st :: st in old(terminalStates) ==> st.id != state.id && st.terminalView != state.terminalView
      ensures selectedTerminalId == Some(state.id)
      ensures lastSelectedInGroup == old(lastSelectedInGroup)[state.projectName := state.id]
      ensures PendingUnchanged()
    {
      var selected := SelectedTerminal();
      var currentDir := if selected.Some? then selected.value.currentDirectory else None;
      state := CreateTerminal(currentDir, fileExists);
      IndexOfUniqueId(terminalStates, |terminalStates| - 1);
      SelectTerminal(state.id);
    }

    /** `closeCurrentTerminal()`. */
    method CloseCurrentTerminal()
      requires Valid()
      modifies this
      ensures Valid()
      ensures old(selectedTerminalId).None? ==> RegistryUnchanged() && SelectionUnchanged()
      ensures old(selectedTerminalId).Some? ==>
        terminalStates == WithoutId(old(terminalStates), old(selectedTerminalId).value) &&
        selectedTerminalId == (if terminalStates == [] then None else Some(terminalStates[0].id))
      ensures lastSelectedInGroup == old(lastSelectedInGroup) && issued == old(issued) && PendingUnchanged()
    {
      if selectedTerminalId.None? {
        return;
      }
      RemoveTerminal(selectedTerminalId.value);
    }

    /** The directory a shell reports, normalised through `URL(string:)?.path`. */
    function ReportedDirectory(directory: Option<string>): Option<string> {
      if directory.Some? && urlPath(directory.value).Some? then urlPath(directory.value) else directory
    }

    /** `hostCurrentDirectoryUpdate(source:directory:)`: the terminal showing the view
        records the (normalised) directory and is re-labelled. */
    method HostCurrentDirectoryUpdate(source: ViewHandle, directory: Option<string>)
      requires Valid()
      modifies this
      ensures Valid()
      ensures match IndexOfView(old(terminalStates), source)
        case None => terminalStates == old(terminalStates)
        case Some(k) =>
          terminalStates == old(terminalStates)[k := old(terminalStates)[k].(
            currentDirectory := ReportedDirectory(directory),
            projectName := ProjectNameOf(ReportedDirectory(directory)))]
      ensures issued == old(issued) && SelectionUnchanged() && PendingUnchanged()
    {
      match IndexOfView(terminalStates, source) {
        case Some(k) =>
          var path := directory;
          if directory.Some? && urlPath(directory.value).Some? {
            path := urlPath(directory.value);
          }
          IndexOfUniqueId(terminalStates, k);
          UpdateTerminalDirectory(terminalStates[k].id, path);
        case None =>
      }
    }

    /** `setTerminalTitle(source:title:)`: the terminal showing the view records the
        title; the result is the new window title when that terminal is the selected
        one (the application's name for an empty title), None when the window title
        stays. */
    method SetTerminalTitle(source: ViewHandle, title: string) returns (windowTitle: Option<string>)
      requires Valid()
      modifies this
      ensures Valid()
      ensures match IndexOfView(old(terminalStates), source)
        case None => terminalStates == old(terminalStates)
        case Some(k) => terminalStates == old(terminalStates)[k := old(terminalStates)[k].(title := title)]
      ensures windowTitle.Some? <==> SelectedTerminal().Some? && SelectedTerminal().value.terminalView == source
      ensures windowTitle.Some? ==> windowTitle.value == if title == [] then AppTitle else title
      ensures issued == old(issued) && SelectionUnchanged() && PendingUnchanged()
    {
      match IndexOfView(terminalStates, source) {
        case Some(k) =>
          IndexOfUniqueId(terminalStates, k);
          UpdateTerminalTitle(terminalStates[k].id, title);
        case None =>
      }
      var selected := SelectedTerminal();
      windowTitle := None;
      if selected.Some? && selected.value.terminalView == source {
        windowTitle := Some(if title == [] then AppTitle else title);
      }
    }

    /** `processTerminated(source:exitCode:)`: the terminal showing the view is removed;
        the result says whether the window is to close because none is left. */
    method ProcessTerminated(source: ViewHandle) returns (closeWindow: bool)
      requires Valid()
      modifies this
      ensures Valid()
      ensures match IndexOfView(old(terminalStates), source)
        case None => !closeWindow && RegistryUnchanged() && SelectionUnchanged()
        case Some(k) =>
          && terminalStates == RemoveAt(old(terminalStates), k)
          && selectedTerminalId == SelectionAfterRemoval(old(selectedTerminalId), old(terminalStates)[k].id, terminalStates)
          && lastSelectedInGroup == old(lastSelectedInGroup)
          && closeWindow == (terminalStates == [])
      ensures issued == old(issued) && PendingUnchanged()
    {
      closeWindow := false;
      match IndexOfView(terminalStates, source) {
        case Some(k) =>
          WithoutIdRemovesOne(terminalStates, k);
          RemoveTerminal(terminalStates[k].id);
          closeWindow := terminalStates == [];
        case None =>
      }
    }
  }
}
