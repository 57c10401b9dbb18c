/**
 * The tree view beside the terminals: it shows the window's project groups, rebuilds
 * itself only when the group structure changed, and on every drawing of a terminal
 * row samples that terminal's content hash into the window's registry.
 */
module Tree {
  import opened Wrappers
  import opened Registry
  import opened Window
  import Activity

  /** `needsFullReload`: the counts differ, or some pair of groups at the same position
      differs in name or in its list of ids. */
  function NeedsFullReload(shown: seq<ProjectGroup>, current: seq<ProjectGroup>): bool {
    || |shown| != |current|
    || exists i :: 0 <= i < |shown| && i < |current| &&
         (shown[i].name != current[i].name || shown[i].terminalIds != current[i].terminalIds)
  }

  /** The check asks for a reload exactly when the shown groups are not the current ones. */
  lemma NeedsFullReloadIffChanged(shown: seq<ProjectGroup>, current: seq<ProjectGroup>)
    ensures NeedsFullReload(shown, current) <==> shown != current
  {
    if |shown| == |current| && shown != current {
      var i :| 0 <= i < |shown| && shown[i] != current[i];
      assert shown[i].name != current[i].name || shown[i].terminalIds != current[i].terminalIds;
    }
  }

  class TreeView {
    /** The groups the view currently shows. */
    var projectGroups: seq<ProjectGroup>
    var windowController: WindowController?

    constructor (windowController: WindowController?)
      ensures projectGroups == [] && this.windowController == windowController
    {
      projectGroups := [];
      this.windowController := windowController;
    }

    /** `reloadTerminals()`: the view takes the window's current groups. */
    method ReloadTerminals()
      modifies this
      ensures windowController == old(windowController)
      ensures windowController == null ==> projectGroups == old(projectGroups)
      ensures windowController != null ==> projectGroups == GroupsOf(windowController.terminalStates)
    {
      var wc := windowController;
      if wc == null {
        return;
      }
      projectGroups := wc.BuildProjectGroups();
    }

    /** `refreshPreview()`, run every second: a full reload when the group structure
        changed; otherwise only the visible rows are redrawn. The result says which. */
    method RefreshPreview() returns (fullReload: bool)
      modifies this
      ensures windowController == old(windowController)
      ensures windowController == null ==> !fullReload && projectGroups == old(projectGroups)
      ensures windowController != null ==>
        fullReload == (old(projectGroups) != GroupsOf(windowController.terminalStates))
      ensures windowController != null ==> projectGroups == GroupsOf(windowController.terminalStates)
    {
      var wc := windowController;
      if wc == null {
        return false;
      }
      var newGroups := wc.BuildProjectGroups();
      NeedsFullReloadIffChanged(projectGroups, newGroups);
      fullReload := NeedsFullReload(projectGroups, newGroups);
      if fullReload {
        projectGroups := newGroups;
      }
    }

    /** The sampling step of `makeTerminalView`: the terminal with that id records the
        content hash (and, when it changed while not selected, the time), and the hint
        colour is worked out; grey when the terminal is selected or unknown. */
    method SampleActivity(id: Uuid, currentHash: int, now: int) returns (hint: Activity.Hint)
      requires windowController != null ==> windowController.Valid()
      modifies windowController
      ensures windowController == old(windowController)
      ensures windowController == null ==> hint == Activity.IdleGrey
      ensures windowController != null ==>
        && windowController.Valid()
        && windowController.selectedTerminalId == old(windowController.selectedTerminalId)
        && windowController.lastSelectedInGroup == old(windowController.lastSelectedInGroup)
        && windowController.pendingGroupIndex == old(windowController.pendingGroupIndex)
        && windowController.pendingTimerArmed == old(windowController.pendingTimerArmed)
        && windowController.issued == old(windowController.issued)
      ensures windowController != null ==>
        match IndexOfId(old(windowController.terminalStates), id)
        case None =>
          windowController.terminalStates == old(windowController.terminalStates) && hint == Activity.IdleGrey
        case Some(idx) =>
          var isSelected := old(windowController.selectedTerminalId) == Some(id);
          && windowController.terminalStates ==
               old(windowController.terminalStates)[idx := Activity.Sampled(
                 old(windowController.terminalStates)[idx], currentHash, isSelected, now)]
          && hint == Activity.DisplayedHint(windowController.terminalStates[idx], isSelected, now)
    {
      hint := Activity.IdleGrey;
      var wc := windowController;
      if wc == null {
        return;
      }
      match IndexOfId(wc.terminalStates, id) {
        case Some(idx) =>
          ghost var before := wc.terminalStates;
          var isSelected := wc.selectedTerminalId == Some(id);
          var state := wc.terminalStates[idx];
          if state.lastContentHash.Some? {
            if state.lastContentHash.value != currentHash {
              state := state.(lastContentHash := Some(currentHash));
              if !isSelected {
                state := state.(lastActivityTime := now);
              }
            }
          } else {
            state := state.(lastContentHash := Some(currentHash));
          }
          assert state == Activity.Sampled(before[idx], currentHash, isSelected, now);
          wc.terminalStates := wc.terminalStates[idx := state];
          wc.SameIdentityKeepsValid(before, wc.terminalStates);
          if !isSelected {
            hint := Activity.HintColor(now - wc.terminalStates[idx].lastActivityTime);
          }
        case None =>
      }
    }
  }
}
