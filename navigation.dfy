/**
 * What the window's selection commands pick, as functions of the registry, the
 * current selection and the per-group record of last selections.  `None` means the
 * command leaves the selection alone.
 */
module Navigation {
  import opened Wrappers
  import opened Registry

  /** The per-group record after `selectTerminal(id:)`: the first state with that id,
      if there is one, has its project's entry set to the id; nothing else changes. */
  function RecordSelection(s: seq<TerminalState>, m: map<string, Uuid>, id: Uuid): (r: map<string, Uuid>)
    ensures IndexOfId(s, id).None? ==> r == m
    ensures IndexOfId(s, id).Some? ==>
      var name := s[IndexOfId(s, id).value].projectName;
      r.Keys == m.Keys + {name} && r[name] == id &&
      forall n :: n in m && n != name ==> r[n] == m[n]
  {
    match IndexOfId(s, id)
    case None => m
    case Some(k) => m[s[k].projectName := id]
  }

  /** With unique ids the lookup by id finds the one state carrying it. */
  lemma IndexOfUniqueId(s: seq<TerminalState>, k: nat)
    requires UniqueIds(s) && k < |s|
    ensures IndexOfId(s, s[k].id) == Some(k)
  {
  }

  /** The selection after `removeTerminal(id:)` has left `remaining`: a selection of the
      removed id moves to the first remaining terminal, or to nothing. */
  function SelectionAfterRemoval(selected: Option<Uuid>, id: Uuid, remaining: seq<TerminalState>): (r: Option<Uuid>)
    ensures selected != Some(id) ==> r == selected
    ensures selected == Some(id) ==> (r.None? <==> remaining == [])
    ensures selected == Some(id) && r.Some? ==> r.value in Ids(remaining) && r.value == remaining[0].id
  {
    if selected == Some(id) then
      if remaining == [] then None
      else
        assert Ids(remaining)[0] == remaining[0].id;
        Some(remaining[0].id)
    else selected
  }

  // ---------------------------------------------------------------------------
  // Moving through the whole registry

  /** Command-Down: the terminal after the selected one, wrapping to the first. */
  function NextTerminalTarget(s: seq<TerminalState>, selected: Option<Uuid>): (r: Option<Uuid>)
    ensures r.Some? <==> selected.Some? && IndexOfId(s, selected.value).Some?
    ensures r.Some? ==> r.value in Ids(s)
  {
    match selected
    case None => None
    case Some(current) =>
      match IndexOfId(s, current)
      case None => None
      case Some(i) =>
        assert Ids(s)[NextIndex(i, |s|)] == s[NextIndex(i, |s|)].id;
        Some(s[NextIndex(i, |s|)].id)
  }

  /** Command-Up: the terminal before the selected one, wrapping to the last. */
  function PreviousTerminalTarget(s: seq<TerminalState>, selected: Option<Uuid>): (r: Option<Uuid>)
    ensures r.Some? <==> selected.Some? && IndexOfId(s, selected.value).Some?
    ensures r.Some? ==> r.value in Ids(s)
  {
    match selected
    case None => None
    case Some(current) =>
      match IndexOfId(s, current)
      case None => None
      case Some(i) =>
        assert Ids(s)[PreviousIndex(i, |s|)] == s[PreviousIndex(i, |s|)].id;
        Some(s[PreviousIndex(i, |s|)].id)
  }

  /** Moving down then up (or up then down) comes back to the same terminal, and the
      step lands on the neighbouring position. */
  lemma TerminalStepsUndoEachOther(s: seq<TerminalState>, k: nat)
    requires UniqueIds(s) && k < |s|
    ensures NextTerminalTarget(s, Some(s[k].id)) == Some(s[NextIndex(k, |s|)].id)
    ensures PreviousTerminalTarget(s, Some(s[k].id)) == Some(s[PreviousIndex(k, |s|)].id)
    ensures PreviousTerminalTarget(s, NextTerminalTarget(s, Some(s[k].id))) == Some(s[k].id)
    ensures NextTerminalTarget(s, PreviousTerminalTarget(s, Some(s[k].id))) == Some(s[k].id)
  {
    IndexOfUniqueId(s, k);
    IndexOfUniqueId(s, NextIndex(k, |s|));
    IndexOfUniqueId(s, PreviousIndex(k, |s|));
    NavigationWraps(k, |s|);
  }

  // ---------------------------------------------------------------------------
  // Moving between groups

  /** The first group listing the id (the loop in `selectPreviousGroup`/`selectNextGroup`). */
  function FirstGroupWith(groups: seq<ProjectGroup>, id: Uuid): (r: Option<nat>)
    ensures r.None? <==> forall g :: 0 <= g < |groups| ==> id !in groups[g].terminalIds
    ensures r.Some? ==> r.value < |groups| && id in groups[r.value].terminalIds
    ensures r.Some? ==> forall g :: 0 <= g < r.value ==> id !in groups[g].terminalIds
  {
    if groups == [] then None
    else if id in groups[0].terminalIds then Some(0)
    else match FirstGroupWith(groups[1..], id)
      case None => None
      case Some(g) => Some(g + 1)
  }

  /** The group the navigation starts from: the first one listing the id, else group 0. */
  function CurrentGroupIndex(groups: seq<ProjectGroup>, id: Uuid): (r: nat)
    ensures groups != [] ==> r < |groups|
  {
    FirstGroupWith(groups, id).GetOr(0)
  }

  /** Command-Shift-Down: the remembered (or first) terminal of the next group. */
  function NextGroupTarget(groups: seq<ProjectGroup>, selected: Option<Uuid>, m: map<string, Uuid>): (r: Option<Uuid>)
    ensures |groups| <= 1 || selected.None? ==> r == None
    ensures r.Some? ==>
      |groups| > 1 && selected.Some? &&
      r.value in groups[NextIndex(CurrentGroupIndex(groups, selected.value), |groups|)].terminalIds
  {
    if |groups| <= 1 then None
    else match selected
      case None => None
      case Some(current) =>
        LastSelectedIn(groups, m, NextIndex(CurrentGroupIndex(groups, current), |groups|))
  }

  /** Command-Shift-Up: the remembered (or first) terminal of the previous group. */
  function PreviousGroupTarget(groups: seq<ProjectGroup>, selected: Option<Uuid>, m: map<string, Uuid>): (r: Option<Uuid>)
    ensures |groups| <= 1 || selected.None? ==> r == None
    ensures r.Some? ==>
      |groups| > 1 && selected.Some? &&
      r.value in groups[PreviousIndex(CurrentGroupIndex(groups, selected.value), |groups|)].terminalIds
  {
    if |groups| <= 1 then None
    else match selected
      case None => None
      case Some(current) =>
        LastSelectedIn(groups, m, PreviousIndex(CurrentGroupIndex(groups, current), |groups|))
  }

  /** Over the registry's groups, an id of the registry is listed by exactly one group. */
  lemma {:induction false} GroupOfIdIsUnique(s: seq<TerminalState>, id: Uuid, g: nat, h: nat)
    requires UniqueIds(s)
    requires g < |GroupsOf(s)| && h < |GroupsOf(s)|
    requires id in GroupsOf(s)[g].terminalIds && id in GroupsOf(s)[h].terminalIds
    ensures g == h
  {
    var groups := GroupsOf(s);
    MemberIdIsRegistryId(s, Names(s)[g], id);
    var k :| 0 <= k < |s| && s[k].id == id;
    IdInExactlyOneGroup(s);
    assert groups[g].name == s[k].projectName == groups[h].name;
    NamesDistinct(s);
    assert Names(s)[g] == Names(s)[h];
  }

  lemma MemberIdIsRegistryId(s: seq<TerminalState>, name: string, id: Uuid)
    requires id in Ids(Members(s, name))
    ensures exists k :: 0 <= k < |s| && s[k].id == id
  {
    var m := Members(s, name);
    var j :| 0 <= j < |m| && Ids(m)[j] == id;
    MembersAreFilter(s, name);
    assert m[j] in m;
  }

  lemma CurrentGroupOfMember(s: seq<TerminalState>, id: Uuid, g: nat)
    requires UniqueIds(s)
    requires g < |GroupsOf(s)| && id in GroupsOf(s)[g].terminalIds
    ensures CurrentGroupIndex(GroupsOf(s), id) == g
  {
    var f := FirstGroupWith(GroupsOf(s), id);
    GroupOfIdIsUnique(s, id, f.value, g);
  }

  /** With two or more groups, Command-Shift-Down from a terminal of group `g`
      selects a terminal of the next group, wrapping to the first. */
  lemma NextGroupLands(s: seq<TerminalState>, m: map<string, Uuid>, g: nat, id: Uuid)
    requires UniqueIds(s)
    requires |GroupsOf(s)| > 1 && g < |GroupsOf(s)| && id in GroupsOf(s)[g].terminalIds
    ensures NextGroupTarget(GroupsOf(s), Some(id), m).Some?
    ensures CurrentGroupIndex(GroupsOf(s), NextGroupTarget(GroupsOf(s), Some(id), m).value) ==
              NextIndex(g, |GroupsOf(s)|)
  {
    CurrentGroupOfMember(s, id, g);
    var next := NextIndex(g, |GroupsOf(s)|);
    LastSelectedIsMember(s, m, next);
    CurrentGroupOfMember(s, NextGroupTarget(GroupsOf(s), Some(id), m).value, next);
  }

  /** With two or more groups, Command-Shift-Up from a terminal of group `g`
      selects a terminal of the previous group, wrapping to the last. */
  lemma PreviousGroupLands(s: seq<TerminalState>, m: map<string, Uuid>, g: nat, id: Uuid)
    requires UniqueIds(s)
    requires |GroupsOf(s)| > 1 && g < |GroupsOf(s)| && id in GroupsOf(s)[g].terminalIds
    ensures PreviousGroupTarget(GroupsOf(s), Some(id), m).Some?
    ensures CurrentGroupIndex(GroupsOf(s), PreviousGroupTarget(GroupsOf(s), Some(id), m).value) ==
              PreviousIndex(g, |GroupsOf(s)|)
  {
    CurrentGroupOfMember(s, id, g);
    var previous := PreviousIndex(g, |GroupsOf(s)|);
    LastSelectedIsMember(s, m, previous);
    CurrentGroupOfMember(s, PreviousGroupTarget(GroupsOf(s), Some(id), m).value, previous);
  }

  /** Command-Shift-Down then Command-Shift-Up returns to the group the navigation
      started in (not necessarily to the same terminal). */
  lemma GroupStepsUndoEachOther(s: seq<TerminalState>, m: map<string, Uuid>, g: nat, id: Uuid)
    requires UniqueIds(s)
    requires |GroupsOf(s)| > 1 && g < |GroupsOf(s)| && id in GroupsOf(s)[g].terminalIds
    ensures var x := NextGroupTarget(GroupsOf(s), Some(id), m);
      x.Some? && PreviousGroupTarget(GroupsOf(s), x, m).Some? &&
      CurrentGroupIndex(GroupsOf(s), PreviousGroupTarget(GroupsOf(s), x, m).value) == g
  {
    var n := |GroupsOf(s)|;
    NextGroupLands(s, m, g, id);
    var x := NextGroupTarget(GroupsOf(s), Some(id), m).value;
    var next := NextIndex(g, n);
    LastSelectedIsMember(s, m, next);
    assert x in GroupsOf(s)[next].terminalIds;
    PreviousGroupLands(s, m, next, x);
    NavigationWraps(g, n);
  }

  /** With fewer than two groups the group commands do nothing. */
  lemma SingleGroupDoesNotMove(s: seq<TerminalState>, selected: Option<Uuid>, m: map<string, Uuid>)
    requires |Names(s)| <= 1
    ensures NextGroupTarget(GroupsOf(s), selected, m) == None
    ensures PreviousGroupTarget(GroupsOf(s), selected, m) == None
  {
  }

  // ---------------------------------------------------------------------------
  // Two-stroke selection

  /** `selectTerminalInGroup(groupIndex:terminalIndex:)`: the terminal at that slot of
      that group, when both are in range. */
  function SlotTarget(groups: seq<ProjectGroup>, groupIndex: nat, terminalIndex: nat): Option<Uuid> {
    if groupIndex < |groups| && terminalIndex < |groups[groupIndex].terminalIds| then
      Some(groups[groupIndex].terminalIds[terminalIndex])
    else None
  }

  /** On the registry, Command-g then Command-t picks the t-th terminal (from 1) of the
      g-th project in order of first appearance, and nothing when either is out of range. */
  lemma SlotIsTerminalOfProject(s: seq<TerminalState>, groupIndex: nat, terminalIndex: nat)
    ensures SlotTarget(GroupsOf(s), groupIndex, terminalIndex).Some? <==>
      groupIndex < |Names(s)| && terminalIndex < |Members(s, Names(s)[groupIndex])|
    ensures SlotTarget(GroupsOf(s), groupIndex, terminalIndex).Some? ==>
      var member := Members(s, Names(s)[groupIndex])[terminalIndex];
      SlotTarget(GroupsOf(s), groupIndex, terminalIndex).value == member.id &&
      member.projectName == Names(s)[groupIndex] &&
      member in s
  {
    if groupIndex < |Names(s)| && terminalIndex < |Members(s, Names(s)[groupIndex])| {
      var name := Names(s)[groupIndex];
      MembersAreFilter(s, name);
      MembersAllNamed(s, name);
      assert Members(s, name)[terminalIndex] in Members(s, name);
    }
  }
}
