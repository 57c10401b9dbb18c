/**
 * The per-window terminal registry as values: the state record of one terminal,
 * the project groups derived from the ordered registry, and the reorderings
 * the window applies to it.
 */
module Registry {
  import opened Wrappers

  /** A terminal's immutable identifier (`UUID` in the source). */
  datatype Uuid = Uuid(n: nat)
  /** An opaque handle on a terminal's view (`LocalProcessTerminalView`). */
  datatype ViewHandle = ViewHandle(n: nat)

  /** Times are integer milliseconds since Foundation's reference date (2001-01-01);
      `Date.distantPast` is 1 January of year 1. */
  const DistantPast: int := -63114076800000
  const DefaultTitle: string := "Terminal"

  /** `TerminalState`: one terminal of a window. */
  datatype TerminalState = TerminalState(
    id: Uuid,
    terminalView: ViewHandle,
    currentDirectory: Option<string>,
    title: string,
    projectName: string,
    lastActivityTime: int,
    lastContentHash: Option<int>)

  /** `ProjectGroup`: a project label and the ids of its terminals, in registry order. */
  datatype ProjectGroup = ProjectGroup(name: string, terminalIds: seq<Uuid>)

  function Ids(s: seq<TerminalState>): seq<Uuid> {
    seq(|s|, k requires 0 <= k < |s| => s[k].id)
  }

  predicate UniqueIds(s: seq<TerminalState>) {
    forall i, j :: 0 <= i < j < |s| ==> s[i].id != s[j].id
  }

  /** First position of `x` in `xs` (Swift's `firstIndex(of:)`). */
  function IndexOf<T(==)>(xs: seq<T>, x: T): (r: Option<nat>)
    ensures r.None? <==> x !in xs
    ensures r.Some? ==> r.value < |xs| && xs[r.value] == x
    ensures r.Some? ==> forall k :: 0 <= k < r.value ==> xs[k] != x
  {
    if xs == [] then None
    else if xs[0] == x then Some(0)
    else match IndexOf(xs[1..], x)
      case None => None
      case Some(k) => Some(k + 1)
  }

  /** First position of a state with the given id (`firstIndex(where: { $0.id == id })`). */
  function IndexOfId(s: seq<TerminalState>, id: Uuid): (r: Option<nat>)
    ensures r.None? <==> forall k :: 0 <= k < |s| ==> s[k].id != id
    ensures r.Some? ==> r.value < |s| && s[r.value].id == id
    ensures r.Some? ==> forall k :: 0 <= k < r.value ==> s[k].id != id
  {
    var r := IndexOf(Ids(s), id);
    assert forall k :: 0 <= k < |s| ==> Ids(s)[k] == s[k].id;
    r
  }

  /** First position of a state in the given project (`firstIndex(where: { $0.projectName == name })`). */
  function IndexOfName(s: seq<TerminalState>, name: string): (r: Option<nat>)
    ensures r.None? <==> forall k :: 0 <= k < |s| ==> s[k].projectName != name
    ensures r.Some? ==> r.value < |s| && s[r.value].projectName == name
    ensures r.Some? ==> forall k :: 0 <= k < r.value ==> s[k].projectName != name
  {
    if s == [] then None
    else if s[0].projectName == name then Some(0)
    else match IndexOfName(s[1..], name)
      case None => None
      case Some(k) => Some(k + 1)
  }

  function Last<T>(s: seq<T>): T
    requires s != []
  {
    s[|s| - 1]
  }

  function DropLast<T>(s: seq<T>): seq<T>
    requires s != []
  {
    s[..|s| - 1]
  }

  /** A non-empty sequence is its front followed by its last element. */
  lemma SplitLast<T>(s: seq<T>)
    requires s != []
    ensures s == DropLast(s) + [Last(s)]
  {
  }

  // ---------------------------------------------------------------------------
  // Reference definitions of the grouping

  /** The states of project `name`, in registry order. */
  function Members(s: seq<TerminalState>, name: string): seq<TerminalState>
    decreases |s|
  {
    if s == [] then []
    else Members(DropLast(s), name) + (if Last(s).projectName == name then [Last(s)] else [])
  }

  /** The states of every other project, in registry order. */
  function Others(s: seq<TerminalState>, name: string): seq<TerminalState>
    decreases |s|
  {
    if s == [] then []
    else Others(DropLast(s), name) + (if Last(s).projectName != name then [Last(s)] else [])
  }

  /** Positions of the states of project `name` (`enumerated().filter` on the name). */
  function Offsets(s: seq<TerminalState>, name: string): (r: seq<nat>)
    ensures forall j :: 0 <= j < |r| ==> r[j] < |s| && s[r[j]].projectName == name
    decreases |s|
  {
    if s == [] then []
    else Offsets(DropLast(s), name) + (if Last(s).projectName == name then [|s| - 1] else [])
  }

  /** Project names in order of first appearance. */
  function Names(s: seq<TerminalState>): seq<string>
    decreases |s|
  {
    if s == [] then []
    else
      var before := Names(DropLast(s));
      if Last(s).projectName in before then before else before + [Last(s).projectName]
  }

  /** The groups `buildProjectGroups` is to return. */
  function GroupsOf(s: seq<TerminalState>): seq<ProjectGroup> {
    var names := Names(s);
    seq(|names|, k requires 0 <= k < |names| => ProjectGroup(names[k], Ids(Members(s, names[k]))))
  }

  function GroupNames(groups: seq<ProjectGroup>): seq<string> {
    seq(|groups|, k requires 0 <= k < |groups| => groups[k].name)
  }

  // ---------------------------------------------------------------------------
  // Properties of the reference definitions

  lemma {:induction false} MembersConcat(a: seq<TerminalState>, b: seq<TerminalState>, name: string)
    ensures Members(a + b, name) == Members(a, name) + Members(b, name)
    ensures Others(a + b, name) == Others(a, name) + Others(b, name)
    decreases |b|
  {
    if b == [] {
      assert a + b == a;
    } else {
      assert DropLast(a + b) == a + DropLast(b);
      MembersConcat(a, DropLast(b), name);
    }
  }

  lemma MembersOfSingleton(x: TerminalState, name: string)
    ensures Members([x], name) == if x.projectName == name then [x] else []
    ensures Others([x], name) == if x.projectName != name then [x] else []
  {
    assert DropLast([x]) == [];
  }

  /** A state is a member of a project exactly when it is in the registry with that name. */
  lemma {:induction false} MembersAreFilter(s: seq<TerminalState>, name: string)
    ensures forall x :: x in Members(s, name) <==> x in s && x.projectName == name
    ensures forall x :: x in Others(s, name) <==> x in s && x.projectName != name
    decreases |s|
  {
    if s != [] {
      MembersAreFilter(DropLast(s), name);
      assert s == DropLast(s) + [Last(s)];
    }
  }

  /** Splitting by project loses and invents nothing. */
  lemma {:induction false} MembersPartition(s: seq<TerminalState>, name: string)
    ensures multiset(Members(s, name)) + multiset(Others(s, name)) == multiset(s)
    decreases |s|
  {
    if s != [] {
      MembersPartition(DropLast(s), name);
      assert s == DropLast(s) + [Last(s)];
    }
  }

  /** The offsets of a project list its members in registry order, and all of them. */
  lemma {:induction false} OffsetsListMembers(s: seq<TerminalState>, name: string)
    ensures |Offsets(s, name)| == |Members(s, name)|
    ensures forall j :: 0 <= j < |Offsets(s, name)| ==> s[Offsets(s, name)[j]] == Members(s, name)[j]
    ensures forall i, j :: 0 <= i < j < |Offsets(s, name)| ==> Offsets(s, name)[i] < Offsets(s, name)[j]
    ensures forall k :: 0 <= k < |s| && s[k].projectName == name ==> k in Offsets(s, name)
    decreases |s|
  {
    if s != [] {
      var p := DropLast(s);
      OffsetsListMembers(p, name);
      assert forall k :: 0 <= k < |p| ==> s[k] == p[k];
    }
  }

  lemma {:induction false} NamesComplete(s: seq<TerminalState>)
    ensures forall n :: n in Names(s) <==> exists k :: 0 <= k < |s| && s[k].projectName == n
    decreases |s|
  {
    if s != [] {
      var p := DropLast(s);
      NamesComplete(p);
      forall n ensures n in Names(s) <==> exists k :: 0 <= k < |s| && s[k].projectName == n {
        if n in Names(s) && n != Last(s).projectName {
          assert n in Names(p);
          var k :| 0 <= k < |p| && p[k].projectName == n;
          assert s[k] == p[k];
        }
        if k :| 0 <= k < |s| && s[k].projectName == n {
          if k < |p| { assert p[k] == s[k]; }
        }
      }
    }
  }

  lemma {:induction false} NamesDistinct(s: seq<TerminalState>)
    ensures forall i, j :: 0 <= i < j < |Names(s)| ==> Names(s)[i] != Names(s)[j]
    decreases |s|
  {
    if s != [] {
      NamesDistinct(DropLast(s));
    }
  }

  /** Groups come in order of first appearance: wherever a later group's name
      occurs, an earlier group's name has already occurred. */
  lemma {:induction false} NamesInFirstAppearanceOrder(s: seq<TerminalState>)
    ensures forall i, j, k :: 0 <= i < j < |Names(s)| && 0 <= k < |s| && s[k].projectName == Names(s)[j] ==>
      exists k' :: 0 <= k' < k && s[k'].projectName == Names(s)[i]
    decreases |s|
  {
    if s != [] {
      var p := DropLast(s);
      NamesInFirstAppearanceOrder(p);
      NamesComplete(p);
      assert forall k :: 0 <= k < |p| ==> s[k] == p[k];
      forall i, j, k | 0 <= i < j < |Names(s)| && 0 <= k < |s| && s[k].projectName == Names(s)[j]
        ensures exists k' :: 0 <= k' < k && s[k'].projectName == Names(s)[i]
      {
        assert Names(s)[i] == Names(p)[i];
        if k < |p| {
          assert j < |Names(p)|;
          var k' :| 0 <= k' < k && p[k'].projectName == Names(p)[i];
          assert s[k'] == p[k'];
        } else if j < |Names(p)| {
          assert Names(p)[j] in Names(p);
          var k0 :| 0 <= k0 < |p| && p[k0].projectName == Names(p)[j];
          var k' :| 0 <= k' < k0 && p[k'].projectName == Names(p)[i];
          assert s[k'] == p[k'];
        } else {
          assert Names(p)[i] in Names(p);
          var k' :| 0 <= k' < |p| && p[k'].projectName == Names(p)[i];
          assert s[k'] == p[k'];
        }
      }
    }
  }

  /** A project that does not appear in the registry has no states. */
  lemma AbsentNameHasNoMembers(s: seq<TerminalState>, name: string)
    requires name !in Names(s)
    ensures Members(s, name) == []
  {
    NamesComplete(s);
    MembersAreFilter(s, name);
  }

  /** Every group has at least one terminal. */
  lemma GroupsAreNonEmpty(s: seq<TerminalState>)
    ensures forall g :: 0 <= g < |GroupsOf(s)| ==> GroupsOf(s)[g].terminalIds != []
  {
    NamesComplete(s);
    forall g | 0 <= g < |GroupsOf(s)| ensures GroupsOf(s)[g].terminalIds != [] {
      var n := Names(s)[g];
      assert n in Names(s);
      var k :| 0 <= k < |s| && s[k].projectName == n;
      MembersAreFilter(s, n);
      assert s[k] in Members(s, n);
    }
  }

  /** With unique ids, every registry id lies in exactly one group, the group of its project. */
  lemma IdInExactlyOneGroup(s: seq<TerminalState>)
    requires UniqueIds(s)
    ensures forall k :: 0 <= k < |s| ==>
      exists g :: 0 <= g < |GroupsOf(s)| &&
        GroupsOf(s)[g].name == s[k].projectName && s[k].id in GroupsOf(s)[g].terminalIds
    ensures forall k, g :: 0 <= k < |s| && 0 <= g < |GroupsOf(s)| && s[k].id in GroupsOf(s)[g].terminalIds ==>
      GroupsOf(s)[g].name == s[k].projectName
  {
    var groups := GroupsOf(s);
    NamesComplete(s);
    forall k | 0 <= k < |s|
      ensures exists g ::
                0 <= g < |groups| && groups[g].name == s[k].projectName && s[k].id in groups[g].terminalIds
    {
      var n := s[k].projectName;
      assert n in Names(s);
      var g :| 0 <= g < |Names(s)| && Names(s)[g] == n;
      MembersAreFilter(s, n);
      var m := Members(s, n);
      assert s[k] in m;
      var j :| 0 <= j < |m| && m[j] == s[k];
      assert Ids(m)[j] == s[k].id;
      assert groups[g].name == n;
    }
    forall k, g | 0 <= k < |s| && 0 <= g < |groups| && s[k].id in groups[g].terminalIds
      ensures groups[g].name == s[k].projectName
    {
      var n := Names(s)[g];
      var m := Members(s, n);
      var j :| 0 <= j < |Ids(m)| && Ids(m)[j] == s[k].id;
      MembersAreFilter(s, n);
      assert m[j] in m;
      var k2 :| 0 <= k2 < |s| && s[k2] == m[j];
      assert s[k2].id == s[k].id;
      assert k2 == k;
    }
  }

  // ---------------------------------------------------------------------------
  // Lookup of the last selected terminal of a group

  /** `getLastSelectedInGroup`: the terminal recorded as last selected in the group
      when it is still a member, otherwise the group's first terminal; nothing when
      the index is out of range. */
  function LastSelectedIn(groups: seq<ProjectGroup>, lastSelected: map<string, Uuid>, groupIndex: nat): (r: Option<Uuid>)
    ensures groupIndex >= |groups| ==> r == None
    ensures groupIndex < |groups| && groups[groupIndex].name in lastSelected &&
            lastSelected[groups[groupIndex].name] in groups[groupIndex].terminalIds ==>
              r == Some(lastSelected[groups[groupIndex].name])
    ensures r.Some? ==> groupIndex < |groups| && r.value in groups[groupIndex].terminalIds
    ensures r.Some? && r.value != groups[groupIndex].terminalIds[0] ==>
              groups[groupIndex].name in lastSelected && lastSelected[groups[groupIndex].name] == r.value
  {
    if groupIndex >= |groups| then None
    else
      var group := groups[groupIndex];
      if group.name in lastSelected && lastSelected[group.name] in group.terminalIds then
        Some(lastSelected[group.name])
      else if group.terminalIds == [] then None
      else Some(group.terminalIds[0])
  }

  /** Over the registry's own groups the lookup finds a member for every index in range. */
  lemma LastSelectedIsMember(s: seq<TerminalState>, lastSelected: map<string, Uuid>, groupIndex: nat)
    requires groupIndex < |GroupsOf(s)|
    ensures LastSelectedIn(GroupsOf(s), lastSelected, groupIndex).Some?
  {
    GroupsAreNonEmpty(s);
  }

  // ---------------------------------------------------------------------------
  // Moving one terminal within its group

  function RemoveAt<T>(s: seq<T>, i: nat): seq<T>
    requires i < |s|
  {
    s[..i] + s[i + 1..]
  }

  function InsertAt<T>(s: seq<T>, i: nat, x: T): seq<T>
    requires i <= |s|
  {
    s[..i] + [x] + s[i..]
  }

  /** Where the moved state is re-inserted once it has been removed. */
  function Adjusted(source: nat, target: nat): nat {
    if source < target then target - 1 else target
  }

  /** `remove(at: source)` followed by `insert(_, at: Adjusted(source, target))`. */
  function Moved(s: seq<TerminalState>, source: nat, target: nat): seq<TerminalState>
    requires source < |s| && target <= |s|
  {
    InsertAt(RemoveAt(s, source), Adjusted(source, target), s[source])
  }

  /** The group slot a drop index is clamped to, in a group of `count` members. */
  function ClampedSlot(targetIndex: int, count: nat): nat
    requires count > 0
  {
    if targetIndex >= count then count - 1
    else if targetIndex <= 0 then 0
    else targetIndex
  }

  function IdsAt(s: seq<TerminalState>, offsets: seq<nat>): seq<Uuid>
    requires forall j :: 0 <= j < |offsets| ==> offsets[j] < |s|
  {
    seq(|offsets|, j requires 0 <= j < |offsets| => s[offsets[j]].id)
  }

  /** `moveTerminal(id:toIndex:inGroup:)` as written: the global source and target
      positions, or None when it returns false. */
  function MoveTerminalPlan(s: seq<TerminalState>, id: Uuid, targetIndex: int, groupName: string): Option<(nat, nat)>
  {
    var offsets := Offsets(s, groupName);
    match IndexOf(IdsAt(s, offsets), id)
    case None => None
    case Some(slot) =>
      var source := offsets[slot];
      var target := offsets[ClampedSlot(targetIndex, |offsets|)];
      if source == target then None else Some((source, target))
  }

  lemma IdsAtOffsets(s: seq<TerminalState>, name: string)
    ensures IdsAt(s, Offsets(s, name)) == Ids(Members(s, name))
  {
    OffsetsListMembers(s, name);
  }

  /** moveTerminal refuses exactly when the id is not in the group, or when the
      clamped slot is the slot the terminal already has. */
  lemma MoveTerminalRefuses(s: seq<TerminalState>, id: Uuid, targetIndex: int, groupName: string)
    requires UniqueIds(s)
    ensures var ids := Ids(Members(s, groupName));
      MoveTerminalPlan(s, id, targetIndex, groupName).None? <==>
        (id !in ids || ids[ClampedSlot(targetIndex, |ids|)] == id)
  {
    var offsets := Offsets(s, groupName);
    IdsAtOffsets(s, groupName);
    OffsetsListMembers(s, groupName);
  }

  /** A move takes the terminal with that id from the group to another slot of the same group. */
  lemma MoveTerminalPlanShape(s: seq<TerminalState>, id: Uuid, targetIndex: int, groupName: string)
    requires MoveTerminalPlan(s, id, targetIndex, groupName).Some?
    ensures var (source, target) := MoveTerminalPlan(s, id, targetIndex, groupName).value;
      && source < |s| && target < |s| && source != target
      && s[source].id == id && s[source].projectName == groupName
      && s[target].projectName == groupName
  {
  }

  /** `remove(at:)` then `insert(_:at:)` on the adjusted index is the move. */
  lemma RemoveThenInsert(s: seq<TerminalState>, source: nat, target: nat)
    requires source < |s| && target <= |s|
    ensures var rest := s[..source] + s[source + 1..];
      var at := if source < target then target - 1 else target;
      at <= |rest| && rest[..at] + [s[source]] + rest[at..] == Moved(s, source, target)
  {
  }

  lemma {:induction false} MovedIsPermutation(s: seq<TerminalState>, source: nat, target: nat)
    requires source < |s| && target <= |s|
    ensures |Moved(s, source, target)| == |s|
    ensures multiset(Moved(s, source, target)) == multiset(s)
  {
    var rest := RemoveAt(s, source);
    var a := Adjusted(source, target);
    assert s == s[..source] + [s[source]] + s[source + 1..];
    assert multiset(s) == multiset(s[..source]) + multiset([s[source]]) + multiset(s[source + 1..]);
    assert multiset(rest) == multiset(s[..source]) + multiset(s[source + 1..]);
    assert rest == rest[..a] + rest[a..];
    assert multiset(rest) == multiset(rest[..a]) + multiset(rest[a..]);
    var r := Moved(s, source, target);
    assert r == rest[..a] + [s[source]] + rest[a..];
    assert multiset(r) == multiset(rest[..a]) + multiset([s[source]]) + multiset(rest[a..]);
    assert multiset(r) == multiset(rest) + multiset([s[source]]);
    assert multiset(r) == multiset(s[..source]) + multiset([s[source]]) + multiset(s[source + 1..]);
  }

  /** Only the moved terminal changes place: deleting it from the old and the new
      sequence leaves the same sequence. */
  lemma MovedKeepsOthersInOrder(s: seq<TerminalState>, source: nat, target: nat)
    requires source < |s| && target <= |s|
    ensures Adjusted(source, target) < |Moved(s, source, target)|
    ensures Moved(s, source, target)[Adjusted(source, target)] == s[source]
    ensures RemoveAt(Moved(s, source, target), Adjusted(source, target)) == RemoveAt(s, source)
  {
    var rest := RemoveAt(s, source);
    var a := Adjusted(source, target);
    var r := Moved(s, source, target);
    assert r == rest[..a] + [s[source]] + rest[a..];
    assert r[..a] == rest[..a];
    assert r[a + 1..] == rest[a..];
    assert rest == rest[..a] + rest[a..];
  }

  lemma MembersOfRemoveAt(s: seq<TerminalState>, i: nat, name: string)
    requires i < |s| && s[i].projectName != name
    ensures Members(RemoveAt(s, i), name) == Members(s, name)
  {
    assert s == s[..i] + [s[i]] + s[i + 1..];
    MembersConcat(s[..i] + [s[i]], s[i + 1..], name);
    MembersConcat(s[..i], [s[i]], name);
    MembersConcat(s[..i], s[i + 1..], name);
    MembersOfSingleton(s[i], name);
  }

  lemma MembersOfInsertAt(s: seq<TerminalState>, i: nat, x: TerminalState, name: string)
    requires i <= |s| && x.projectName != name
    ensures Members(InsertAt(s, i, x), name) == Members(s, name)
  {
    assert s == s[..i] + s[i..];
    MembersConcat(s[..i] + [x], s[i..], name);
    MembersConcat(s[..i], [x], name);
    MembersConcat(s[..i], s[i..], name);
    MembersOfSingleton(x, name);
  }

  /** Moving a terminal leaves the membership and order of every other group alone. */
  lemma MovedKeepsOtherGroups(s: seq<TerminalState>, source: nat, target: nat, name: string)
    requires source < |s| && target <= |s| && s[source].projectName != name
    ensures Members(Moved(s, source, target), name) == Members(s, name)
  {
    MembersOfRemoveAt(s, source, name);
    MembersOfInsertAt(RemoveAt(s, source), Adjusted(source, target), s[source], name);
  }

  lemma NoMembersAfterLastOffset(s: seq<TerminalState>, name: string)
    requires Offsets(s, name) != []
    ensures forall k :: Last(Offsets(s, name)) < k < |s| ==> s[k].projectName != name
    ensures |Members(s, name)| == |Offsets(s, name)|
    ensures Last(Members(s, name)) == s[Last(Offsets(s, name))]
  {
    OffsetsListMembers(s, name);
  }

  /** A sequence wholly inside, or wholly outside, a project filters to itself or to nothing. */
  lemma {:induction false} AllMembers(t: seq<TerminalState>, name: string)
    requires forall k :: 0 <= k < |t| ==> t[k].projectName == name
    ensures Members(t, name) == t && Others(t, name) == []
    decreases |t|
  {
    if t != [] {
      AllMembers(DropLast(t), name);
      assert t == DropLast(t) + [Last(t)];
    }
  }

  lemma {:induction false} NoMembers(t: seq<TerminalState>, name: string)
    requires forall k :: 0 <= k < |t| ==> t[k].projectName != name
    ensures Members(t, name) == [] && Others(t, name) == t
    decreases |t|
  {
    if t != [] {
      NoMembers(DropLast(t), name);
      assert t == DropLast(t) + [Last(t)];
    }
  }

  /** Appending a member and then only non-members: that member is the last one. */
  lemma MembersEndWith(p: seq<TerminalState>, x: TerminalState, tail: seq<TerminalState>, name: string)
    requires x.projectName == name
    requires forall k :: 0 <= k < |tail| ==> tail[k].projectName != name
    ensures Members(p + [x] + tail, name) == Members(p, name) + [x]
  {
    NoMembers(tail, name);
    MembersConcat(p + [x], tail, name);
    MembersConcat(p, [x], name);
    MembersOfSingleton(x, name);
  }

  /** As written, a drop past the end of the group puts the terminal just BEFORE the
      group's last member: that member stays last. */
  lemma MoveToEndStopsBeforeLast(s: seq<TerminalState>, id: Uuid, targetIndex: int, groupName: string)
    requires UniqueIds(s)
    requires MoveTerminalPlan(s, id, targetIndex, groupName).Some?
    requires targetIndex >= |Members(s, groupName)|
    ensures var (source, target) := MoveTerminalPlan(s, id, targetIndex, groupName).value;
      var after := Members(Moved(s, source, target), groupName);
      && after != [] && Members(s, groupName) != []
      && Last(after) == Last(Members(s, groupName))
      && Last(Members(s, groupName)) != s[source]
  {
    var (source, target) := MoveTerminalPlan(s, id, targetIndex, groupName).value;
    var offsets := Offsets(s, groupName);
    OffsetsListMembers(s, groupName);
    NoMembersAfterLastOffset(s, groupName);
    assert target == Last(offsets);
    assert source < target;
    var prefix := s[..source] + s[source + 1..target];
    SplitAroundMove(s, source, target);
    SplitAtEnd(s, target);
    assert Moved(s, source, target) == (prefix + [s[source]]) + [s[target]] + s[target + 1..];
    MembersEndWith(prefix + [s[source]], s[target], s[target + 1..], groupName);
  }

  /** The shape of a forward move: the states before the target, the moved state, then the target onward. */
  lemma SplitAroundMove(s: seq<TerminalState>, source: nat, target: nat)
    requires source < target <= |s|
    ensures Moved(s, source, target) == (s[..source] + s[source + 1..target]) + [s[source]] + s[target..]
  {
    var rest := RemoveAt(s, source);
    assert rest[..target - 1] == s[..source] + s[source + 1..target];
    assert rest[target - 1..] == s[target..];
  }

  lemma SplitAtEnd(s: seq<TerminalState>, target: nat)
    requires target < |s|
    ensures s[target..] == [s[target]] + s[target + 1..]
  {
  }

  lemma ThreeMemberOffsets(a: TerminalState, b: TerminalState, c: TerminalState, name: string)
    requires a.projectName == name && b.projectName == name && c.projectName == name
    ensures Offsets([a, b, c], name) == [0, 1, 2]
  {
    assert DropLast([a]) == [];
    assert Offsets([a], name) == [0];
    assert DropLast([a, b]) == [a];
    assert Offsets([a, b], name) == [0, 1];
    assert DropLast([a, b, c]) == [a, b];
  }

  /** A concrete case: members A, B, C of one project; dragging A past the end gives B, A, C. */
  lemma MoveToEndExample()
    ensures var a := TerminalState(Uuid(0), ViewHandle(0), None, DefaultTitle, "p", DistantPast, None);
      var b := a.(id := Uuid(1), terminalView := ViewHandle(1));
      var c := a.(id := Uuid(2), terminalView := ViewHandle(2));
      MoveTerminalPlan([a, b, c], Uuid(0), 3, "p") == Some((0, 2)) &&
      Moved([a, b, c], 0, 2) == [b, a, c]
  {
    var a := TerminalState(Uuid(0), ViewHandle(0), None, DefaultTitle, "p", DistantPast, None);
    var b := a.(id := Uuid(1), terminalView := ViewHandle(1));
    var c := a.(id := Uuid(2), terminalView := ViewHandle(2));
    ThreeMemberOffsets(a, b, c, "p");
    assert IdsAt([a, b, c], [0, 1, 2]) == [Uuid(0), Uuid(1), Uuid(2)];
    assert IndexOf([Uuid(0), Uuid(1), Uuid(2)], Uuid(0)) == Some(0);
    MoveExampleShape(a, b, c);
  }

  lemma MoveExampleShape(a: TerminalState, b: TerminalState, c: TerminalState)
    ensures Moved([a, b, c], 0, 2) == [b, a, c]
  {
    assert RemoveAt([a, b, c], 0) == [b, c];
    assert InsertAt([b, c], 1, a) == [b, a, c];
  }

  /** The evidently intended plan: a drop past the end of the group targets the
      position just after the group's last member. */
  function IntendedMoveTerminalPlan(s: seq<TerminalState>, id: Uuid, targetIndex: int, groupName: string): (r: Option<(nat, nat)>)
    ensures r.Some? ==> r.value.0 < |s| && r.value.1 <= |s|
  {
    var offsets := Offsets(s, groupName);
    match IndexOf(IdsAt(s, offsets), id)
    case None => None
    case Some(slot) =>
      var source := offsets[slot];
      var clamped := ClampedSlot(targetIndex, |offsets|);
      if source == offsets[clamped] then None
      else if targetIndex >= |offsets| then Some((source, Last(offsets) + 1))
      else Some((source, offsets[clamped]))
  }

  /** With the intended plan, a drop past the end makes the terminal the group's last member. */
  lemma IntendedMoveToEndIsLast(s: seq<TerminalState>, id: Uuid, targetIndex: int, groupName: string)
    requires IntendedMoveTerminalPlan(s, id, targetIndex, groupName).Some?
    requires targetIndex >= |Members(s, groupName)|
    ensures var (source, target) := IntendedMoveTerminalPlan(s, id, targetIndex, groupName).value;
      var after := Members(Moved(s, source, target), groupName);
      after != [] && Last(after) == s[source]
  {
    var (source, target) := IntendedMoveTerminalPlan(s, id, targetIndex, groupName).value;
    var offsets := Offsets(s, groupName);
    OffsetsListMembers(s, groupName);
    NoMembersAfterLastOffset(s, groupName);
    var last := Last(offsets);
    assert target == last + 1;
    assert source < last;
    SplitAroundMove(s, source, target);
    MembersEndWith(s[..source] + s[source + 1..target], s[source], s[target..], groupName);
  }

  /** The intended plan refuses in exactly the cases the written one does, and moves
      the terminal with that id out of the group. */
  lemma IntendedRefusesLikeWritten(s: seq<TerminalState>, id: Uuid, targetIndex: int, groupName: string)
    ensures IntendedMoveTerminalPlan(s, id, targetIndex, groupName).None? <==>
            MoveTerminalPlan(s, id, targetIndex, groupName).None?
    ensures IntendedMoveTerminalPlan(s, id, targetIndex, groupName).Some? ==>
      var (source, target) := IntendedMoveTerminalPlan(s, id, targetIndex, groupName).value;
      s[source].id == id && s[source].projectName == groupName && source != target
  {
    OffsetsListMembers(s, groupName);
  }

  /** Away from the end of the group the intended plan is the written one. */
  lemma IntendedAgreesInsideGroup(s: seq<TerminalState>, id: Uuid, targetIndex: int, groupName: string)
    requires targetIndex < |Members(s, groupName)|
    ensures IntendedMoveTerminalPlan(s, id, targetIndex, groupName) == MoveTerminalPlan(s, id, targetIndex, groupName)
  {
    OffsetsListMembers(s, groupName);
  }

  // ---------------------------------------------------------------------------
  // Moving a whole group

  /** Where `moveGroup` inserts the block, among the states of the other groups. */
  function GroupInsertIndex(rest: seq<TerminalState>, groups: seq<ProjectGroup>, targetIndex: int): (r: nat)
    ensures r <= |rest|
  {
    if targetIndex <= 0 then 0
    else if targetIndex >= |groups| then |rest|
    else match IndexOfName(rest, groups[targetIndex].name)
      case Some(k) => k
      case None => |rest|
  }

  /** Whether `moveGroup(name:toIndex:)` moves anything; it returns this value. */
  function MoveGroupApplies(s: seq<TerminalState>, name: string, targetIndex: int): bool {
    match IndexOf(GroupNames(GroupsOf(s)), name)
    case None => false
    case Some(source) => source != targetIndex && source != targetIndex - 1 && Members(s, name) != []
  }

  /** The registry after `moveGroup(name:toIndex:)` has moved the group. */
  function GroupMoved(s: seq<TerminalState>, name: string, targetIndex: int): seq<TerminalState> {
    var rest := Others(s, name);
    var at := GroupInsertIndex(rest, GroupsOf(s), targetIndex);
    rest[..at] + Members(s, name) + rest[at..]
  }

  lemma GroupNamesOfGroups(s: seq<TerminalState>)
    ensures GroupNames(GroupsOf(s)) == Names(s)
  {
  }

  /** moveGroup refuses exactly for an unknown name, or a target that is the group's
      own index or the index just after it. */
  lemma MoveGroupRefuses(s: seq<TerminalState>, name: string, targetIndex: int)
    ensures !MoveGroupApplies(s, name, targetIndex) <==>
      (name !in Names(s) ||
       targetIndex == IndexOf(Names(s), name).value ||
       targetIndex == IndexOf(Names(s), name).value + 1)
  {
    GroupNamesOfGroups(s);
    if name in Names(s) {
      NamesComplete(s);
      var k :| 0 <= k < |s| && s[k].projectName == name;
      MembersAreFilter(s, name);
      assert s[k] in Members(s, name);
    }
  }

  lemma MembersAllNamed(s: seq<TerminalState>, name: string)
    ensures forall k :: 0 <= k < |Members(s, name)| ==> Members(s, name)[k].projectName == name
    ensures forall k :: 0 <= k < |Others(s, name)| ==> Others(s, name)[k].projectName != name
  {
    MembersAreFilter(s, name);
    assert forall k :: 0 <= k < |Members(s, name)| ==> Members(s, name)[k] in Members(s, name);
    assert forall k :: 0 <= k < |Others(s, name)| ==> Others(s, name)[k] in Others(s, name);
  }

  /** moveGroup loses and duplicates nothing. */
  lemma GroupMovedIsPermutation(s: seq<TerminalState>, name: string, targetIndex: int)
    ensures multiset(GroupMoved(s, name, targetIndex)) == multiset(s)
  {
    var rest := Others(s, name);
    var at := GroupInsertIndex(rest, GroupsOf(s), targetIndex);
    var m := Members(s, name);
    assert rest == rest[..at] + rest[at..];
    assert multiset(rest) == multiset(rest[..at]) + multiset(rest[at..]);
    MembersPartition(s, name);
  }

  /** The members of a block inserted among non-members are the block itself. */
  lemma FilterAroundBlock(a: seq<TerminalState>, m: seq<TerminalState>, b: seq<TerminalState>, name: string)
    requires forall k :: 0 <= k < |m| ==> m[k].projectName == name
    requires forall k :: 0 <= k < |a| ==> a[k].projectName != name
    requires forall k :: 0 <= k < |b| ==> b[k].projectName != name
    ensures Members(a + m + b, name) == m
    ensures Others(a + m + b, name) == a + b
  {
    AllMembers(m, name);
    NoMembers(a, name);
    NoMembers(b, name);
    MembersConcat(a + m, b, name);
    MembersConcat(a, m, name);
    assert Members(a + m, name) == m;
    assert Others(a + m, name) == a;
  }

  /** The moved group keeps its internal order and the other states keep theirs. */
  lemma GroupMovedKeepsOrder(s: seq<TerminalState>, name: string, targetIndex: int)
    ensures Members(GroupMoved(s, name, targetIndex), name) == Members(s, name)
    ensures Others(GroupMoved(s, name, targetIndex), name) == Others(s, name)
  {
    var rest := Others(s, name);
    var at := GroupInsertIndex(rest, GroupsOf(s), targetIndex);
    MembersAllNamed(s, name);
    FilterAroundBlock(rest[..at], Members(s, name), rest[at..], name);
    assert rest == rest[..at] + rest[at..];
  }

  /** The moved group occupies one contiguous block starting at the insertion index. */
  lemma GroupMovedIsContiguous(s: seq<TerminalState>, name: string, targetIndex: int)
    ensures var r := GroupMoved(s, name, targetIndex);
      var at := GroupInsertIndex(Others(s, name), GroupsOf(s), targetIndex);
      var m := Members(s, name);
      && at + |m| <= |r| && r[at..at + |m|] == m
      && forall k :: 0 <= k < |r| && (k < at || k >= at + |m|) ==> r[k].projectName != name
  {
    var rest := Others(s, name);
    var at := GroupInsertIndex(rest, GroupsOf(s), targetIndex);
    var m := Members(s, name);
    var r := GroupMoved(s, name, targetIndex);
    MembersAllNamed(s, name);
    assert r[at..at + |m|] == m;
    forall k | 0 <= k < |r| && (k < at || k >= at + |m|) ensures r[k].projectName != name {
      if k < at { assert r[k] == rest[k]; } else { assert r[k] == rest[k - |m|]; }
    }
  }

  /** The block lands at the front for a target index of at most 0, at the end for
      one past the last group, and otherwise right before the first state of the
      group that held the target index before the move. */
  lemma GroupMovePlacement(s: seq<TerminalState>, name: string, targetIndex: int)
    requires MoveGroupApplies(s, name, targetIndex)
    ensures var groups := GroupsOf(s);
      var rest := Others(s, name);
      var at := GroupInsertIndex(rest, groups, targetIndex);
      && (targetIndex <= 0 ==> at == 0)
      && (targetIndex >= |groups| ==> at == |rest|)
      && (0 < targetIndex < |groups| ==>
            && groups[targetIndex].name != name
            && at < |rest| && rest[at].projectName == groups[targetIndex].name
            && forall k :: 0 <= k < at ==> rest[k].projectName != groups[targetIndex].name)
  {
    var groups := GroupsOf(s);
    var rest := Others(s, name);
    GroupNamesOfGroups(s);
    if 0 < targetIndex < |groups| {
      var target := Names(s)[targetIndex];
      var source := IndexOf(Names(s), name).value;
      NamesDistinct(s);
      assert target != name;
      NamesComplete(s);
      assert target in Names(s);
      var k :| 0 <= k < |s| && s[k].projectName == target;
      MembersAreFilter(s, name);
      assert s[k] in rest;
      var j :| 0 <= j < |rest| && rest[j] == s[k];
    }
  }

  // ---------------------------------------------------------------------------
  // Removing a terminal, and finding the terminal of a view

  /** The registry without the states carrying `id` (`removeAll { $0.id == id }`). */
  function WithoutId(s: seq<TerminalState>, id: Uuid): (r: seq<TerminalState>)
    ensures forall x :: x in r ==> x in s && x.id != id
    decreases |s|
  {
    if s == [] then []
    else WithoutId(DropLast(s), id) + (if Last(s).id != id then [Last(s)] else [])
  }

  /** Nothing but the states with that id goes. */
  lemma {:induction false} WithoutIdKeepsOthers(s: seq<TerminalState>, id: Uuid)
    ensures forall x :: x in s && x.id != id ==> x in WithoutId(s, id)
    decreases |s|
  {
    if s != [] {
      WithoutIdKeepsOthers(DropLast(s), id);
      assert s == DropLast(s) + [Last(s)];
    }
  }

  lemma {:induction false} WithoutAbsentId(s: seq<TerminalState>, id: Uuid)
    requires forall k :: 0 <= k < |s| ==> s[k].id != id
    ensures WithoutId(s, id) == s
    decreases |s|
  {
    if s != [] {
      var p := DropLast(s);
      assert forall k :: 0 <= k < |p| ==> p[k] == s[k];
      WithoutAbsentId(p, id);
      assert Last(s).id != id;
      SplitLast(s);
    }
  }

  /** With unique ids, removing an id removes exactly the one state carrying it. */
  lemma {:induction false} WithoutIdRemovesOne(s: seq<TerminalState>, k: nat)
    requires UniqueIds(s) && k < |s|
    ensures WithoutId(s, s[k].id) == RemoveAt(s, k)
    decreases |s|
  {
    var id := s[k].id;
    var p := DropLast(s);
    if k == |s| - 1 {
      assert forall j :: 0 <= j < |p| ==> p[j].id != id by {
        forall j | 0 <= j < |p| ensures p[j].id != id {
          assert p[j] == s[j];
        }
      }
      WithoutAbsentId(p, id);
      assert RemoveAt(s, k) == p;
    } else {
      assert p[k] == s[k];
      UniqueIdsOfPrefix(s);
      WithoutIdRemovesOne(p, k);
      RemoveBeforeLast(s, k);
    }
  }

  lemma UniqueIdsOfPrefix(s: seq<TerminalState>)
    requires UniqueIds(s) && s != []
    ensures UniqueIds(DropLast(s))
  {
    var p := DropLast(s);
    assert forall j :: 0 <= j < |p| ==> p[j] == s[j];
  }

  lemma RemoveBeforeLast<T>(s: seq<T>, k: nat)
    requires k < |s| - 1
    ensures RemoveAt(s, k) == RemoveAt(DropLast(s), k) + [Last(s)]
  {
  }

  lemma RemoveAtKeepsUnique(s: seq<TerminalState>, k: nat)
    requires UniqueIds(s) && k < |s|
    ensures UniqueIds(RemoveAt(s, k))
    ensures forall x :: x in RemoveAt(s, k) ==> x in s
  {
    var r := RemoveAt(s, k);
    assert forall i :: 0 <= i < |r| ==> r[i] == (if i < k then s[i] else s[i + 1]);
  }

  /** First position of the state showing `view` (`first(where: { $0.terminalView === source })`). */
  function IndexOfView(s: seq<TerminalState>, view: ViewHandle): (r: Option<nat>)
    ensures r.None? <==> forall k :: 0 <= k < |s| ==> s[k].terminalView != view
    ensures r.Some? ==> r.value < |s| && s[r.value].terminalView == view
    ensures r.Some? ==> forall k :: 0 <= k < r.value ==> s[k].terminalView != view
  {
    if s == [] then None
    else if s[0].terminalView == view then Some(0)
    else match IndexOfView(s[1..], view)
      case None => None
      case Some(k) => Some(k + 1)
  }

  // ---------------------------------------------------------------------------
  // Linear navigation arithmetic

  function NextIndex(i: nat, n: nat): nat
    requires i < n
  {
    (i + 1) % n
  }

  function PreviousIndex(i: nat, n: nat): nat
    requires i < n
  {
    if i > 0 then i - 1 else n - 1
  }

  /** Next and previous stay in range, wrap around, and undo each other. */
  lemma NavigationWraps(i: nat, n: nat)
    requires i < n
    ensures NextIndex(i, n) < n && PreviousIndex(i, n) < n
    ensures NextIndex(i, n) == if i == n - 1 then 0 else i + 1
    ensures PreviousIndex(NextIndex(i, n), n) == i
    ensures NextIndex(PreviousIndex(i, n), n) == i
  {
  }
}

/** Multiset lemmas used to carry the registry invariant across reorderings. */
module Permutations {
  import opened Registry

  lemma {:induction false} TwoCopiesCount<T>(b: seq<T>, i: nat, j: nat)
    requires i < j < |b| && b[i] == b[j]
    ensures multiset(b)[b[i]] >= 2
  {
    assert b == b[..j] + [b[j]] + b[j + 1..];
    assert b[..j][i] == b[i];
    assert b[i] in multiset(b[..j]);
    assert multiset(b) == multiset(b[..j]) + multiset([b[j]]) + multiset(b[j + 1..]);
  }

  lemma {:induction false} CountTwoHasTwoCopies<T>(a: seq<T>, x: T)
    requires multiset(a)[x] >= 2
    ensures exists p, q :: 0 <= p < q < |a| && a[p] == x && a[q] == x
  {
    assert x in multiset(a);
    var p :| 0 <= p < |a| && a[p] == x;
    assert a == a[..p] + [a[p]] + a[p + 1..];
    assert multiset(a) == multiset(a[..p]) + multiset([a[p]]) + multiset(a[p + 1..]);
    if x in multiset(a[p + 1..]) {
      var q' :| 0 <= q' < |a[p + 1..]| && a[p + 1..][q'] == x;
      assert a[p + 1 + q'] == x;
    } else {
      assert x in multiset(a[..p]);
      var p' :| 0 <= p' < |a[..p]| && a[..p][p'] == x;
      assert a[p'] == x;
    }
  }

  /** Rearranging the registry keeps its ids unique. */
  lemma PermutationKeepsUniqueIds(a: seq<TerminalState>, b: seq<TerminalState>)
    requires multiset(a) == multiset(b) && UniqueIds(a)
    ensures UniqueIds(b)
  {
    forall i, j | 0 <= i < j < |b| ensures b[i].id != b[j].id {
      if b[i] == b[j] {
        TwoCopiesCount(b, i, j);
        CountTwoHasTwoCopies(a, b[i]);
      } else {
        assert b[i] in multiset(b) && b[j] in multiset(b);
      }
    }
  }

  lemma PermutationKeepsStates(a: seq<TerminalState>, b: seq<TerminalState>)
    requires multiset(a) == multiset(b)
    ensures forall x :: x in b <==> x in a
  {
    forall x ensures x in b <==> x in a {
      assert x in b <==> x in multiset(b);
      assert x in a <==> x in multiset(a);
    }
  }
}
