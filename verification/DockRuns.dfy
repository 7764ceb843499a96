/** Runs of the dock: what the desktop may do next, and what holds after any number of steps. */
module DockRuns {
  import opened Lists
  import opened DockState
  import opened DockAgreement
  import opened DockCoverage
  import opened DockGrouping

  datatype Step =
    | WindowOpened(id: string)
    | WindowsClosed(first: int, last: int)
    | AppInstalled(id: string)
    | AppsUninstalled(first: int, last: int)
    | DockedReloaded(ids: seq<string>)
    | ItemDragged(from: int, to: int)
    | Regrouped(windowSplit: bool)

  /** What the source models can do: removals are ranges of existing rows, app ids are unique. */
  ghost predicate Possible(d: Dock, s: Step) {
    match s
    case WindowsClosed(first, last) => 0 <= first <= last < |d.windows|
    case AppsUninstalled(first, last) => 0 <= first <= last < |d.apps|
    case AppInstalled(id) => id !in d.apps
    case _ => true
  }

  function Dragged(data: seq<Entry>, from: int, to: int): seq<Entry> {
    if 0 <= from < |data| && 0 <= to < |data| then Move(data, from, to) else data
  }

  function Next(d: Dock, s: Step): Dock
    requires Possible(d, s)
  {
    match s
    case WindowOpened(id) => OpenWindow(d, id)
    case WindowsClosed(first, last) => CloseWindows(d, first, last)
    case AppInstalled(id) => InstallApp(d, id)
    case AppsUninstalled(first, last) => UninstallApps(d, first, last)
    case DockedReloaded(ids) => ReloadDocked(d, ids)
    case ItemDragged(from, to) => d.(data := Dragged(d.data, from, to))
    case Regrouped(windowSplit) => if windowSplit then d else d.(data := StableGrouping(d.data))
  }

  ghost predicate PossibleRun(d: Dock, steps: seq<Step>)
    decreases steps
  {
    steps == [] || (Possible(d, steps[0]) && PossibleRun(Next(d, steps[0]), steps[1..]))
  }

  ghost function After(d: Dock, steps: seq<Step>): Dock
    requires PossibleRun(d, steps)
    decreases steps
  {
    if steps == [] then d else After(Next(d, steps[0]), steps[1..])
  }

  lemma MovePermutes(data: seq<Entry>, from: nat, to: nat)
    requires from < |data| && to < |data|
    ensures multiset(Move(data, from, to)) == multiset(data)
  {
    RemoveAtMultiset(data, from);
    InsertAtMultiset(RemoveAt(data, from), to, data[from]);
  }

  lemma StepConsistent(d: Dock, s: Step)
    requires Consistent(d) && Possible(d, s)
    ensures Consistent(Next(d, s))
  {
    match s
    case WindowOpened(id) => OpenWindowConsistent(d, id);
    case WindowsClosed(first, last) => CloseWindowsConsistent(d, first, last);
    case AppInstalled(id) => InstallAppConsistent(d, id);
    case AppsUninstalled(first, last) => UninstallAppsConsistent(d, first, last);
    case DockedReloaded(ids) => ReloadDockedConsistent(d, ids);
    case ItemDragged(from, to) =>
      if 0 <= from < |d.data| && 0 <= to < |d.data| {
        MovePermutes(d.data, from, to);
        RearrangedConsistent(d, Move(d.data, from, to));
      }
    case Regrouped(windowSplit) =>
      if !windowSplit {
        StableGroupingPermutes(d.data);
        RearrangedConsistent(d, StableGrouping(d.data));
      }
  }

  lemma {:induction false} RunConsistent(d: Dock, steps: seq<Step>)
    requires Consistent(d) && PossibleRun(d, steps)
    ensures Consistent(After(d, steps))
    decreases steps
  {
    if steps != [] {
      StepConsistent(d, steps[0]);
      RunConsistent(Next(d, steps[0]), steps[1..]);
    }
  }

  /** The one step that can leave a docked, installed application without an entry. */
  ghost predicate LateInstall(d: Dock, s: Step) {
    s.AppInstalled? && s.id in d.docked && !HasId(d.data, s.id)
  }

  lemma StepCoveredIff(d: Dock, s: Step)
    requires Consistent(d) && Covered(d) && Possible(d, s)
    ensures Covered(Next(d, s)) <==> !LateInstall(d, s)
  {
    match s
    case WindowOpened(id) => OpenWindowCovered(d, id);
    case WindowsClosed(first, last) => CloseWindowsCovered(d, first, last);
    case AppInstalled(id) => InstallAppCoveredIff(d, id);
    case AppsUninstalled(first, last) => UninstallAppsCovered(d, first, last);
    case DockedReloaded(ids) => ReloadDockedCoveredIff(d, ids);
    case ItemDragged(from, to) =>
      if 0 <= from < |d.data| && 0 <= to < |d.data| {
        MovePermutes(d.data, from, to);
        RearrangedCovered(d, Move(d.data, from, to));
      }
    case Regrouped(windowSplit) =>
      if !windowSplit {
        StableGroupingPermutes(d.data);
        RearrangedCovered(d, StableGrouping(d.data));
      }
  }

  /** Of all steps, only opening one of its windows gives a docked id its missing entry. */
  lemma MissingUntilWindowOpens(d: Dock, s: Step, id: string)
    requires Consistent(d) && Possible(d, s) && id in d.docked && !HasId(d.data, id)
    ensures HasId(Next(d, s).data, id) <==> id != "" && s == WindowOpened(id)
  {
    match s
    case WindowOpened(other) =>
      if other != "" {
        PlaceMembers(d.data, other, |d.windows|);
        var r := Place(d.data, other, |d.windows|);
        assert forall k | 0 <= k < |r| :: r[k] in r;
      }
    case WindowsClosed(first, last) => NoNewId(d.data, CloseRows(d, first, last), id);
    case AppInstalled(other) =>
    case AppsUninstalled(first, last) => NoNewId(d.data, DropRows(Apps, first, last), id);
    case DockedReloaded(ids) => ReloadSkipsDocked(d, ids, id);
    case ItemDragged(from, to) =>
      if 0 <= from < |d.data| && 0 <= to < |d.data| {
        MovePermutes(d.data, from, to);
        SameIds(Move(d.data, from, to), d.data, id);
      }
    case Regrouped(windowSplit) =>
      if !windowSplit {
        StableGroupingPermutes(d.data);
        SameIds(StableGrouping(d.data), d.data, id);
      }
  }

  lemma NoNewId(data: seq<Entry>, f: Entry -> Option<Entry>, id: string)
    requires !HasId(data, id) && forall e :: f(e).Some? ==> f(e).value.id == e.id
    ensures !HasId(FilterMap(data, f), id)
  {
    var r := FilterMap(data, f);
    forall k | 0 <= k < |r| ensures r[k].id != id {
      FilterMapMember(data, f, r[k]);
    }
  }

  lemma SameIds(a: seq<Entry>, b: seq<Entry>, id: string)
    requires multiset(a) == multiset(b) && !HasId(b, id)
    ensures !HasId(a, id)
  {
    forall k | 0 <= k < |a| ensures a[k].id != id {
      assert a[k] in multiset(b);
    }
  }

  ghost predicate NoLateInstall(d: Dock, steps: seq<Step>)
    requires PossibleRun(d, steps)
    decreases steps
  {
    steps == [] || (!LateInstall(d, steps[0]) && NoLateInstall(Next(d, steps[0]), steps[1..]))
  }

  lemma {:induction false} RunCovered(d: Dock, steps: seq<Step>)
    requires Consistent(d) && Covered(d) && PossibleRun(d, steps) && NoLateInstall(d, steps)
    ensures Covered(After(d, steps))
    decreases steps
  {
    if steps != [] {
      StepConsistent(d, steps[0]);
      StepCoveredIff(d, steps[0]);
      RunCovered(Next(d, steps[0]), steps[1..]);
    }
  }

  const START := Dock([], [], [], [])

  /** Install, dock, uninstall, install again: the application ends up docked and installed without an
      entry, and no reload of the same list brings it back. */
  lemma LateInstallReachable()
    ensures var steps := [AppInstalled("a"), DockedReloaded(["a"]), AppsUninstalled(0, 0), AppInstalled("a")];
            && Consistent(START) && PossibleRun(START, steps)
            && After(START, steps) == Dock(["a"], [], ["a"], [])
            && !Covered(After(START, steps))
            && !Covered(Next(After(START, steps), DockedReloaded(["a"])))
  {
    var launcher := Entry("a", Apps, 0);
    var d1, d2 := Dock(["a"], [], [], []), Dock(["a"], [], ["a"], [launcher]);
    var d3, d4 := Dock([], [], ["a"], []), Dock(["a"], [], ["a"], []);
    assert Next(START, AppInstalled("a")) == d1;
    DockOne(d1, d2);
    UninstallOne(d2, d3);
    assert Next(d3, AppInstalled("a")) == d4;
    var steps := [AppInstalled("a"), DockedReloaded(["a"]), AppsUninstalled(0, 0), AppInstalled("a")];
    FourSteps(START, steps, d1, d2, d3, d4);
    assert "a" in d4.docked && "a" in d4.apps && !HasId(d4.data, "a");
    assert Consistent(d4);
    ReloadDockedCoveredIff(d4, ["a"]);
  }

  lemma DockOne(d1: Dock, d2: Dock)
    requires d1 == Dock(["a"], [], [], []) && d2 == Dock(["a"], [], ["a"], [Entry("a", Apps, 0)])
    ensures ReloadDocked(d1, ["a"]) == d2
  {
    assert ["a"][1..] == [];
    assert [Entry("a", Apps, 0)][1..] == [];
    assert AddLaunchers([], ["a"], [], ["a"]) == [Entry("a", Apps, 0)];
  }

  lemma UninstallOne(d2: Dock, d3: Dock)
    requires d2 == Dock(["a"], [], ["a"], [Entry("a", Apps, 0)]) && d3 == Dock([], [], ["a"], [])
    ensures UninstallApps(d2, 0, 0) == d3
  {
    assert [Entry("a", Apps, 0)][1..] == [];
    assert CutRows(["a"], 0, 0) == [];
  }

  lemma FourSteps(d: Dock, steps: seq<Step>, d1: Dock, d2: Dock, d3: Dock, d4: Dock)
    requires |steps| == 4
    requires Possible(d, steps[0]) && Next(d, steps[0]) == d1 && Possible(d1, steps[1]) && Next(d1, steps[1]) == d2
    requires Possible(d2, steps[2]) && Next(d2, steps[2]) == d3 && Possible(d3, steps[3]) && Next(d3, steps[3]) == d4
    ensures PossibleRun(d, steps) && After(d, steps) == d4
  {
    var s1, s2, s3, s4 := steps[1..], steps[2..], steps[3..], steps[4..];
    assert s1[1..] == s2 && s2[1..] == s3 && s3[1..] == s4 && s4 == [];
    assert PossibleRun(d4, s4) && After(d4, s4) == d4;
    assert s3[0] == steps[3] && PossibleRun(d3, s3) && After(d3, s3) == d4;
    assert s2[0] == steps[2] && PossibleRun(d2, s2) && After(d2, s2) == d4;
    assert s1[0] == steps[1] && PossibleRun(d1, s1) && After(d1, s1) == d4;
  }

  // ---------- open, then close ----------

  /** Opening a window and closing it again restores the list, unless the application was docked
      and installed but missing from the dock: then closing leaves the launcher it lacked. */
  lemma OpenThenClose(d: Dock, id: string)
    requires Consistent(d)
    ensures var r := |d.windows|;
            var d' := CloseWindows(OpenWindow(d, id), r, r);
            && d'.windows == d.windows
            && (d'.data == d.data <==> (id == "" || HasId(d.data, id) || id !in d.docked || id !in d.apps))
  {
    var r := |d.windows|;
    if id == "" {
      OldRowsStay(d, id);
      FilterMapIdentity(d.data, CloseRows(OpenWindow(d, id), r, r));
    } else if !HasId(d.data, id) {
      OpenThenCloseNew(d, id);
    } else if d.data[FirstWithId(d.data, id)].source == Apps {
      OpenThenCloseLauncher(d, id);
    } else {
      OpenThenCloseBeside(d, id);
    }
  }

  lemma OldRowsStay(d: Dock, id: string)
    requires Consistent(d)
    ensures var r := |d.windows|; forall x | x in d.data :: CloseRows(OpenWindow(d, id), r, r)(x) == Some(x)
  {
    forall x | x in d.data ensures CloseRows(OpenWindow(d, id), |d.windows|, |d.windows|)(x) == Some(x) {
      var i :| 0 <= i < |d.data| && d.data[i] == x;
      assert Agrees(d, d.data[i]);
    }
  }

  lemma OpenThenCloseNew(d: Dock, id: string)
    requires Consistent(d) && id != "" && !HasId(d.data, id)
    ensures CloseWindows(OpenWindow(d, id), |d.windows|, |d.windows|).data == d.data
       <==> id !in d.docked || id !in d.apps
  {
    var r := |d.windows|;
    var d1 := OpenWindow(d, id);
    var e := Entry(id, Windows, r);
    OldRowsStay(d, id);
    assert d1.data == d.data + [e];
    assert LastStanding(d1.data, r, e);
    FilterMapAround(d.data, e, [], CloseRows(d1, r, r));
    assert d.data + [e] + [] == d1.data;
  }

  lemma OpenThenCloseLauncher(d: Dock, id: string)
    requires Consistent(d) && id != "" && HasId(d.data, id) && d.data[FirstWithId(d.data, id)].source == Apps
    ensures CloseWindows(OpenWindow(d, id), |d.windows|, |d.windows|).data == d.data
  {
    var r := |d.windows|;
    var d1 := OpenWindow(d, id);
    var p := FirstWithId(d.data, id);
    var f := CloseRows(d1, r, r);
    LauncherAgain(d, id);
    assert d1.data == d.data[p := Entry(id, Windows, r)];
    forall i | 0 <= i < |d1.data| && i != p ensures f(d1.data[i]) == Some(d1.data[i]) {
      assert Agrees(d, d.data[i]);
    }
    FilterMapPoint(d1.data, f, p);
  }

  lemma OnlyEntry(d: Dock, id: string)
    requires Consistent(d) && id != "" && HasId(d.data, id) && d.data[FirstWithId(d.data, id)].source == Apps
    ensures var d1, p := OpenWindow(d, id), FirstWithId(d.data, id);
            |d1.data| == |d.data| && forall i | 0 <= i < |d1.data| && i != p :: d1.data[i].id != id
  {
    var d1, p := OpenWindow(d, id), FirstWithId(d.data, id);
    forall i | 0 <= i < |d1.data| && i != p ensures d1.data[i].id != id {
      if p < i { assert Compatible(d.data[p], d.data[i]); }
    }
  }

  lemma LauncherAgain(d: Dock, id: string)
    requires Consistent(d) && id != "" && HasId(d.data, id) && d.data[FirstWithId(d.data, id)].source == Apps
    ensures var r := |d.windows|;
            CloseRows(OpenWindow(d, id), r, r)(Entry(id, Windows, r)) == Some(d.data[FirstWithId(d.data, id)])
  {
    var r := |d.windows|;
    var d1 := OpenWindow(d, id);
    var p := FirstWithId(d.data, id);
    assert Agrees(d, d.data[p]);
    OnlyEntry(d, id);
    assert LastStanding(d1.data, r, Entry(id, Windows, r));
  }

  lemma OpenThenCloseBeside(d: Dock, id: string)
    requires Consistent(d) && id != "" && HasId(d.data, id) && d.data[FirstWithId(d.data, id)].source == Windows
    ensures CloseWindows(OpenWindow(d, id), |d.windows|, |d.windows|).data == d.data
  {
    var r := |d.windows|;
    var d1 := OpenWindow(d, id);
    var p := FirstWithId(d.data, id);
    var q := LastWithId(d.data, id) + 1;
    var f := CloseRows(d1, r, r);
    var e := Entry(id, Windows, r);
    OldRowsStay(d, id);
    assert !LastStanding(d1.data, r, e) by {
      assert d1.data[p] == d.data[p] && Agrees(d, d.data[p]);
    }
    FilterMapUninsert(d.data, q, e, f);
  }

  /** Closing every window of a docked, installed application leaves one entry for it: its launcher. */
  lemma LauncherRemains(d: Dock, first: nat, last: nat, id: string)
    requires Consistent(d) && first <= last < |d.windows|
    requires id in d.docked && id in d.apps && HasId(d.data, id)
    requires forall i | 0 <= i < |d.data| && d.data[i].id == id && d.data[i].source == Windows ::
               first <= d.data[i].row <= last
    ensures Filter(CloseWindows(d, first, last).data, WithId(id)) == [Entry(id, Apps, IndexOf(d.apps, id))]
  {
    var d' := CloseWindows(d, first, last);
    var launcher := Entry(id, Apps, IndexOf(d.apps, id));
    CloseWindowsConsistent(d, first, last);
    CloseWindowsKeepsId(d, first, last, id);
    forall i | 0 <= i < |d'.data| && d'.data[i].id == id ensures d'.data[i] == launcher {
      FilterMapMember(d.data, CloseRows(d, first, last), d'.data[i]);
      assert Agrees(d', d'.data[i]);
    }
    OnlyOne(d'.data, id, launcher);
  }

  lemma OnlyOne(data: seq<Entry>, id: string, e: Entry)
    requires HasId(data, id) && AllCompatible(data) && e.id == id && e.source == Apps
    requires forall i | 0 <= i < |data| && data[i].id == id :: data[i] == e
    ensures Filter(data, WithId(id)) == [e]
  {
    var p := FirstWithId(data, id);
    var a, b := data[..p], data[p + 1..];
    forall x | x in b ensures !WithId(id)(x) {
      var k :| 0 <= k < |b| && b[k] == x;
      assert Compatible(data[p], data[p + 1 + k]);
    }
    assert data == a + ([e] + b);
    FilterConcat(a, [e] + b, WithId(id));
    FilterConcat([e], b, WithId(id));
    FilterNone(a, WithId(id));
    FilterNone(b, WithId(id));
    FilterAll([e], WithId(id));
  }
}
