/** The element model itself: the handlers that patch the list in place and announce every row
    that appears, disappears or moves. */
module DockElements {
  import opened Lists
  import opened DockState
  import opened DockAgreement
  import opened DockGrouping
  import opened DockRuns
  import opened DockView

  class DockGlobalElementModel {
    var apps: seq<string>      // desktop ids of the rows of the applications model
    var windows: seq<string>   // desktop ids of the rows of the open-windows model
    var docked: seq<string>    // m_dockedElements
    var data: seq<Entry>       // m_data
    var emitted: seq<Notification>

    function State(): Dock
      reads this
    {
      Dock(apps, windows, docked, data)
    }

    /** A listener attached from the start sees the ids as they are. */
    ghost predicate ViewInStep()
      reads this
    {
      Replay([], emitted) == Ids(data)
    }

    ghost predicate Valid()
      reads this
    {
      Consistent(State()) && ViewInStep()
    }

    constructor ()
      ensures Valid() && State() == Dock([], [], [], [])
    {
      apps, windows, docked, data, emitted := [], [], [], [], [];
    }

    // ---------- announced row edits ----------

    method InsertRow(row: nat, e: Entry)
      requires ViewInStep() && row <= |data|
      modifies this`data, this`emitted
      ensures data == InsertAt(old(data), row, e)
      ensures emitted == old(emitted) + [Inserted(row, data[row].id)] && ViewInStep()
    {
      InsertSeen(data, row, e);
      ReplayOne([], emitted, Inserted(row, e.id));
      data := InsertAt(data, row, e);
      emitted := emitted + [Inserted(row, data[row].id)];
    }

    method RemoveRow(row: nat)
      requires ViewInStep() && row < |data|
      modifies this`data, this`emitted
      ensures data == RemoveAt(old(data), row)
      ensures emitted == old(emitted) + [Removed(row)] && ViewInStep()
    {
      RemoveSeen(data, row);
      ReplayOne([], emitted, Removed(row));
      data := RemoveAt(data, row);
      emitted := emitted + [Removed(row)];
    }

    /** beginMoveRows refuses a move to the row's own place; then nothing happens. */
    method MoveRow(from: nat, to: nat, dest: nat) returns (moved: bool)
      requires ViewInStep() && from < |data| && to < |data|
      requires dest == if from < to then to + 1 else to
      modifies this`data, this`emitted
      ensures moved <==> from != to
      ensures data == Move(old(data), from, to)
      ensures emitted == old(emitted) + (if moved then [Moved(from, dest)] else []) && ViewInStep()
    {
      moved := !(from <= dest <= from + 1);
      if moved {
        MoveSeen(data, from, to);
        ReplayOne([], emitted, Moved(from, dest));
        data := Move(data, from, to);
        emitted := emitted + [Moved(from, dest)];
      }
    }

    /** Overwriting an entry by one of the same application is not a row signal. */
    method SetRow(row: nat, e: Entry)
      requires ViewInStep() && row < |data| && data[row].id == e.id
      modifies this`data
      ensures data == old(data)[row := e] && ViewInStep()
    {
      assert Ids(data[row := e]) == Ids(data);
      data := data[row := e];
    }

    /** The std::for_each that renumbers the entries of one source. */
    method ShiftRows(source: Source, from: int, delta: int)
      requires ViewInStep()
      modifies this`data
      ensures data == FilterMap(old(data), Shift(source, from, delta)) && ViewInStep()
    {
      var k := 0;
      var f := Shift(source, from, delta);
      while k < |data|
        invariant 0 <= k <= |data| && |data| == |old(data)|
        invariant forall i | 0 <= i < k :: f(old(data)[i]) == Some(data[i])
        invariant forall i | k <= i < |data| :: data[i] == old(data)[i]
        invariant ViewInStep()
      {
        var e := data[k];
        if e.source == source && e.row >= from {
          SetRow(k, e.(row := e.row + delta));
        }
        k := k + 1;
      }
      FilterMapTotal(old(data), f, data);
    }

    /** std::find_if for the entry of a source row; the end position when there is none. */
    method FindRow(source: Source, row: int) returns (pos: nat)
      ensures pos <= |data|
      ensures forall i | 0 <= i < pos :: !(data[i].source == source && data[i].row == row)
      ensures pos < |data| ==> data[pos].source == source && data[pos].row == row
    {
      pos := 0;
      while pos < |data| && !(data[pos].source == source && data[pos].row == row)
        invariant pos <= |data|
        invariant forall i | 0 <= i < pos :: !(data[i].source == source && data[i].row == row)
      {
        pos := pos + 1;
      }
    }

    method FindFirst(id: string) returns (pos: nat)
      ensures pos <= |data|
      ensures HasId(data, id) ==> pos == FirstWithId(data, id)
      ensures !HasId(data, id) ==> pos == |data|
    {
      pos := 0;
      while pos < |data| && data[pos].id != id
        invariant pos <= |data|
        invariant forall i | 0 <= i < pos :: data[i].id != id
      {
        pos := pos + 1;
      }
    }

    method FindLast(id: string, first: nat) returns (pos: nat)
      requires first < |data| && data[first].id == id
      ensures HasId(data, id) && pos == LastWithId(data, id)
    {
      pos := first;
      var it := first + 1;
      while it < |data|
        invariant first < it <= |data|
        invariant pos < it && data[pos].id == id
        invariant forall i | pos < i < it :: data[i].id != id
      {
        if data[it].id == id { pos := it; }
        it := it + 1;
      }
    }

    // ---------- handlers ----------

    /** rowsRemoved of the applications model. */
    method OnAppRowsRemoved(first: int, last: int)
      requires ViewInStep() && first <= last
      requires UniqueRows(Apps, data)
      modifies this`data, this`emitted
      ensures data == FilterMap(old(data), DropRows(Apps, first, last)) && ViewInStep()
      ensures old(emitted) <= emitted
    {
      GoneThenShift(data, Apps, first, last);
      DropAppRows(first, last);
      ShiftRows(Apps, first, -(last - first + 1));
    }

    method DropAppRows(first: int, last: int)
      requires ViewInStep() && first <= last
      requires UniqueRows(Apps, data)
      modifies this`data, this`emitted
      ensures data == FilterMap(old(data), Gone(Apps, first, last + 1)) && ViewInStep()
      ensures old(emitted) <= emitted
    {
      ghost var before := data;
      var i := first;
      FilterMapIdentity(data, Gone(Apps, first, first));
      while i <= last
        invariant first <= i <= last + 1
        invariant data == FilterMap(before, Gone(Apps, first, i)) && UniqueRows(Apps, data)
        invariant ViewInStep() && old(emitted) <= emitted
      {
        GoneStep(before, Apps, first, i);
        UniqueRowsKept(Apps, data, Gone(Apps, i, i + 1));
        DropAppRow(i);
        i := i + 1;
      }
    }

    method DropAppRow(i: int)
      requires ViewInStep() && UniqueRows(Apps, data)
      modifies this`data, this`emitted
      ensures data == FilterMap(old(data), Gone(Apps, i, i + 1)) && ViewInStep()
      ensures old(emitted) <= emitted
    {
      var pos := FindRow(Apps, i);
      if pos < |data| {
        FilterMapPoint(data, Gone(Apps, i, i + 1), pos);
        RemoveRow(pos);
      } else {
        FilterMapIdentity(data, Gone(Apps, i, i + 1));
      }
    }

    /** rowsInserted of the open-windows model. */
    method OnWindowRowsInserted(first: nat, last: nat)
      requires ViewInStep() && first <= last < |windows|
      modifies this`data, this`emitted
      ensures data == RowsInserted(old(data), windows, first, last) && ViewInStep()
      ensures old(emitted) <= emitted
    {
      var i := first;
      ghost var start := data;
      while i <= last
        invariant first <= i <= last + 1
        invariant data == PlaceRows(start, windows, first, i) && ViewInStep() && old(emitted) <= emitted
      {
        var id := windows[i];
        assert PlaceRows(start, windows, first, i + 1) == if id == "" then data else Place(data, id, i);
        if id != "" {
          PlaceWindow(id, i);
        }
        i := i + 1;
      }
      ShiftRows(Windows, first + 1, last - first + 1);
    }

    method PlaceWindow(id: string, row: nat)
      requires ViewInStep()
      modifies this`data, this`emitted
      ensures data == Place(old(data), id, row) && ViewInStep()
      ensures old(emitted) <= emitted
    {
      var e := Entry(id, Windows, row);
      var firstIt := FindFirst(id);
      if firstIt == |data| {
        InsertRow(|data|, e);
      } else if data[firstIt].source == Apps {
        SetRow(firstIt, e);
      } else {
        var lastIt := FindLast(id, firstIt);
        InsertRow(lastIt + 1, e);
      }
    }

    /** Whether another window of the application than the one at the given row has an entry. */
    method OtherWindow(id: string, row: int) returns (found: bool)
      ensures found <==>
                exists k :: 0 <= k < |data| && data[k].id == id && data[k].source == Windows && data[k].row != row
    {
      found := false;
      var k := 0;
      while k < |data|
        invariant 0 <= k <= |data|
        invariant found <==>
                    exists j :: 0 <= j < k && data[j].id == id && data[j].source == Windows && data[j].row != row
      {
        if data[k].id == id && data[k].source == Windows && data[k].row != row { found := true; }
        k := k + 1;
      }
    }

    /** rowsRemoved of the open-windows model: one closed row. */
    method CloseRow(i: int) returns (ghost outcome: Option<Entry>)
      requires ViewInStep()
      requires UniqueRows(Windows, data)
      modifies this`data, this`emitted
      ensures data == FilterMap(old(data), Settle(i, outcome)) && ViewInStep()
      ensures old(emitted) <= emitted
      ensures forall p | 0 <= p < |old(data)| && old(data)[p].source == Windows && old(data)[p].row == i ::
                outcome == Settled(State().(data := old(data)), old(data)[p])
      ensures outcome.Some? ==> outcome.value.source == Apps
    {
      outcome := None;
      var pos := FindRow(Windows, i);
      if pos == |data| {
        FilterMapIdentity(data, Settle(i, outcome));
        return;
      }
      var id := data[pos].id;
      var other := OtherWindow(id, i);
      if !other && id in docked && id in apps {
        var launcher := Entry(id, Apps, IndexOf(apps, id));
        outcome := Some(launcher);
        FilterMapPoint(data, Settle(i, outcome), pos);
        SetRow(pos, launcher);
      } else {
        FilterMapPoint(data, Settle(i, outcome), pos);
        RemoveRow(pos);
      }
    }

    method OnWindowRowsRemoved(first: int, last: int)
      requires ViewInStep() && first <= last
      requires UniqueRows(Windows, data)
      modifies this`data, this`emitted
      ensures data == FilterMap(old(data), CloseRows(old(State()), first, last)) && ViewInStep()
      ensures old(emitted) <= emitted
    {
      ClosedThenShift(State(), first, last);
      CloseEachRow(first, last);
      ShiftRows(Windows, first, -(last - first + 1));
    }

    method CloseEachRow(first: int, last: int)
      requires ViewInStep() && first <= last
      requires UniqueRows(Windows, data)
      modifies this`data, this`emitted
      ensures data == FilterMap(old(data), ClosedUpTo(old(State()), first, last + 1)) && ViewInStep()
      ensures old(emitted) <= emitted
    {
      ghost var d := State();
      var i := first;
      FilterMapIdentity(data, ClosedUpTo(d, first, first));
      while i <= last
        invariant first <= i <= last + 1
        invariant State() == d.(data := FilterMap(d.data, ClosedUpTo(d, first, i))) && UniqueRows(Windows, data)
        invariant ViewInStep() && old(emitted) <= emitted
      {
        ghost var before := data;
        ghost var outcome := CloseRow(i);
        ClosedStep(d, first, i, outcome);
        UniqueRowsKept(Windows, before, Settle(i, outcome));
        i := i + 1;
      }
    }

    // ---------- docking, dragging, grouping ----------

    method LoadDockedElements(ids: seq<string>)
      requires ViewInStep() && Consistent(State())
      modifies this`data, this`docked, this`emitted
      ensures State() == ReloadDocked(old(State()), ids) && ViewInStep()
      ensures old(emitted) <= emitted
    {
      ghost var d := State();
      var newDocked: seq<string> := [];
      var k := 0;
      while k < |ids|
        invariant 0 <= k <= |ids|
        invariant docked == d.docked && newDocked == Filter(ids[..k], In(apps))
        invariant AddLaunchers(data, apps, docked, ids[k..]) == AddLaunchers(d.data, apps, docked, ids)
        invariant ViewInStep() && old(emitted) <= emitted
      {
        var id := ids[k];
        assert ids[k..][1..] == ids[k + 1..];
        assert ids[..k + 1] == ids[..k] + [id];
        FilterConcat(ids[..k], [id], In(apps));
        assert [id][1..] == [];
        if id in apps {
          newDocked := newDocked + [id];
          if id !in docked && !HasId(data, id) {
            ghost var before := data;
            InsertRow(|data|, Entry(id, Apps, IndexOf(apps, id)));
            assert data == before + [Entry(id, Apps, IndexOf(apps, id))];
          }
        }
        k := k + 1;
      }
      assert ids[..k] == ids && ids[k..] == [];
      assert data == AddLaunchers(d.data, apps, docked, ids);
      AddLaunchersEffect(d, ids);
      Undock(newDocked);
      UndockedAll(d, ids, newDocked);
      docked := newDocked;
    }

    /** Takes out the launchers of what is no longer docked. */
    method Undock(newDocked: seq<string>)
      requires ViewInStep() && AllCompatible(data)
      modifies this`data, this`emitted
      ensures data == Filter(old(data), Stays(docked, newDocked)) && ViewInStep()
      ensures old(emitted) <= emitted
    {
      ghost var before := data;
      FilterMapIdentity(data, Keep(Stays([], newDocked)));
      var k := 0;
      while k < |docked|
        invariant 0 <= k <= |docked|
        invariant data == Filter(before, Stays(docked[..k], newDocked)) && AllCompatible(data)
        invariant ViewInStep() && old(emitted) <= emitted
      {
        var id := docked[k];
        StaysStep(before, docked, k, newDocked);
        ghost var now := data;
        if id !in newDocked {
          RemoveLauncher(id);
        } else {
          FilterMapIdentity(data, Keep(NotLauncher(id, newDocked)));
        }
        assert data == Filter(now, NotLauncher(id, newDocked));
        FilterMapCompatible(now, Keep(NotLauncher(id, newDocked)));
        k := k + 1;
      }
      assert docked[..k] == docked;
    }

    method RemoveLauncher(id: string)
      requires ViewInStep() && AllCompatible(data)
      modifies this`data, this`emitted
      ensures forall newDocked: seq<string> | id !in newDocked :: data == Filter(old(data), NotLauncher(id, newDocked))
      ensures ViewInStep() && old(emitted) <= emitted
    {
      ghost var before := data;
      var pos := 0;
      while pos < |data| && !(data[pos].id == id && data[pos].source == Apps)
        invariant pos <= |data|
        invariant forall i | 0 <= i < pos :: !(data[i].id == id && data[i].source == Apps)
      {
        pos := pos + 1;
      }
      if pos < |data| { RemoveRow(pos); }
      forall newDocked: seq<string> | id !in newDocked ensures data == Filter(before, NotLauncher(id, newDocked)) {
        if pos < |before| {
          forall i | 0 <= i < |before| && i != pos ensures NotLauncher(id, newDocked)(before[i]) {
            if i > pos { assert Compatible(before[pos], before[i]); }
          }
          FilterMapPoint(before, Keep(NotLauncher(id, newDocked)), pos);
        } else {
          FilterMapIdentity(before, Keep(NotLauncher(id, newDocked)));
        }
      }
    }

    method MoveItem(from: int, to: int)
      requires ViewInStep()
      modifies this`data, this`emitted
      ensures data == Dragged(old(data), from, to) && ViewInStep()
      ensures if 0 <= from < |old(data)| && 0 <= to < |old(data)|
              then |data| == |old(data)| && data[to] == old(data)[from]
                   && RemoveAt(data, to) == RemoveAt(old(data), from)
              else data == old(data)
      ensures old(emitted) <= emitted
    {
      if from < 0 || from >= |data| || to < 0 || to >= |data| || from == to {
        if 0 <= from < |data| && from == to { assert Move(data, from, to) == data; }
        return;
      }
      RemoveInserted(RemoveAt(data, from), to, data[from]);
      var destRow := if from < to then to + 1 else to;
      var moved := MoveRow(from, to, destRow);
    }

    method GroupItemsByApp(windowSplit: bool)
      requires ViewInStep()
      modifies this`data, this`emitted
      ensures data == (if windowSplit then old(data) else StableGrouping(old(data))) && ViewInStep()
      ensures old(emitted) <= emitted
    {
      if data == [] || windowSplit { return; }
      var i := 0;
      while i < |data|
        invariant 0 <= i <= |data|
        invariant data[..i] + StableGrouping(data[i..]) == StableGrouping(old(data))
        invariant ViewInStep() && old(emitted) <= emitted
        decreases |data| - i
      {
        var insertPos := GatherFrom(i);
        i := insertPos;
      }
      assert data[..i] == data && data[i..] == [];
    }

    /** One round: pulls the entries of the application at row i together, right behind it. */
    method GatherFrom(i: nat) returns (insertPos: nat)
      requires ViewInStep() && i < |data|
      modifies this`data, this`emitted
      ensures |data| == |old(data)| && i < insertPos <= |data|
      ensures var rest := old(data)[i..];
              data[..insertPos] + StableGrouping(data[insertPos..]) == old(data)[..i] + StableGrouping(rest)
      ensures ViewInStep() && old(emitted) <= emitted
    {
      var currentId := data[i].id;
      insertPos := i + 1;
      while insertPos < |data| && data[insertPos].id == currentId
        invariant i < insertPos <= |data|
        invariant forall k | i <= k < insertPos :: data[k].id == currentId
      {
        insertPos := insertPos + 1;
      }
      insertPos := PullRest(currentId, i, insertPos);
      Gathered(data, i, insertPos, old(data)[i..]);
    }

    method PullRest(currentId: string, i: nat, start: nat) returns (insertPos: nat)
      requires ViewInStep() && i < start <= |data|
      requires forall k | i <= k < start :: data[k].id == currentId
      requires start < |data| ==> data[start].id != currentId
      modifies this`data, this`emitted
      ensures |data| == |old(data)| && i < insertPos <= |data| && data[..i] == old(data)[..i]
      ensures forall k | i <= k < insertPos :: data[k].id == currentId
      ensures forall k | insertPos <= k < |data| :: data[k].id != currentId
      ensures Filter(data[i..], WithId(currentId)) == Filter(old(data)[i..], WithId(currentId))
      ensures Filter(data[i..], WithoutId(currentId)) == Filter(old(data)[i..], WithoutId(currentId))
      ensures ViewInStep() && old(emitted) <= emitted
    {
      insertPos := start;
      var j := insertPos;
      while j < |data|
        invariant |data| == |old(data)| && i < insertPos <= j <= |data|
        invariant insertPos == j ==> j == |data| || data[j].id != currentId
        invariant data[..i] == old(data)[..i]
        invariant forall k | i <= k < insertPos :: data[k].id == currentId
        invariant forall k | insertPos <= k < j :: data[k].id != currentId
        invariant Filter(data[i..], WithId(currentId)) == Filter(old(data)[i..], WithId(currentId))
        invariant Filter(data[i..], WithoutId(currentId)) == Filter(old(data)[i..], WithoutId(currentId))
        invariant ViewInStep() && old(emitted) <= emitted
      {
        if data[j].id == currentId {
          var destRow := if insertPos < j then insertPos else insertPos + 1;
          PullLeft(data, i, insertPos, j);
          PulledLeft(data, i, insertPos, j);
          var moved := MoveRow(j, insertPos, destRow);
          if moved { insertPos := insertPos + 1; }
        }
        j := j + 1;
      }
    }

    // ---------- whole steps: a source changes, then its handler runs ----------

    method WindowOpened(id: string)
      requires Valid()
      modifies this
      ensures State() == OpenWindow(old(State()), id) && Valid() && old(emitted) <= emitted
    {
      ghost var d := State();
      OpenWindowConsistent(d, id);
      AppendedRowNeedsNoShift(d, id);
      windows := windows + [id];
      OnWindowRowsInserted(|windows| - 1, |windows| - 1);
    }

    method WindowsClosed(first: int, last: int)
      requires Valid() && 0 <= first <= last < |windows|
      modifies this
      ensures State() == CloseWindows(old(State()), first, last) && Valid() && old(emitted) <= emitted
    {
      ghost var d := State();
      CloseWindowsConsistent(d, first, last);
      CompatibleRowsUnique(d);
      windows := CutRows(windows, first, last);
      OnWindowRowsRemoved(first, last);
      FilterMapCongruence(d.data, CloseRows(d, first, last), CloseRows(d.(windows := windows), first, last));
    }

    method AppInstalled(id: string)
      requires Valid() && id !in apps
      modifies this
      ensures State() == InstallApp(old(State()), id) && Valid() && old(emitted) <= emitted
    {
      InstallAppConsistent(State(), id);
      apps := apps + [id];
    }

    method AppsUninstalled(first: int, last: int)
      requires Valid() && 0 <= first <= last < |apps|
      modifies this
      ensures State() == UninstallApps(old(State()), first, last) && Valid() && old(emitted) <= emitted
    {
      ghost var d := State();
      UninstallAppsConsistent(d, first, last);
      CompatibleRowsUnique(d);
      apps := CutRows(apps, first, last);
      OnAppRowsRemoved(first, last);
    }

    method Perform(s: Step)
      requires Valid() && Possible(State(), s)
      modifies this
      ensures State() == Next(old(State()), s) && Valid() && old(emitted) <= emitted
    {
      StepConsistent(State(), s);
      match s
      case WindowOpened(id) => this.WindowOpened(id);
      case WindowsClosed(first, last) => this.WindowsClosed(first, last);
      case AppInstalled(id) => this.AppInstalled(id);
      case AppsUninstalled(first, last) => this.AppsUninstalled(first, last);
      case DockedReloaded(ids) => LoadDockedElements(ids);
      case ItemDragged(from, to) => MoveItem(from, to);
      case Regrouped(windowSplit) => GroupItemsByApp(windowSplit);
    }

    /** Any run: the entries agree with the sources after every step, and whoever read the ids at
        the start and replayed the signals since then holds the same ids as the model. */
    method Run(steps: seq<Step>)
      requires Valid() && PossibleRun(State(), steps)
      modifies this
      ensures State() == After(old(State()), steps) && Valid()
      ensures old(emitted) <= emitted && Replay(Ids(old(data)), emitted[|old(emitted)|..]) == Ids(data)
    {
      var k := 0;
      while k < |steps|
        invariant 0 <= k <= |steps|
        invariant Valid() && old(emitted) <= emitted
        invariant PossibleRun(State(), steps[k..])
        invariant After(State(), steps[k..]) == After(old(State()), steps)
      {
        assert steps[k..][0] == steps[k] && steps[k..][1..] == steps[k + 1..];
        Perform(steps[k]);
        k := k + 1;
      }
      assert emitted == old(emitted) + emitted[|old(emitted)|..];
      LateListenerFollows(old(emitted), emitted[|old(emitted)|..], old(data), data);
    }
  }

  ghost predicate UniqueRows(source: Source, data: seq<Entry>) {
    forall i, j | 0 <= i < j < |data| && data[i].source == source && data[j].source == source ::
      data[i].row != data[j].row
  }

  /** DropRows without the renumbering: rows first..end-1 of the source are gone. */
  function Gone(source: Source, first: int, end: int): Entry -> Option<Entry> {
    (e: Entry) => if e.source == source && first <= e.row < end then None else Some(e)
  }

  function Settle(row: int, outcome: Option<Entry>): Entry -> Option<Entry> {
    (e: Entry) => if e.source == Windows && e.row == row then outcome else Some(e)
  }

  /** What closing the window of entry e alone leaves in its place. */
  ghost function Settled(d: Dock, e: Entry): Option<Entry> {
    if e.id in d.docked && e.id in d.apps
       && !exists k :: && 0 <= k < |d.data|
                       && d.data[k].id == e.id && d.data[k].source == Windows && d.data[k].row != e.row
    then Some(Entry(e.id, Apps, IndexOf(d.apps, e.id)))
    else None
  }

  /** CloseRows without the renumbering, when rows first..end-1 are done. */
  ghost function ClosedUpTo(d: Dock, first: int, end: int): Entry -> Option<Entry> {
    (e: Entry) => if e.source == Windows && first <= e.row < end then Closed(d, first, e) else Some(e)
  }

  lemma UniqueRowsKept(source: Source, data: seq<Entry>, f: Entry -> Option<Entry>)
    requires UniqueRows(source, data)
    requires forall e :: f(e).Some? && f(e).value.source == source ==> f(e).value == e
    ensures UniqueRows(source, FilterMap(data, f))
  {
    var r := FilterMap(data, f);
    var from := FilterMapOrigin(data, f);
    forall i, j | 0 <= i < j < |r| && r[i].source == source && r[j].source == source ensures r[i].row != r[j].row {
      assert f(data[from[i]]) == Some(r[i]) && f(data[from[j]]) == Some(r[j]);
      assert data[from[i]] == r[i] && data[from[j]] == r[j];
    }
  }

  lemma GoneStep(data: seq<Entry>, source: Source, first: int, i: int)
    requires first <= i
    ensures FilterMap(FilterMap(data, Gone(source, first, i)), Gone(source, i, i + 1))
         == FilterMap(data, Gone(source, first, i + 1))
  {
    FilterMapCompose(data, Gone(source, first, i), Gone(source, i, i + 1), Gone(source, first, i + 1));
  }

  lemma GoneThenShift(data: seq<Entry>, source: Source, first: int, last: int)
    requires first <= last
    ensures FilterMap(FilterMap(data, Gone(source, first, last + 1)), Shift(source, first, -(last - first + 1)))
         == FilterMap(data, DropRows(source, first, last))
  {
    FilterMapCompose(data, Gone(source, first, last + 1), Shift(source, first, -(last - first + 1)),
                     DropRows(source, first, last));
  }

  lemma ClosedThenShift(d: Dock, first: int, last: int)
    requires first <= last
    ensures FilterMap(FilterMap(d.data, ClosedUpTo(d, first, last + 1)), Shift(Windows, first, -(last - first + 1)))
         == FilterMap(d.data, CloseRows(d, first, last))
  {
    FilterMapCompose(d.data, ClosedUpTo(d, first, last + 1), Shift(Windows, first, -(last - first + 1)),
                     CloseRows(d, first, last));
  }

  /** Closing the rows one at a time asks, each time, about the windows still listed; that is the
      same as asking the original list which window is the last to go. */
  lemma ClosedStep(d: Dock, first: int, i: int, outcome: Option<Entry>)
    requires first <= i
    requires var now := FilterMap(d.data, ClosedUpTo(d, first, i));
             forall p | 0 <= p < |now| && now[p].source == Windows && now[p].row == i ::
               outcome == Settled(d.(data := now), now[p])
    ensures FilterMap(FilterMap(d.data, ClosedUpTo(d, first, i)), Settle(i, outcome))
         == FilterMap(d.data, ClosedUpTo(d, first, i + 1))
  {
    var f, g, h := ClosedUpTo(d, first, i), Settle(i, outcome), ClosedUpTo(d, first, i + 1);
    var now := FilterMap(d.data, f);
    forall k | 0 <= k < |d.data| ensures h(d.data[k]) == (match f(d.data[k]) case None => None case Some(y) => g(y)) {
      var e := d.data[k];
      if e.source == Windows && e.row == i {
        FilterMapMember(d.data, f, e);
        assert e in now;
        SameLastStanding(d, first, e);
      }
    }
    FilterMapCompose(d.data, f, g, h);
  }

  lemma SameLastStanding(d: Dock, first: int, e: Entry)
    requires first <= e.row
    ensures Closed(d, first, e) == Settled(d.(data := FilterMap(d.data, ClosedUpTo(d, first, e.row))), e)
  {
    var f := ClosedUpTo(d, first, e.row);
    var now := FilterMap(d.data, f);
    if LastStanding(d.data, first, e) {
      forall k | 0 <= k < |now| && now[k].id == e.id && now[k].source == Windows ensures now[k].row == e.row {
        FilterMapMember(d.data, f, now[k]);
      }
    } else {
      var k :| 0 <= k < |d.data| && d.data[k].id == e.id && d.data[k].source == Windows
               && !(first <= d.data[k].row <= e.row);
      FilterMapMember(d.data, f, d.data[k]);
      assert d.data[k] in now;
    }
  }

  lemma CompatibleRowsUnique(d: Dock)
    requires Consistent(d)
    ensures UniqueRows(Apps, d.data) && UniqueRows(Windows, d.data)
  {
    forall i, j | 0 <= i < j < |d.data| && d.data[i].source == d.data[j].source
      ensures d.data[i].row != d.data[j].row
    {
      assert Compatible(d.data[i], d.data[j]) && Agrees(d, d.data[i]) && Agrees(d, d.data[j]);
    }
  }

  /** For a row appended to the windows model the shift that follows the insertion is idle. */
  lemma AppendedRowNeedsNoShift(d: Dock, id: string)
    requires Consistent(d)
    ensures var r := |d.windows|;
            RowsInserted(d.data, d.windows + [id], r, r) == OpenWindow(d, id).data
  {
    PlacedLast(d, id);
    OpenWindowConsistent(d, id);
    NoRowBehind(OpenWindow(d, id), |d.windows| + 1);
  }

  lemma PlacedLast(d: Dock, id: string)
    ensures var r := |d.windows|; PlaceRows(d.data, d.windows + [id], r, r + 1) == OpenWindow(d, id).data
  {
    var r := |d.windows|;
    assert PlaceRows(d.data, d.windows + [id], r, r) == d.data;
    assert (d.windows + [id])[r] == id;
  }

  lemma NoRowBehind(d: Dock, from: nat)
    requires Consistent(d) && |d.windows| <= from
    ensures FilterMap(d.data, Shift(Windows, from, 1)) == d.data
  {
    forall e | e in d.data ensures Shift(Windows, from, 1)(e) == Some(e) {
      var i :| 0 <= i < |d.data| && d.data[i] == e;
      assert Agrees(d, d.data[i]);
    }
    FilterMapIdentity(d.data, Shift(Windows, from, 1));
  }

  // ---------- undocking ----------

  /** Survives the undocking of those of `gone` that are not in newDocked. */
  function Stays(gone: seq<string>, newDocked: seq<string>): Entry -> bool {
    (e: Entry) => e.source == Windows || e.id in newDocked || e.id !in gone
  }

  function NotLauncher(id: string, newDocked: seq<string>): Entry -> bool {
    (e: Entry) => e.source == Windows || e.id in newDocked || e.id != id
  }

  lemma StaysStep(data: seq<Entry>, docked: seq<string>, k: nat, newDocked: seq<string>)
    requires k < |docked|
    ensures Filter(Filter(data, Stays(docked[..k], newDocked)), NotLauncher(docked[k], newDocked))
         == Filter(data, Stays(docked[..k + 1], newDocked))
  {
    assert docked[..k + 1] == docked[..k] + [docked[k]];
    FilterMapCompose(data, Keep(Stays(docked[..k], newDocked)), Keep(NotLauncher(docked[k], newDocked)),
                     Keep(Stays(docked[..k + 1], newDocked)));
  }

  lemma UndockedAll(d: Dock, ids: seq<string>, newDocked: seq<string>)
    requires Consistent(d) && newDocked == Filter(ids, In(d.apps))
    ensures var data := AddLaunchers(d.data, d.apps, d.docked, ids);
            Filter(data, Stays(d.docked, newDocked)) == Filter(data, StillDocked(newDocked))
  {
    var data := AddLaunchers(d.data, d.apps, d.docked, ids);
    AddLaunchersEffect(d, ids);
    forall i | 0 <= i < |data|
      ensures Keep(Stays(d.docked, newDocked))(data[i]) == Keep(StillDocked(newDocked))(data[i])
    {
      if i < |d.data| {
        assert Agrees(d, d.data[i]);
      } else {
        assert Fresh(d, data[i]);
        FilterMapMember(ids, Keep(In(d.apps)), data[i].id);
      }
    }
    FilterMapCongruence(data, Keep(Stays(d.docked, newDocked)), Keep(StillDocked(newDocked)));
  }

  // ---------- grouping ----------

  /** Pulling row j left to insertPos, past rows of other applications, keeps both selections. */
  lemma PullLeft(data: seq<Entry>, i: nat, insertPos: nat, j: nat)
    requires i < insertPos <= j < |data|
    requires forall k | insertPos <= k < j :: data[k].id != data[j].id
    ensures var data' := Move(data, j, insertPos);
            && Filter(data'[i..], WithId(data[j].id)) == Filter(data[i..], WithId(data[j].id))
            && Filter(data'[i..], WithoutId(data[j].id)) == Filter(data[i..], WithoutId(data[j].id))
  {
    var a, m, x, b := data[i..insertPos], data[insertPos..j], data[j], data[j + 1..];
    var data' := Move(data, j, insertPos);
    assert data[i..] == a + m + [x] + b;
    assert data'[i..] == a + [x] + m + b;
    FilterPastStrangers(a, m, x, b);
  }

  /** Where the rows stand after that pull. */
  lemma PulledLeft(data: seq<Entry>, i: nat, insertPos: nat, j: nat)
    requires i < insertPos <= j < |data|
    ensures var data' := Move(data, j, insertPos);
            && |data'| == |data| && data'[..i] == data[..i]
            && (forall k | 0 <= k < insertPos || j < k < |data| :: data'[k] == data[k])
            && data'[insertPos] == data[j]
            && (forall k | insertPos < k <= j :: data'[k] == data[k - 1])
  {
  }

  /** Once one application's entries stand together at row i, the rest is grouped on its own. */
  lemma Gathered(data: seq<Entry>, i: nat, insertPos: nat, rest: seq<Entry>)
    requires i < insertPos <= |data| && rest != []
    requires forall k | i <= k < insertPos :: data[k].id == rest[0].id
    requires forall k | insertPos <= k < |data| :: data[k].id != rest[0].id
    requires Filter(data[i..], WithId(rest[0].id)) == Filter(rest, WithId(rest[0].id))
    requires Filter(data[i..], WithoutId(rest[0].id)) == Filter(rest, WithoutId(rest[0].id))
    ensures data[..insertPos] + StableGrouping(data[insertPos..]) == data[..i] + StableGrouping(rest)
  {
    var mine, others := data[i..insertPos], data[insertPos..];
    assert data[i..] == mine + others;
    FilterBlocks(mine, others, rest[0].id);
    GroupedHead(rest, mine, others);
    calc {
      data[..insertPos] + StableGrouping(others);
      { assert data[..insertPos] == data[..i] + mine; }
      (data[..i] + mine) + StableGrouping(others);
      { Associative(data[..i], mine, StableGrouping(others)); }
      data[..i] + StableGrouping(rest);
    }
  }

  lemma GroupedHead(rest: seq<Entry>, mine: seq<Entry>, others: seq<Entry>)
    requires rest != []
    requires mine == Filter(rest, WithId(rest[0].id)) && others == Filter(rest, WithoutId(rest[0].id))
    ensures StableGrouping(rest) == mine + StableGrouping(others)
  {
  }
}
