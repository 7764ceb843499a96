/** Window rows inserted anywhere, or several at once: when the row shift after the insertion loop is
    right, and when it is not. */
module DockShifts {
  import opened Lists
  import opened DockState
  import opened DockAgreement

  /** The dock after rows `added` appear before row first of the windows model. */
  function InsertWindows(d: Dock, first: nat, added: seq<string>): Dock
    requires first <= |d.windows| && added != []
  {
    var windows := d.windows[..first] + added + d.windows[first..];
    d.(windows := windows, data := RowsInserted(d.data, windows, first, first + |added| - 1))
  }

  /** Only the first new row may carry an id, and only if no named window stood at its place. */
  predicate ShiftIsRight(d: Dock, first: nat, added: seq<string>)
    requires first <= |d.windows| && added != []
  {
    && (forall i | 1 <= i < |added| :: added[i] == "")
    && (first < |d.windows| ==> d.windows[first] == "")
  }

  lemma PlaceCounts(data: seq<Entry>, id: string, row: nat, w: Entry)
    requires w.source == Windows
    ensures Count(Place(data, id, row), w) == Count(data, w) + (if w == Entry(id, Windows, row) then 1 else 0)
  {
    var e := Entry(id, Windows, row);
    if !HasId(data, id) {
      CountConcat(data, [e], w);
    } else if data[FirstWithId(data, id)].source == Apps {
      CountUpdate(data, FirstWithId(data, id), e, w);
    } else {
      CountInsertAt(data, LastWithId(data, id) + 1, e, w);
    }
  }

  /** The number of entries equal to w that placing rows first..end-1 adds. */
  function AddedCount(windows: seq<string>, first: nat, end: nat, w: Entry): nat
    requires first <= end <= |windows|
  {
    if w.source == Windows && first <= w.row < end && w.id != "" && w.id == windows[w.row] then 1 else 0
  }

  lemma AddedStep(windows: seq<string>, first: nat, row: nat, w: Entry)
    requires first <= row < |windows| && w.source == Windows
    ensures AddedCount(windows, first, row + 1, w)
         == AddedCount(windows, first, row, w)
            + (if windows[row] != "" && w == Entry(windows[row], Windows, row) then 1 else 0)
  {
  }

  lemma {:induction false} PlaceRowsCounts(data: seq<Entry>, windows: seq<string>, first: nat, end: nat, w: Entry)
    requires first <= end <= |windows| && w.source == Windows
    ensures Count(PlaceRows(data, windows, first, end), w) == Count(data, w) + AddedCount(windows, first, end, w)
    decreases end
  {
    if first < end {
      var before, id := PlaceRows(data, windows, first, end - 1), windows[end - 1];
      PlaceRowsCounts(data, windows, first, end - 1, w);
      AddedStep(windows, first, end - 1, w);
      if id == "" {
        assert PlaceRows(data, windows, first, end) == before;
      } else {
        PlaceCounts(before, id, end - 1, w);
        assert PlaceRows(data, windows, first, end) == Place(before, id, end - 1);
      }
    }
  }

  lemma TwiceIsIncompatible(data: seq<Entry>, w: Entry)
    requires Count(data, w) >= 2
    ensures !AllCompatible(data)
  {
    var i, j := CountedTwice(data, w);
    assert !Compatible(data[i], data[j]);
  }

  /** The shift neither merges nor loses entries. */
  lemma {:induction false} ShiftCounts(data: seq<Entry>, from: int, delta: int, w: Entry, w': Entry)
    requires delta > 0 && Shift(Windows, from, delta)(w) == Some(w')
    ensures Count(FilterMap(data, Shift(Windows, from, delta)), w') >= Count(data, w)
  {
    if data != [] {
      ShiftCounts(data[1..], from, delta, w, w');
      assert data == [data[0]] + data[1..];
    }
  }

  /** An entry that the shift takes to row `at` either carries the wrong id there or meets its double. */
  lemma Misplaced(d': Dock, placed: seq<Entry>, from: int, n: nat, w: Entry, at: int)
    requires n > 0 && d'.data == FilterMap(placed, Shift(Windows, from, n))
    requires w.source == Windows && Shift(Windows, from, n)(w) == Some(w.(row := at))
    requires Count(placed, w) >= 1
    requires 0 <= at < |d'.windows| && d'.windows[at] == w.id && w.id != "" ==> Count(placed, w) >= 2
    ensures !Consistent(d')
  {
    var w' := w.(row := at);
    ShiftCounts(placed, from, n, w, w');
    CountPositive(d'.data, w');
    var k :| 0 <= k < |d'.data| && d'.data[k] == w';
    if Agrees(d', d'.data[k]) {
      TwiceIsIncompatible(d'.data, w');
    }
  }

  lemma SecondNamedRow(d: Dock, first: nat, added: seq<string>, i: nat, d': Dock, placed: seq<Entry>)
    requires Consistent(d) && first <= |d.windows| && 1 <= i < |added| && added[i] != ""
    requires d'.windows == d.windows[..first] + added + d.windows[first..]
    requires d'.data == FilterMap(placed, Shift(Windows, first + 1, |added|))
    requires var w := Entry(added[i], Windows, first + i); Count(placed, w) >= 1 + Count(d.data, w)
    ensures !Consistent(d')
  {
    var w := Entry(added[i], Windows, first + i);
    var at := first + i + |added|;
    if at < |d'.windows| && d'.windows[at] == w.id {
      assert d.windows[w.row] == d'.windows[at];
      CountPositive(d.data, w);
    }
    Misplaced(d', placed, first + 1, |added|, w, at);
  }

  lemma NamedRowMakesRoom(d: Dock, first: nat, added: seq<string>, d': Dock, placed: seq<Entry>)
    requires Consistent(d) && first < |d.windows| && added != [] && d.windows[first] != ""
    requires d'.windows == d.windows[..first] + added + d.windows[first..]
    requires d'.data == FilterMap(placed, Shift(Windows, first + 1, |added|))
    requires var w := Entry(d.windows[first], Windows, first);
             Count(placed, w) >= Count(d.data, w) + (if added[0] == w.id then 1 else 0)
    ensures !Consistent(d')
  {
    var w := Entry(d.windows[first], Windows, first);
    CountPositive(d.data, w);
    assert d'.windows[first] == added[0];
    Misplaced(d', placed, first + 1, |added|, w, first);
  }

  lemma NewRowCounted(data: seq<Entry>, windows: seq<string>, first: nat, end: nat, w: Entry)
    requires first <= end <= |windows| && w.source == Windows && first <= w.row < end
    ensures Count(PlaceRows(data, windows, first, end), w)
         == Count(data, w) + (if w.id != "" && w.id == windows[w.row] then 1 else 0)
  {
    PlaceRowsCounts(data, windows, first, end, w);
  }

  lemma WrongShift(d: Dock, first: nat, added: seq<string>)
    requires Consistent(d) && first <= |d.windows| && added != []
    requires !ShiftIsRight(d, first, added)
    ensures !Consistent(InsertWindows(d, first, added))
  {
    var windows := d.windows[..first] + added + d.windows[first..];
    var d' := InsertWindows(d, first, added);
    var end := first + |added|;
    if i :| 1 <= i < |added| && added[i] != "" {
      assert windows[first + i] == added[i];
      NewRowCounted(d.data, windows, first, end, Entry(added[i], Windows, first + i));
      SecondNamedRow(d, first, added, i, d', PlaceRows(d.data, windows, first, end));
    } else {
      assert windows[first] == added[0];
      NewRowCounted(d.data, windows, first, end, Entry(d.windows[first], Windows, first));
      NamedRowMakesRoom(d, first, added, d', PlaceRows(d.data, windows, first, end));
    }
  }

  lemma RightShiftPlaced(d: Dock, first: nat, id: string)
    requires Consistent(d) && first <= |d.windows| && (first < |d.windows| ==> d.windows[first] == "")
    ensures AllCompatible(Place(d.data, id, first))
  {
    forall i | 0 <= i < |d.data| && d.data[i].source == Windows ensures d.data[i].row != first {
      assert Agrees(d, d.data[i]);
    }
    PlaceCompatible(d.data, id, first);
  }

  lemma ShiftCompatible(placed: seq<Entry>, from: int, n: nat)
    requires AllCompatible(placed)
    ensures AllCompatible(FilterMap(placed, Shift(Windows, from, n)))
  {
    var f := Shift(Windows, from, n);
    forall i, j | 0 <= i < j < |placed| ensures Compatible(f(placed[i]).value, f(placed[j]).value) {
      assert Compatible(placed[i], placed[j]);
    }
    FilterMapCompatible(placed, f);
  }

  lemma RightShiftAgrees(d: Dock, first: nat, added: seq<string>, d': Dock, e: Entry)
    requires Consistent(d) && first <= |d.windows| && added != []
    requires first < |d.windows| ==> d.windows[first] == ""
    requires d' == d.(windows := d.windows[..first] + added + d.windows[first..], data := d'.data)
    requires e in d.data || (e == Entry(added[0], Windows, first) && added[0] != "")
    ensures Agrees(d', Shift(Windows, first + 1, |added|)(e).value)
  {
    if e in d.data {
      var k :| 0 <= k < |d.data| && d.data[k] == e;
      assert Agrees(d, d.data[k]);
    }
  }

  lemma RightShiftHasRow(d: Dock, first: nat, added: seq<string>, d': Dock, placed: seq<Entry>, r: nat)
    requires Consistent(d) && first <= |d.windows| && added != []
    requires ShiftIsRight(d, first, added)
    requires d'.windows == d.windows[..first] + added + d.windows[first..]
    requires d'.data == FilterMap(placed, Shift(Windows, first + 1, |added|))
    requires added[0] != "" ==> Entry(added[0], Windows, first) in placed
    requires forall e | e in d.data && e.source == Windows :: e in placed
    requires r < |d'.windows| && d'.windows[r] != ""
    ensures Entry(d'.windows[r], Windows, r) in d'.data
  {
    var n := |added|;
    var r0 := if r <= first + n - 1 then r else r - n;
    var w := Entry(d'.windows[r], Windows, r0);
    if r < first || r >= first + n {
      assert d.windows[r0] == d'.windows[r];
      assert w in d.data;
    } else {
      assert d'.windows[r] == added[r - first];
    }
    assert w in placed;
    FilterMapMember(placed, Shift(Windows, first + 1, n), Entry(d'.windows[r], Windows, r));
  }

  lemma RightShiftOf(d: Dock, first: nat, added: seq<string>, d': Dock, placed: seq<Entry>)
    requires Consistent(d) && first <= |d.windows| && added != []
    requires ShiftIsRight(d, first, added)
    requires d' == d.(windows := d.windows[..first] + added + d.windows[first..], data := d'.data)
    requires d'.data == FilterMap(placed, Shift(Windows, first + 1, |added|))
    requires AllCompatible(placed)
    requires forall e | e in placed :: e in d.data || (e == Entry(added[0], Windows, first) && added[0] != "")
    requires added[0] != "" ==> Entry(added[0], Windows, first) in placed
    requires forall e | e in d.data && e.source == Windows :: e in placed
    ensures Consistent(d')
  {
    var f := Shift(Windows, first + 1, |added|);
    ShiftCompatible(placed, first + 1, |added|);
    forall i | 0 <= i < |placed| ensures Agrees(d', f(placed[i]).value) {
      RightShiftAgrees(d, first, added, d', placed[i]);
    }
    FilterMapAgrees(placed, f, d');
    forall r | 0 <= r < |d'.windows| && d'.windows[r] != "" ensures Entry(d'.windows[r], Windows, r) in d'.data {
      RightShiftHasRow(d, first, added, d', placed, r);
    }
  }

  lemma RightShift(d: Dock, first: nat, added: seq<string>)
    requires Consistent(d) && first <= |d.windows| && added != []
    requires ShiftIsRight(d, first, added)
    ensures Consistent(InsertWindows(d, first, added))
  {
    var d' := InsertWindows(d, first, added);
    var placed := if added[0] == "" then d.data else Place(d.data, added[0], first);
    assert d'.windows[first] == added[0];
    assert forall i | first < i < first + |added| :: d'.windows[i] == added[i - first];
    OnlyFirstPlaced(d.data, d'.windows, first, first + |added|);
    PlaceMembers(d.data, added[0], first);
    RightShiftPlaced(d, first, added[0]);
    RightShiftOf(d, first, added, d', placed);
  }

  lemma OnlyFirstPlaced(data: seq<Entry>, windows: seq<string>, first: nat, end: nat)
    requires first < end <= |windows|
    requires forall i | first < i < end :: windows[i] == ""
    ensures PlaceRows(data, windows, first, end)
         == if windows[first] == "" then data else Place(data, windows[first], first)
  {
    if end == first + 1 {
      assert PlaceRows(data, windows, first, first) == data;
    } else {
      OnlyFirstPlaced(data, windows, first, end - 1);
    }
  }

  /** The handler's shift starts after the first new row and also moves the entries just added, so
      it is right for one appended row and wrong as soon as a second new row carries an id or a
      named window had to make room. */
  lemma InsertWindowsConsistentIff(d: Dock, first: nat, added: seq<string>)
    requires Consistent(d) && first <= |d.windows| && added != []
    ensures Consistent(InsertWindows(d, first, added)) <==> ShiftIsRight(d, first, added)
  {
    if ShiftIsRight(d, first, added) {
      RightShift(d, first, added);
    } else {
      WrongShift(d, first, added);
    }
  }

  /** Two named windows reported at once already break the agreement. */
  lemma TwoRowsAtOnceFail()
    ensures Consistent(Dock([], [], [], [])) && !Consistent(InsertWindows(Dock([], [], [], []), 0, ["a", "b"]))
  {
    var d := Dock([], [], [], []);
    InsertWindowsConsistentIff(d, 0, ["a", "b"]);
    assert ["a", "b"][1] == "b";
  }

  // ---------- applications in the middle ----------

  /** The dock after an application appears before row `at`: nobody handles it. */
  function InsertApp(d: Dock, at: nat, id: string): Dock
    requires at <= |d.apps|
  {
    d.(apps := InsertAt(d.apps, at, id))
  }

  /** So the launchers keep their old rows, which is right exactly when none stood at the place or
      behind it. */
  lemma InsertAppConsistentIff(d: Dock, at: nat, id: string)
    requires Consistent(d) && at <= |d.apps| && id !in d.apps
    ensures Consistent(InsertApp(d, at, id)) <==>
              forall i | 0 <= i < |d.data| && d.data[i].source == Apps :: d.data[i].row < at
  {
    var d' := InsertApp(d, at, id);
    assert forall k | 0 <= k < |d'.apps| ::
             d'.apps[k] == if k < at then d.apps[k] else if k == at then id else d.apps[k - 1];
    assert Distinct(d'.apps);
    if i :| 0 <= i < |d.data| && d.data[i].source == Apps && d.data[i].row >= at {
      assert Agrees(d, d.data[i]);
      assert !Agrees(d', d'.data[i]);
    } else {
      forall i | 0 <= i < |d'.data| ensures Agrees(d', d'.data[i]) {
        assert Agrees(d, d.data[i]);
      }
    }
  }

  /** A launcher for "a", and "b" is installed in front of it: the launcher now points at "b". */
  lemma InstalledInFrontFails()
    ensures var d := Dock(["a"], [], ["a"], [Entry("a", Apps, 0)]);
            Consistent(d) && !Consistent(InsertApp(d, 0, "b"))
  {
    var d := Dock(["a"], [], ["a"], [Entry("a", Apps, 0)]);
    assert Agrees(d, d.data[0]);
    InsertAppConsistentIff(d, 0, "b");
  }
}
