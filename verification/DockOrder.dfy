/** Where every entry stands after a step: the exact list, in terms of the one before. */
module DockOrder {
  import opened Lists
  import opened DockState
  import opened DockAgreement

  // ---------- windows opening ----------

  /** The first entry of the application is its launcher, at p. */
  ghost predicate LauncherFirst(data: seq<Entry>, id: string, p: nat) {
    p < |data| && data[p].id == id && data[p].source == Apps && forall i | 0 <= i < p :: data[i].id != id
  }

  /** The new window takes its launcher's place. Without a launcher it goes right behind the application's last
      entry, and to the end of the list when there is none; nothing else moves. */
  lemma PlaceExactly(data: seq<Entry>, id: string, row: nat) returns (p: nat)
    ensures var r := Place(data, id, row);
            && p < |r| && r[p] == Entry(id, Windows, row)
            && if exists q :: LauncherFirst(data, id, q) then LauncherFirst(data, id, p) && r[p := data[p]] == data
               else
                 && RemoveAt(r, p) == data
                 && (if HasId(data, id) then p > 0 && r[p - 1].id == id && forall i | p < i < |r| :: r[i].id != id
                     else p == |data|)
  {
    if !HasId(data, id) {
      p := |data|;
    } else if data[FirstWithId(data, id)].source == Apps {
      p := FirstWithId(data, id);
      assert LauncherFirst(data, id, p);
    } else {
      p := LastWithId(data, id) + 1;
      RemoveInserted(data, p, Entry(id, Windows, row));
    }
  }

  /** x stands somewhere in front of y. */
  ghost predicate InFrontOf(data: seq<Entry>, x: Entry, y: Entry) {
    exists i, j :: 0 <= i < j < |data| && data[i] == x && data[j] == y
  }

  lemma PlaceKeepsOrder(data: seq<Entry>, id: string, row: nat, x: Entry, y: Entry)
    requires InFrontOf(data, x, y) && x.source == Windows && y.source == Windows
    ensures InFrontOf(Place(data, id, row), x, y)
  {
    var p := PlaceShape(data, id, row);
    if |Place(data, id, row)| == |data| {
      SetKeepsOrder(data, p, Entry(id, Windows, row), x, y);
    } else {
      InsertKeepsOrder(data, p, Entry(id, Windows, row), x, y);
    }
  }

  lemma PlaceShape(data: seq<Entry>, id: string, row: nat) returns (p: nat)
    ensures var e, r := Entry(id, Windows, row), Place(data, id, row);
            && p <= |data|
            && if |r| == |data| then p < |data| && data[p].source == Apps && data[p].id == id && r == data[p := e]
               else r == InsertAt(data, p, e)
  {
    p := if !HasId(data, id) then |data|
         else if data[FirstWithId(data, id)].source == Apps then FirstWithId(data, id) else LastWithId(data, id) + 1;
  }

  lemma SetKeepsOrder(data: seq<Entry>, p: nat, e: Entry, x: Entry, y: Entry)
    requires InFrontOf(data, x, y) && p < |data| && data[p] != x && data[p] != y
    ensures InFrontOf(data[p := e], x, y)
  {
    var i, j :| 0 <= i < j < |data| && data[i] == x && data[j] == y;
    assert data[p := e][i] == x && data[p := e][j] == y;
  }

  lemma InsertKeepsOrder(data: seq<Entry>, p: nat, e: Entry, x: Entry, y: Entry)
    requires InFrontOf(data, x, y) && p <= |data|
    ensures InFrontOf(InsertAt(data, p, e), x, y)
  {
    var i, j :| 0 <= i < j < |data| && data[i] == x && data[j] == y;
    var r := InsertAt(data, p, e);
    assert r[if i < p then i else i + 1] == x && r[if j < p then j else j + 1] == y;
  }

  ghost predicate WindowFirst(data: seq<Entry>, id: string) {
    HasId(data, id) ==> data[FirstWithId(data, id)].source == Windows
  }

  /** A window that joins its application or is the first of it comes to stand behind the application's others, or
      behind all. */
  lemma PlacedBehind(data: seq<Entry>, x: Entry, id: string, row: nat)
    requires x in data && x.source == Windows && (x.id == id || !HasId(data, id))
    requires WindowFirst(data, id)
    ensures InFrontOf(Place(data, id, row), x, Entry(id, Windows, row))
  {
    var i :| 0 <= i < |data| && data[i] == x;
    var r := Place(data, id, row);
    if HasId(data, id) {
      var q := LastWithId(data, id) + 1;
      assert r[i] == x && r[q] == Entry(id, Windows, row);
    } else {
      assert r[i] == x && r[|data|] == Entry(id, Windows, row);
    }
  }

  /** Once a window of the application is placed, its first entry is a window. */
  lemma PlacedFirst(data: seq<Entry>, id: string, row: nat)
    ensures WindowFirst(Place(data, id, row), id)
  {
    var r := Place(data, id, row);
    var w := if HasId(data, id) then FirstWithId(data, id) else |data|;
    assert r[w].id == id && r[w].source == Windows;
    assert forall i | 0 <= i < w :: r[i].id != id;
  }

  lemma OthersFirst(data: seq<Entry>, id: string, other: string, row: nat)
    requires WindowFirst(data, id) && other != id
    ensures WindowFirst(Place(data, other, row), id)
  {
    var p := PlaceShape(data, other, row);
    if |Place(data, other, row)| == |data| {
      FirstAfterSet(data, p, Entry(other, Windows, row), id);
    } else {
      FirstAfterInsert(data, p, Entry(other, Windows, row), id);
    }
  }

  lemma FirstAfterSet(data: seq<Entry>, p: nat, e: Entry, id: string)
    requires WindowFirst(data, id) && p < |data| && data[p].id != id && e.id != id
    ensures WindowFirst(data[p := e], id)
  {
    var r := data[p := e];
    if HasId(r, id) {
      assert forall i | 0 <= i < |data| && i != p :: data[i] == r[i];
      FirstIs(data, id, FirstWithId(r, id));
    }
  }

  lemma FirstAfterInsert(data: seq<Entry>, p: nat, e: Entry, id: string)
    requires WindowFirst(data, id) && p <= |data| && e.id != id
    ensures WindowFirst(InsertAt(data, p, e), id)
  {
    var r := InsertAt(data, p, e);
    if HasId(r, id) {
      var q := FirstWithId(r, id);
      assert forall i | 0 <= i < |data| :: data[i] == r[if i < p then i else i + 1];
      FirstIs(data, id, if q < p then q else q - 1);
    }
  }

  lemma FirstIs(data: seq<Entry>, id: string, q: nat)
    requires q < |data| && data[q].id == id && forall i | 0 <= i < q :: data[i].id != id
    ensures HasId(data, id) && FirstWithId(data, id) == q
  {
  }

  function NewRow(windows: seq<string>, i: nat): Entry
    requires i < |windows|
  {
    Entry(windows[i], Windows, i)
  }

  /** A placed row is on the list and its application starts with a window. */
  lemma {:induction false} RowPlaced(data: seq<Entry>, windows: seq<string>, first: nat, end: nat, i: nat)
    requires first <= i < end <= |windows| && windows[i] != ""
    ensures var r := PlaceRows(data, windows, first, end); NewRow(windows, i) in r && WindowFirst(r, windows[i])
  {
    if i < end - 1 { RowPlaced(data, windows, first, end - 1, i); }
    if windows[end - 1] != "" {
      StillPlaced(PlaceRows(data, windows, first, end - 1), windows[end - 1], end - 1, NewRow(windows, i));
    }
  }

  lemma StillPlaced(data: seq<Entry>, id: string, row: nat, w: Entry)
    requires w.source == Windows && (w == Entry(id, Windows, row) || (w in data && WindowFirst(data, w.id)))
    ensures w in Place(data, id, row) && WindowFirst(Place(data, id, row), w.id)
  {
    PlaceMembers(data, id, row);
    if id == w.id { PlacedFirst(data, id, row); } else { OthersFirst(data, w.id, id, row); }
  }

  /** An application without an entry that none of the rows belongs to has none afterwards. */
  lemma {:induction false} NoRowOf(data: seq<Entry>, windows: seq<string>, first: nat, end: nat, id: string)
    requires first <= end <= |windows| && !HasId(data, id) && id !in windows[first..end]
    ensures !HasId(PlaceRows(data, windows, first, end), id)
  {
    if first < end {
      assert windows[first..end] == windows[first..end - 1] + [windows[end - 1]];
      var before, other := PlaceRows(data, windows, first, end - 1), windows[end - 1];
      NoRowOf(data, windows, first, end - 1, id);
      if other != "" {
        PlaceMembers(before, other, end - 1);
        var r := Place(before, other, end - 1);
        forall k | 0 <= k < |r| ensures r[k].id != id {
          assert r[k] in r;
        }
      }
    }
  }

  /** Rows inserted together: windows of one application follow each other in the order of their rows, and the
      first window of an application that had no entry stands behind those of all earlier rows. */
  lemma {:induction false} RowsInOrder(data: seq<Entry>, windows: seq<string>, first: nat, end: nat, i: nat, j: nat)
    requires first <= i < j < end <= |windows| && windows[i] != "" && windows[j] != ""
    requires windows[i] == windows[j] || (!HasId(data, windows[j]) && windows[j] !in windows[first..j])
    ensures InFrontOf(PlaceRows(data, windows, first, end), NewRow(windows, i), NewRow(windows, j))
  {
    if j == end - 1 {
      LastRowBehind(data, windows, first, i, j);
    } else {
      RowsInOrder(data, windows, first, end - 1, i, j);
      NextRowKeepsOrder(data, windows, first, end, NewRow(windows, i), NewRow(windows, j));
    }
  }

  lemma NextRowKeepsOrder(data: seq<Entry>, windows: seq<string>, first: nat, end: nat, x: Entry, y: Entry)
    requires first < end <= |windows| && x.source == Windows && y.source == Windows
    requires InFrontOf(PlaceRows(data, windows, first, end - 1), x, y)
    ensures InFrontOf(PlaceRows(data, windows, first, end), x, y)
  {
    OneRowKeepsOrder(PlaceRows(data, windows, first, end - 1), PlaceRows(data, windows, first, end),
                     windows[end - 1], end - 1, x, y);
  }

  lemma OneRowKeepsOrder(data: seq<Entry>, r: seq<Entry>, id: string, row: nat, x: Entry, y: Entry)
    requires r == if id == "" then data else Place(data, id, row)
    requires InFrontOf(data, x, y) && x.source == Windows && y.source == Windows
    ensures InFrontOf(r, x, y)
  {
    if id != "" { PlaceKeepsOrder(data, id, row, x, y); }
  }

  lemma LastRowBehind(data: seq<Entry>, windows: seq<string>, first: nat, i: nat, j: nat)
    requires first <= i < j < |windows| && windows[i] != "" && windows[j] != ""
    requires windows[i] == windows[j] || (!HasId(data, windows[j]) && windows[j] !in windows[first..j])
    ensures InFrontOf(PlaceRows(data, windows, first, j + 1), NewRow(windows, i), NewRow(windows, j))
  {
    RowPlaced(data, windows, first, j, i);
    if windows[i] != windows[j] { NoRowOf(data, windows, first, j, windows[j]); }
    PlacedBehind(PlaceRows(data, windows, first, j), NewRow(windows, i), windows[j], j);
  }

  // ---------- entries going ----------

  /** e is the window with the greatest row of its application, and no window of it is in front of row first. */
  ghost predicate LastToGo(data: seq<Entry>, first: int, e: Entry) {
    && (forall x | x in data && x.source == Windows && x.id == e.id :: x.row <= e.row)
    && !exists x :: x in data && x.source == Windows && x.id == e.id && x.row < first
  }

  /** What stays when windows close, and in which order: of the closed windows, the one with the greatest row
      of a docked, installed application of which no window stays leaves the launcher in its place. */
  lemma CloseWindowsExactly(d: Dock, first: nat, last: nat) returns (from: seq<nat>)
    requires first <= last < |d.windows|
    ensures var r := CloseWindows(d, first, last).data;
            && Picks(from, |d.data|) && |from| == |r|
            && (forall j: nat | j < |d.data| :: j in from <==>
                 var e := d.data[j];
                 || e.source == Apps || e.row < first || e.row > last
                 || (e.id in d.docked && e.id in d.apps && LastToGo(d.data, first, e)))
            && forall k | 0 <= k < |r| ::
                 var e := d.data[from[k]];
                 r[k] == if e.source == Apps || e.row < first then e
                         else if e.row > last then e.(row := e.row - (last - first + 1))
                         else Entry(e.id, Apps, IndexOf(d.apps, e.id))
  {
    var f := CloseRows(d, first, last);
    from := FilterMapOrigin(d.data, f);
    forall j: nat | j < |d.data| ensures f(d.data[j]).Some? <==> j in from {
      if j in from {
        var k :| 0 <= k < |from| && from[k] == j;
        assert f(d.data[from[k]]).Some?;
      }
    }
    forall j: nat | j < |d.data|
      ensures LastToGo(d.data, first, d.data[j]) <==> LastStanding(d.data, first, d.data[j])
    {
      if LastStanding(d.data, first, d.data[j]) {
        forall x | x in d.data && x.source == Windows && x.id == d.data[j].id ensures first <= x.row <= d.data[j].row {
          var i :| 0 <= i < |d.data| && d.data[i] == x;
        }
      }
    }
    assert forall k | 0 <= k < |from| :: f(d.data[from[k]]) == Some(CloseWindows(d, first, last).data[k]);
  }

  lemma UninstallAppsExactly(d: Dock, first: nat, last: nat) returns (from: seq<nat>)
    requires first <= last < |d.apps|
    ensures var r := UninstallApps(d, first, last).data;
            && Picks(from, |d.data|) && |from| == |r|
            && (forall j: nat | j < |d.data| :: j in from <==>
                 d.data[j].source == Windows || d.data[j].row < first || d.data[j].row > last)
            && forall k | 0 <= k < |r| ::
                 var e := d.data[from[k]];
                 r[k] == if e.source == Apps && e.row > last then e.(row := e.row - (last - first + 1)) else e
  {
    var f := DropRows(Apps, first, last);
    from := FilterMapOrigin(d.data, f);
    forall j: nat | j < |d.data| ensures f(d.data[j]).Some? <==> j in from {
      if j in from {
        var k :| 0 <= k < |from| && from[k] == j;
        assert f(d.data[from[k]]).Some?;
      }
    }
  }

  // ---------- docking ----------

  /** The rows are launchers of different applications, in the order in which the list first names them. */
  ghost predicate ListedOnce(added: seq<Entry>, apps: seq<string>, ids: seq<string>) {
    && (forall k | 0 <= k < |added| ::
         added[k].id in ids && added[k].id in apps && added[k] == Entry(added[k].id, Apps, IndexOf(apps, added[k].id)))
    && forall j, k | 0 <= j < k < |added| :: IndexOf(ids, added[j].id) < IndexOf(ids, added[k].id)
  }

  lemma {:induction false} AddLaunchersExactly(data: seq<Entry>, apps: seq<string>, docked: seq<string>,
                                               ids: seq<string>) returns (added: seq<Entry>)
    ensures AddLaunchers(data, apps, docked, ids) == data + added
    ensures ListedOnce(added, apps, ids)
    ensures forall id :: HasId(added, id) <==> id in ids && id in apps && id !in docked && !HasId(data, id)
    decreases ids
  {
    if ids == [] {
      added := [];
    } else {
      var id, rest := ids[0], ids[1..];
      if id in apps && id !in docked && !HasId(data, id) {
        var e := Entry(id, Apps, IndexOf(apps, id));
        var later := AddLaunchersExactly(data + [e], apps, docked, rest);
        added := [e] + later;
        Associative(data, [e], later);
        OneMoreId(data, e);
        OneMoreInFront(e, later);
        LauncherInFront(e, later, apps, ids);
      } else {
        added := AddLaunchersExactly(data, apps, docked, rest);
        LaterListed(added, apps, ids);
      }
    }
  }

  /** What is listed behind the first id keeps its order with that id in front. */
  lemma LaterListed(added: seq<Entry>, apps: seq<string>, ids: seq<string>)
    requires ids != [] && ListedOnce(added, apps, ids[1..]) && !HasId(added, ids[0])
    ensures ListedOnce(added, apps, ids)
    ensures forall k | 0 <= k < |added| :: IndexOf(ids, added[k].id) > 0
  {
    forall k | 0 <= k < |added|
      ensures added[k].id in ids && IndexOf(ids, added[k].id) == 1 + IndexOf(ids[1..], added[k].id)
    {
      assert added[k].id != ids[0];
    }
  }

  lemma LauncherInFront(e: Entry, later: seq<Entry>, apps: seq<string>, ids: seq<string>)
    requires ids != [] && ids[0] in apps && e == Entry(ids[0], Apps, IndexOf(apps, ids[0]))
    requires ListedOnce(later, apps, ids[1..]) && !HasId(later, ids[0])
    ensures ListedOnce([e] + later, apps, ids)
  {
    LaterListed(later, apps, ids);
    assert IndexOf(ids, ids[0]) == 0;
  }

  lemma OneMoreId(data: seq<Entry>, e: Entry)
    ensures forall id :: HasId(data + [e], id) <==> HasId(data, id) || id == e.id
  {
    var r := data + [e];
    forall id ensures HasId(r, id) <==> HasId(data, id) || id == e.id {
      if i :| 0 <= i < |data| && data[i].id == id { assert r[i].id == id; }
      if id == e.id { assert r[|data|].id == id; }
    }
  }

  lemma OneMoreInFront(e: Entry, later: seq<Entry>)
    ensures forall id :: HasId([e] + later, id) <==> HasId(later, id) || id == e.id
  {
    var r := [e] + later;
    forall id ensures HasId(r, id) <==> HasId(later, id) || id == e.id {
      if i :| 0 <= i < |later| && later[i].id == id { assert r[i + 1].id == id; }
      if id == e.id { assert r[0].id == id; }
    }
  }

  /** A reload keeps the windows and the launchers of what is still docked, in their order, and behind them come
      the launchers of what is new on the list, in the order of the list: what is installed, was not docked and
      had no entry, each once. */
  lemma ReloadDockedExactly(d: Dock, ids: seq<string>) returns (added: seq<Entry>)
    ensures var d' := ReloadDocked(d, ids);
            && d' == d.(docked := d'.docked, data := d'.data)
            && d'.docked == Filter(ids, (id: string) => id in d.apps)
            && d'.data == Filter(d.data, (e: Entry) => e.source == Windows || (e.id in ids && e.id in d.apps)) + added
    ensures ListedOnce(added, d.apps, ids)
    ensures forall id :: HasId(added, id) <==> id in ids && id in d.apps && id !in d.docked && !HasId(d.data, id)
  {
    added := AddLaunchersExactly(d.data, d.apps, d.docked, ids);
    var docked := Filter(ids, In(d.apps));
    FilterMapCongruence(ids, Keep(In(d.apps)), Keep((id: string) => id in d.apps));
    forall id ensures id in docked <==> id in ids && id in d.apps {
      FilterMember(ids, In(d.apps), id);
    }
    FilterMapConcat(d.data, added, Keep(StillDocked(docked)));
    forall e | e in added ensures StillDocked(docked)(e) {
      var k :| 0 <= k < |added| && added[k] == e;
      assert added[k].id in ids;
    }
    FilterMapIdentity(added, Keep(StillDocked(docked)));
    FilterMapCongruence(d.data, Keep(StillDocked(docked)),
                        Keep((e: Entry) => e.source == Windows || (e.id in ids && e.id in d.apps)));
  }
}
