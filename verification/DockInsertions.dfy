/** What the handlers do with the order of the list as a whole: grouped windows stay together, and a
    new window moves nobody else. */
module DockInsertions {
  import opened Lists
  import opened DockState
  import opened DockGrouping
  import opened DockRuns

  // ---------- grouped lists stay grouped ----------

  lemma FilterMapContiguous(data: seq<Entry>, f: Entry -> Option<Entry>)
    requires Contiguous(data)
    requires forall e | e in data && f(e).Some? :: f(e).value.id == e.id
    ensures Contiguous(FilterMap(data, f))
  {
    var r := FilterMap(data, f);
    var from := FilterMapOrigin(data, f);
    forall i | 0 <= i < |r| ensures r[i].id == data[from[i]].id {
      assert f(data[from[i]]) == Some(r[i]);
    }
    SelectedContiguous(data, from, r);
  }

  /** A selection of positions, possibly repeated, in order, does not interrupt a block. */
  lemma SelectedContiguous(data: seq<Entry>, from: seq<nat>, r: seq<Entry>)
    requires Contiguous(data) && |from| == |r|
    requires forall i | 0 <= i < |from| :: from[i] < |data| && r[i].id == data[from[i]].id
    requires forall i, j | 0 <= i < j < |from| :: from[i] <= from[j]
    ensures Contiguous(r)
  {
    forall i, j, k | 0 <= i < j < k < |r| && r[i].id == r[k].id ensures r[j].id == r[i].id {
      var i0, j0, k0 := from[i], from[j], from[k];
      if i0 < j0 < k0 { assert data[i0].id == data[k0].id; }
    }
  }

  lemma AppendContiguous(data: seq<Entry>, e: Entry)
    requires Contiguous(data) && !HasId(data, e.id)
    ensures Contiguous(data + [e])
  {
    var r := data + [e];
    forall i, j, k | 0 <= i < j < k < |r| && r[i].id == r[k].id ensures r[j].id == r[i].id {
      assert r[i] == data[i] && k < |data|;
      assert data[i].id == data[k].id;
    }
  }

  /** A new window joins its application's windows instead of splitting a block. */
  lemma PlaceContiguous(data: seq<Entry>, id: string, row: nat)
    requires Contiguous(data)
    ensures Contiguous(Place(data, id, row))
  {
    var r := Place(data, id, row);
    if !HasId(data, id) {
      AppendContiguous(data, Entry(id, Windows, row));
    } else {
      var p := FirstWithId(data, id);
      if data[p].source == Apps {
        assert forall i | 0 <= i < |data| :: r[i].id == data[i].id;
      } else {
        InsertedContiguous(data, id, Entry(id, Windows, row));
      }
    }
  }

  lemma InsertedContiguous(data: seq<Entry>, id: string, e: Entry)
    requires Contiguous(data) && HasId(data, id) && e.id == id
    ensures Contiguous(InsertAt(data, LastWithId(data, id) + 1, e))
  {
    var q := LastWithId(data, id) + 1;
    var r := InsertAt(data, q, e);
    var from := seq(|r|, i => if i < q then i else i - 1);
    SelectedContiguous(data, from, r);
  }

  lemma {:induction false} AddLaunchersContiguous(data: seq<Entry>, apps: seq<string>, docked: seq<string>,
                                                  ids: seq<string>)
    requires Contiguous(data)
    ensures Contiguous(AddLaunchers(data, apps, docked, ids))
    decreases ids
  {
    if ids != [] {
      var id := ids[0];
      if id in apps && id !in docked && !HasId(data, id) {
        var e := Entry(id, Apps, IndexOf(apps, id));
        AppendContiguous(data, e);
        AddLaunchersContiguous(data + [e], apps, docked, ids[1..]);
      } else {
        AddLaunchersContiguous(data, apps, docked, ids[1..]);
      }
    }
  }

  /** Once grouped, the list stays grouped through every step but a drag. */
  lemma StaysGrouped(d: Dock, s: Step)
    requires Contiguous(d.data) && Possible(d, s) && !s.ItemDragged?
    ensures Contiguous(Next(d, s).data)
  {
    match s
    case WindowOpened(id) => if id != "" { PlaceContiguous(d.data, id, |d.windows|); }
    case WindowsClosed(first, last) => FilterMapContiguous(d.data, CloseRows(d, first, last));
    case AppInstalled(id) =>
    case AppsUninstalled(first, last) => FilterMapContiguous(d.data, DropRows(Apps, first, last));
    case DockedReloaded(ids) =>
      AddLaunchersContiguous(d.data, d.apps, d.docked, ids);
      FilterMapContiguous(AddLaunchers(d.data, d.apps, d.docked, ids), Keep(StillDocked(Next(d, s).docked)));
    case Regrouped(windowSplit) => if !windowSplit { StableGroupingContiguous(d.data); }
  }

  lemma PlaceOrderLauncher(data: seq<Entry>, id: string, row: nat)
    requires AllCompatible(data) && HasId(data, id) && data[FirstWithId(data, id)].source == Apps
    ensures var w := Entry(id, Windows, row);
            && Filter(Place(data, id, row), WithoutId(id)) == Filter(data, WithoutId(id))
            && Filter(Place(data, id, row), WithId(id)) == [w]
  {
    var a, launcher, b := AroundLauncher(data, id, row);
    OnlyOneBetween(a, launcher, b, id);
    OnlyOneBetween(a, Entry(id, Windows, row), b, id);
  }

  lemma AroundLauncher(data: seq<Entry>, id: string, row: nat) returns (a: seq<Entry>, launcher: Entry, b: seq<Entry>)
    requires AllCompatible(data) && HasId(data, id) && data[FirstWithId(data, id)].source == Apps
    ensures (forall i | 0 <= i < |a| :: a[i].id != id) && forall i | 0 <= i < |b| :: b[i].id != id
    ensures launcher.id == id && data == a + [launcher] + b
    ensures Place(data, id, row) == a + [Entry(id, Windows, row)] + b
  {
    var p := FirstWithId(data, id);
    a, launcher, b := data[..p], data[p], data[p + 1..];
    forall i | p < i < |data| ensures data[i].id != id { assert Compatible(data[p], data[i]); }
  }

  lemma OnlyOneBetween(a: seq<Entry>, w: Entry, b: seq<Entry>, id: string)
    requires w.id == id && (forall i | 0 <= i < |a| :: a[i].id != id) && forall i | 0 <= i < |b| :: b[i].id != id
    ensures Filter(a + [w] + b, WithoutId(id)) == Filter(a + b, WithoutId(id))
    ensures Filter(a + [w] + b, WithId(id)) == [w]
  {
    PlacedBetween(a, w, b, id);
    FilterNone(a, WithId(id));
  }

  lemma PlaceOrderBeside(data: seq<Entry>, id: string, row: nat)
    requires AllCompatible(data) && HasId(data, id) && data[FirstWithId(data, id)].source == Windows
    ensures var w := Entry(id, Windows, row);
            && Filter(Place(data, id, row), WithoutId(id)) == Filter(data, WithoutId(id))
            && Filter(Place(data, id, row), WithId(id)) == Filter(data, WithId(id)) + [w]
    ensures forall e | e in data && e.id == id :: e.source == Windows
  {
    var w := Entry(id, Windows, row);
    OnlyWindows(data, id);
    var q := LastWithId(data, id) + 1;
    PlacedBetween(data[..q], w, data[q..], id);
    assert data == data[..q] + data[q..];
  }

  lemma OnlyWindows(data: seq<Entry>, id: string)
    requires AllCompatible(data) && HasId(data, id) && data[FirstWithId(data, id)].source == Windows
    ensures forall e | e in data && e.id == id :: e.source == Windows
  {
    var p := FirstWithId(data, id);
    forall e | e in data && e.id == id ensures e.source == Windows {
      var i :| 0 <= i < |data| && data[i] == e;
      if p < i { assert Compatible(data[p], data[i]); }
    }
  }

  /** Placing a window leaves the other applications' order alone; within its own application it
      either takes the launcher's place or comes last. */
  lemma PlaceOrder(data: seq<Entry>, id: string, row: nat)
    requires AllCompatible(data)
    ensures var w := Entry(id, Windows, row);
            && Filter(Place(data, id, row), WithoutId(id)) == Filter(data, WithoutId(id))
            && Filter(Place(data, id, row), WithId(id))
            == (if exists e :: e in data && e.id == id && e.source == Apps then [w] else Filter(data, WithId(id)) + [w])
  {
    var w := Entry(id, Windows, row);
    if !HasId(data, id) {
      PlacedBetween(data, w, [], id);
      assert data == data + [] && data + [w] == data + [w] + [];
    } else {
      var p := FirstWithId(data, id);
      if data[p].source == Apps {
        PlaceOrderLauncher(data, id, row);
      } else {
        PlaceOrderBeside(data, id, row);
      }
    }
  }

  lemma PlacedBetween(a: seq<Entry>, w: Entry, b: seq<Entry>, id: string)
    requires w.id == id && forall i | 0 <= i < |b| :: b[i].id != id
    ensures Filter(a + [w] + b, WithoutId(id)) == Filter(a + b, WithoutId(id))
    ensures Filter(a + [w] + b, WithId(id)) == Filter(a, WithId(id)) + [w]
    ensures Filter(a + b, WithId(id)) == Filter(a, WithId(id))
  {
    FilterConcat(a + [w], b, WithoutId(id));
    FilterConcat(a, [w], WithoutId(id));
    FilterConcat(a, b, WithoutId(id));
    FilterConcat(a + [w], b, WithId(id));
    FilterConcat(a, [w], WithId(id));
    FilterConcat(a, b, WithId(id));
    FilterNone([w], WithoutId(id));
    FilterAll([w], WithId(id));
    FilterNone(b, WithId(id));
  }
}
