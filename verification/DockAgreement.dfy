/** Every step keeps the element list in agreement with its two sources. */
module DockAgreement {
  import opened Lists
  import opened DockState

  lemma FilterMapCompatible(data: seq<Entry>, f: Entry -> Option<Entry>)
    requires forall i, j | 0 <= i < j < |data| && f(data[i]).Some? && f(data[j]).Some? ::
               Compatible(f(data[i]).value, f(data[j]).value)
    ensures AllCompatible(FilterMap(data, f))
  {
    var from := FilterMapOrigin(data, f);
    var r := FilterMap(data, f);
    forall i, j | 0 <= i < j < |r| ensures Compatible(r[i], r[j]) {
      assert f(data[from[i]]) == Some(r[i]) && f(data[from[j]]) == Some(r[j]);
    }
  }

  /** A rewriting keeps agreement when each surviving row agrees with the new sources. */
  lemma FilterMapAgrees(data: seq<Entry>, f: Entry -> Option<Entry>, d': Dock)
    requires d'.data == FilterMap(data, f)
    requires forall i | 0 <= i < |data| && f(data[i]).Some? :: Agrees(d', f(data[i]).value)
    ensures forall i | 0 <= i < |d'.data| :: Agrees(d', d'.data[i])
  {
    var from := FilterMapOrigin(data, f);
    forall i | 0 <= i < |d'.data| ensures Agrees(d', d'.data[i]) {
      assert f(data[from[i]]) == Some(d'.data[i]);
    }
  }

  lemma PlaceCompatible(data: seq<Entry>, id: string, row: nat)
    requires AllCompatible(data)
    requires forall i | 0 <= i < |data| && data[i].source == Windows :: data[i].row != row
    ensures AllCompatible(Place(data, id, row))
  {
    var r := Place(data, id, row);
    if HasId(data, id) {
      var p := FirstWithId(data, id);
      if data[p].source == Windows {
        var q := LastWithId(data, id) + 1;
        assert forall i | 0 <= i < |data| && data[i].id == id :: data[i].source == Windows by {
          forall i | 0 <= i < |data| && data[i].id == id ensures data[i].source == Windows {
            if p < i { assert Compatible(data[p], data[i]); }
          }
        }
        forall i, j | 0 <= i < j < |r| ensures Compatible(r[i], r[j]) {
          var i0, j0 := if i < q then i else i - 1, if j < q then j else j - 1;
          assert r[i] == if i == q then Entry(id, Windows, row) else data[i0];
          assert r[j] == if j == q then Entry(id, Windows, row) else data[j0];
          if i != q && j != q { assert Compatible(data[i0], data[j0]); }
        }
      } else {
        forall i, j | 0 <= i < j < |r| ensures Compatible(r[i], r[j]) {
          assert Compatible(data[i], data[j]);
        }
      }
    }
  }

  /** Placing a window adds exactly its entry, and takes out at most its application's launcher. */
  lemma PlaceMembers(data: seq<Entry>, id: string, row: nat)
    ensures Entry(id, Windows, row) in Place(data, id, row)
    ensures forall e | e in Place(data, id, row) :: e == Entry(id, Windows, row) || e in data
    ensures forall e | e in data && !(e.source == Apps && e.id == id) :: e in Place(data, id, row)
  {
    var w := Entry(id, Windows, row);
    var r := Place(data, id, row);
    if !HasId(data, id) {
      assert r[|data|] == w;
    } else {
      var p := FirstWithId(data, id);
      if data[p].source == Apps {
        assert r[p] == w;
        forall e | e in data && !(e.source == Apps && e.id == id) ensures e in r {
          var i :| 0 <= i < |data| && data[i] == e;
          assert r[i] == e;
        }
      } else {
        var q := LastWithId(data, id) + 1;
        assert r[q] == w;
        assert data == data[..q] + data[q..];
      }
    }
  }

  lemma OpenWindowConsistent(d: Dock, id: string)
    requires Consistent(d)
    ensures Consistent(OpenWindow(d, id))
  {
    var d' := OpenWindow(d, id);
    var row := |d.windows|;
    if id != "" {
      PlaceMembers(d.data, id, row);
      assert AllCompatible(d'.data) by {
        forall i | 0 <= i < |d.data| && d.data[i].source == Windows ensures d.data[i].row != row {
          assert Agrees(d, d.data[i]);
        }
        PlaceCompatible(d.data, id, row);
      }
    }
    forall i | 0 <= i < |d'.data| ensures Agrees(d', d'.data[i]) {
      assert d'.data[i] in d'.data;
      if d'.data[i] in d.data {
        var k :| 0 <= k < |d.data| && d.data[k] == d'.data[i];
        assert Agrees(d, d.data[k]);
      }
    }
  }

  lemma CloseWindowsCompatible(d: Dock, first: nat, last: nat)
    requires Consistent(d) && first <= last < |d.windows|
    ensures AllCompatible(CloseWindows(d, first, last).data)
  {
    var f := CloseRows(d, first, last);
    forall i, j | 0 <= i < j < |d.data| && f(d.data[i]).Some? && f(d.data[j]).Some?
      ensures Compatible(f(d.data[i]).value, f(d.data[j]).value)
    {
      assert Compatible(d.data[i], d.data[j]);
    }
    FilterMapCompatible(d.data, f);
  }

  lemma CloseWindowsConsistent(d: Dock, first: nat, last: nat)
    requires Consistent(d) && first <= last < |d.windows|
    ensures Consistent(CloseWindows(d, first, last))
  {
    CloseWindowsCompatible(d, first, last);
    CloseWindowsAgree(d, first, last);
    CloseWindowsComplete(d, first, last);
  }

  lemma CloseWindowsAgree(d: Dock, first: nat, last: nat)
    requires Consistent(d) && first <= last < |d.windows|
    ensures var d' := CloseWindows(d, first, last); forall i | 0 <= i < |d'.data| :: Agrees(d', d'.data[i])
  {
    var d' := CloseWindows(d, first, last);
    var f := CloseRows(d, first, last);
    forall i | 0 <= i < |d.data| && f(d.data[i]).Some? ensures Agrees(d', f(d.data[i]).value) {
      assert Agrees(d, d.data[i]);
    }
    FilterMapAgrees(d.data, f, d');
  }

  lemma CloseWindowsComplete(d: Dock, first: nat, last: nat)
    requires Consistent(d) && first <= last < |d.windows|
    ensures Complete(CloseWindows(d, first, last))
  {
    var d' := CloseWindows(d, first, last);
    var f := CloseRows(d, first, last);
    forall r | 0 <= r < |d'.windows| && d'.windows[r] != "" ensures Entry(d'.windows[r], Windows, r) in d'.data {
      var r0 := if r < first then r else r + (last - first + 1);
      var e := Entry(d.windows[r0], Windows, r0);
      assert d.windows[r0] == d'.windows[r];
      assert e in d.data;
      var i :| 0 <= i < |d.data| && d.data[i] == e;
      assert f(d.data[i]) == Some(Entry(d'.windows[r], Windows, r));
      FilterMapMember(d.data, f, Entry(d'.windows[r], Windows, r));
    }
  }

  lemma InstallAppConsistent(d: Dock, id: string)
    requires Consistent(d) && id !in d.apps
    ensures Consistent(InstallApp(d, id))
  {
    var d' := InstallApp(d, id);
    forall i | 0 <= i < |d'.data| ensures Agrees(d', d'.data[i]) {
      assert Agrees(d, d.data[i]);
    }
  }

  lemma UninstallAppsConsistent(d: Dock, first: nat, last: nat)
    requires Consistent(d) && first <= last < |d.apps|
    ensures Consistent(UninstallApps(d, first, last))
  {
    var d' := UninstallApps(d, first, last);
    var f := DropRows(Apps, first, last);
    forall i, j | 0 <= i < j < |d.data| && f(d.data[i]).Some? && f(d.data[j]).Some?
      ensures Compatible(f(d.data[i]).value, f(d.data[j]).value)
    {
      assert Compatible(d.data[i], d.data[j]);
    }
    FilterMapCompatible(d.data, f);
    forall i | 0 <= i < |d.data| && f(d.data[i]).Some? ensures Agrees(d', f(d.data[i]).value) {
      assert Agrees(d, d.data[i]);
    }
    FilterMapAgrees(d.data, f, d');
    forall r | 0 <= r < |d'.windows| && d'.windows[r] != "" ensures Entry(d'.windows[r], Windows, r) in d'.data {
      var e := Entry(d.windows[r], Windows, r);
      var i :| 0 <= i < |d.data| && d.data[i] == e;
      assert f(d.data[i]) == Some(e);
      FilterMapMember(d.data, f, e);
    }
  }

  /** A launcher for an installed application that was not docked before. */
  ghost predicate Fresh(d: Dock, e: Entry) {
    e.source == Apps && 0 <= e.row < |d.apps| && d.apps[e.row] == e.id && e.id !in d.docked
  }

  /** Adding launchers only appends entries for newly docked, installed ids that had none. */
  lemma {:induction false} AddLaunchersEffect(d: Dock, ids: seq<string>)
    requires AllCompatible(d.data)
    ensures var r := AddLaunchers(d.data, d.apps, d.docked, ids);
            && d.data <= r && AllCompatible(r)
            && (forall i | |d.data| <= i < |r| :: Fresh(d, r[i]) && r[i].id in ids)
            && (forall id | id in ids && id in d.apps && id !in d.docked :: HasId(r, id))
    decreases ids
  {
    if ids != [] {
      var id := ids[0];
      if id in d.apps && id !in d.docked && !HasId(d.data, id) {
        var e := Entry(id, Apps, IndexOf(d.apps, id));
        var d1 := d.(data := d.data + [e]);
        forall i | 0 <= i < |d.data| ensures Compatible(d.data[i], e) {
          assert d.data[i].id != id;
        }
        AddLaunchersEffect(d1, ids[1..]);
        var r := AddLaunchers(d1.data, d.apps, d.docked, ids[1..]);
        assert r[|d.data|] == e;
      } else {
        AddLaunchersEffect(d, ids[1..]);
        var r := AddLaunchers(d.data, d.apps, d.docked, ids[1..]);
        if id in d.apps && id !in d.docked {
          var i :| 0 <= i < |d.data| && d.data[i].id == id;
          assert r[i] == d.data[i];
        }
      }
    }
  }

  lemma ReloadDockedAgrees(d: Dock, ids: seq<string>)
    requires Consistent(d)
    ensures var d' := ReloadDocked(d, ids);
            AllCompatible(d'.data) && forall i | 0 <= i < |d'.data| :: Agrees(d', d'.data[i])
  {
    var d' := ReloadDocked(d, ids);
    var data := AddLaunchers(d.data, d.apps, d.docked, ids);
    AddLaunchersEffect(d, ids);
    var f := Keep(StillDocked(d'.docked));
    FilterMapCompatible(data, f);
    forall i | 0 <= i < |data| && f(data[i]).Some? ensures Agrees(d', f(data[i]).value) {
      if i < |d.data| { assert Agrees(d, d.data[i]); }
    }
    FilterMapAgrees(data, f, d');
  }

  lemma ReloadDockedConsistent(d: Dock, ids: seq<string>)
    requires Consistent(d)
    ensures Consistent(ReloadDocked(d, ids))
  {
    var d' := ReloadDocked(d, ids);
    var data := AddLaunchers(d.data, d.apps, d.docked, ids);
    var f := Keep(StillDocked(d'.docked));
    ReloadDockedAgrees(d, ids);
    AddLaunchersEffect(d, ids);
    forall r | 0 <= r < |d'.windows| && d'.windows[r] != "" ensures Entry(d'.windows[r], Windows, r) in d'.data {
      var e := Entry(d.windows[r], Windows, r);
      var i :| 0 <= i < |d.data| && d.data[i] == e;
      assert data[i] == e && f(data[i]) == Some(e);
      FilterMapMember(data, f, e);
    }
  }

  /** Rearranging the entries, in whatever order, keeps agreement. */
  lemma RearrangedConsistent(d: Dock, data': seq<Entry>)
    requires Consistent(d) && multiset(data') == multiset(d.data)
    ensures Consistent(d.(data := data'))
  {
    var d' := d.(data := data');
    forall i | 0 <= i < |data'| ensures Agrees(d', data'[i]) {
      assert data'[i] in multiset(d.data);
      var k :| 0 <= k < |d.data| && d.data[k] == data'[i];
      assert Agrees(d, d.data[k]);
    }
    forall i, j | 0 <= i < j < |data'| ensures Compatible(data'[i], data'[j]) {
      RearrangedPair(d, data', i, j);
    }
    forall r | 0 <= r < |d'.windows| && d'.windows[r] != "" ensures Entry(d'.windows[r], Windows, r) in data' {
      assert Entry(d'.windows[r], Windows, r) in multiset(d.data);
    }
  }

  lemma RearrangedPair(d: Dock, data': seq<Entry>, i: nat, j: nat)
    requires Consistent(d) && multiset(data') == multiset(d.data)
    requires i < j < |data'|
    ensures Compatible(data'[i], data'[j])
  {
    PairWithin(data', i, j);
    var k, n := PositionsOf(d.data, data'[i], data'[j]);
    if n < k { assert Compatible(d.data[n], d.data[k]); } else { assert Compatible(d.data[k], d.data[n]); }
  }

  lemma PairWithin<T>(s: seq<T>, i: nat, j: nat)
    requires i < j < |s|
    ensures multiset{s[i], s[j]} <= multiset(s)
  {
    RemoveAtMultiset(s, j);
    assert RemoveAt(s, j)[i] == s[i];
    assert s[i] in multiset(RemoveAt(s, j));
  }

  lemma PositionsOf<T>(s: seq<T>, a: T, b: T) returns (k: nat, n: nat)
    requires multiset{a, b} <= multiset(s)
    ensures k < |s| && n < |s| && k != n && s[k] == a && s[n] == b
  {
    assert a in multiset(s);
    k :| 0 <= k < |s| && s[k] == a;
    RemoveAtMultiset(s, k);
    assert b in multiset(RemoveAt(s, k));
    var m :| 0 <= m < |s| - 1 && RemoveAt(s, k)[m] == b;
    n := if m < k then m else m + 1;
  }
}
