/** Docked applications stay on the dock, whatever happens but a late installation. */
module DockCoverage {
  import opened Lists
  import opened DockState
  import opened DockAgreement

  lemma OpenWindowCovered(d: Dock, id: string)
    requires Consistent(d) && Covered(d)
    ensures Covered(OpenWindow(d, id))
  {
    var d' := OpenWindow(d, id);
    if id != "" {
      PlaceMembers(d.data, id, |d.windows|);
      forall x | x in d'.docked && x in d'.apps ensures HasId(d'.data, x) {
        var i :| 0 <= i < |d.data| && d.data[i].id == x;
        var e := if x == id then Entry(id, Windows, |d.windows|) else d.data[i];
        assert e in d'.data;
      }
    }
  }

  /** Among an application's windows, one has the greatest row. */
  lemma {:induction false} GreatestRow(data: seq<Entry>, id: string) returns (p: nat)
    requires exists i :: 0 <= i < |data| && data[i].id == id && data[i].source == Windows
    ensures p < |data| && data[p].id == id && data[p].source == Windows
    ensures forall i | 0 <= i < |data| && data[i].id == id && data[i].source == Windows :: data[i].row <= data[p].row
  {
    var n := |data| - 1;
    var mine := data[n].id == id && data[n].source == Windows;
    if i :| 0 <= i < n && data[i].id == id && data[i].source == Windows {
      assert data[..n][i] == data[i];
      p := GreatestRow(data[..n], id);
      assert forall k | 0 <= k < n :: data[..n][k] == data[k];
      if mine && data[n].row > data[p].row { p := n; }
    } else {
      p := n;
    }
  }

  /** If one of its entries goes, another stays: the launcher of its greatest row, or one in front of the range. */
  lemma OneStays(d: Dock, first: nat, last: nat, id: string, gone: nat) returns (q: nat)
    requires first <= last && gone < |d.data| && d.data[gone].id == id && id in d.docked && id in d.apps
    requires CloseRows(d, first, last)(d.data[gone]).None?
    ensures q < |d.data| && d.data[q].id == id && CloseRows(d, first, last)(d.data[q]).Some?
  {
    assert d.data[gone].source == Windows;
    q := GreatestRow(d.data, id);
    if CloseRows(d, first, last)(d.data[q]).None? {
      assert !LastStanding(d.data, first, d.data[q]);
      q :| 0 <= q < |d.data| && d.data[q].id == id && d.data[q].source == Windows && d.data[q].row < first;
    }
  }

  lemma CloseWindowsKeepsId(d: Dock, first: nat, last: nat, id: string)
    requires first <= last < |d.windows|
    requires Consistent(d) && id in d.docked && id in d.apps && HasId(d.data, id)
    ensures HasId(CloseWindows(d, first, last).data, id)
  {
    var f := CloseRows(d, first, last);
    var q :| 0 <= q < |d.data| && d.data[q].id == id;
    if f(d.data[q]).None? { q := OneStays(d, first, last, id, q); }
    FilterMapMember(d.data, f, f(d.data[q]).value);
  }

  lemma CloseWindowsCovered(d: Dock, first: nat, last: nat)
    requires Consistent(d) && Covered(d) && first <= last < |d.windows|
    ensures Covered(CloseWindows(d, first, last))
  {
    var d' := CloseWindows(d, first, last);
    forall id | id in d'.docked && id in d'.apps ensures HasId(d'.data, id) {
      CloseWindowsKeepsId(d, first, last, id);
    }
  }

  lemma UninstallAppsCovered(d: Dock, first: nat, last: nat)
    requires Consistent(d) && Covered(d) && first <= last < |d.apps|
    ensures Covered(UninstallApps(d, first, last))
  {
    var d' := UninstallApps(d, first, last);
    var f := DropRows(Apps, first, last);
    forall id | id in d'.docked && id in d'.apps ensures HasId(d'.data, id) {
      var k :| 0 <= k < |d'.apps| && d'.apps[k] == id;
      var k0 := if k < first then k else k + (last - first + 1);
      assert d.apps[k0] == id;
      assert HasId(d.data, id);
      var i :| 0 <= i < |d.data| && d.data[i].id == id;
      assert Agrees(d, d.data[i]);
      assert f(d.data[i]).Some?;
      FilterMapMember(d.data, f, f(d.data[i]).value);
    }
  }

  /** What a reload does for one id: it keeps an entry that is there, and adds one only for an id that
      was not docked before. */
  lemma ReloadDockedHasId(d: Dock, ids: seq<string>, id: string)
    requires Consistent(d)
    ensures id in ids && id in d.apps ==>
              (HasId(ReloadDocked(d, ids).data, id) <==> HasId(d.data, id) || id !in d.docked)
  {
    if id in ids && id in d.apps {
      var d' := ReloadDocked(d, ids);
      var data := AddLaunchers(d.data, d.apps, d.docked, ids);
      var f := Keep(StillDocked(d'.docked));
      AddLaunchersEffect(d, ids);
      FilterMapMember(ids, Keep(In(d.apps)), id);
      if HasId(d.data, id) || id !in d.docked {
        if i :| 0 <= i < |d.data| && d.data[i].id == id {
          assert data[i] == d.data[i];
        }
        var i :| 0 <= i < |data| && data[i].id == id;
        assert f(data[i]) == Some(data[i]);
        FilterMapMember(data, f, data[i]);
      } else {
        ReloadSkipsDocked(d, ids, id);
      }
    }
  }

  /** A docked id without an entry is skipped, whatever the new list says. */
  lemma ReloadSkipsDocked(d: Dock, ids: seq<string>, id: string)
    requires Consistent(d) && id in d.docked && !HasId(d.data, id)
    ensures !HasId(ReloadDocked(d, ids).data, id)
  {
    var d' := ReloadDocked(d, ids);
    var data := AddLaunchers(d.data, d.apps, d.docked, ids);
    AddLaunchersEffect(d, ids);
    forall k | 0 <= k < |d'.data| ensures d'.data[k].id != id {
      FilterMapMember(data, Keep(StillDocked(d'.docked)), d'.data[k]);
      var i :| 0 <= i < |data| && data[i] == d'.data[k];
      assert i < |d.data| || Fresh(d, data[i]);
    }
  }

  /** A reload covers the dock exactly when every installed id of the new list that was docked already
      has an entry: it adds nothing for the others. */
  lemma ReloadDockedCoveredIff(d: Dock, ids: seq<string>)
    requires Consistent(d)
    ensures Covered(ReloadDocked(d, ids)) <==>
              forall id | id in ids && id in d.apps && id in d.docked :: HasId(d.data, id)
  {
    var d' := ReloadDocked(d, ids);
    forall id ensures id in d'.docked && id in d'.apps <==> id in ids && id in d.apps {
      FilterMapMember(ids, Keep(In(d.apps)), id);
    }
    forall id | id in ids && id in d.apps
      ensures HasId(d'.data, id) <==> HasId(d.data, id) || id !in d.docked
    {
      ReloadDockedHasId(d, ids, id);
    }
  }

  /** A missing launcher comes back with a reload without the id, followed by one with it. */
  lemma TwoReloadsRepair(d: Dock, without: seq<string>, ids: seq<string>, id: string)
    requires Consistent(d) && id in d.apps && id !in without && id in ids
    ensures HasId(ReloadDocked(ReloadDocked(d, without), ids).data, id)
  {
    var d1 := ReloadDocked(d, without);
    ReloadDockedConsistent(d, without);
    FilterMapMember(without, Keep(In(d.apps)), id);
    ReloadDockedHasId(d1, ids, id);
  }

  lemma RearrangedCovered(d: Dock, data': seq<Entry>)
    requires Covered(d) && multiset(data') == multiset(d.data)
    ensures Covered(d.(data := data'))
  {
    forall id | id in d.docked && id in d.apps ensures HasId(data', id) {
      var i :| 0 <= i < |d.data| && d.data[i].id == id;
      assert d.data[i] in multiset(data');
      var k :| 0 <= k < |data'| && data'[k] == d.data[i];
    }
  }

  /** A newly installed application is not added to the dock, so coverage survives an
      installation exactly when the id is not docked yet or already has an entry. */
  lemma InstallAppCoveredIff(d: Dock, id: string)
    requires Consistent(d) && Covered(d) && id !in d.apps
    ensures Covered(InstallApp(d, id)) <==> (id in d.docked ==> HasId(d.data, id))
  {
    var d' := InstallApp(d, id);
    assert d'.apps[|d.apps|] == id;
    if id in d.docked ==> HasId(d.data, id) {
      forall x | x in d'.docked && x in d'.apps ensures HasId(d'.data, x) {
        if x != id { assert x in d.apps; }
      }
    } else {
      assert id in d'.docked && id in d'.apps && !HasId(d'.data, id);
    }
  }
}
