/** The trip of the launcher's groups through the stored configuration. */
module GroupStorage {
  import opened Lists
  import opened Pages
  import opened GroupIds
  import opened Groups
  import opened GroupItems
  import opened GroupSync

  /** What the stored form of a group needs in order to be read back unchanged. */
  ghost predicate Storable(r: Record) {
    r.groupId != "" && forall i | 0 <= i < |r.appItems| :: 1 <= |r.appItems[i]| <= MaxItems(r.groupId)
  }

  lemma {:induction false} AppendPagesMeaning(pages: seq<Page>, max: nat)
    requires max >= 1
    ensures Flatten(AppendPages(pages, max)) == Flatten(pages)
    ensures Bounded(AppendPages(pages, max), max) && NoEmptyPage(AppendPages(pages, max))
  {
    if pages != [] {
      AppendPagesMeaning(pages[1..], max);
      ChunksMeaning(pages[0], max);
      FlattenConcat(Chunks(pages[0], max), AppendPages(pages[1..], max));
    }
  }

  /** Each given page is cut on its own. */
  lemma {:induction false} EachPageAlone(a: seq<Page>, b: seq<Page>, max: nat)
    requires max >= 1
    ensures AppendPages(a + b, max) == AppendPages(a, max) + AppendPages(b, max)
    ensures |a| == 1 ==> AppendPages(a, max) == Chunks(a[0], max)
  {
    if a == [] {
      assert a + b == b;
    } else {
      assert (a + b)[0] == a[0] && (a + b)[1..] == a[1..] + b;
      EachPageAlone(a[1..], b, max);
      Associative(Chunks(a[0], max), AppendPages(a[1..], max), AppendPages(b, max));
    }
  }

  lemma {:induction false} GoodPagesStay(pages: seq<Page>, max: nat)
    requires max >= 1 && forall i | 0 <= i < |pages| :: 1 <= |pages[i]| <= max
    ensures AppendPages(pages, max) == pages
  {
    if pages != [] {
      assert forall i | 0 <= i < |pages| - 1 :: pages[1..][i] == pages[i + 1];
      GoodPagesStay(pages[1..], max);
      assert Chunks(pages[0], max) == [pages[0]];
    }
  }

  /** appendPage keeps exactly the pages that are neither empty nor too long. */
  lemma AppendPagesIff(pages: seq<Page>, max: nat)
    requires max >= 1
    ensures AppendPages(pages, max) == pages <==> forall i | 0 <= i < |pages| :: 1 <= |pages[i]| <= max
  {
    AppendPagesMeaning(pages, max);
    if forall i | 0 <= i < |pages| :: 1 <= |pages[i]| <= max { GoodPagesStay(pages, max); }
  }

  lemma {:induction false} LoadRecordsKeeps(groups: seq<Group>, records: seq<Record>)
    ensures var r := LoadRecords(groups, records); |r| == |groups| + |records| && groups <= r
    decreases records
  {
    if records != [] {
      var r0 := records[0];
      var id := if r0.groupId == "" then FreshGroupId(groups) else r0.groupId;
      LoadRecordsKeeps(groups + [NewGroup(id, r0.name, r0.appItems)], records[1..]);
    }
  }

  /** Row |groups| + i is made from record i, under the stored name or a fresh one. */
  ghost predicate MadeFrom(g: Group, r: Record) {
    && g.name == r.name && g.pages == AppendPages(r.appItems, MaxItems(g.id))
    && g.id != "" && (r.groupId != "" ==> g.id == r.groupId)
  }

  lemma {:induction false} LoadRecordsRow(groups: seq<Group>, records: seq<Record>, i: nat)
    requires i < |records|
    ensures |LoadRecords(groups, records)| == |groups| + |records|
    ensures MadeFrom(LoadRecords(groups, records)[|groups| + i], records[i])
    ensures var r := LoadRecords(groups, records);
            records[i].groupId == "" ==> r[|groups| + i].id == FreshGroupId(r[..|groups| + i])
    decreases records
  {
    var r0 := records[0];
    var id := if r0.groupId == "" then FreshGroupId(groups) else r0.groupId;
    var g := NewGroup(id, r0.name, r0.appItems);
    LoadRecordsKeeps(groups + [g], records[1..]);
    if i == 0 {
      assert (groups + [g])[|groups|] == g;
      assert LoadRecords(groups, records)[..|groups|] == groups;
    } else {
      LoadRecordsRow(groups + [g], records[1..], i - 1);
    }
  }

  /** Loading gives a row for each record, in order: with its name, its pages cut to size, and its id or, when it
      has none, the name that is free then. From an empty configuration comes an empty top level, which bears
      the name of a made group, reads as folder 0 and has pages of 12 items, not of 32. */
  lemma LoadedExactly(records: seq<Record>)
    ensures var r := Loaded(records);
            && (records == [] ==>
                 r == [Group(GroupName(0), "Top Level", [])] && r[0].FolderId() == 0 && r[0].Max() == 12)
            && (records != [] ==>
                 && |r| == |records|
                 && forall i | 0 <= i < |r| ::
                      && MadeFrom(r[i], records[i])
                      && (records[i].groupId == "" ==> r[i].id == FreshGroupId(r[..i])))
  {
    LoadRecordsKeeps([], records);
    if records == [] {
      FreshNumberUnique(GroupIdsOf([]), 0);
      MadeGroupFolderId(0);
    } else {
      forall i | 0 <= i < |records|
        ensures var r := Loaded(records);
                MadeFrom(r[i], records[i]) && (records[i].groupId == "" ==> r[i].id == FreshGroupId(r[..i]))
      {
        LoadRecordsRow([], records, i);
      }
    }
  }

  /** Loading what is stored and saving it again gives the same configuration exactly when there is
      a group, every group has a name and its pages are neither empty nor too long. */
  lemma StoreRoundTripIff(records: seq<Record>)
    ensures Saved(Loaded(records)) == records
       <==> records != [] && forall i | 0 <= i < |records| :: Storable(records[i])
  {
    var r := Loaded(records);
    LoadRecordsKeeps([], records);
    if records != [] {
      forall i | 0 <= i < |records|
        ensures Saved(r)[i] == records[i] <==> Storable(records[i])
      {
        LoadRecordsRow([], records, i);
        AppendPagesIff(records[i].appItems, MaxItems(r[i].id));
      }
    }
  }

  /** Saving a manager's groups and loading them into a fresh one is the identity exactly when no
      group is nameless and no page is empty. */
  lemma SaveThenLoadIff(groups: seq<Group>)
    requires groups != [] && WithinBounds(groups)
    ensures Loaded(Saved(groups)) == groups <==>
              NoEmptyPages(groups) && forall i | 0 <= i < |groups| :: groups[i].id != ""
  {
    var records := Saved(groups);
    var r := Loaded(records);
    LoadRecordsKeeps([], records);
    forall i | 0 <= i < |groups|
      ensures r[i] == groups[i] <==> NoEmptyPage(groups[i].pages) && groups[i].id != ""
    {
      LoadRecordsRow([], records, i);
      AppendPagesIff(records[i].appItems, MaxItems(r[i].id));
    }
  }

  /** What a synchronisation leaves behind is always stored faithfully. */
  lemma SyncedIsStorable(groups: seq<Group>, apps: seq<AppRow>)
    requires groups != [] && groups[0].FolderId() == 0 && WithinBounds(groups) && apps != []
    requires forall i | 0 <= i < |groups| :: groups[i].id != ""
    ensures Loaded(Saved(Synced(groups, apps))) == Synced(groups, apps)
  {
    var r := Synced(groups, apps);
    SyncSound(groups, apps);
    var from := SyncOrder(groups, apps);
    forall i | 0 <= i < |r| ensures r[i].id != "" {
      assert SameGroup(r[i], groups[from[i]]);
    }
    SaveThenLoadIff(r);
  }
}
