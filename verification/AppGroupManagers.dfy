/** The launcher's group manager: rows of groups whose pages change in place. */
module AppGroupManagers {
  import opened Lists
  import opened Pages
  import opened ItemsPages
  import opened GroupIds
  import opened Groups
  import opened GroupItems
  import opened GroupDrops
  import opened GroupJoins

  class AppGroup {
    const appId: string
    const name: string
    const itemsPage: ItemsPage

    constructor (groupId: string, name: string, appItems: seq<Page>)
      ensures appId == groupId && this.name == name
      ensures fresh(itemsPage) && itemsPage.maxItemCountPerPage == MaxItems(groupId)
      ensures itemsPage.Valid() && Value() == NewGroup(groupId, name, appItems)
    {
      appId, this.name := groupId, name;
      var p := new ItemsPage(MaxItems(groupId));
      itemsPage := p;
      new;
      var i := 0;
      assert appItems[0..] == appItems;
      while i < |appItems|
        invariant 0 <= i <= |appItems|
        invariant itemsPage.Valid()
        invariant itemsPage.pages + AppendPages(appItems[i..], MaxItems(groupId))
               == AppendPages(appItems, MaxItems(groupId))
      {
        AppendPagesStep(itemsPage.pages, appItems, i, MaxItems(groupId));
        itemsPage.AppendPage(appItems[i]);
        i := i + 1;
      }
      assert itemsPage.pages == AppendPages(appItems, MaxItems(groupId));
    }

    function Value(): Group
      reads itemsPage
    {
      Group(appId, name, itemsPage.pages)
    }
  }

  class AppGroupManager {
    var rows: seq<AppGroup>
    var config: seq<Record>   // the stored "Groups" value

    ghost predicate Valid()
      reads this, Footprint()
    {
      && (forall i | 0 <= i < |rows| ::
           rows[i].itemsPage.Valid() && rows[i].itemsPage.maxItemCountPerPage == MaxItems(rows[i].appId))
      && (forall i, j | 0 <= i < j < |rows| :: rows[i].itemsPage != rows[j].itemsPage)
    }

    ghost function Footprint(): set<ItemsPage>
      reads this
    {
      set i | 0 <= i < |rows| :: rows[i].itemsPage
    }

    ghost function Arrangement(): (r: seq<Group>)
      reads this, Footprint()
      ensures |r| == |rows|
    {
      seq(|rows|, i requires 0 <= i < |rows| reads this, Footprint() => rows[i].Value())
    }

    /** A manager starting on a stored configuration. */
    constructor (stored: seq<Record>)
      ensures Valid() && Arrangement() == Loaded(stored) && config == stored
      ensures fresh(Footprint())
    {
      rows, config := [], stored;
      new;
      LoadAppGroupInfo();
    }

    // ---------- queries ----------

    method FindItem(appId: string) returns (position: ItemPosition)
      requires Valid()
      ensures position == Groups.FindItem(Arrangement(), appId)
    {
      var i := 0;
      ghost var all := Arrangement();
      assert all[0..] == all;
      while i < |rows|
        invariant 0 <= i <= |rows| && Arrangement() == all
        invariant Groups.FindItem(all, appId) == Groups.FindItem(all[i..], appId)
      {
        assert all[i..][0] == rows[i].Value() && all[i..][1..] == all[i + 1..];
        var page, index := rows[i].itemsPage.FindItem(appId);
        if page != -1 {
          position := ItemPosition(ParseGroupId(rows[i].appId), page, index);
          assert Arrangement() == all;
          assert position == Groups.FindItem(all[i..], appId);
          return;
        }
        i := i + 1;
      }
      assert all[i..] == [];
      position := ItemPosition(-1, -1, -1);
    }

    method AssignGroupId() returns (id: string)
      ensures id == FreshGroupId(Arrangement())
      ensures exists n: nat :: n <= |rows| && id == GroupName(n)
                && id !in GroupIdsOf(Arrangement())
                && forall k | 0 <= k < n :: GroupName(k) in GroupIdsOf(Arrangement())
    {
      var knownGroupIds := seq(|rows|, i requires 0 <= i < |rows| reads this => rows[i].appId);
      assert knownGroupIds == GroupIdsOf(Arrangement());
      FreshNumberMeaning(knownGroupIds);
      var idNumber := 0;
      while GroupName(idNumber) in knownGroupIds
        invariant 0 <= idNumber <= FreshNumber(knownGroupIds)
        decreases FreshNumber(knownGroupIds) - idNumber
      {
        idNumber := idNumber + 1;
      }
      FreshNumberUnique(knownGroupIds, idNumber);
      id := GroupName(idNumber);
    }

    // ---------- rows ----------

    method AppendGroup(groupId: string, groupName: string, appItems: seq<Page>)
      requires Valid()
      modifies this`rows
      ensures Valid() && Arrangement() == old(Arrangement()) + [NewGroup(groupId, groupName, appItems)]
      ensures |rows| == |old(rows)| + 1 && rows[..|old(rows)|] == old(rows)
      ensures fresh(Footprint() - old(Footprint()))
    {
      var p := new AppGroup(groupId, groupName, appItems);
      rows := rows + [p];
      assert Footprint() == old(Footprint()) + {p.itemsPage} by {
        assert rows[|old(rows)|] == p;
        assert forall i | 0 <= i < |old(rows)| :: rows[i] == old(rows)[i];
      }
    }

    method AppendItemToGroup(appId: string, row: nat)
      requires Valid() && row < |rows|
      modifies rows[row].itemsPage
      ensures Valid() && rows == old(rows)
      ensures Arrangement() == AppendedTo(old(Arrangement()), row, appId)
    {
      rows[row].itemsPage.AppendItem(appId, -1);
    }

    method RemoveItemFromGroup(appId: string, row: nat)
      requires Valid() && row < |rows|
      modifies rows[row].itemsPage
      ensures Valid() && rows == old(rows)
      ensures Arrangement() == RemovedFrom(old(Arrangement()), row, appId)
    {
      var removed := rows[row].itemsPage.RemoveItem(appId, true);
    }

    method RemoveRow(row: nat)
      requires Valid() && row < |rows|
      modifies this`rows
      ensures Valid() && rows == RemoveAt(old(rows), row) && Arrangement() == RemoveAt(old(Arrangement()), row)
    {
      rows := RemoveAt(rows, row);
    }

    // ---------- the installed applications changed ----------

    method OnReferenceModelChanged(apps: seq<AppRow>)
      requires Valid() && rows != [] && ParseGroupId(rows[0].appId) == 0
      modifies this`rows, Footprint()
      ensures Valid() && Arrangement() == Synced(old(Arrangement()), apps)
    {
      if |apps| == 0 { return; }
      var appSet := AddShown(apps);
      AddMissingKeepsRows(old(Arrangement()), Shown(apps));
      PruneRows(appSet);
    }

    method AddShown(apps: seq<AppRow>) returns (appSet: set<string>)
      requires Valid() && rows != []
      modifies rows[0].itemsPage
      ensures Valid() && rows == old(rows)
      ensures appSet == Names(Shown(apps))
      ensures Arrangement() == AddMissing(old(Arrangement()), Shown(apps))
    {
      appSet := {};
      var i := 0;
      assert apps[0..] == apps;
      while i < |apps|
        invariant 0 <= i <= |apps|
        invariant Valid() && rows == old(rows)
        invariant appSet + Names(Shown(apps[i..])) == Names(Shown(apps))
        invariant AddMissing(Arrangement(), Shown(apps[i..])) == AddMissing(old(Arrangement()), Shown(apps))
      {
        ShownStep(apps, i);
        if !apps[i].noDisplay {
          var desktopId := apps[i].desktopId;
          AddMissingStep(Arrangement(), desktopId, Shown(apps[i + 1..]));
          appSet := appSet + {desktopId};
          AddIfMissing(desktopId);
        }
        i := i + 1;
      }
    }

    method AddIfMissing(desktopId: string)
      requires Valid() && rows != []
      modifies rows[0].itemsPage
      ensures Valid() && rows == old(rows)
      ensures Arrangement() == AddOne(old(Arrangement()), desktopId)
    {
      ghost var before := Arrangement();
      var itemPos := FindItem(desktopId);
      assert Arrangement() == before;
      if itemPos.group == -1 {
        AppendItemToGroup(desktopId, 0);
        assert Arrangement() == AppendedTo(before, 0, desktopId);
      }
    }

    method PruneRows(appSet: set<string>)
      requires Valid() && rows != [] && ParseGroupId(rows[0].appId) == 0
      modifies this`rows, Footprint()
      ensures Valid() && Arrangement() == Prune(old(Arrangement()), appSet, |old(rows)|)
    {
      var i := |rows|;
      ghost var pages := Footprint();
      ghost var start := Arrangement();
      while i > 0
        invariant 0 <= i <= |rows| && Valid() && Footprint() <= pages && rows != []
        invariant ParseGroupId(rows[0].appId) == 0
        invariant StillToPrune(start, Arrangement(), appSet, |start|, i)
      {
        i := i - 1;
        PrunedOneMore(start, Arrangement(), appSet, |start|, i);
        PruneOneRow(appSet, i);
      }
    }

    method PruneOneRow(appSet: set<string>, i: nat)
      requires Valid() && i < |rows| && ParseGroupId(rows[0].appId) == 0
      modifies this`rows, Footprint()
      ensures Valid() && rows != [] && rows[0] == old(rows)[0] && i <= |rows| && Footprint() <= old(Footprint())
      ensures Arrangement() == PruneRow(old(Arrangement()), appSet, i)
    {
      ghost var before := Arrangement();
      var folder := rows[i];
      folder.itemsPage.RemoveItemsNotIn(appSet);
      assert Arrangement() == before[i := Pruned(before[i], appSet)];
      if Flatten(folder.itemsPage.pages) == [] && ParseGroupId(folder.appId) != 0 {
        var groupId := folder.appId;
        RemoveRow(i);
        RemoveItemFromGroup(groupId, 0);
        assert Arrangement() == DropFolder(before, i);
      }
    }

    // ---------- drag and drop on the top level ----------

    /** commitRearrangeOperation without joining. For two items reported in the same folder, what stands at the
        reported positions moves in the row of that number: exactly when both are found in their own row, that
        puts the drag beside the drop. For others, the drag is taken out of its folder and the drop's id put
        into the drop's folder once more. */
    method DropNextTo(dragId: string, dropId: string, behind: bool)
      requires Valid()
      requires var drag, drop := Groups.FindItem(Arrangement(), dragId), Groups.FindItem(Arrangement(), dropId);
               dragId != dropId && drag.group != -1 ==>
                 if drag.group == drop.group then InRange(Arrangement(), drag) && InRange(Arrangement(), drop)
                 else CrossInRange(Arrangement(), drag, drop)
      modifies this`rows, Footprint()
      ensures Valid()
      ensures var before := old(Arrangement());
              var drag, drop := Groups.FindItem(before, dragId), Groups.FindItem(before, dropId);
              if dragId == dropId || drag.group == -1 then Arrangement() == before
              else if drag.group != drop.group then Arrangement() == DroppedAcross(before, dragId, dropId)
              else
                && Arrangement() == DroppedNextTo(before, drag, drop, behind)
                && (DuplicateFree(before) ==>
                     (Beside(Arrangement()[drag.group].Flat(), dragId, dropId) <==>
                       FoundInOwnRow(before, dragId) && FoundInOwnRow(before, dropId)))
                && (FoundInOwnRow(before, dragId) && FoundInOwnRow(before, dropId) ==>
                     if drag.page == drop.page && (behind || drag.pos < drop.pos)
                     then LandsBehind(Arrangement()[drag.group].Flat(), dragId, dropId)
                     else LandsInFront(Arrangement()[drag.group].Flat(), dragId, dropId))
    {
      ghost var before := Arrangement();
      if dragId == dropId { return; }
      var drag := FindItem(dragId);
      var drop := FindItem(dropId);
      assert Arrangement() == before;
      if drag.group == -1 { return; }
      if drag.group == drop.group {
        MoveInRow(drag.group, drag.page, drag.pos, drop.page, drop.pos, behind);
        assert Arrangement() == DroppedNextTo(before, drag, drop, behind);
        if FoundInOwnRow(before, dragId) && FoundInOwnRow(before, dropId) {
          DroppedNextToSide(before, dragId, dropId, behind);
        }
        if DuplicateFree(before) {
          FindItemMeaning(before, dragId);
          FindItemMeaning(before, dropId);
          DropIff(before, dragId, dropId, behind);
        }
      } else {
        MoveAcross(drag.group, drop.group, dragId, dropId, drop.page, drop.pos);
        assert Arrangement() == DroppedAcross(before, dragId, dropId);
      }
    }

    method MoveAcross(src: nat, dst: nat, dragId: string, dropId: string, page: nat, pos: nat)
      requires Valid() && src < |rows| && dst < |rows| && src != dst && page < |rows[dst].itemsPage.pages|
      modifies this`rows, Footprint()
      ensures Valid()
      ensures Arrangement() == PlacedAcross(old(Arrangement()), src, dst, dragId, dropId, page, pos)
    {
      ghost var before := Arrangement();
      var dstPages := rows[dst].itemsPage;
      RemoveItemFromGroup(dragId, src);
      ghost var taken := Arrangement();
      assert taken[src].pages == rows[src].itemsPage.pages && taken[dst] == before[dst];
      var row := dst;
      if |rows[src].itemsPage.pages| == 0 {
        RemoveRow(src);
        row := if src < dst then dst - 1 else dst;
      }
      ghost var left := Arrangement();
      assert rows[row].itemsPage == dstPages && left[row] == before[dst];
      InsertInRow(row, dropId, page, pos);
      AcrossInEitherOrder(before, src, dst, dragId, dropId, page, pos);
    }

    method InsertInRow(row: nat, id: string, page: nat, pos: nat)
      requires Valid() && row < |rows| && page < |rows[row].itemsPage.pages|
      modifies rows[row].itemsPage
      ensures Valid() && rows == old(rows)
      ensures Arrangement() == InsertedInRow(old(Arrangement()), row, id, page, pos)
    {
      rows[row].itemsPage.InsertItem(id, page, pos);
    }

    method MoveInRow(row: nat, fromPage: nat, fromIndex: nat, toPage: nat, toIndex: nat, behind: bool)
      requires Valid() && row < |rows|
      requires InRange(Arrangement(), ItemPosition(row, fromPage, fromIndex))
      requires InRange(Arrangement(), ItemPosition(row, toPage, toIndex))
      modifies Footprint()
      ensures Valid() && rows == old(rows)
      ensures Arrangement() == DroppedNextTo(old(Arrangement()), ItemPosition(row, fromPage, fromIndex),
                                             ItemPosition(row, toPage, toIndex), behind)
    {
      ghost var before := Arrangement();
      assert before[row].pages == rows[row].itemsPage.pages;
      rows[row].itemsPage.MoveItemPosition(fromPage, fromIndex, toPage, toIndex, behind);
    }

    /** commitRearrangeOperation joining two items that are no folders: its checks, then a new folder. The rows
        it works on are those whose numbers are the reported folder ids. */
    method JoinIntoNewFolder(dragId: string, dropId: string, category: string)
      requires Valid()
      requires Joins(Arrangement(), dragId, dropId) ==>
                 !(FOLDER_PREFIX <= dropId) && JoinInRange(Arrangement(), dragId, dropId)
      modifies this`rows, Footprint()
      ensures Valid()
      ensures Arrangement() == if !Joins(old(Arrangement()), dragId, dropId) then old(Arrangement())
                               else Joined(old(Arrangement()), dragId, dropId, "internal/category/" + category)
    {
      ghost var before := Arrangement();
      if dragId == dropId { return; }
      var drag := FindItem(dragId);
      assert Arrangement() == before;
      var drop := FindItem(dropId);
      assert Arrangement() == before;
      assert drag == Groups.FindItem(before, dragId) && drop == Groups.FindItem(before, dropId);
      if drag.group == -1 { return; }
      if FOLDER_PREFIX <= dragId && dropId != ALL_FOLDERS { return; }
      if drop.group != 0 && dropId != ALL_FOLDERS { return; }
      assert Joins(before, dragId, dropId);
      var dstFolderId := StartFolder(drag.group, dragId, dropId, "internal/category/" + category);
      ghost var started := Arrangement();
      ClearRow(drag.group);
      assert Arrangement() == Cleared(started, drag.group);
      PlaceFolder(dstFolderId, drop.page, drop.pos, dropId);
    }

    /** Takes the drag off the row and makes the new folder from both items. */
    method StartFolder(row: nat, dragId: string, dropId: string, name: string) returns (dstFolderId: string)
      requires Valid() && row < |rows| && row == Groups.FindItem(Arrangement(), dragId).group
      modifies this`rows, rows[row].itemsPage
      ensures Valid() && |rows| == |old(rows)| + 1 && rows[..|old(rows)|] == old(rows)
      ensures fresh(Footprint() - old(Footprint()))
      ensures dstFolderId == FreshGroupId(old(Arrangement()))
      ensures Arrangement() == Started(old(Arrangement()), dragId, dropId, name)
    {
      ghost var before := Arrangement();
      RemoveItemFromGroup(dragId, row);
      assert GroupIdsOf(Arrangement()) == GroupIdsOf(before);
      dstFolderId := AssignGroupId();
      AppendGroup(dstFolderId, name, [[dragId, dropId]]);
    }

    method ClearRow(row: nat)
      requires Valid() && row < |rows|
      modifies this`rows
      ensures Valid() && Footprint() <= old(Footprint()) && rows != [] && rows[0] == old(rows)[0]
      ensures Arrangement() == Cleared(old(Arrangement()), row)
    {
      assert Arrangement()[row].pages == rows[row].itemsPage.pages;
      if |rows[row].itemsPage.pages| == 0 && row != 0 {
        RemoveRow(row);
      }
    }

    method PlaceFolder(folder: string, page: nat, pos: nat, dropId: string)
      requires Valid() && rows != [] && page < |rows[0].itemsPage.pages|
      modifies rows[0].itemsPage
      ensures Valid() && rows == old(rows)
      ensures Arrangement() == RemovedFrom(InsertedOnTop(old(Arrangement()), folder, page, pos), 0, dropId)
    {
      InsertOnTop(folder, page, pos);
      ghost var placed := Arrangement();
      RemoveItemFromGroup(dropId, 0);
      assert Arrangement() == RemovedFrom(placed, 0, dropId);
    }

    method InsertOnTop(id: string, page: nat, pos: nat)
      requires Valid() && rows != [] && page < |rows[0].itemsPage.pages|
      modifies rows[0].itemsPage
      ensures Valid() && rows == old(rows)
      ensures Arrangement() == InsertedOnTop(old(Arrangement()), id, page, pos)
    {
      rows[0].itemsPage.InsertItem(id, page, pos);
    }

    // ---------- saving and loading ----------

    method SaveAppGroupInfo()
      requires Valid()
      modifies this`config
      ensures Valid() && rows == old(rows) && Arrangement() == old(Arrangement()) && config == Saved(Arrangement())
    {
      var list: seq<Record> := [];
      var i := 0;
      while i < |rows|
        invariant 0 <= i <= |rows| && |list| == i
        invariant forall k | 0 <= k < i :: list[k] == Record(rows[k].appId, rows[k].name, rows[k].itemsPage.pages)
      {
        list := list + [Record(rows[i].appId, rows[i].name, rows[i].itemsPage.pages)];
        i := i + 1;
      }
      config := list;
    }

    method LoadAppGroupInfo()
      requires Valid() && rows == []
      modifies this`rows
      ensures Valid() && Arrangement() == Loaded(config) && fresh(Footprint())
    {
      var i := 0;
      ghost var target := LoadRecords([], config);
      assert config[0..] == config;
      ghost var now := Arrangement();
      while i < |config|
        invariant 0 <= i <= |config| && Valid() && fresh(Footprint())
        invariant Arrangement() == now && LoadRecords(now, config[i..]) == target
      {
        LoadRecordsStep(now, config, i);
        var groupId := config[i].groupId;
        if groupId == "" {
          groupId := AssignGroupId();
        }
        assert Arrangement() == now;
        AppendGroup(groupId, config[i].name, config[i].appItems);
        now := now + [NewGroup(groupId, config[i].name, config[i].appItems)];
        i := i + 1;
      }
      if |rows| == 0 {
        assert Arrangement() == [];
        var groupId := AssignGroupId();
        AppendGroup(groupId, "Top Level", []);
      }
    }
  }

  lemma AppendPagesStep(pages: seq<Page>, items: seq<Page>, i: nat, max: nat)
    requires i < |items| && max >= 1
    ensures pages + AppendPages(items[i..], max) == pages + Chunks(items[i], max) + AppendPages(items[i + 1..], max)
  {
    assert items[i..][1..] == items[i + 1..];
    Associative(pages, Chunks(items[i], max), AppendPages(items[i + 1..], max));
  }

  lemma LoadRecordsStep(groups: seq<Group>, records: seq<Record>, i: nat)
    requires i < |records|
    ensures var r := records[i];
            var id := if r.groupId == "" then FreshGroupId(groups) else r.groupId;
            LoadRecords(groups, records[i..])
            == LoadRecords(groups + [NewGroup(id, r.name, r.appItems)], records[i + 1..])
  {
    assert records[i..][0] == records[i] && records[i..][1..] == records[i + 1..];
  }

  /** Pruning the first `i` rows of `now` is what is left of pruning the first `n` rows of `start`. */
  ghost predicate StillToPrune(start: seq<Group>, now: seq<Group>, shown: set<string>, n: nat, i: nat) {
    && n <= |start| && start != [] && start[0].FolderId() == 0
    && i <= |now| && now != [] && now[0].FolderId() == 0
    && Prune(now, shown, i) == Prune(start, shown, n)
  }

  lemma PrunedOneMore(start: seq<Group>, now: seq<Group>, shown: set<string>, n: nat, i: nat)
    requires StillToPrune(start, now, shown, n, i + 1)
    ensures StillToPrune(start, PruneRow(now, shown, i), shown, n, i)
  {
  }

  lemma ShownStep(apps: seq<AppRow>, i: nat)
    requires i < |apps|
    ensures Shown(apps[i..]) ==
              if apps[i].noDisplay then Shown(apps[i + 1..]) else [apps[i].desktopId] + Shown(apps[i + 1..])
    ensures Names(Shown(apps[i..]))
         == (if apps[i].noDisplay then {} else {apps[i].desktopId}) + Names(Shown(apps[i + 1..]))
  {
    assert apps[i..][1..] == apps[i + 1..];
  }

  lemma AddMissingStep(groups: seq<Group>, id: string, rest: seq<string>)
    requires groups != []
    ensures AddMissing(groups, [id] + rest) == AddMissing(AddOne(groups, id), rest)
  {
    assert ([id] + rest)[1..] == rest;
  }
}
