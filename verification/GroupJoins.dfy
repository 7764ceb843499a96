/** Joining two items into a new folder. */
module GroupJoins {
  import opened Lists
  import opened Pages
  import opened PageSizes
  import opened GroupIds
  import opened Groups
  import opened GroupItems
  import opened GroupDrops

  /** The drop target's page number is still in range once the drag has left, exactly when the drag is not
      alone on its page or the drop is not on the last page. */
  lemma JoinFitsIff(pages: seq<Page>, dragId: string, dropId: string)
    requires Find(pages, dragId).Some? && Find(pages, dropId).Some?
    ensures Find(pages, dropId).value.0 < |Removed(pages, dragId, true)| <==> JoinFits(pages, dragId, dropId)
  {
  }

  /** Otherwise the insertion behind it is out of range. */
  lemma JoinOutOfRange()
    ensures var pages := [["a"], ["b"]];
            && Find(pages, "a").Some? && Find(pages, "b") == Some((1, 0)) && |Removed(pages, "a", true)| == 1
  {
    var pages := [["a"], ["b"]];
    assert pages[1..] == [["b"]];
    assert RemoveAt(["a"], 0) == [];
  }

  /** Where a drop on all folders goes; it passes the checks that a drop on an item must pass. */
  const ALL_FOLDERS := "internal/folders/0"

  /** The checks before a join. */
  predicate Joins(groups: seq<Group>, dragId: string, dropId: string) {
    && dragId != dropId && FindItem(groups, dragId).group != -1
    && (FOLDER_PREFIX <= dragId ==> dropId == ALL_FOLDERS)
    && (FindItem(groups, dropId).group != 0 ==> dropId == ALL_FOLDERS)
  }

  // ---------- any two items ----------

  /** The reported folder id of the drag is a row number, and the drop's page number is still in range on the
      top level once the drag has left. */
  predicate JoinInRange(groups: seq<Group>, dragId: string, dropId: string) {
    var src, drop := FindItem(groups, dragId).group, FindItem(groups, dropId);
    && groups != [] && 0 <= src < |groups|
    && 0 <= drop.page < |RemovedFrom(groups, src, dragId)[0].pages| && 0 <= drop.pos
  }

  /** The drag has left the row of its reported number, and the new folder is there. */
  function Started(groups: seq<Group>, dragId: string, dropId: string, name: string): (r: seq<Group>)
    requires 0 <= FindItem(groups, dragId).group < |groups|
    ensures |r| == |groups| + 1
  {
    RemovedFrom(groups, FindItem(groups, dragId).group, dragId)
    + [NewGroup(FreshGroupId(groups), name, [[dragId, dropId]])]
  }

  /** A folder that this has emptied is gone. */
  function Cleared(groups: seq<Group>, src: nat): (r: seq<Group>)
    requires src < |groups|
    ensures r != [] && r[0] == groups[0]
  {
    if groups[src].pages == [] && src != 0 then RemoveAt(groups, src) else groups
  }

  function Joined(groups: seq<Group>, dragId: string, dropId: string, name: string): seq<Group>
    requires JoinInRange(groups, dragId, dropId)
  {
    var drop := FindItem(groups, dropId);
    var started := Cleared(Started(groups, dragId, dropId, name), FindItem(groups, dragId).group);
    RemovedFrom(InsertedOnTop(started, FreshGroupId(groups), drop.page, drop.pos), 0, dropId)
  }

  /** How often an item is there after a join: the drag stays where it was if the reported row does not hold
      it, and so does the drop if the top level does not. */
  lemma JoinedCount(groups: seq<Group>, dragId: string, dropId: string, name: string, x: string)
    requires WithinBounds(groups) && JoinInRange(groups, dragId, dropId) && dragId != dropId
    ensures Count(AllItems(Joined(groups, dragId, dropId, name)), x)
         == Count(AllItems(groups), x) + Once(x == FreshGroupId(groups))
            + Once(x == dragId && dragId !in groups[FindItem(groups, dragId).group].Flat())
            + Once(x == dropId && dropId !in groups[0].Flat() && dropId != FreshGroupId(groups))
  {
    var src, drop, folder := FindItem(groups, dragId).group, FindItem(groups, dropId), FreshGroupId(groups);
    var started := Started(groups, dragId, dropId, name);
    var left := Cleared(started, src);
    StartedCount(groups, dragId, dropId, name, x);
    ClearedCount(started, src, x);
    StartedBounds(groups, dragId, dropId, name);
    TopAfterDrag(groups, dragId, dropId);
    PlacedCount(left, folder, drop.page, drop.pos, dropId, x);
  }

  lemma StartedCount(groups: seq<Group>, dragId: string, dropId: string, name: string, x: string)
    requires WithinBounds(groups) && 0 <= FindItem(groups, dragId).group < |groups|
    ensures Count(AllItems(Started(groups, dragId, dropId, name)), x)
         == Count(AllItems(groups), x) + Once(x == dropId)
            + Once(x == dragId && dragId !in groups[FindItem(groups, dragId).group].Flat())
  {
    var src := FindItem(groups, dragId).group;
    var taken := RemovedFrom(groups, src, dragId);
    var folder := NewGroup(FreshGroupId(groups), name, [[dragId, dropId]]);
    CountRowChanged(groups, src, taken[src], x);
    TakeOne(groups[src].pages, groups[src].Max(), dragId, x);
    FindMeaning(groups[src].pages, dragId);
    CountAppendedRow(taken, folder, x);
    NewFolderPages(FreshGroupId(groups), name, dragId, dropId);
    CountPair(dragId, dropId, x);
  }

  lemma StartedBounds(groups: seq<Group>, dragId: string, dropId: string, name: string)
    requires WithinBounds(groups) && 0 <= FindItem(groups, dragId).group < |groups|
    ensures WithinBounds(Started(groups, dragId, dropId, name))
  {
    var src := FindItem(groups, dragId).group;
    TakeOne(groups[src].pages, groups[src].Max(), dragId, dragId);
    NewFolderPages(FreshGroupId(groups), name, dragId, dropId);
  }

  lemma ClearedCount(groups: seq<Group>, src: nat, x: string)
    requires src < |groups|
    ensures Count(AllItems(Cleared(groups, src)), x) == Count(AllItems(groups), x)
  {
    if groups[src].pages == [] && src != 0 { CountRowGone(groups, src, x); }
  }

  lemma TopAfterDrag(groups: seq<Group>, dragId: string, dropId: string)
    requires groups != [] && WithinBounds(groups) && 0 <= FindItem(groups, dragId).group < |groups| && dragId != dropId
    ensures var src := FindItem(groups, dragId).group;
            dropId in RemovedFrom(groups, src, dragId)[0].Flat() <==> dropId in groups[0].Flat()
  {
    TakeOne(groups[0].pages, groups[0].Max(), dragId, dropId);
    CountPositive(groups[0].Flat(), dropId);
    CountPositive(Flatten(Removed(groups[0].pages, dragId, true)), dropId);
    RemoveItemRefines(groups[0].pages, groups[0].Max(), dragId, true);
  }

  /** The folder's placeholder is put on the top level, and the drop taken off it. */
  lemma PlacedCount(groups: seq<Group>, folder: string, page: nat, pos: nat, dropId: string, x: string)
    requires groups != [] && Bounded(groups[0].pages, groups[0].Max()) && page < |groups[0].pages|
    ensures Count(AllItems(RemovedFrom(InsertedOnTop(groups, folder, page, pos), 0, dropId)), x)
         == Count(AllItems(groups), x) + Once(x == folder)
            - Once(x == dropId && (dropId in groups[0].Flat() || dropId == folder))
  {
    var placed := InsertedOnTop(groups, folder, page, pos);
    var top, max := groups[0].pages, groups[0].Max();
    CountRowChanged(groups, 0, placed[0], x);
    PutOne(top, max, folder, page, pos, x);
    PutOne(top, max, folder, page, pos, dropId);
    CountPositive(placed[0].Flat(), dropId);
    CountPositive(groups[0].Flat(), dropId);
    CountRowChanged(placed, 0, RemovedFrom(placed, 0, dropId)[0], x);
    TakeOne(placed[0].pages, max, dropId, x);
    RemoveItemRefines(placed[0].pages, max, dropId, true);
  }

  /** What a join leaves in each row. The drag is out of the row of its reported number, which goes if that was
      all it had and it is not the top level; the placeholder is on the top level at the drop's reported position,
      and the drop off it; every other row is as it was; and the new folder, last, holds the drag, then the drop. */
  lemma JoinedExactly(groups: seq<Group>, dragId: string, dropId: string, name: string)
    returns (taken: seq<Group>, top: Group)
    requires WithinBounds(groups) && JoinInRange(groups, dragId, dropId)
    ensures var src, drop := FindItem(groups, dragId).group, FindItem(groups, dropId);
            var r, folder := Joined(groups, dragId, dropId, name), FreshGroupId(groups);
            && |taken| == |groups| && Without(groups[src], taken[src], dragId)
            && (forall k | 0 <= k < |groups| && k != src :: taken[k] == groups[k])
            && drop.page >= 0 && drop.pos >= 0 && With(taken[0], top, folder, drop.page, drop.pos)
            && r != [] && Without(top, r[0], dropId)
            && r[1..] == (if src != 0 && (groups[src].pages == [] || groups[src].pages == [[dragId]])
                          then RemoveAt(taken, src) else taken)[1..] + [Group(folder, name, [[dragId, dropId]])]
  {
    var src, drop, folder := FindItem(groups, dragId).group, FindItem(groups, dropId), FreshGroupId(groups);
    taken := RemovedFrom(groups, src, dragId);
    TakenFromRow(groups[src], dragId);
    top := taken[0].(pages := Inserted(taken[0].pages, taken[0].Max(), folder, drop.page, drop.pos));
    PutInRow(taken[0], folder, drop.page, drop.pos);
    TakenFromRow(top, dropId);
    assert Joined(groups, dragId, dropId, name)[0] == top.(pages := Removed(top.pages, dropId, true));
    JoinedRest(groups, dragId, dropId, name);
  }

  lemma JoinedRest(groups: seq<Group>, dragId: string, dropId: string, name: string)
    requires JoinInRange(groups, dragId, dropId)
    ensures var src := FindItem(groups, dragId).group;
            var taken := RemovedFrom(groups, src, dragId);
            Joined(groups, dragId, dropId, name)[1..]
            == (if src != 0 && (groups[src].pages == [] || groups[src].pages == [[dragId]])
                then RemoveAt(taken, src) else taken)[1..] + [Group(FreshGroupId(groups), name, [[dragId, dropId]])]
  {
    var src, drop, folder := FindItem(groups, dragId).group, FindItem(groups, dropId), FreshGroupId(groups);
    var started := Started(groups, dragId, dropId, name);
    var left := Cleared(started, src);
    var placed := InsertedOnTop(left, folder, drop.page, drop.pos);
    RemovedAllIff(groups[src].pages, dragId);
    NewFolderPages(folder, name, dragId, dropId);
    OnlyTheTop(left, placed[0].pages);
    OnlyTheTop(placed, Removed(placed[0].pages, dropId, true));
    ClearedRest(RemovedFrom(groups, src, dragId), started[|groups|], src);
  }

  lemma OnlyTheTop(groups: seq<Group>, pages: seq<Page>)
    requires groups != []
    ensures WithPages(groups, 0, pages)[1..] == groups[1..]
  {
  }

  lemma ClearedRest(taken: seq<Group>, folder: Group, src: nat)
    requires src < |taken|
    ensures Cleared(taken + [folder], src)[1..]
         == (if src != 0 && taken[src].pages == [] then RemoveAt(taken, src) else taken)[1..] + [folder]
  {
  }

  /** A join conserves all items and adds the placeholder exactly when the row of the drag's reported number
      holds the drag and the top level holds the drop. */
  lemma JoinConservesIff(groups: seq<Group>, dragId: string, dropId: string, name: string)
    requires WithinBounds(groups) && JoinInRange(groups, dragId, dropId) && dragId != dropId
    ensures var r, folder := Joined(groups, dragId, dropId, name), FreshGroupId(groups);
            (forall x :: Count(AllItems(r), x) == Count(AllItems(groups), x) + Once(x == folder)) <==>
              && dragId in groups[FindItem(groups, dragId).group].Flat()
              && (dropId in groups[0].Flat() || dropId == folder)
  {
    var r, folder := Joined(groups, dragId, dropId, name), FreshGroupId(groups);
    forall x
      ensures Count(AllItems(r), x)
           == Count(AllItems(groups), x) + Once(x == folder)
              + Once(x == dragId && dragId !in groups[FindItem(groups, dragId).group].Flat())
              + Once(x == dropId && dropId !in groups[0].Flat() && dropId != folder)
    {
      JoinedCount(groups, dragId, dropId, name, x);
    }
    var kept := dragId in groups[FindItem(groups, dragId).group].Flat();
    var left := dropId in groups[0].Flat() || dropId == folder;
    if !kept {
      assert Count(AllItems(r), dragId) == Count(AllItems(groups), dragId) + Once(dragId == folder) + 1;
    }
    if !left {
      assert Count(AllItems(r), dropId) == Count(AllItems(groups), dropId) + Once(dropId == folder) + 1;
    }
  }

  /** From a duplicate-free arrangement: exactly when the drag was found in its own row and the drop is on the
      top level. */
  lemma JoinConservesOwnIff(groups: seq<Group>, dragId: string, dropId: string, name: string)
    requires WithinBounds(groups) && JoinInRange(groups, dragId, dropId) && dragId != dropId && DuplicateFree(groups)
    ensures var r, folder := Joined(groups, dragId, dropId, name), FreshGroupId(groups);
            (forall x :: Count(AllItems(r), x) == Count(AllItems(groups), x) + Once(x == folder)) <==>
              FoundInOwnRow(groups, dragId) && (dropId in groups[0].Flat() || dropId == folder)
  {
    JoinConservesIff(groups, dragId, dropId, name);
    FindItemMeaning(groups, dragId);
    InReportedRowIff(groups, dragId);
  }

  /** Joining "x" out of a folder that the manager made: it stays in that folder, too. */
  lemma JoinDoublesExample()
    ensures var top, folder := Group("internal/folder/0", "", [["b"]]), Group(GroupName(0), "", [["x", "y"]]);
            && WithinBounds([top, folder]) && Joins([top, folder], "x", "b") && JoinInRange([top, folder], "x", "b")
            && Count(AllItems([top, folder]), "x") == 1
            && Count(AllItems(Joined([top, folder], "x", "b", "")), "x") == 2
  {
    var top, folder := Group("internal/folder/0", "", [["b"]]), Group(GroupName(0), "", [["x", "y"]]);
    var groups := [top, folder];
    FolderAsTop(top, folder);
    CountTwoRows(top, folder, "x");
    CountPair("x", "y", "x");
    CountPositive(top.Flat(), "x");
    assert FreshGroupId(groups)[0] == 'i';
    JoinedCount(groups, "x", "b", "", "x");
  }

  lemma FolderAsTop(top: Group, folder: Group)
    requires top == Group("internal/folder/0", "", [["b"]]) && folder == Group(GroupName(0), "", [["x", "y"]])
    ensures top.Flat() == ["b"] && folder.Flat() == ["x", "y"]
    ensures FindItem([top, folder], "x") == ItemPosition(0, 0, 0) == FindItem([top, folder], "b")
    ensures RemovedFrom([top, folder], 0, "x")[0].pages == top.pages
  {
    MadeGroupFolderId(0);
    assert [top, folder][1..] == [folder];
    assert top.pages[1..] == [] && folder.pages[1..] == [];
    assert top.Flat() == ["b"] + [] && folder.Flat() == ["x", "y"] + [];
    assert Find(top.pages, "x") == None;
  }

  lemma CountTwoRows(g: Group, h: Group, x: string)
    ensures Count(AllItems([g, h]), x) == Count(g.Flat(), x) + Count(h.Flat(), x)
  {
    assert [g] + [h] == [g, h] && [g][1..] == [] && g.Flat() + [] == g.Flat();
    CountAppendedRow([g], h, x);
  }

  // ---------- two items of the top level ----------

  /** On a top level with folder id 0 the join is the one below. */
  lemma JoinedOnTop(groups: seq<Group>, dragId: string, dropId: string, name: string)
    requires groups != [] && groups[0].FolderId() == 0 && JoinFits(groups[0].pages, dragId, dropId)
    ensures JoinInRange(groups, dragId, dropId)
    ensures Joined(groups, dragId, dropId, name) == JoinedIntoNewFolder(groups, dragId, dropId, name)
  {
    JoinFitsIff(groups[0].pages, dragId, dropId);
  }

  /** What the join does to the top level, in terms of the flat list. */
  lemma JoinTopLevel(groups: seq<Group>, dragId: string, dropId: string, name: string, x: string)
    requires groups != [] && WithinBounds(groups) && dragId != dropId && JoinFits(groups[0].pages, dragId, dropId)
    ensures var top := groups[0].Flat();
            var r := JoinedIntoNewFolder(groups, dragId, dropId, name)[0];
            && Bounded(r.pages, r.Max())
            && Count(r.Flat(), x) + (if x == dragId then 1 else 0) + (if x == dropId then 1 else 0)
            == Count(top, x) + (if x == FreshGroupId(groups) then 1 else 0)
  {
    var top, folder := groups[0], FreshGroupId(groups);
    var at := Find(top.pages, dropId).value;
    var withoutDrag := Removed(top.pages, dragId, true);
    var withFolder := Inserted(withoutDrag, top.Max(), folder, at.0, at.1);
    TakeOne(top.pages, top.Max(), dragId, x);
    PutOne(withoutDrag, top.Max(), folder, at.0, at.1, x);
    FindMeaning(top.pages, dropId);
    TakeOne(top.pages, top.Max(), dragId, dropId);
    PutOne(withoutDrag, top.Max(), folder, at.0, at.1, dropId);
    CountPositive(Flatten(top.pages), dropId);
    CountPositive(Flatten(withFolder), dropId);
    TakeOne(withFolder, top.Max(), dropId, x);
  }

  lemma NewFolderPages(id: string, name: string, dragId: string, dropId: string)
    ensures var g := NewGroup(id, name, [[dragId, dropId]]);
            g.pages == [[dragId, dropId]] && g.Flat() == [dragId, dropId]
  {
    var page := [dragId, dropId];
    assert [page][1..] == [];
    assert Chunks(page, MaxItems(id)) == [page];
    assert AppendPages([page], MaxItems(id)) == [page] + AppendPages([], MaxItems(id));
    assert Flatten([page]) == page + Flatten([]);
  }

  /** Joining conserves the items over all groups, adds the placeholder of the new folder and keeps
      the page bounds; the new folder, which comes last, holds the drag and then the drop. */
  lemma JoinConserves(groups: seq<Group>, dragId: string, dropId: string, name: string)
    requires groups != [] && WithinBounds(groups) && dragId != dropId && JoinFits(groups[0].pages, dragId, dropId)
    ensures var r, folder := JoinedIntoNewFolder(groups, dragId, dropId, name), FreshGroupId(groups);
            && WithinBounds(r)
            && |r| == |groups| + 1 && r[1..|groups|] == groups[1..]
            && r[|groups|] == Group(folder, name, [[dragId, dropId]])
            && (forall x :: Count(AllItems(r), x) == Count(AllItems(groups), x) + (if x == folder then 1 else 0))
  {
    var r, folder := JoinedIntoNewFolder(groups, dragId, dropId, name), FreshGroupId(groups);
    JoinBounds(groups, dragId, dropId, name);
    JoinCounts(groups, dragId, dropId, name);
  }

  lemma JoinBounds(groups: seq<Group>, dragId: string, dropId: string, name: string)
    requires groups != [] && WithinBounds(groups) && dragId != dropId && JoinFits(groups[0].pages, dragId, dropId)
    ensures var r, folder := JoinedIntoNewFolder(groups, dragId, dropId, name), FreshGroupId(groups);
            && WithinBounds(r) && |r| == |groups| + 1 && r[1..|groups|] == groups[1..]
            && r[|groups|] == Group(folder, name, [[dragId, dropId]])
  {
    NewFolderPages(FreshGroupId(groups), name, dragId, dropId);
    JoinTopLevel(groups, dragId, dropId, name, dragId);
  }

  lemma JoinCounts(groups: seq<Group>, dragId: string, dropId: string, name: string)
    requires groups != [] && WithinBounds(groups) && dragId != dropId && JoinFits(groups[0].pages, dragId, dropId)
    ensures var r, folder := JoinedIntoNewFolder(groups, dragId, dropId, name), FreshGroupId(groups);
            forall x :: Count(AllItems(r), x) == Count(AllItems(groups), x) + (if x == folder then 1 else 0)
  {
    var r, folder := JoinedIntoNewFolder(groups, dragId, dropId, name), FreshGroupId(groups);
    var changed := r[..|groups|];
    NewFolderPages(folder, name, dragId, dropId);
    forall x ensures Count(AllItems(r), x) == Count(AllItems(groups), x) + (if x == folder then 1 else 0) {
      JoinTopLevel(groups, dragId, dropId, name, x);
      CountRowChanged(groups, 0, r[0], x);
      assert changed == groups[0 := r[0]];
      CountAppendedRow(changed, r[|groups|], x);
      CountPair(dragId, dropId, x);
      assert r == changed + [r[|groups|]];
    }
  }

  lemma CountAppendedRow(groups: seq<Group>, g: Group, x: string)
    ensures Count(AllItems(groups + [g]), x) == Count(AllItems(groups), x) + Count(g.Flat(), x)
  {
    AllItemsConcat(groups, [g]);
    assert AllItems([g]) == g.Flat() by { assert [g][1..] == []; assert g.Flat() + [] == g.Flat(); }
    CountConcat(AllItems(groups), g.Flat(), x);
  }

  lemma CountPair(a: string, b: string, x: string)
    ensures Count([a, b], x) == (if x == a then 1 else 0) + (if x == b then 1 else 0)
  {
    assert [a, b][1..] == [b] && [b][1..] == [];
    assert Count([b], x) == if b == x then 1 else 0;
  }

  /** From a duplicate-free arrangement, the two items leave the top level unless one of them happens
      to be the very name the new folder gets. */
  lemma JoinLeavesTopLevelIff(groups: seq<Group>, dragId: string, dropId: string, name: string)
    requires groups != [] && WithinBounds(groups) && DuplicateFree(groups)
    requires dragId != dropId && JoinFits(groups[0].pages, dragId, dropId)
    ensures var top := JoinedIntoNewFolder(groups, dragId, dropId, name)[0].Flat();
            dragId !in top && dropId !in top <==> FreshGroupId(groups) != dragId && FreshGroupId(groups) != dropId
  {
    var top := JoinedIntoNewFolder(groups, dragId, dropId, name)[0].Flat();
    forall x | x == dragId || x == dropId ensures Count(top, x) == if x == FreshGroupId(groups) then 1 else 0 {
      JoinTopLevel(groups, dragId, dropId, name, x);
      DistinctCounts(AllItems(groups), x);
      CountAround(groups, 0, x);
      FindMeaning(groups[0].pages, x);
      CountPositive(groups[0].Flat(), x);
    }
    CountPositive(top, dragId);
    CountPositive(top, dropId);
  }

  // ---------- where the folder lands ----------

  /** Where the placeholder goes on the top level that the drag has left: at the drop's old page number. */
  function PlaceholderIndex(pages: seq<Page>, dragId: string, dropId: string): nat
    requires JoinFits(pages, dragId, dropId)
  {
    var (page, pos) := Find(pages, dropId).value;
    var left := Removed(pages, dragId, true);
    |Flatten(left[..page])| + Min(pos, |left[page]|)
  }

  lemma JoinFlat(groups: seq<Group>, dragId: string, dropId: string, name: string)
    requires groups != [] && WithinBounds(groups) && JoinFits(groups[0].pages, dragId, dropId)
    ensures var flat := WithoutFirst(groups[0].Flat(), dragId);
            var place := PlaceholderIndex(groups[0].pages, dragId, dropId);
            && place <= |flat|
            && JoinedIntoNewFolder(groups, dragId, dropId, name)[0].Flat()
            == WithoutFirst(InsertAt(flat, place, FreshGroupId(groups)), dropId)
  {
    RemovedFlat(groups[0].pages, groups[0].Max(), dragId);
    JoinFlatAt(groups, dragId, dropId, name, WithoutFirst(groups[0].Flat(), dragId),
               PlaceholderIndex(groups[0].pages, dragId, dropId));
  }

  lemma JoinFlatAt(groups: seq<Group>, dragId: string, dropId: string, name: string, flat: seq<string>, place: nat)
    requires groups != [] && WithinBounds(groups) && JoinFits(groups[0].pages, dragId, dropId)
    requires var left := Removed(groups[0].pages, dragId, true); flat == Flatten(left) && Bounded(left, groups[0].Max())
    requires place == PlaceholderIndex(groups[0].pages, dragId, dropId)
    ensures place <= |flat|
    ensures JoinedIntoNewFolder(groups, dragId, dropId, name)[0].Flat()
         == WithoutFirst(InsertAt(flat, place, FreshGroupId(groups)), dropId)
  {
    var (page, pos) := Find(groups[0].pages, dropId).value;
    var left := Removed(groups[0].pages, dragId, true);
    JoinedTop(groups, dragId, dropId, name, left, page, pos);
    PlacedFlat(left, groups[0].Max(), FreshGroupId(groups), page, pos, dropId);
  }

  lemma JoinedTop(groups: seq<Group>, dragId: string, dropId: string, name: string,
                  left: seq<Page>, page: nat, pos: nat)
    requires groups != [] && JoinFits(groups[0].pages, dragId, dropId)
    requires left == Removed(groups[0].pages, dragId, true) && Find(groups[0].pages, dropId) == Some((page, pos))
    ensures page < |left|
    ensures JoinedIntoNewFolder(groups, dragId, dropId, name)[0].Flat()
         == Flatten(Removed(Inserted(left, groups[0].Max(), FreshGroupId(groups), page, pos), dropId, true))
  {
  }

  lemma PlacedFlat(pages: seq<Page>, max: nat, folder: string, page: nat, pos: nat, dropId: string)
    requires max >= 1 && Bounded(pages, max) && page < |pages|
    ensures var flat, place := Flatten(pages), |Flatten(pages[..page])| + Min(pos, |pages[page]|);
            && place <= |flat|
            && Flatten(Removed(Inserted(pages, max, folder, page, pos), dropId, true))
            == WithoutFirst(InsertAt(flat, place, folder), dropId)
  {
    InsertItemRefines(pages, max, folder, page, pos);
    RemovedFlat(Inserted(pages, max, folder, page, pos), max, dropId);
  }

  lemma RemovedFlat(pages: seq<Page>, max: nat, id: string)
    requires Bounded(pages, max)
    ensures Bounded(Removed(pages, id, true), max)
    ensures Flatten(Removed(pages, id, true)) == WithoutFirst(Flatten(pages), id)
  {
    RemoveItemRefines(pages, max, id, true);
  }

  /** The drop's page number still names its page once the drag's page may have gone; or it names the next
      page, and the placeholder goes to the front of that, right behind a drop that was last on its own. */
  predicate KeepsPlace(pages: seq<Page>, dragId: string, dropId: string)
    requires JoinFits(pages, dragId, dropId)
  {
    var (dragPage, _) := Find(pages, dragId).value;
    var (page, pos) := Find(pages, dropId).value;
    || |pages[dragPage]| >= 2
    || page < dragPage
    || (page + 1 < |pages| && pos + 1 == |pages[page]| && (pos == 0 || pages[page + 1] == []))
  }

  /** On the top level, the new folder takes the drop's place and everything else but the drag stays where it
      is exactly under that condition. */
  lemma JoinInPlaceIff(groups: seq<Group>, dragId: string, dropId: string, name: string)
    requires groups != [] && WithinBounds(groups) && dragId != dropId && JoinFits(groups[0].pages, dragId, dropId)
    requires Distinct(groups[0].Flat()) && FreshGroupId(groups) !in groups[0].Flat()
    ensures var flat := groups[0].Flat();
            && dropId in flat
            && (JoinedIntoNewFolder(groups, dragId, dropId, name)[0].Flat()
                == WithoutFirst(flat[IndexOf(flat, dropId) := FreshGroupId(groups)], dragId) <==>
                  KeepsPlace(groups[0].pages, dragId, dropId))
  {
    var pages, flat := groups[0].pages, groups[0].Flat();
    FindMeaning(pages, dragId);
    FindMeaning(pages, dropId);
    JoinFlat(groups, dragId, dropId, name);
    ReplacedIff(flat, IndexOf(flat, dragId), IndexOf(flat, dropId), PlaceholderIndex(pages, dragId, dropId),
                FreshGroupId(groups));
    PlaceholderBeside(pages, dragId, dropId);
  }

  /** Putting y in and taking s[b] out replaces s[b] by y if y goes right in front of it or right behind it. */
  lemma ReplacedIff<T>(s: seq<T>, a: nat, b: nat, place: nat, y: T)
    requires Distinct(s) && a < |s| && b < |s| && a != b && y !in s && place < |s|
    ensures var at := if a < b then b - 1 else b;
            WithoutFirst(InsertAt(WithoutFirst(s, s[a]), place, y), s[b]) == WithoutFirst(s[b := y], s[a]) <==>
              place == at || place == at + 1
  {
    var at := if a < b then b - 1 else b;
    var left := RemoveAt(s, a);
    LeftBehind(s, a, b, y);
    FirstInserted(left, at, place, y);
    ReplacedAtIff(left, at, place, y);
  }

  lemma LeftBehind<T>(s: seq<T>, a: nat, b: nat, y: T)
    requires Distinct(s) && a < |s| && b < |s| && a != b && y !in s
    ensures var left, at := RemoveAt(s, a), if a < b then b - 1 else b;
            && WithoutFirst(s, s[a]) == left && WithoutFirst(s[b := y], s[a]) == left[at := y]
            && Distinct(left) && left[at] == s[b] && y !in left
  {
    FirstAt(s, a);
    FirstAt(s[b := y], a);
    assert RemoveAt(s[b := y], a) == RemoveAt(s, a)[if a < b then b - 1 else b := y];
  }

  lemma FirstAt<T>(s: seq<T>, i: nat)
    requires i < |s| && forall k | 0 <= k < i :: s[k] != s[i]
    ensures WithoutFirst(s, s[i]) == RemoveAt(s, i)
  {
    assert IndexOf(s, s[i]) == i;
  }

  lemma FirstInserted<T>(s: seq<T>, at: nat, place: nat, y: T)
    requires Distinct(s) && at < |s| && place <= |s| && y !in s
    ensures WithoutFirst(InsertAt(s, place, y), s[at])
         == RemoveAt(InsertAt(s, place, y), if place <= at then at + 1 else at)
  {
    var i := if place <= at then at + 1 else at;
    var r := InsertAt(s, place, y);
    assert r[i] == s[at];
    forall k | 0 <= k < i ensures r[k] != r[i] {
      assert r[k] == if k < place then s[k] else if k == place then y else s[k - 1];
    }
    FirstAt(r, i);
  }

  lemma ReplacedAtIff<T>(s: seq<T>, at: nat, place: nat, y: T)
    requires at < |s| && place <= |s| && y !in s
    ensures RemoveAt(InsertAt(s, place, y), if place <= at then at + 1 else at) == s[at := y] <==>
              place == at || place == at + 1
  {
    var i := if place <= at then at + 1 else at;
    var r := RemoveAt(InsertAt(s, place, y), i);
    var j := if place <= at then place else place - 1;
    assert r[j] == y;
    if place == at || place == at + 1 {
      assert r == s[at := y];
    } else {
      assert s[at := y][j] == s[j];
    }
  }

  /** How far behind the drop the placeholder goes. */
  lemma PlaceholderBeside(pages: seq<Page>, dragId: string, dropId: string)
    requires dragId != dropId && JoinFits(pages, dragId, dropId)
    ensures dragId in Flatten(pages) && dropId in Flatten(pages)
    ensures var a, b := IndexOf(Flatten(pages), dragId), IndexOf(Flatten(pages), dropId);
            var at := if a < b then b - 1 else b;
            var place := PlaceholderIndex(pages, dragId, dropId);
            KeepsPlace(pages, dragId, dropId) <==> place == at || place == at + 1
  {
    var (dragPage, dragPos) := Find(pages, dragId).value;
    var (page, pos) := Find(pages, dropId).value;
    FindMeaning(pages, dragId);
    FindMeaning(pages, dropId);
    var taken := TakenOut(pages, dragPage, dragPos);
    var left := Removed(pages, dragId, true);
    if dragPage < page { OffsetsOrdered(pages, dragPage, page); }
    if page < dragPage { OffsetsOrdered(pages, page, dragPage); }
    if page == dragPage {
      assert left[..page] == pages[..page];
    } else if |pages[dragPage]| >= 2 || page < dragPage {
      OffsetAfterTaking(pages, dragPage, dragPos, page);
      assert left[..page] == taken[..page];
    } else {
      PlaceholderOnNextPage(pages, dragPage, page);
    }
  }

  /** With the only item of an earlier page gone, the drop's page number names the next page. */
  lemma PlaceholderOnNextPage(pages: seq<Page>, dragPage: nat, page: nat)
    requires dragPage < page && page + 1 < |pages| && |pages[dragPage]| == 1
    ensures var left := RemoveAt(TakenOut(pages, dragPage, 0), dragPage);
            && left[page] == pages[page + 1]
            && |Flatten(left[..page])| == |Flatten(pages[..page])| + |pages[page]| - 1
  {
    var taken := TakenOut(pages, dragPage, 0);
    var left := RemoveAt(taken, dragPage);
    OffsetAfterTaking(pages, dragPage, 0, page + 1);
    FlattenDropEmpty(taken[..page + 1], dragPage);
    assert left[..page] == RemoveAt(taken[..page + 1], dragPage);
    FlattenSnoc(pages, page);
  }

  lemma FlattenSnoc(pages: seq<Page>, page: nat)
    requires page < |pages|
    ensures |Flatten(pages[..page + 1])| == |Flatten(pages[..page])| + |pages[page]|
  {
    FlattenAround(pages[..page + 1], page);
    assert pages[..page + 1][..page] == pages[..page];
  }

  /** Joining "a" onto "b", which is not alone on its page: the folder is put behind "x". */
  lemma JoinOutOfPlace()
    ensures var top := Group("internal/folder/0", "", [["a"], ["b", "x"], ["c"]]);
            && JoinFits(top.pages, "a", "b") && !KeepsPlace(top.pages, "a", "b")
            && JoinedIntoNewFolder([top], "a", "b", "")[0].Flat() == ["x", FreshGroupId([top]), "c"]
  {
    var top := Group("internal/folder/0", "", [["a"], ["b", "x"], ["c"]]);
    OutOfPlacePages(top.pages);
    JoinFlat([top], "a", "b", "");
    OutOfPlaceFlat(top.Flat(), FreshGroupId([top]));
  }

  lemma OutOfPlaceFlat(flat: seq<string>, folder: string)
    requires flat == ["a", "b", "x", "c"]
    ensures WithoutFirst(flat, "a") == ["b", "x", "c"]
    ensures WithoutFirst(InsertAt(["b", "x", "c"], 2, folder), "b") == ["x", folder, "c"]
  {
    FirstAt(flat, 0);
    var placed := InsertAt(["b", "x", "c"], 2, folder);
    assert placed == ["b", "x", folder, "c"];
    FirstAt(placed, 0);
  }

  lemma OutOfPlacePages(pages: seq<Page>)
    requires pages == [["a"], ["b", "x"], ["c"]]
    ensures Find(pages, "a") == Some((0, 0)) && Find(pages, "b") == Some((1, 0))
    ensures Flatten(pages) == ["a", "b", "x", "c"] && PlaceholderIndex(pages, "a", "b") == 2
  {
    var left := [["b", "x"], ["c"]];
    assert pages[1..] == left && left[1..] == [["c"]] && [["c"]][1..] == [];
    assert Flatten(left) == ["b", "x"] + (["c"] + []);
    assert TakenOut(pages, 0, 0) == [[], ["b", "x"], ["c"]];
    assert Removed(pages, "a", true) == left;
    assert left[..1] == [["b", "x"]] && Flatten(left[..1]) == ["b", "x"] + [];
  }
}
