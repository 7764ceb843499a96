/** Drag and drop next to an item, in the same folder or from another one. */
module GroupDrops {
  import opened Lists
  import opened Pages
  import opened PageSizes
  import opened GroupIds
  import opened Groups
  import opened GroupItems

  /** Moving an item to the place of another one leaves it behind that one or in front of it. */
  ghost predicate LandsBehind(flat: seq<string>, drag: string, drop: string) {
    exists j :: 0 <= j < |flat| - 1 && flat[j] == drop && flat[j + 1] == drag
  }

  ghost predicate LandsInFront(flat: seq<string>, drag: string, drop: string) {
    exists j :: 0 <= j < |flat| - 1 && flat[j] == drag && flat[j + 1] == drop
  }

  lemma MoveBeside(flat: seq<string>, source: nat, target: nat, landing: nat)
    requires source < |flat| && target < |flat| && source != target
    requires var t := if source < target then target - 1 else target; landing == t || landing == t + 1
    ensures var r := InsertAt(RemoveAt(flat, source), landing, flat[source]);
            var t := if source < target then target - 1 else target;
            if landing == t then LandsInFront(r, flat[source], flat[target])
            else LandsBehind(r, flat[source], flat[target])
  {
    var rest := RemoveAt(flat, source);
    var t := if source < target then target - 1 else target;
    var r := InsertAt(rest, landing, flat[source]);
    assert rest[t] == flat[target];
    if landing == t {
      assert r[landing] == flat[source] && r[landing + 1] == flat[target];
    } else {
      assert r[landing] == flat[source] && r[landing - 1] == flat[target];
    }
  }

  lemma OffsetsOrdered(pages: seq<Page>, p: nat, q: nat)
    requires p < q <= |pages|
    ensures |Flatten(pages[..p])| + |pages[p]| <= |Flatten(pages[..q])|
  {
    assert pages[..q] == pages[..p] + pages[p..q];
    FlattenConcat(pages[..p], pages[p..q]);
    assert pages[p..q][0] == pages[p];
  }

  /** moveItemPosition puts the item next to the target: behind it when moving right on the page, or
      when asked to while moving left on the page; in front of it otherwise, so always when it comes
      from another page. */
  lemma DropSide(pages: seq<Page>, max: nat,
                 fromPage: nat, fromIndex: nat, toPage: nat, toIndex: nat, behind: bool)
    requires max >= 1 && Bounded(pages, max)
    requires fromPage < |pages| && fromIndex < |pages[fromPage]| && toPage < |pages| && toIndex < |pages[toPage]|
    requires (fromPage, fromIndex) != (toPage, toIndex)
    ensures var r := Flatten(MovedPosition(pages, max, fromPage, fromIndex, toPage, toIndex, behind));
            var drag, drop := pages[fromPage][fromIndex], pages[toPage][toIndex];
            if fromPage == toPage && (behind || fromIndex < toIndex) then LandsBehind(r, drag, drop)
            else LandsInFront(r, drag, drop)
  {
    MoveItemPositionRefines(pages, max, fromPage, fromIndex, toPage, toIndex, behind);
    SideOfMove(pages, MovedPosition(pages, max, fromPage, fromIndex, toPage, toIndex, behind),
               fromPage, fromIndex, toPage, toIndex, behind);
  }

  lemma SideOfMove(pages: seq<Page>, r: seq<Page>,
                   fromPage: nat, fromIndex: nat, toPage: nat, toIndex: nat, behind: bool)
    requires fromPage < |pages| && fromIndex < |pages[fromPage]| && toPage < |pages| && toIndex < |pages[toPage]|
    requires (fromPage, fromIndex) != (toPage, toIndex)
    requires OneFlatMove(pages, r, |Flatten(pages[..fromPage])| + fromIndex,
                         LandingIndex(pages, fromPage, fromIndex, toPage, toIndex, behind))
    ensures var drag, drop := pages[fromPage][fromIndex], pages[toPage][toIndex];
            if fromPage == toPage && (behind || fromIndex < toIndex) then LandsBehind(Flatten(r), drag, drop)
            else LandsInFront(Flatten(r), drag, drop)
  {
    var source := |Flatten(pages[..fromPage])| + fromIndex;
    var target := |Flatten(pages[..toPage])| + toIndex;
    LandingBesideTarget(pages, fromPage, fromIndex, toPage, toIndex, behind);
    FlatMoveBeside(pages, r, source, target,
                   LandingIndex(pages, fromPage, fromIndex, toPage, toIndex, behind));
  }

  lemma FlatMoveBeside(pages: seq<Page>, r: seq<Page>, source: nat, target: nat, landing: int)
    requires OneFlatMove(pages, r, source, landing) && target < |Flatten(pages)| && source != target
    requires var t := if source < target then target - 1 else target; landing == t || landing == t + 1
    ensures var flat, t := Flatten(pages), if source < target then target - 1 else target;
            if landing == t then LandsInFront(Flatten(r), flat[source], flat[target])
            else LandsBehind(Flatten(r), flat[source], flat[target])
  {
    MoveBeside(Flatten(pages), source, target, landing);
  }

  lemma LandingBesideTarget(pages: seq<Page>, fromPage: nat, fromIndex: nat, toPage: nat, toIndex: nat, behind: bool)
    requires fromPage < |pages| && fromIndex < |pages[fromPage]| && toPage < |pages| && toIndex < |pages[toPage]|
    requires (fromPage, fromIndex) != (toPage, toIndex)
    ensures var flat := Flatten(pages);
            var source := |Flatten(pages[..fromPage])| + fromIndex;
            var target := |Flatten(pages[..toPage])| + toIndex;
            var t := if source < target then target - 1 else target;
            && source < |flat| && target < |flat| && source != target
            && flat[source] == pages[fromPage][fromIndex] && flat[target] == pages[toPage][toIndex]
            && LandingIndex(pages, fromPage, fromIndex, toPage, toIndex, behind)
            == (if fromPage == toPage && (behind || fromIndex < toIndex) then t + 1 else t)
  {
    TakenOutFlat(pages, fromPage, fromIndex);
    TakenOutFlat(pages, toPage, toIndex);
    if fromPage < toPage { OffsetsOrdered(pages, fromPage, toPage); }
    if toPage < fromPage { OffsetsOrdered(pages, toPage, fromPage); }
  }

  // ---------- in one folder ----------

  /** A position is looked up in the row whose number is the reported folder id. */
  predicate InRange(groups: seq<Group>, at: ItemPosition) {
    && 0 <= at.group < |groups| && 0 <= at.page < |groups[at.group].pages|
    && 0 <= at.pos < |groups[at.group].pages[at.page]|
  }

  function ItemAt(groups: seq<Group>, at: ItemPosition): string
    requires InRange(groups, at)
  {
    groups[at.group].pages[at.page][at.pos]
  }

  function DroppedNextTo(groups: seq<Group>, drag: ItemPosition, drop: ItemPosition, behind: bool): seq<Group>
    requires InRange(groups, drag) && InRange(groups, drop) && drag.group == drop.group
  {
    var g := groups[drag.group];
    WithPages(groups, drag.group, MovedPosition(g.pages, g.Max(), drag.page, drag.pos, drop.page, drop.pos, behind))
  }

  /** The folder id of the first row that has the item is the number of that row. */
  predicate FoundInOwnRow(groups: seq<Group>, id: string) {
    id in AllItems(groups) && groups[FirstRowWith(groups, id)].FolderId() == FirstRowWith(groups, id)
  }

  /** For two items found in their own row, the same one, the drag ends up beside the drop there: behind it
      on the same page when moving right or when asked to, in front of it otherwise. */
  lemma DroppedNextToSide(groups: seq<Group>, dragId: string, dropId: string, behind: bool)
    requires WithinBounds(groups) && dragId != dropId
    requires FoundInOwnRow(groups, dragId) && FoundInOwnRow(groups, dropId)
    requires FindItem(groups, dragId).group == FindItem(groups, dropId).group
    ensures var drag, drop := FindItem(groups, dragId), FindItem(groups, dropId);
            && InRange(groups, drag) && InRange(groups, drop)
            && var flat := DroppedNextTo(groups, drag, drop, behind)[drag.group].Flat();
               if drag.page == drop.page && (behind || drag.pos < drop.pos) then LandsBehind(flat, dragId, dropId)
               else LandsInFront(flat, dragId, dropId)
  {
    var drag, drop := FindItem(groups, dragId), FindItem(groups, dropId);
    FindItemMeaning(groups, dragId);
    FindItemMeaning(groups, dropId);
    var g := groups[drag.group];
    DropSide(g.pages, g.Max(), drag.page, drag.pos, drop.page, drop.pos, behind);
  }

  lemma ItemInFlat(pages: seq<Page>, page: nat, pos: nat)
    requires page < |pages| && pos < |pages[page]|
    ensures pages[page][pos] in Flatten(pages)
  {
    TakenOutFlat(pages, page, pos);
  }

  /** In a duplicate-free arrangement, an item is in the row of its reported number exactly when it was found
      in its own row. */
  lemma InReportedRowIff(groups: seq<Group>, id: string)
    requires DuplicateFree(groups) && id in AllItems(groups) && 0 <= FindItem(groups, id).group < |groups|
    ensures id in groups[FindItem(groups, id).group].Flat() <==> FoundInOwnRow(groups, id)
  {
    var row := FindItem(groups, id).group;
    FindItemMeaning(groups, id);
    if id in groups[row].Flat() { OneRowOnly(groups, id, row, FirstRowWith(groups, id)); }
  }

  /** Then, and only then, it also stands at its reported position. */
  lemma ReportedPositionIff(groups: seq<Group>, id: string)
    requires DuplicateFree(groups) && id in AllItems(groups) && InRange(groups, FindItem(groups, id))
    ensures ItemAt(groups, FindItem(groups, id)) == id <==> FoundInOwnRow(groups, id)
    ensures id in groups[FindItem(groups, id).group].Flat() <==> FoundInOwnRow(groups, id)
  {
    var at := FindItem(groups, id);
    FindItemMeaning(groups, id);
    InReportedRowIff(groups, id);
    ItemInFlat(groups[at.group].pages, at.page, at.pos);
  }

  ghost predicate Beside(flat: seq<string>, a: string, b: string) {
    LandsBehind(flat, a, b) || LandsInFront(flat, a, b)
  }

  /** What moves is the drag and the target is the drop, and the drag ends up beside the drop in the row that
      changes, exactly when both were found in their own row. Otherwise the row of an item that was not is
      left alone. */
  lemma DropIff(groups: seq<Group>, dragId: string, dropId: string, behind: bool)
    requires WithinBounds(groups) && DuplicateFree(groups) && dragId != dropId
    requires dragId in AllItems(groups) && dropId in AllItems(groups)
    requires InRange(groups, FindItem(groups, dragId)) && InRange(groups, FindItem(groups, dropId))
    requires FindItem(groups, dragId).group == FindItem(groups, dropId).group
    ensures var drag, drop := FindItem(groups, dragId), FindItem(groups, dropId);
            var r := DroppedNextTo(groups, drag, drop, behind);
            var own := FoundInOwnRow(groups, dragId) && FoundInOwnRow(groups, dropId);
            && (ItemAt(groups, drag) == dragId && ItemAt(groups, drop) == dropId <==> own)
            && (Beside(r[drag.group].Flat(), dragId, dropId) <==> own)
            && (forall k | 0 <= k < |groups| && k != drag.group :: r[k] == groups[k])
            && (!FoundInOwnRow(groups, dragId) ==> FirstRowWith(groups, dragId) != drag.group)
            && (!FoundInOwnRow(groups, dropId) ==> FirstRowWith(groups, dropId) != drag.group)
  {
    var drag, drop := FindItem(groups, dragId), FindItem(groups, dropId);
    FindItemMeaning(groups, dragId);
    FindItemMeaning(groups, dropId);
    ReportedPositionIff(groups, dragId);
    ReportedPositionIff(groups, dropId);
    if FoundInOwnRow(groups, dragId) && FoundInOwnRow(groups, dropId) {
      DroppedNextToSide(groups, dragId, dropId, behind);
    } else {
      NothingNewInRow(groups, drag, drop, behind);
    }
  }

  lemma NothingNewInRow(groups: seq<Group>, drag: ItemPosition, drop: ItemPosition, behind: bool)
    requires WithinBounds(groups) && InRange(groups, drag) && InRange(groups, drop) && drag.group == drop.group
    ensures var r := DroppedNextTo(groups, drag, drop, behind)[drag.group].Flat();
            forall x | x in r :: x in groups[drag.group].Flat()
  {
    var g := groups[drag.group];
    MoveItemPositionRefines(g.pages, g.Max(), drag.page, drag.pos, drop.page, drop.pos, behind);
    FlatMoveMembers(g.pages, DroppedNextTo(groups, drag, drop, behind)[drag.group].pages,
                    |Flatten(g.pages[..drag.page])| + drag.pos,
                    LandingIndex(g.pages, drag.page, drag.pos, drop.page, drop.pos, behind));
  }

  lemma FlatMoveMembers(pages: seq<Page>, r: seq<Page>, from: nat, to: nat)
    requires OneFlatMove(pages, r, from, to)
    ensures forall x | x in Flatten(r) :: x in Flatten(pages)
  {
  }

  /** An item in a folder that the manager made is looked up on the top level instead, exactly when the
      folder's number reads as 0; it is found in its own row only if the number happens to read as that. */
  lemma MadeFolderIsMistaken(groups: seq<Group>, id: string, n: nat)
    requires id in AllItems(groups) && FirstRowWith(groups, id) > 0
    requires groups[FirstRowWith(groups, id)].id == GroupName(n)
    ensures FindItem(groups, id).group == 0 <==> n < 100 || Tail(n) == 0 || Tail(n) > 0x7fff_ffff
    ensures FindItem(groups, id).group == 0 ==> !FoundInOwnRow(groups, id)
    ensures FoundInOwnRow(groups, id) <==>
              n >= 100 && Tail(n) <= 0x7fff_ffff && Tail(n) == FirstRowWith(groups, id)
  {
    FindItemMeaning(groups, id);
    MadeGroupFolderId(n);
  }

  /** So dropping "y" in front of "x" inside such a folder moves "b" in front of "a" on the top level. */
  lemma WrongItemsMoved()
    ensures var top, folder := Group("internal/folder/0", "", [["a", "b"]]), Group(GroupName(0), "", [["x", "y"]]);
            var drag, drop := FindItem([top, folder], "y"), FindItem([top, folder], "x");
            && InRange([top, folder], drag) && InRange([top, folder], drop) && drag.group == drop.group
            && DroppedNextTo([top, folder], drag, drop, false) == [top.(pages := [["b", "a"]]), folder]
  {
    var top, folder := Group("internal/folder/0", "", [["a", "b"]]), Group(GroupName(0), "", [["x", "y"]]);
    var groups := [top, folder];
    MadeGroupFolderId(0);
    assert groups[1..] == [folder];
    assert ["x", "y"][1..] == ["y"];
    assert FindItem(groups, "x") == ItemPosition(0, 0, 0) && FindItem(groups, "y") == ItemPosition(0, 0, 1);
    assert Move(["a", "b"], 1, 0) == ["b", "a"];
    assert MovedPosition([["a", "b"]], 32, 0, 1, 0, 0, false) == [["b", "a"]];
  }

  // ---------- into another folder ----------

  /** Both reported folder ids are row numbers, and the target's page exists there. */
  predicate CrossInRange(groups: seq<Group>, drag: ItemPosition, drop: ItemPosition) {
    && 0 <= drag.group < |groups| && 0 <= drop.group < |groups| && drag.group != drop.group
    && 0 <= drop.page < |groups[drop.group].pages| && 0 <= drop.pos
  }

  /** The drag is taken out of its folder, which goes if that empties it, and the drop's id is inserted. */
  function DroppedAcross(groups: seq<Group>, dragId: string, dropId: string): seq<Group>
    requires CrossInRange(groups, FindItem(groups, dragId), FindItem(groups, dropId))
  {
    var src, drop := FindItem(groups, dragId).group, FindItem(groups, dropId);
    PlacedAcross(groups, src, drop.group, dragId, dropId, drop.page, drop.pos)
  }

  function InsertedInRow(groups: seq<Group>, row: nat, id: string, page: nat, pos: nat): (r: seq<Group>)
    requires row < |groups| && page < |groups[row].pages|
    ensures |r| == |groups|
  {
    WithPages(groups, row, Inserted(groups[row].pages, groups[row].Max(), id, page, pos))
  }

  function PlacedAcross(groups: seq<Group>, src: nat, dst: nat, dragId: string, dropId: string, page: nat, pos: nat):
    seq<Group>
    requires src < |groups| && dst < |groups| && src != dst && page < |groups[dst].pages|
  {
    var placed := InsertedInRow(RemovedFrom(groups, src, dragId), dst, dropId, page, pos);
    if placed[src].pages == [] then RemoveAt(placed, src) else placed
  }

  /** The emptied folder goes before the drop's id is inserted; the folder it is inserted into is the same. */
  lemma AcrossInEitherOrder(groups: seq<Group>, src: nat, dst: nat, dragId: string, dropId: string, page: nat, pos: nat)
    requires src < |groups| && dst < |groups| && src != dst && page < |groups[dst].pages|
    ensures var taken := RemovedFrom(groups, src, dragId);
            var row := if taken[src].pages == [] && src < dst then dst - 1 else dst;
            var left := if taken[src].pages == [] then RemoveAt(taken, src) else taken;
            && row < |left| && left[row] == groups[dst]
            && InsertedInRow(left, row, dropId, page, pos) == PlacedAcross(groups, src, dst, dragId, dropId, page, pos)
  {
  }

  /** So a drop into another folder loses an occurrence of the drag, if it was in the reported row, and
      doubles the drop. */
  lemma DroppedAcrossCount(groups: seq<Group>, dragId: string, dropId: string, x: string)
    requires WithinBounds(groups) && CrossInRange(groups, FindItem(groups, dragId), FindItem(groups, dropId))
    ensures Count(AllItems(DroppedAcross(groups, dragId, dropId)), x)
         == Count(AllItems(groups), x) + (if x == dropId then 1 else 0)
            - (if x == dragId && dragId in groups[FindItem(groups, dragId).group].Flat() then 1 else 0)
  {
    var src, drop := FindItem(groups, dragId).group, FindItem(groups, dropId);
    var g, taken := groups[drop.group], RemovedFrom(groups, src, dragId);
    var placed := InsertedInRow(taken, drop.group, dropId, drop.page, drop.pos);
    CountRowChanged(groups, src, taken[src], x);
    CountRowChanged(taken, drop.group, placed[drop.group], x);
    TakeOne(groups[src].pages, groups[src].Max(), dragId, x);
    PutOne(g.pages, g.Max(), dropId, drop.page, drop.pos, x);
    if placed[src].pages == [] { CountRowGone(placed, src, x); }
  }

  /** It conserves the items for no two different items whatever. */
  lemma DroppedAcrossNeverConserves(groups: seq<Group>, dragId: string, dropId: string)
    requires WithinBounds(groups) && dragId != dropId
    requires CrossInRange(groups, FindItem(groups, dragId), FindItem(groups, dropId))
    ensures Count(AllItems(DroppedAcross(groups, dragId, dropId)), dropId) == Count(AllItems(groups), dropId) + 1
    ensures multiset(AllItems(DroppedAcross(groups, dragId, dropId))) != multiset(AllItems(groups))
  {
    DroppedAcrossCount(groups, dragId, dropId, dropId);
    CountIsMultiplicity(AllItems(DroppedAcross(groups, dragId, dropId)), dropId);
    CountIsMultiplicity(AllItems(groups), dropId);
  }

  /** What such a drop leaves in each folder: the source without the first occurrence of the drag, or gone if that
      was all it had, the target with the drop's id at the reported position, and every other one as it was. */
  lemma DroppedAcrossExactly(groups: seq<Group>, dragId: string, dropId: string) returns (rows: seq<Group>)
    requires WithinBounds(groups) && CrossInRange(groups, FindItem(groups, dragId), FindItem(groups, dropId))
    ensures var src, drop := FindItem(groups, dragId).group, FindItem(groups, dropId);
            && |rows| == |groups|
            && Without(groups[src], rows[src], dragId)
            && With(groups[drop.group], rows[drop.group], dropId, drop.page, drop.pos)
            && (forall k | 0 <= k < |groups| && k != src && k != drop.group :: rows[k] == groups[k])
            && DroppedAcross(groups, dragId, dropId)
            == (if groups[src].pages == [] || groups[src].pages == [[dragId]] then RemoveAt(rows, src) else rows)
  {
    var src, drop := FindItem(groups, dragId).group, FindItem(groups, dropId);
    rows := InsertedInRow(RemovedFrom(groups, src, dragId), drop.group, dropId, drop.page, drop.pos);
    RemovedAllIff(groups[src].pages, dragId);
    TakenFromRow(groups[src], dragId);
    PutInRow(groups[drop.group], dropId, drop.page, drop.pos);
  }

  /** The same folder without the first occurrence of an item. */
  ghost predicate Without(before: Group, after: Group, id: string) {
    && after == before.(pages := after.pages)
    && after.Flat() == WithoutFirst(before.Flat(), id)
  }

  /** The same folder with an item more: at the given position, or at the end of that page if there is none. */
  ghost predicate With(before: Group, after: Group, id: string, page: nat, pos: nat) {
    && after == before.(pages := after.pages) && page < |before.pages|
    && var at := |Flatten(before.pages[..page])| + Min(pos, |before.pages[page]|);
       at <= |before.Flat()| && after.Flat() == InsertAt(before.Flat(), at, id)
  }

  lemma TakenFromRow(g: Group, id: string)
    requires Bounded(g.pages, g.Max())
    ensures var r := g.(pages := Removed(g.pages, id, true)); Without(g, r, id) && Bounded(r.pages, r.Max())
  {
    RemoveItemRefines(g.pages, g.Max(), id, true);
  }

  lemma PutInRow(g: Group, id: string, page: nat, pos: nat)
    requires Bounded(g.pages, g.Max()) && page < |g.pages|
    ensures var r := g.(pages := Inserted(g.pages, g.Max(), id, page, pos));
            With(g, r, id, page, pos) && Bounded(r.pages, r.Max())
  {
    InsertItemRefines(g.pages, g.Max(), id, page, pos);
  }
}
