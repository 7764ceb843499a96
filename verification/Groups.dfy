/** The launcher's groups as values: row 0 is the top level, the other rows are folders; each has
    its pages. */
module Groups {
  import opened Lists
  import opened Pages
  import opened ItemsPages
  import opened GroupIds

  datatype Group = Group(id: string, name: string, pages: seq<Page>)
  {
    function FolderId(): int { ParseGroupId(id) }

    function Max(): nat { MaxItems(id) }

    function Flat(): seq<string> { Flatten(pages) }
  }

  /** Only the group of this very name is as large as the top level. */
  function MaxItems(groupId: string): (max: nat)
    ensures max >= 2
  {
    if groupId == "internal/folder/0" then 4 * 8 else 3 * 4
  }

  /** Each given page is appended as a page, or as several when it is too long. */
  function AppendPages(pages: seq<Page>, max: nat): seq<Page>
    requires max >= 1
  {
    if pages == [] then [] else Chunks(pages[0], max) + AppendPages(pages[1..], max)
  }

  function NewGroup(id: string, name: string, pages: seq<Page>): Group {
    Group(id, name, AppendPages(pages, MaxItems(id)))
  }

  function AllItems(groups: seq<Group>): seq<string> {
    if groups == [] then [] else groups[0].Flat() + AllItems(groups[1..])
  }

  function GroupIdsOf(groups: seq<Group>): seq<string> {
    seq(|groups|, i requires 0 <= i < |groups| => groups[i].id)
  }

  function FreshGroupId(groups: seq<Group>): string {
    GroupName(FreshNumber(GroupIdsOf(groups)))
  }

  ghost predicate WithinBounds(groups: seq<Group>) {
    forall i | 0 <= i < |groups| :: Bounded(groups[i].pages, groups[i].Max())
  }

  function WithPages(groups: seq<Group>, row: nat, pages: seq<Page>): (r: seq<Group>)
    requires row < |groups|
    ensures |r| == |groups|
  {
    groups[row := groups[row].(pages := pages)]
  }

  function AppendedTo(groups: seq<Group>, row: nat, id: string): (r: seq<Group>)
    requires row < |groups|
    ensures |r| == |groups|
  {
    WithPages(groups, row, Appended(groups[row].pages, groups[row].Max(), id, -1))
  }

  function RemovedFrom(groups: seq<Group>, row: nat, id: string): (r: seq<Group>)
    requires row < |groups|
    ensures |r| == |groups|
  {
    WithPages(groups, row, Removed(groups[row].pages, id, true))
  }

  function InsertedOnTop(groups: seq<Group>, id: string, page: nat, pos: nat): (r: seq<Group>)
    requires groups != [] && page < |groups[0].pages|
    ensures |r| == |groups|
  {
    WithPages(groups, 0, Inserted(groups[0].pages, groups[0].Max(), id, page, pos))
  }

  // ---------- finding ----------

  datatype ItemPosition = ItemPosition(group: int, page: int, pos: int)

  /** The first row that has the item reports its folder id, not its row. */
  function FindItem(groups: seq<Group>, id: string): ItemPosition {
    if groups == [] then ItemPosition(-1, -1, -1)
    else match Find(groups[0].pages, id)
         case Some((page, pos)) => ItemPosition(groups[0].FolderId(), page, pos)
         case None => FindItem(groups[1..], id)
  }

  // ---------- synchronising with the installed applications ----------

  datatype AppRow = AppRow(desktopId: string, noDisplay: bool)

  function Shown(apps: seq<AppRow>): seq<string> {
    if apps == [] then []
    else (if apps[0].noDisplay then [] else [apps[0].desktopId]) + Shown(apps[1..])
  }

  function Names(ids: seq<string>): set<string> {
    set id | id in ids
  }

  function AddMissing(groups: seq<Group>, ids: seq<string>): (r: seq<Group>)
    requires groups != []
    ensures |r| == |groups|
    decreases ids
  {
    if ids == [] then groups else AddMissing(AddOne(groups, ids[0]), ids[1..])
  }

  function AddOne(groups: seq<Group>, id: string): (r: seq<Group>)
    requires groups != []
    ensures |r| == |groups|
  {
    if FindItem(groups, id).group != -1 then groups
    else AppendedTo(groups, 0, id)
  }

  /** A row that has forgotten what is not installed. */
  function Pruned(g: Group, shown: set<string>): Group {
    g.(pages := Narrowed(g.pages, Spared(shown)))
  }

  predicate Vanishes(g: Group, shown: set<string>) {
    Pruned(g, shown).Flat() == [] && g.FolderId() != 0
  }

  /** A row goes, and with it the first item of its name on the top level. */
  function DropFolder(groups: seq<Group>, i: nat): (r: seq<Group>)
    requires 0 < i < |groups|
    ensures |r| == |groups| - 1 && r[0].id == groups[0].id
  {
    RemovedFrom(RemoveAt(groups, i), 0, groups[i].id)
  }

  /** One row, from the last to the first: prune it, and drop it if it is an empty folder. */
  function PruneRow(groups: seq<Group>, shown: set<string>, i: nat): (r: seq<Group>)
    requires i < |groups| && groups[0].FolderId() == 0
    ensures i <= |r| && r != [] && r[0].id == groups[0].id
  {
    if Vanishes(groups[i], shown) then DropFolder(groups, i) else groups[i := Pruned(groups[i], shown)]
  }

  function Prune(groups: seq<Group>, shown: set<string>, i: nat): (r: seq<Group>)
    requires i <= |groups| && groups != [] && groups[0].FolderId() == 0
    ensures r != [] && r[0].id == groups[0].id
    decreases i
  {
    if i == 0 then groups else Prune(PruneRow(groups, shown, i - 1), shown, i - 1)
  }

  function Synced(groups: seq<Group>, apps: seq<AppRow>): seq<Group>
    requires groups != [] && groups[0].FolderId() == 0
  {
    if apps == [] then groups
    else
      var added := AddMissing(groups, Shown(apps));
      AddMissingKeepsRows(groups, Shown(apps));
      Prune(added, Names(Shown(apps)), |added|)
  }

  lemma {:induction false} AddMissingKeepsRows(groups: seq<Group>, ids: seq<string>)
    requires groups != []
    ensures var r := AddMissing(groups, ids);
            && |r| == |groups|
            && (forall i | 0 <= i < |groups| :: r[i].id == groups[i].id && r[i].name == groups[i].name)
            && (forall i | 1 <= i < |groups| :: r[i] == groups[i])
    decreases ids
  {
    if ids != [] { AddMissingKeepsRows(AddOne(groups, ids[0]), ids[1..]); }
  }

  // ---------- joining two items into a new folder ----------

  function JoinedIntoNewFolder(groups: seq<Group>, dragId: string, dropId: string, name: string): seq<Group>
    requires groups != [] && JoinFits(groups[0].pages, dragId, dropId)
  {
    var top := groups[0];
    var dropPosition := Find(top.pages, dropId).value;
    var folder := FreshGroupId(groups);
    var withoutDrag := Removed(top.pages, dragId, true);
    var withFolder := Inserted(withoutDrag, top.Max(), folder, dropPosition.0, dropPosition.1);
    groups[0 := top.(pages := Removed(withFolder, dropId, true))] + [NewGroup(folder, name, [[dragId, dropId]])]
  }

  /** Both items are there, and the drop target's page is still in range when the drag's page goes. */
  predicate JoinFits(pages: seq<Page>, dragId: string, dropId: string) {
    var drag, drop := Find(pages, dragId), Find(pages, dropId);
    drag.Some? && drop.Some? && (|pages[drag.value.0]| >= 2 || drop.value.0 + 1 < |pages|)
  }

  // ---------- saving and loading ----------

  datatype Record = Record(groupId: string, name: string, appItems: seq<Page>)

  function Saved(groups: seq<Group>): seq<Record> {
    seq(|groups|, i requires 0 <= i < |groups| => Record(groups[i].id, groups[i].name, groups[i].pages))
  }

  function LoadRecords(groups: seq<Group>, records: seq<Record>): seq<Group>
    decreases records
  {
    if records == [] then groups
    else
      var r := records[0];
      var id := if r.groupId == "" then FreshGroupId(groups) else r.groupId;
      LoadRecords(groups + [NewGroup(id, r.name, r.appItems)], records[1..])
  }

  /** Into a fresh manager; the top level always exists. */
  function Loaded(records: seq<Record>): seq<Group> {
    var groups := LoadRecords([], records);
    if groups == [] then [NewGroup(FreshGroupId([]), "Top Level", [])] else groups
  }
}
