/** The dock's element list as a value: one entry per open window that has a desktop id, and one
    launcher entry per docked application without a window, next to the two source models that
    the entries point into. */
module DockState {
  import opened Lists

  datatype Source = Apps | Windows

  datatype Entry = Entry(id: string, source: Source, row: int)

  /** apps and windows hold the desktop id of each source row. */
  datatype Dock = Dock(apps: seq<string>, windows: seq<string>, docked: seq<string>, data: seq<Entry>)

  // ---------- what agreement with the sources means ----------

  ghost predicate Agrees(d: Dock, e: Entry) {
    match e.source
    case Apps => 0 <= e.row < |d.apps| && d.apps[e.row] == e.id && e.id in d.docked
    case Windows => 0 <= e.row < |d.windows| && d.windows[e.row] == e.id && e.id != ""
  }

  /** Two windows may share an id but not a row; a launcher shares its id with nobody. */
  ghost predicate Compatible(a: Entry, b: Entry) {
    if a.source == Windows && b.source == Windows then a.row != b.row else a.id != b.id
  }

  ghost predicate AllCompatible(data: seq<Entry>) {
    forall i, j | 0 <= i < j < |data| :: Compatible(data[i], data[j])
  }

  ghost predicate Complete(d: Dock) {
    forall r | 0 <= r < |d.windows| && d.windows[r] != "" :: Entry(d.windows[r], Windows, r) in d.data
  }

  ghost predicate Consistent(d: Dock) {
    && Distinct(d.apps)
    && (forall i | 0 <= i < |d.data| :: Agrees(d, d.data[i]))
    && AllCompatible(d.data)
    && Complete(d)
  }

  predicate HasId(data: seq<Entry>, id: string) {
    exists i | 0 <= i < |data| :: data[i].id == id
  }

  /** Every docked application that is installed is on the dock. */
  ghost predicate Covered(d: Dock) {
    forall id | id in d.docked && id in d.apps :: HasId(d.data, id)
  }

  // ---------- windows opening ----------

  function FirstWithId(data: seq<Entry>, id: string): (p: nat)
    requires HasId(data, id)
    ensures p < |data| && data[p].id == id && forall i | 0 <= i < p :: data[i].id != id
  {
    if data[0].id == id then 0 else 1 + FirstWithId(data[1..], id)
  }

  function LastWithId(data: seq<Entry>, id: string): (p: nat)
    requires HasId(data, id)
    ensures p < |data| && data[p].id == id && forall i | p < i < |data| :: data[i].id != id
  {
    if data[|data| - 1].id == id then |data| - 1 else LastWithId(data[..|data| - 1], id)
  }

  /** Where the window at the given row goes: into the launcher's place, else right of the
      application's rightmost window, else at the end. */
  function Place(data: seq<Entry>, id: string, row: nat): seq<Entry> {
    var e := Entry(id, Windows, row);
    if !HasId(data, id) then data + [e]
    else
      var p := FirstWithId(data, id);
      if data[p].source == Apps then data[p := e]
      else InsertAt(data, LastWithId(data, id) + 1, e)
  }

  function PlaceRows(data: seq<Entry>, windows: seq<string>, first: nat, end: nat): seq<Entry>
    requires first <= end <= |windows|
    decreases end
  {
    if first == end then data
    else
      var before := PlaceRows(data, windows, first, end - 1);
      if windows[end - 1] == "" then before else Place(before, windows[end - 1], end - 1)
  }

  /** The row shift that follows an insertion or a removal in a source model. */
  function Shift(source: Source, from: int, delta: int): Entry -> Option<Entry> {
    (e: Entry) => Some(if e.source == source && e.row >= from then e.(row := e.row + delta) else e)
  }

  function RowsInserted(data: seq<Entry>, windows: seq<string>, first: nat, last: nat): seq<Entry>
    requires first <= last < |windows|
  {
    FilterMap(PlaceRows(data, windows, first, last + 1), Shift(Windows, first + 1, last - first + 1))
  }

  function OpenWindow(d: Dock, id: string): Dock {
    var windows := d.windows + [id];
    d.(windows := windows, data := if id == "" then d.data else Place(d.data, id, |d.windows|))
  }

  // ---------- windows closing ----------

  /** e is the application's last window to go when the rows from first on are closed one by one. */
  predicate LastStanding(data: seq<Entry>, first: int, e: Entry) {
    forall i | 0 <= i < |data| && data[i].id == e.id && data[i].source == Windows :: first <= data[i].row <= e.row
  }

  /** The last window of a docked, installed application leaves a launcher behind. */
  function Closed(d: Dock, first: int, e: Entry): Option<Entry> {
    if e.id in d.docked && e.id in d.apps && LastStanding(d.data, first, e)
    then Some(Entry(e.id, Apps, IndexOf(d.apps, e.id)))
    else None
  }

  function CloseRows(d: Dock, first: int, last: int): Entry -> Option<Entry> {
    (e: Entry) => if e.source == Apps || e.row < first then Some(e)
         else if e.row <= last then Closed(d, first, e)
         else Some(e.(row := e.row - (last - first + 1)))
  }

  function CloseWindows(d: Dock, first: nat, last: nat): Dock
    requires first <= last < |d.windows|
  {
    d.(windows := CutRows(d.windows, first, last), data := FilterMap(d.data, CloseRows(d, first, last)))
  }

  // ---------- applications coming and going ----------

  function InstallApp(d: Dock, id: string): Dock {
    d.(apps := d.apps + [id])
  }

  function DropRows(source: Source, first: int, last: int): Entry -> Option<Entry> {
    (e: Entry) => if e.source != source || e.row < first then Some(e)
         else if e.row <= last then None
         else Some(e.(row := e.row - (last - first + 1)))
  }

  function UninstallApps(d: Dock, first: nat, last: nat): Dock
    requires first <= last < |d.apps|
  {
    d.(apps := CutRows(d.apps, first, last), data := FilterMap(d.data, DropRows(Apps, first, last)))
  }

  // ---------- docking and undocking ----------

  function In(ids: seq<string>): string -> bool {
    id => id in ids
  }

  function AddLaunchers(data: seq<Entry>, apps: seq<string>, docked: seq<string>, ids: seq<string>): seq<Entry>
    decreases ids
  {
    if ids == [] then data
    else
      var id := ids[0];
      var data' := if id in apps && id !in docked && !HasId(data, id)
                   then data + [Entry(id, Apps, IndexOf(apps, id))] else data;
      AddLaunchers(data', apps, docked, ids[1..])
  }

  function StillDocked(docked: seq<string>): Entry -> bool {
    (e: Entry) => e.source == Windows || e.id in docked
  }

  function ReloadDocked(d: Dock, ids: seq<string>): Dock {
    var docked := Filter(ids, In(d.apps));
    var data := AddLaunchers(d.data, d.apps, d.docked, ids);
    d.(docked := docked, data := Filter(data, StillDocked(docked)))
  }
}
