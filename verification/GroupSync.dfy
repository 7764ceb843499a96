/** Synchronising the launcher with the installed applications: exactly what it leaves, when something
    shown is missing afterwards, and when something is there twice. */
module GroupSync {
  import opened Lists
  import opened Pages
  import opened PageSizes
  import opened ItemsPages
  import opened GroupIds
  import opened Groups
  import opened GroupItems

  // ---------- pruning ----------

  lemma PrunedRow(g: Group, shown: set<string>)
    requires Bounded(g.pages, g.Max())
    ensures var r := Pruned(g, shown);
            Bounded(r.pages, r.Max()) && NoEmptyPage(r.pages) && r.Flat() == Filter(g.Flat(), Spared(shown))
    ensures forall x | x in Pruned(g, shown).Flat() :: Spared(shown)(x)
  {
    RemoveItemsNotInRefines(g.pages, g.Max(), Spared(shown));
    forall x | x in Filter(g.Flat(), Spared(shown)) ensures Spared(shown)(x) {
      FilterMapMember(g.Flat(), Keep(Spared(shown)), x);
    }
  }

  /** A row that survives does so pruned. */
  function Surviving(shown: set<string>): Group -> Option<Group> {
    (g: Group) => if Vanishes(g, shown) then None else Some(Pruned(g, shown))
  }

  /** The names of the rows 1 .. i-1 that vanish, in the order in which they go. */
  function VanishedNames(groups: seq<Group>, shown: set<string>, i: nat): seq<string>
    requires i <= |groups|
  {
    if i <= 1 then []
    else
      (if Vanishes(groups[i - 1], shown) then [groups[i - 1].id] else []) + VanishedNames(groups, shown, i - 1)
  }

  lemma {:induction false} VanishedNamesSame(a: seq<Group>, b: seq<Group>, shown: set<string>, i: nat)
    requires i <= |a| && i <= |b| && forall k | 1 <= k < i :: a[k] == b[k]
    ensures VanishedNames(a, shown, i) == VanishedNames(b, shown, i)
  {
    if i > 1 { VanishedNamesSame(a, b, shown, i - 1); }
  }

  lemma {:induction false} VanishedNamesMember(groups: seq<Group>, shown: set<string>, i: nat, x: string)
    requires i <= |groups|
    ensures x in VanishedNames(groups, shown, i) <==>
              exists k :: 1 <= k < i && groups[k].id == x && Vanishes(groups[k], shown)
  {
    if i > 1 { VanishedNamesMember(groups, shown, i - 1, x); }
  }

  /** removeItem once for each name. */
  function RemovedEach(pages: seq<Page>, names: seq<string>): seq<Page>
    decreases names
  {
    if names == [] then pages else RemovedEach(Removed(pages, names[0], true), names[1..])
  }

  /** The row-by-row pruning in one formula: the top level loses one item per vanished name, and every row
      what is not to stay. */
  function AllPruned(groups: seq<Group>, shown: set<string>, i: nat): seq<Group>
    requires 1 <= i <= |groups|
  {
    var top := groups[0].(pages := RemovedEach(groups[0].pages, VanishedNames(groups, shown, i)));
    [Pruned(top, shown)] + (FilterMap(groups[1..i], Surviving(shown)) + groups[i..])
  }

  lemma {:induction false} PruneExactly(groups: seq<Group>, shown: set<string>, i: nat)
    requires 1 <= i <= |groups| && groups[0].FolderId() == 0
    ensures Prune(groups, shown, i) == AllPruned(groups, shown, i)
    decreases i
  {
    var next := PruneRow(groups, shown, i - 1);
    if i == 1 {
      TopPruned(groups, shown);
    } else {
      RowPruned(groups, shown, i - 1);
      PruneExactly(next, shown, i - 1);
      OneRowMore(groups, next, shown, i);
    }
  }

  lemma TopPruned(groups: seq<Group>, shown: set<string>)
    requires groups != [] && groups[0].FolderId() == 0
    ensures Prune(groups, shown, 1) == AllPruned(groups, shown, 1)
  {
    var next := PruneRow(groups, shown, 0);
    assert Prune(groups, shown, 1) == Prune(next, shown, 0) == next;
    assert groups[1..1] == [] && [] + groups[1..] == groups[1..];
    assert next == [Pruned(groups[0], shown)] + groups[1..];
  }

  lemma RowPruned(groups: seq<Group>, shown: set<string>, i: nat)
    requires 1 <= i < |groups| && groups[0].FolderId() == 0
    ensures IsRowPruned(groups, PruneRow(groups, shown, i), shown, i)
  {
  }

  /** Row i is pruned or gone, and its name with it; the others are as before. */
  ghost predicate IsRowPruned(groups: seq<Group>, next: seq<Group>, shown: set<string>, i: nat)
    requires 1 <= i < |groups|
  {
    && i <= |next| && next[0].FolderId() == groups[0].FolderId() && next[1..i] == groups[1..i]
    && if Vanishes(groups[i], shown)
       then next[i..] == groups[i + 1..]
            && next[0] == groups[0].(pages := Removed(groups[0].pages, groups[i].id, true))
       else next[i..] == [Pruned(groups[i], shown)] + groups[i + 1..] && next[0] == groups[0]
  }

  lemma OneRowMore(groups: seq<Group>, next: seq<Group>, shown: set<string>, i: nat)
    requires 2 <= i <= |groups| && IsRowPruned(groups, next, shown, i - 1)
    ensures AllPruned(next, shown, i - 1) == AllPruned(groups, shown, i)
  {
    OneNameMore(groups, next, shown, i);
    OneSurvivorMore(groups, shown, i);
    var g := groups[i - 1];
    var kept := if Vanishes(g, shown) then [] else [Pruned(g, shown)];
    assert next[i - 1..] == kept + groups[i..];
    Associative(FilterMap(groups[1..i - 1], Surviving(shown)), kept, groups[i..]);
  }

  lemma OneNameMore(groups: seq<Group>, next: seq<Group>, shown: set<string>, i: nat)
    requires 2 <= i <= |groups| && IsRowPruned(groups, next, shown, i - 1)
    ensures next[0].(pages := RemovedEach(next[0].pages, VanishedNames(next, shown, i - 1)))
         == groups[0].(pages := RemovedEach(groups[0].pages, VanishedNames(groups, shown, i)))
  {
    forall k | 1 <= k < i - 1 ensures next[k] == groups[k] {
      assert next[1..i - 1][k - 1] == groups[1..i - 1][k - 1];
    }
    VanishedNamesSame(next, groups, shown, i - 1);
    var rest := VanishedNames(groups, shown, i - 1);
    if Vanishes(groups[i - 1], shown) {
      assert ([groups[i - 1].id] + rest)[1..] == rest;
    } else {
      assert [] + rest == rest;
    }
  }

  lemma OneSurvivorMore(groups: seq<Group>, shown: set<string>, i: nat)
    requires 2 <= i <= |groups|
    ensures FilterMap(groups[1..i], Surviving(shown))
         == FilterMap(groups[1..i - 1], Surviving(shown))
            + (if Vanishes(groups[i - 1], shown) then [] else [Pruned(groups[i - 1], shown)])
  {
    assert groups[1..i] == groups[1..i - 1] + [groups[i - 1]];
    FilterMapConcat(groups[1..i - 1], [groups[i - 1]], Surviving(shown));
    assert FilterMap([groups[i - 1]][1..], Surviving(shown)) == [];
  }

  // ---------- the top level ----------

  /** One first occurrence less for each name. */
  function WithoutEach(s: seq<string>, names: seq<string>): seq<string>
    decreases names
  {
    if names == [] then s else WithoutEach(WithoutFirst(s, names[0]), names[1..])
  }

  lemma {:induction false} RemovedEachFlat(pages: seq<Page>, max: nat, names: seq<string>)
    requires Bounded(pages, max)
    ensures Bounded(RemovedEach(pages, names), max)
    ensures Flatten(RemovedEach(pages, names)) == WithoutEach(Flatten(pages), names)
    decreases names
  {
    if names != [] {
      RemoveItemRefines(pages, max, names[0], true);
      RemovedEachFlat(Removed(pages, names[0], true), max, names[1..]);
    }
  }

  lemma {:induction false} WithoutEachCount(s: seq<string>, names: seq<string>, x: string)
    ensures var n := Count(s, x) - Count(names, x); Count(WithoutEach(s, names), x) == if n > 0 then n else 0
    decreases names
  {
    if names != [] {
      WithoutEachCount(WithoutFirst(s, names[0]), names[1..], x);
      if names[0] in s { CountRemoveAt(s, IndexOf(s, names[0]), x); }
      CountPositive(s, x);
    }
  }

  // ---------- the synchronised arrangement ----------

  /** What a synchronisation leaves: the folders that survive, pruned and in their order, and a top level
      with its old items and the new ones, less one first occurrence for each vanished name, pruned. */
  lemma SyncExactly(groups: seq<Group>, apps: seq<AppRow>)
    requires groups != [] && groups[0].FolderId() == 0 && WithinBounds(groups) && apps != []
    ensures var r, shown := Synced(groups, apps), Names(Shown(apps));
            && r != [] && SameGroup(r[0], groups[0])
            && r[0].Flat() == TopAfter(groups, apps)
            && Bounded(r[0].pages, r[0].Max()) && NoEmptyPage(r[0].pages)
            && r[1..] == FilterMap(groups[1..], Surviving(shown))
  {
    var all := AddMissing(groups, Shown(apps));
    AddMissingEffect(groups, Shown(apps));
    AddMissingKeepsRows(groups, Shown(apps));
    PruneExactly(all, Names(Shown(apps)), |all|);
    PrunedExactly(groups, all, apps);
  }

  lemma PrunedExactly(groups: seq<Group>, all: seq<Group>, apps: seq<AppRow>)
    requires |all| == |groups| > 0 && SameGroup(all[0], groups[0])
    requires forall k | 1 <= k < |groups| :: all[k] == groups[k]
    requires Bounded(all[0].pages, all[0].Max())
    requires all[0].Flat() == groups[0].Flat() + NewItems(groups, Shown(apps))
    ensures var shown := Names(Shown(apps));
            var r := AllPruned(all, shown, |all|);
            && SameGroup(r[0], groups[0]) && r[0].Flat() == TopAfter(groups, apps)
            && Bounded(r[0].pages, r[0].Max()) && NoEmptyPage(r[0].pages)
            && r[1..] == FilterMap(groups[1..], Surviving(shown))
  {
    var shown := Names(Shown(apps));
    VanishedNamesSame(all, groups, shown, |groups|);
    TopExactly(groups, all, apps);
    WholePruned(all, shown);
    assert all[1..] == groups[1..];
  }

  lemma WholePruned(groups: seq<Group>, shown: set<string>)
    requires groups != []
    ensures var r, names := AllPruned(groups, shown, |groups|), VanishedNames(groups, shown, |groups|);
            && r[0] == Pruned(groups[0].(pages := RemovedEach(groups[0].pages, names)), shown)
            && r[1..] == FilterMap(groups[1..], Surviving(shown))
  {
    assert groups[1..|groups|] == groups[1..] && groups[|groups|..] == [];
    var rows := FilterMap(groups[1..], Surviving(shown));
    assert rows + [] == rows;
  }

  lemma TopExactly(groups: seq<Group>, all: seq<Group>, apps: seq<AppRow>)
    requires groups != [] && all != [] && Bounded(all[0].pages, all[0].Max())
    requires all[0].Flat() == groups[0].Flat() + NewItems(groups, Shown(apps))
    ensures var shown := Names(Shown(apps));
            var names := VanishedNames(groups, shown, |groups|);
            var r := Pruned(all[0].(pages := RemovedEach(all[0].pages, names)), shown);
            r.Flat() == TopAfter(groups, apps) && Bounded(r.pages, r.Max()) && NoEmptyPage(r.pages)
  {
    var shown := Names(Shown(apps));
    var names := VanishedNames(groups, shown, |groups|);
    RemovedEachFlat(all[0].pages, all[0].Max(), names);
    PrunedRow(all[0].(pages := RemovedEach(all[0].pages, names)), shown);
  }

  function TopAfter(groups: seq<Group>, apps: seq<AppRow>): seq<string>
    requires groups != []
  {
    var shown := Names(Shown(apps));
    var top := groups[0].Flat() + NewItems(groups, Shown(apps));
    Filter(WithoutEach(top, VanishedNames(groups, shown, |groups|)), Spared(shown))
  }

  ghost predicate SameGroup(a: Group, b: Group) {
    a.id == b.id && a.name == b.name
  }

  lemma {:induction false} SurvivingCount(rows: seq<Group>, shown: set<string>, x: string)
    requires WithinBounds(rows)
    ensures Count(AllItems(FilterMap(rows, Surviving(shown))), x)
         == if Spared(shown)(x) then Count(AllItems(rows), x) else 0
  {
    if rows != [] {
      var g, rest := rows[0], FilterMap(rows[1..], Surviving(shown));
      SurvivingCount(rows[1..], shown, x);
      PrunedRow(g, shown);
      CountFilter(g.Flat(), Spared(shown), x);
      CountConcat(g.Flat(), AllItems(rows[1..]), x);
      if Vanishes(g, shown) {
        assert Count(Pruned(g, shown).Flat(), x) == 0;
      } else {
        assert ([Pruned(g, shown)] + rest)[1..] == rest;
        CountConcat(Pruned(g, shown).Flat(), AllItems(rest), x);
      }
    }
  }

  /** What the top level holds of an item: the old ones and the new one, less the vanished names. */
  function OnTop(groups: seq<Group>, apps: seq<AppRow>, x: string): nat
    requires groups != []
  {
    var names := VanishedNames(groups, Names(Shown(apps)), |groups|);
    var n := Count(groups[0].Flat(), x) + Count(NewItems(groups, Shown(apps)), x) - Count(names, x);
    if n > 0 then n else 0
  }

  /** How often an item is there after a synchronisation. */
  lemma SyncCount(groups: seq<Group>, apps: seq<AppRow>, x: string)
    requires groups != [] && groups[0].FolderId() == 0 && WithinBounds(groups) && apps != []
    ensures Count(AllItems(Synced(groups, apps)), x)
         == if x in Shown(apps) || IsInternal(x) then Count(AllItems(groups[1..]), x) + OnTop(groups, apps, x) else 0
  {
    var shown, r := Names(Shown(apps)), Synced(groups, apps);
    SyncExactly(groups, apps);
    TopCount(groups, apps, x);
    SurvivingCount(groups[1..], shown, x);
    CountConcat(r[0].Flat(), AllItems(r[1..]), x);
  }

  lemma TopCount(groups: seq<Group>, apps: seq<AppRow>, x: string)
    requires groups != []
    ensures Count(TopAfter(groups, apps), x) == if x in Shown(apps) || IsInternal(x) then OnTop(groups, apps, x) else 0
  {
    var shown := Names(Shown(apps));
    var names := VanishedNames(groups, shown, |groups|);
    var top := groups[0].Flat() + NewItems(groups, Shown(apps));
    CountConcat(groups[0].Flat(), NewItems(groups, Shown(apps)), x);
    WithoutEachCount(top, names, x);
    CountFilter(WithoutEach(top, names), Spared(shown), x);
  }

  /** An application is there afterwards exactly when a folder holds it or the top level, with what it
      gains, holds it more often than folders of its name vanish. */
  lemma SyncKeepsIff(groups: seq<Group>, apps: seq<AppRow>, id: string)
    requires groups != [] && groups[0].FolderId() == 0 && WithinBounds(groups) && id in Shown(apps)
    ensures id in AllItems(Synced(groups, apps)) <==> id in AllItems(groups[1..]) || OnTop(groups, apps, id) > 0
  {
    SyncCount(groups, apps, id);
    CountPositive(AllItems(Synced(groups, apps)), id);
    CountPositive(AllItems(groups[1..]), id);
  }

  /** From a duplicate-free arrangement, an application is lost exactly when an emptied folder bears its id
      and no folder holds it: removing the folder's name takes it off the top level. */
  lemma SyncLosesIff(groups: seq<Group>, apps: seq<AppRow>, id: string)
    requires groups != [] && groups[0].FolderId() == 0 && WithinBounds(groups) && DuplicateFree(groups)
    requires id in Shown(apps)
    ensures var shown := Names(Shown(apps));
            id !in AllItems(Synced(groups, apps)) <==>
              && id !in AllItems(groups[1..])
              && exists k :: 1 <= k < |groups| && groups[k].id == id && Vanishes(groups[k], shown)
  {
    var shown := Names(Shown(apps));
    SyncKeepsIff(groups, apps, id);
    VanishedNamesMember(groups, shown, |groups|, id);
    CountPositive(VanishedNames(groups, shown, |groups|), id);
    CountPositive(AllItems(groups[1..]), id);
    DistinctCounts(AllItems(groups), id);
    CountConcat(groups[0].Flat(), AllItems(groups[1..]), id);
    NewItemsCount(groups, Shown(apps), id);
    CountPositive(groups[0].Flat(), id);
    ReportedMissingIff(groups, id);
    CountPositive(AllItems(groups), id);
  }

  /** In particular, every displayable application is in some group, provided no group carries its name. */
  lemma SyncComplete(groups: seq<Group>, apps: seq<AppRow>, id: string)
    requires groups != [] && groups[0].FolderId() == 0 && WithinBounds(groups) && apps != []
    requires id in Shown(apps) && forall k | 0 <= k < |groups| :: groups[k].id != id
    ensures id in AllItems(Synced(groups, apps))
  {
    var shown := Names(Shown(apps));
    SyncKeepsIff(groups, apps, id);
    VanishedNamesMember(groups, shown, |groups|, id);
    CountPositive(VanishedNames(groups, shown, |groups|), id);
    NewItemsCount(groups, Shown(apps), id);
    ReportedMissingIff(groups, id);
    CountPositive(groups[0].Flat(), id);
    AllItemsMember(groups[1..], id);
    if id in AllItems(groups) && id !in groups[0].Flat() {
      var k := FirstRowWith(groups, id);
      assert groups[1..][k - 1] == groups[k];
    }
  }

  /** Nothing but displayable applications and the launcher's own items remains, pages keep their
      bounds and none is empty. */
  lemma SyncSound(groups: seq<Group>, apps: seq<AppRow>)
    requires groups != [] && groups[0].FolderId() == 0 && WithinBounds(groups) && apps != []
    ensures var r := Synced(groups, apps);
            && (forall x | x in AllItems(r) :: x in Shown(apps) || IsInternal(x))
            && WithinBounds(r) && NoEmptyPages(r)
  {
    var shown := Names(Shown(apps));
    SyncExactly(groups, apps);
    forall x | x in AllItems(Synced(groups, apps)) ensures x in Shown(apps) || IsInternal(x) {
      SyncCount(groups, apps, x);
      CountPositive(AllItems(Synced(groups, apps)), x);
    }
    SurvivingRowsFit(groups[1..], Names(Shown(apps)));
    RowsFit(Synced(groups, apps));
  }

  lemma RowsFit(r: seq<Group>)
    requires r != [] && Bounded(r[0].pages, r[0].Max()) && NoEmptyPage(r[0].pages)
    requires WithinBounds(r[1..]) && NoEmptyPages(r[1..])
    ensures WithinBounds(r) && NoEmptyPages(r)
  {
    assert forall k | 1 <= k < |r| :: r[k] == r[1..][k - 1];
  }

  lemma {:induction false} SurvivingRowsFit(rows: seq<Group>, shown: set<string>)
    requires WithinBounds(rows)
    ensures var r := FilterMap(rows, Surviving(shown)); WithinBounds(r) && NoEmptyPages(r)
  {
    if rows != [] {
      SurvivingRowsFit(rows[1..], shown);
      PrunedRow(rows[0], shown);
      var rest := FilterMap(rows[1..], Surviving(shown));
      var kept := [Pruned(rows[0], shown)] + rest;
      assert kept[1..] == rest;
      RowsFit(kept);
      assert FilterMap(rows, Surviving(shown)) == if Vanishes(rows[0], shown) then rest else kept;
    }
  }

  /** Taken for missing although a folder holds it, and no emptied folder takes its name off the top level. */
  ghost predicate Doubled(groups: seq<Group>, apps: seq<AppRow>, id: string) {
    && id in Shown(apps) && id in AllItems(groups) && FindItem(groups, id).group == -1
    && forall k | 1 <= k < |groups| && groups[k].id == id :: !Vanishes(groups[k], Names(Shown(apps)))
  }

  /** From a duplicate-free arrangement, duplicates arise exactly when an application sits in a folder whose
      id reads as -1, so that it is taken for missing, and no emptied folder bears its name. */
  lemma SyncDuplicateFreeIff(groups: seq<Group>, apps: seq<AppRow>)
    requires groups != [] && groups[0].FolderId() == 0 && WithinBounds(groups) && DuplicateFree(groups)
    ensures DuplicateFree(Synced(groups, apps)) <==> forall id :: !Doubled(groups, apps, id)
  {
    if apps != [] {
      var all := AllItems(Synced(groups, apps));
      if Distinct(all) {
        forall id ensures !Doubled(groups, apps, id) {
          DistinctCounts(all, id);
          SyncCountsIff(groups, apps, id);
        }
      }
      if forall id :: !Doubled(groups, apps, id) {
        forall x ensures Count(all, x) <= 1 {
          SyncCountsIff(groups, apps, x);
        }
        CountsDistinct(all);
      }
    }
  }

  lemma SyncCountsIff(groups: seq<Group>, apps: seq<AppRow>, x: string)
    requires groups != [] && groups[0].FolderId() == 0 && WithinBounds(groups) && DuplicateFree(groups) && apps != []
    ensures Count(AllItems(Synced(groups, apps)), x) <= 1 <==> !Doubled(groups, apps, x)
  {
    var names := VanishedNames(groups, Names(Shown(apps)), |groups|);
    SyncCount(groups, apps, x);
    NewItemsCount(groups, Shown(apps), x);
    DistinctCounts(AllItems(groups), x);
    CountConcat(groups[0].Flat(), AllItems(groups[1..]), x);
    VanishedNamesMember(groups, Names(Shown(apps)), |groups|, x);
    CountPositive(names, x);
    CountPositive(AllItems(groups), x);
    CountPositive(groups[0].Flat(), x);
    ReportedMissingIff(groups, x);
  }

  /** In particular, a duplicate-free arrangement stays so when no folder id reads as -1. */
  lemma SyncDuplicateFree(groups: seq<Group>, apps: seq<AppRow>)
    requires groups != [] && groups[0].FolderId() == 0 && WithinBounds(groups) && DuplicateFree(groups)
    requires forall k | 0 <= k < |groups| :: groups[k].FolderId() != -1
    ensures DuplicateFree(Synced(groups, apps))
  {
    forall id ensures !Doubled(groups, apps, id) {
      ReportedMissingIff(groups, id);
    }
    SyncDuplicateFreeIff(groups, apps);
  }

  // ---------- order ----------

  /** Which rows survive, and in which order: row k came from row from[k], rows keep their order, a folder
      goes exactly when nothing it holds is to stay and its folder id is not 0, and a surviving folder holds
      its old items that stay, in their order and each on its page. The top level has its old items and the new
      ones, less one first occurrence of each vanished folder's name, as far as they stay. */
  lemma SyncOrder(groups: seq<Group>, apps: seq<AppRow>) returns (from: seq<nat>)
    requires groups != [] && groups[0].FolderId() == 0 && WithinBounds(groups) && apps != []
    ensures var r, shown := Synced(groups, apps), Names(Shown(apps));
            && |from| == |r| > 0 && from[0] == 0
            && (forall k | 0 <= k < |r| :: from[k] < |groups| && SameGroup(r[k], groups[from[k]]))
            && (forall j, k | 0 <= j < k < |from| :: from[j] < from[k])
            && (forall k | 1 <= k < |r| :: r[k].Flat() == Filter(groups[from[k]].Flat(), Spared(shown)))
            && (forall k | 1 <= k < |r| :: PageByPage(groups[from[k]].pages, r[k].pages, Spared(shown)))
            && r[0].Flat() == TopAfter(groups, apps)
            && (forall j | 0 <= j < |groups| ::
                 j !in from <==> groups[j].FolderId() != 0 && Filter(groups[j].Flat(), Spared(shown)) == [])
  {
    var shown, r := Names(Shown(apps)), Synced(groups, apps);
    SyncExactly(groups, apps);
    from := RowOrigins(groups, r, shown);
  }

  lemma RowOrigins(groups: seq<Group>, r: seq<Group>, shown: set<string>) returns (from: seq<nat>)
    requires WithinBounds(groups) && groups != [] && groups[0].FolderId() == 0
    requires r != [] && SameGroup(r[0], groups[0]) && r[1..] == FilterMap(groups[1..], Surviving(shown))
    ensures |from| == |r| && from[0] == 0
    ensures forall k | 0 <= k < |r| :: from[k] < |groups| && SameGroup(r[k], groups[from[k]])
    ensures forall j, k | 0 <= j < k < |from| :: from[j] < from[k]
    ensures forall k | 1 <= k < |r| :: r[k].Flat() == Filter(groups[from[k]].Flat(), Spared(shown))
    ensures forall k | 1 <= k < |r| :: PageByPage(groups[from[k]].pages, r[k].pages, Spared(shown))
    ensures forall j | 0 <= j < |groups| ::
              j !in from <==> groups[j].FolderId() != 0 && Filter(groups[j].Flat(), Spared(shown)) == []
  {
    from := OriginsBehind(groups, r, Surviving(shown));
    RowsMeaning(groups, r, shown, from);
  }

  lemma RowsMeaning(groups: seq<Group>, r: seq<Group>, shown: set<string>, from: seq<nat>)
    requires WithinBounds(groups) && groups != [] && groups[0].FolderId() == 0 && |from| == |r| > 0 && from[0] == 0
    requires forall k | 1 <= k < |r| :: 1 <= from[k] < |groups| && Surviving(shown)(groups[from[k]]) == Some(r[k])
    requires forall j: nat | 1 <= j < |groups| :: j in from <==> Surviving(shown)(groups[j]).Some?
    ensures forall k | 1 <= k < |r| ::
              SameGroup(r[k], groups[from[k]]) && r[k].Flat() == Filter(groups[from[k]].Flat(), Spared(shown))
    ensures forall k | 1 <= k < |r| :: PageByPage(groups[from[k]].pages, r[k].pages, Spared(shown))
    ensures forall j | 0 <= j < |groups| ::
              j !in from <==> groups[j].FolderId() != 0 && Filter(groups[j].Flat(), Spared(shown)) == []
  {
    forall j | 0 <= j < |groups|
      ensures j !in from <==> groups[j].FolderId() != 0 && Filter(groups[j].Flat(), Spared(shown)) == []
    {
      SurvivingMeaning(groups[j], shown);
      if j == 0 { assert from[0] == 0; }
    }
    forall k | 1 <= k < |r|
      ensures SameGroup(r[k], groups[from[k]]) && r[k].Flat() == Filter(groups[from[k]].Flat(), Spared(shown))
      ensures PageByPage(groups[from[k]].pages, r[k].pages, Spared(shown))
    {
      SurvivingMeaning(groups[from[k]], shown);
    }
  }

  lemma SurvivingMeaning(g: Group, shown: set<string>)
    requires Bounded(g.pages, g.Max())
    ensures match Surviving(shown)(g)
            case None => g.FolderId() != 0 && Filter(g.Flat(), Spared(shown)) == []
            case Some(r) =>
              && (g.FolderId() == 0 || Filter(g.Flat(), Spared(shown)) != [])
              && SameGroup(r, g) && r.Flat() == Filter(g.Flat(), Spared(shown))
              && PageByPage(g.pages, r.pages, Spared(shown))
  {
    NarrowedExactly(g.pages, Spared(shown));
    PrunedRow(g, shown);
  }

  /** The folders that the manager makes have folder id 0 unless there are a hundred of them: emptied ones
      stay, and so does every row. */
  lemma ZeroFoldersStay(groups: seq<Group>, apps: seq<AppRow>)
    requires groups != [] && WithinBounds(groups) && apps != []
    requires forall k | 0 <= k < |groups| :: groups[k].FolderId() == 0
    ensures |Synced(groups, apps)| == |groups|
    ensures forall k | 0 <= k < |groups| :: SameGroup(Synced(groups, apps)[k], groups[k])
  {
    var shown, rows, r := Names(Shown(apps)), groups[1..], Synced(groups, apps);
    SyncExactly(groups, apps);
    forall i | 0 <= i < |rows| ensures Surviving(shown)(rows[i]) == Some(Pruned(rows[i], shown)) {
      assert rows[i] == groups[i + 1];
    }
    FilterMapAll(rows, Surviving(shown));
    forall k | 1 <= k < |groups| ensures SameGroup(r[k], groups[k]) {
      assert r[k] == r[1..][k - 1] && rows[k - 1] == groups[k];
    }
  }

  // ---------- failing arrangements ----------

  lemma TwoRows(a: Group, b: Group)
    ensures AllItems([a, b]) == a.Flat() + b.Flat() && AllItems([a, b][1..]) == b.Flat()
  {
    assert [a, b][1..] == [b] && [b][1..] == [];
    assert AllItems([b]) == b.Flat() + [] == b.Flat();
    assert AllItems([a, b]) == a.Flat() + AllItems([b]);
  }

  lemma OneApp(id: string)
    ensures Shown([AppRow(id, false)]) == [id]
  {
    assert [AppRow(id, false)][1..] == [];
  }

  /** An application in folder "0-1" is taken for missing, and is there twice afterwards. */
  lemma DoubledExample()
    ensures var top, folder := Group("internal/folder/0", "", []), Group("internal/folder/0-1", "", [["a"]]);
            && top.FolderId() == 0 && WithinBounds([top, folder]) && DuplicateFree([top, folder])
            && !DuplicateFree(Synced([top, folder], [AppRow("a", false)]))
  {
    var top, folder := Group("internal/folder/0", "", []), Group("internal/folder/0-1", "", [["a"]]);
    var groups, apps := [top, folder], [AppRow("a", false)];
    MisreadNames();
    assert folder.pages[1..] == [] && folder.Flat() == ["a"];
    TwoRows(top, folder);
    OneApp("a");
    assert AllItems(groups) == ["a"];
    assert FirstRowWith(groups, "a") == 1;
    ReportedMissingIff(groups, "a");
    assert "a" in AllItems(groups) && Doubled(groups, apps, "a");
    SyncDuplicateFreeIff(groups, apps);
  }

  /** An application that bears the name of an emptied folder is in no group afterwards. */
  lemma LostExample()
    ensures var top, folder := Group("internal/folder/0", "", []), Group("internal/folder/01", "", []);
            && top.FolderId() == 0 && WithinBounds([top, folder]) && DuplicateFree([top, folder])
            && folder.id !in AllItems(Synced([top, folder], [AppRow(folder.id, false)]))
  {
    var top, folder := Group("internal/folder/0", "", []), Group("internal/folder/01", "", []);
    var groups, apps := [top, folder], [AppRow(folder.id, false)];
    assert folder.id[17..] == "1" && Unsigned("1") == Some(1);
    TwoRows(top, folder);
    OneApp(folder.id);
    assert Pruned(folder, Names(Shown(apps))).Flat() == [];
    assert groups[1].id == folder.id && Vanishes(groups[1], Names(Shown(apps)));
    SyncLosesIff(groups, apps, folder.id);
  }
}
