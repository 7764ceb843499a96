/** The plugin loader's queries, and the recursions over them that list plugins and load their
    translations. */
module PluginLoaders {
  import opened Lists
  import opened PluginForest
  import opened PluginOrder

  class DPluginLoader {
    var plugins: seq<PluginMetaData>   // the values of m_plugins
    var disabled: seq<string>

    ghost predicate Valid()
      reads this
    {
      WellFormed(plugins) && forall i | 0 <= i < |plugins| :: plugins[i].pluginId !in disabled
    }

    constructor (disabledPlugins: seq<string>)
      ensures Valid() && plugins == [] && disabled == disabledPlugins
    {
      plugins, disabled := [], disabledPlugins;
    }

    /** Takes the metadata files of each plugin directory as the iterator finds them. */
    method InitPlugins(found: seq<seq<MetaDataFile>>)
      requires Valid() && plugins == []
      modifies this`plugins
      ensures Valid() && SortedIds(plugins)
      ensures forall p :: p in plugins <==> Kept(Considered(found), disabled, p)
    {
      var i := 0;
      assert found[..0] == [];
      while i < |found|
        invariant 0 <= i <= |found| && Valid() && SortedIds(plugins)
        invariant forall p :: p in plugins <==> Kept(Considered(found[..i]), disabled, p)
      {
        assert found[..i + 1][..i] == found[..i] && found[..i + 1][i] == found[i];
        TakeFiles(found[i], Considered(found[..i]));
        i := i + 1;
      }
      assert found[..i] == found;
    }

    /** Skips a directory seen before, invalid metadata, disabled plugins and ids that are known. */
    method TakeFiles(files: seq<MetaDataFile>, ghost before: seq<PluginMetaData>)
      requires Valid() && SortedIds(plugins) && forall p :: p in plugins <==> Kept(before, disabled, p)
      modifies this`plugins
      ensures Valid() && SortedIds(plugins)
      ensures forall p :: p in plugins <==> Kept(before + OfNewDirs(files), disabled, p)
    {
      var dirs: set<string> := {};
      var i := 0;
      assert files[..0] == [] && before + [] == before;
      while i < |files|
        invariant 0 <= i <= |files| && Valid() && SortedIds(plugins)
        invariant forall d :: d in dirs <==> InDirs(files[..i], d)
        invariant forall p :: p in plugins <==> Kept(before + OfNewDirs(files[..i]), disabled, p)
      {
        var dir, info := files[i].dir, files[i].info;
        NextFile(files, i);
        if dir !in dirs {
          dirs := dirs + {dir};
          Associative(before, OfNewDirs(files[..i]), [info]);
          TakeInfo(info, before + OfNewDirs(files[..i]));
        }
        i := i + 1;
      }
      assert files[..i] == files;
    }

    method TakeInfo(info: PluginMetaData, ghost before: seq<PluginMetaData>)
      requires Valid() && SortedIds(plugins) && forall p :: p in plugins <==> Kept(before, disabled, p)
      modifies this`plugins
      ensures Valid() && SortedIds(plugins)
      ensures forall p :: p in plugins <==> Kept(before + [info], disabled, p)
    {
      KeptNext(before, disabled, info);
      if info.pluginId != "" && info.pluginId !in disabled && Lookup(plugins, info.pluginId).None? {
        InsertPlugin(info);
      }
    }

    /** A map lists its values in the order of their keys. */
    method InsertPlugin(info: PluginMetaData)
      requires Valid() && SortedIds(plugins)
      requires info.pluginId != "" && info.pluginId !in disabled && Lookup(plugins, info.pluginId).None?
      modifies this`plugins
      ensures Valid() && SortedIds(plugins)
      ensures forall p :: p in plugins <==> p == info || p in old(plugins)
    {
      var at := 0;
      while at < |plugins| && Precedes(plugins[at].pluginId, info.pluginId)
        invariant at <= |plugins|
        invariant forall k | 0 <= k < at :: Precedes(plugins[k].pluginId, info.pluginId)
      {
        at := at + 1;
      }
      InsertedSorted(plugins, at, info);
      InsertedMembers(plugins, at, info);
      plugins := InsertAt(plugins, at, info);
    }

    method PluginMetaDataOf(pluginId: string) returns (r: Option<PluginMetaData>)
      ensures r == MetaData(plugins, pluginId)
    {
      var it := Lookup(plugins, pluginId);
      if it.None? {
        if pluginId == ROOT_PLUGIN { return Some(PluginMetaData(ROOT_PLUGIN, "")); }
        return None;
      }
      r := it;
    }

    method ParentPlugin(pluginId: string) returns (r: Option<PluginMetaData>)
      ensures r == Parent(plugins, pluginId)
    {
      var metaData := PluginMetaDataOf(pluginId);
      if metaData.None? { return None; }
      r := PluginMetaDataOf(metaData.value.parentId);
    }

    method RootPlugins() returns (roots: seq<PluginMetaData>)
      requires Valid()
      ensures roots == Filter(plugins, Roots(plugins))
    {
      roots := [];
      var i := 0;
      while i < |plugins|
        invariant 0 <= i <= |plugins|
        invariant roots == Filter(plugins[..i], Roots(plugins))
      {
        var item := plugins[i];
        FilterSnoc(plugins, i, Roots(plugins));
        LookupMember(plugins, item);
        var parent := ParentPlugin(item.pluginId);
        if parent.None? {
          NotSeenBefore(plugins, i, roots, Roots(plugins));
          if !(exists k | 0 <= k < |roots| :: roots[k].pluginId == item.pluginId) {
            roots := roots + [item];
          }
        }
        i := i + 1;
      }
      assert plugins[..i] == plugins;
    }

    method ChildrenPlugin(pluginId: string) returns (children: seq<PluginMetaData>)
      requires Valid()
      ensures children == Children(plugins, pluginId)
    {
      var metaData := PluginMetaDataOf(pluginId);
      if metaData.None? { return []; }
      if pluginId == ROOT_PLUGIN {
        children := RootPlugins();
        return;
      }
      children := [];
      var i := 0;
      while i < |plugins|
        invariant 0 <= i <= |plugins|
        invariant children == Filter(plugins[..i], ChildOf(pluginId))
      {
        FilterSnoc(plugins, i, ChildOf(pluginId));
        if plugins[i].parentId == pluginId {
          children := children + [plugins[i]];
        }
        i := i + 1;
      }
      assert plugins[..i] == plugins;
    }

    /** The recursion of outputPluginTreeStruct and loadTranslation: a plugin, then its children. It
        ends because no call path down from a plugin off every cycle is as long as the plugin list. */
    method Walk(id: string, ghost top: string, ghost depth: nat) returns (visited: seq<string>)
      requires Valid() && RootUnclaimed(plugins)
      requires Ancestor(plugins, id, depth) == Some(top) && !OnCycle(plugins, top)
      ensures Distinct(visited) && InWalkOrder(plugins, visited)
      ensures forall x :: x in visited <==> DescendsFrom(plugins, x, id)
      decreases |plugins| - depth
    {
      DepthBounded(plugins, id, depth, top);
      visited := [id];
      var children := ChildrenPlugin(id);
      assert Lookup(plugins, id).Some?;
      var i := 0;
      while i < |children|
        invariant 0 <= i <= |children|
        invariant Distinct(visited) && InWalkOrder(plugins, visited)
        invariant forall x :: x in visited <==>
                    x == id || exists k :: 0 <= k < i && DescendsFrom(plugins, x, children[k].pluginId)
      {
        var child := children[i];
        assert child in children;
        ChildrenMeaning(plugins, id, child);
        ChildDepth(plugins, child, id, top, depth);
        DepthBounded(plugins, child.pluginId, depth + 1, top);
        var below := Walk(child.pluginId, top, depth + 1);
        NothingTwice(plugins, id, top, depth, children, i, visited, below);
        ChildWalkFollows(plugins, id, children, i, visited, below);
        visited := visited + below;
        i := i + 1;
      }
      forall x ensures x in visited <==> DescendsFrom(plugins, x, id) {
        DescendantsSplit(plugins, id, x);
        ByChild(plugins, children, x);
      }
    }

    /** What --list prints: from every root plugin down. */
    method WalkForest() returns (visited: seq<string>)
      requires Valid() && RootUnclaimed(plugins)
      ensures Distinct(visited) && InWalkOrder(plugins, visited)
      ensures forall x :: x in visited <==> Attached(plugins, x)
    {
      visited := [];
      var roots := RootPlugins();
      var i := 0;
      while i < |roots|
        invariant 0 <= i <= |roots|
        invariant Distinct(visited) && InWalkOrder(plugins, visited)
        invariant forall x :: x in visited <==> exists k :: 0 <= k < i && DescendsFrom(plugins, x, roots[k].pluginId)
      {
        var root := roots[i];
        assert root in roots;
        FilterMapMember(plugins, Keep(Roots(plugins)), root);
        RootsOffCycles(plugins, root.pluginId);
        assert Ancestor(plugins, root.pluginId, 0) == Some(root.pluginId);
        var below := Walk(root.pluginId, root.pluginId, 0);
        NoRootTwice(plugins, roots, i, visited, below);
        RootWalkFollows(plugins, roots, i, visited, below);
        visited := visited + below;
        i := i + 1;
      }
      forall x ensures x in visited <==> Attached(plugins, x) {
        ByRoot(plugins, roots, x);
      }
    }
  }

  // ---------- the plugin map ----------

  /** QString's order, by code units. */
  predicate Precedes(a: string, b: string) {
    b != "" && (a == "" || a[0] < b[0] || (a[0] == b[0] && Precedes(a[1..], b[1..])))
  }

  lemma {:induction false} PrecedesTotal(a: string, b: string)
    ensures a == b || Precedes(a, b) || Precedes(b, a)
  {
    if a != "" && b != "" && a[0] == b[0] {
      PrecedesTotal(a[1..], b[1..]);
      assert a == [a[0]] + a[1..] && b == [b[0]] + b[1..];
    }
  }

  lemma {:induction false} PrecedesTransitive(a: string, b: string, c: string)
    requires Precedes(a, b) && Precedes(b, c)
    ensures Precedes(a, c)
  {
    if a != "" && a[0] == b[0] == c[0] { PrecedesTransitive(a[1..], b[1..], c[1..]); }
  }

  ghost predicate SortedIds(plugins: seq<PluginMetaData>) {
    forall i, j | 0 <= i < j < |plugins| :: Precedes(plugins[i].pluginId, plugins[j].pluginId)
  }

  lemma InsertedSorted(s: seq<PluginMetaData>, at: nat, info: PluginMetaData)
    requires at <= |s| && SortedIds(s) && WellFormed(s)
    requires info.pluginId != "" && forall p | p in s :: p.pluginId != info.pluginId
    requires forall k | 0 <= k < at :: Precedes(s[k].pluginId, info.pluginId)
    requires at < |s| ==> !Precedes(s[at].pluginId, info.pluginId)
    ensures SortedIds(InsertAt(s, at, info)) && WellFormed(InsertAt(s, at, info))
  {
    forall k | at <= k < |s| ensures Precedes(info.pluginId, s[k].pluginId) {
      PrecedesTotal(s[at].pluginId, info.pluginId);
      if at < k { PrecedesTransitive(info.pluginId, s[at].pluginId, s[k].pluginId); }
    }
    SortedAround(s, at, info);
    InsertedWellFormed(s, at, info);
  }

  lemma SortedAround(s: seq<PluginMetaData>, at: nat, info: PluginMetaData)
    requires at <= |s| && SortedIds(s)
    requires forall k | 0 <= k < at :: Precedes(s[k].pluginId, info.pluginId)
    requires forall k | at <= k < |s| :: Precedes(info.pluginId, s[k].pluginId)
    ensures SortedIds(InsertAt(s, at, info))
  {
    var r := InsertAt(s, at, info);
    assert forall k | 0 <= k < |r| :: r[k] == if k < at then s[k] else if k == at then info else s[k - 1];
  }

  lemma InsertedWellFormed(s: seq<PluginMetaData>, at: nat, info: PluginMetaData)
    requires at <= |s| && WellFormed(s) && info.pluginId != "" && forall p | p in s :: p.pluginId != info.pluginId
    ensures WellFormed(InsertAt(s, at, info))
  {
    var r := InsertAt(s, at, info);
    assert forall k | 0 <= k < |s| :: s[k].pluginId != info.pluginId;
    assert forall k | 0 <= k < |r| :: r[k] == if k < at then s[k] else if k == at then info else s[k - 1];
  }

  lemma InsertedMembers(s: seq<PluginMetaData>, at: nat, info: PluginMetaData)
    requires at <= |s|
    ensures forall p :: p in InsertAt(s, at, info) <==> p == info || p in s
  {
    assert s == s[..at] + s[at..];
  }

  datatype MetaDataFile = MetaDataFile(dir: string, info: PluginMetaData)

  ghost predicate InDirs(files: seq<MetaDataFile>, dir: string) {
    exists i :: 0 <= i < |files| && files[i].dir == dir
  }

  /** The metadata of the files that are the first of their directory. */
  ghost function OfNewDirs(files: seq<MetaDataFile>): seq<PluginMetaData> {
    if files == [] then []
    else
      var n := |files| - 1;
      var rest := OfNewDirs(files[..n]);
      if InDirs(files[..n], files[n].dir) then rest else rest + [files[n].info]
  }

  ghost predicate NewDir(files: seq<MetaDataFile>, j: nat)
    requires j < |files|
  {
    forall i | 0 <= i < j :: files[i].dir != files[j].dir
  }

  /** Those are, in order, the files with no earlier file in their directory. */
  lemma {:induction false} OfNewDirsExactly(files: seq<MetaDataFile>) returns (from: seq<nat>)
    ensures TakenFrom(files, OfNewDirs(files), from)
  {
    if files == [] {
      from := [];
    } else {
      var n := |files| - 1;
      from := OfNewDirsExactly(files[..n]);
      SameDirsBefore(files, n);
      if NewDir(files, n) {
        NewFile(files, n, OfNewDirs(files[..n]), from);
        from := from + [n];
      } else {
        KnownFile(files, n, OfNewDirs(files[..n]), from);
      }
    }
  }

  ghost predicate TakenFrom(files: seq<MetaDataFile>, infos: seq<PluginMetaData>, from: seq<nat>) {
    && Picks(from, |files|) && |from| == |infos|
    && (forall k | 0 <= k < |from| :: infos[k] == files[from[k]].info)
    && forall j: nat | j < |files| :: j in from <==> NewDir(files, j)
  }

  lemma NewFile(files: seq<MetaDataFile>, n: nat, infos: seq<PluginMetaData>, from: seq<nat>)
    requires |files| == n + 1 && TakenFrom(files[..n], infos, from) && NewDir(files, n)
    ensures TakenFrom(files, infos + [files[n].info], from + [n])
  {
    KnownBefore(files, n, infos, from);
  }

  lemma KnownFile(files: seq<MetaDataFile>, n: nat, infos: seq<PluginMetaData>, from: seq<nat>)
    requires |files| == n + 1 && TakenFrom(files[..n], infos, from) && !NewDir(files, n)
    ensures TakenFrom(files, infos, from)
  {
    KnownBefore(files, n, infos, from);
  }

  lemma KnownBefore(files: seq<MetaDataFile>, n: nat, infos: seq<PluginMetaData>, from: seq<nat>)
    requires |files| == n + 1 && TakenFrom(files[..n], infos, from)
    ensures forall k | 0 <= k < |from| :: from[k] < n && infos[k] == files[from[k]].info
    ensures n !in from && forall j: nat | j < n :: j in from <==> NewDir(files, j)
  {
    SameDirsBefore(files, n);
    forall k | 0 <= k < |from| ensures infos[k] == files[from[k]].info {
      assert files[..n][from[k]] == files[from[k]];
    }
  }

  lemma SameDirsBefore(files: seq<MetaDataFile>, n: nat)
    requires n < |files|
    ensures forall j: nat | j < n :: NewDir(files[..n], j) <==> NewDir(files, j)
    ensures InDirs(files[..n], files[n].dir) <==> !NewDir(files, n)
  {
    assert forall j | 0 <= j < n :: files[..n][j] == files[j];
  }

  /** Directory paths are scanned one after the other, each with its own memory of directories. */
  lemma {:induction false} ConsideredExactly(a: seq<seq<MetaDataFile>>, b: seq<seq<MetaDataFile>>)
    ensures Considered(a + b) == Considered(a) + Considered(b)
    ensures |a| == 1 ==> Considered(a) == OfNewDirs(a[0])
  {
    if |a| == 1 {
      assert a[..0] == [];
      assert [] + OfNewDirs(a[0]) == OfNewDirs(a[0]);
    }
    if b == [] {
      assert a + b == a && Considered(a) + [] == Considered(a);
    } else {
      var n := |b| - 1;
      assert (a + b)[..|a + b| - 1] == a + b[..n] && (a + b)[|a + b| - 1] == b[n];
      ConsideredExactly(a, b[..n]);
      Associative(Considered(a), Considered(b[..n]), OfNewDirs(b[n]));
    }
  }

  ghost function Considered(found: seq<seq<MetaDataFile>>): seq<PluginMetaData> {
    if found == [] then [] else Considered(found[..|found| - 1]) + OfNewDirs(found[|found| - 1])
  }

  lemma NextFile(files: seq<MetaDataFile>, i: nat)
    requires i < |files|
    ensures var rest := OfNewDirs(files[..i]);
            OfNewDirs(files[..i + 1]) == if InDirs(files[..i], files[i].dir) then rest else rest + [files[i].info]
    ensures forall d :: InDirs(files[..i + 1], d) <==> InDirs(files[..i], d) || d == files[i].dir
  {
    var more := files[..i + 1];
    assert more[..i] == files[..i] && more[i] == files[i];
    forall d | InDirs(files[..i], d) ensures InDirs(more, d) {
      var k :| 0 <= k < i && files[..i][k].dir == d;
      assert more[k].dir == d;
    }
    assert more[i].dir == files[i].dir;
  }

  /** Of the metadata considered, p is the first with its id, valid and not disabled. */
  ghost predicate Kept(considered: seq<PluginMetaData>, disabled: seq<string>, p: PluginMetaData) {
    && p.pluginId != "" && p.pluginId !in disabled
    && exists i :: 0 <= i < |considered| && considered[i] == p && NewId(considered, i)
  }

  ghost predicate NewId(considered: seq<PluginMetaData>, i: nat)
    requires i < |considered|
  {
    forall j | 0 <= j < i :: considered[j].pluginId != considered[i].pluginId
  }

  /** The next one is kept exactly when it is valid, not disabled, and no kept one has its id. */
  lemma KeptNext(before: seq<PluginMetaData>, disabled: seq<string>, info: PluginMetaData)
    ensures var taken := info.pluginId != "" && info.pluginId !in disabled
                         && !exists p :: Kept(before, disabled, p) && p.pluginId == info.pluginId;
            forall p :: Kept(before + [info], disabled, p) <==> Kept(before, disabled, p) || (taken && p == info)
  {
    var more, n := before + [info], |before|;
    assert forall j | 0 <= j < n :: more[j] == before[j];
    forall p
      ensures Kept(more, disabled, p) <==>
                || Kept(before, disabled, p)
                || (p == info && p.pluginId != "" && p.pluginId !in disabled && NewId(more, n))
    {
      if i :| 0 <= i < n + 1 && more[i] == p && NewId(more, i) {
        assert i == n || (before[i] == p && NewId(before, i));
      }
      if i :| 0 <= i < n && before[i] == p && NewId(before, i) {
        assert more[i] == p && NewId(more, i);
      }
    }
    if info.pluginId != "" && info.pluginId !in disabled {
      if j :| 0 <= j < n && before[j].pluginId == info.pluginId {
        var k := FirstWith(before, info.pluginId, j);
        assert Kept(before, disabled, before[k]);
      }
    }
  }

  lemma {:induction false} FirstWith(considered: seq<PluginMetaData>, id: string, j: nat) returns (k: nat)
    requires j < |considered| && considered[j].pluginId == id
    ensures k <= j && considered[k].pluginId == id && NewId(considered, k)
  {
    if i :| 0 <= i < j && considered[i].pluginId == id {
      k := FirstWith(considered, id, i);
    } else {
      k := j;
    }
  }

  lemma NotSeenBefore(plugins: seq<PluginMetaData>, i: nat, roots: seq<PluginMetaData>, p: PluginMetaData -> bool)
    requires WellFormed(plugins) && i < |plugins| && roots == Filter(plugins[..i], p)
    ensures forall k | 0 <= k < |roots| :: roots[k].pluginId != plugins[i].pluginId
  {
    forall k | 0 <= k < |roots| ensures roots[k].pluginId != plugins[i].pluginId {
      FilterMapMember(plugins[..i], Keep(p), roots[k]);
      var j :| 0 <= j < i && Keep(p)(plugins[..i][j]) == Some(roots[k]);
      assert plugins[j] == roots[k];
    }
  }

  lemma FilteredDistinctIds(plugins: seq<PluginMetaData>, p: PluginMetaData -> bool, i: nat, j: nat)
    requires WellFormed(plugins) && i < j < |Filter(plugins, p)|
    ensures Filter(plugins, p)[i].pluginId != Filter(plugins, p)[j].pluginId
  {
    var from := FilterMapOrigin(plugins, Keep(p));
    var r := Filter(plugins, p);
    assert Keep(p)(plugins[from[i]]) == Some(r[i]) && Keep(p)(plugins[from[j]]) == Some(r[j]);
  }

  /** What a child's walk visits was not visited before. */
  lemma NothingTwice(plugins: seq<PluginMetaData>, id: string, top: string, depth: nat,
                     children: seq<PluginMetaData>, i: nat, visited: seq<string>, below: seq<string>)
    requires WellFormed(plugins) && RootUnclaimed(plugins)
    requires Ancestor(plugins, id, depth) == Some(top) && !OnCycle(plugins, top)
    requires children == Children(plugins, id) && i < |children|
    requires Distinct(visited) && Distinct(below)
    requires forall x :: x in visited <==>
               x == id || exists k :: 0 <= k < i && DescendsFrom(plugins, x, children[k].pluginId)
    requires forall x :: x in below <==> DescendsFrom(plugins, x, children[i].pluginId)
    ensures Distinct(visited + below)
  {
    AtDepth(plugins, id, top, depth, children, i);
    forall x | x in visited ensures x !in below {
      if x == id {
        NotBelowOwnChild(plugins, top, depth, id, children[i].pluginId);
      } else {
        var k :| 0 <= k < i && DescendsFrom(plugins, x, children[k].pluginId);
        AtDepth(plugins, id, top, depth, children, k);
        FilteredDistinctIds(plugins, ChildOf(id), k, i);
        if x in below {
          SiblingsApart(plugins, top, depth + 1, children[k].pluginId, children[i].pluginId, x);
        }
      }
    }
    ConcatDistinct(visited, below);
  }

  lemma AtDepth(plugins: seq<PluginMetaData>, id: string, top: string, depth: nat, children: seq<PluginMetaData>,
                i: nat)
    requires WellFormed(plugins) && RootUnclaimed(plugins) && Ancestor(plugins, id, depth) == Some(top)
    requires children == Children(plugins, id) && i < |children|
    ensures Ancestor(plugins, children[i].pluginId, depth + 1) == Some(top)
    ensures children == Filter(plugins, ChildOf(id))
  {
    assert Lookup(plugins, id).Some?;
    assert children[i] in children;
    ChildrenMeaning(plugins, id, children[i]);
    ChildDepth(plugins, children[i], id, top, depth);
    var j := PositionOf(plugins, Lookup(plugins, id).value);
  }

  lemma NoRootTwice(plugins: seq<PluginMetaData>, roots: seq<PluginMetaData>, i: nat, visited: seq<string>,
                    below: seq<string>)
    requires WellFormed(plugins) && roots == Filter(plugins, Roots(plugins)) && i < |roots|
    requires Distinct(visited) && Distinct(below)
    requires forall x :: x in visited <==> exists k :: 0 <= k < i && DescendsFrom(plugins, x, roots[k].pluginId)
    requires forall x :: x in below <==> DescendsFrom(plugins, x, roots[i].pluginId)
    ensures Distinct(visited + below)
  {
    forall x | x in visited ensures x !in below {
      var k :| 0 <= k < i && DescendsFrom(plugins, x, roots[k].pluginId);
      FilteredDistinctIds(plugins, Roots(plugins), k, i);
      FilterMapMember(plugins, Keep(Roots(plugins)), roots[k]);
      FilterMapMember(plugins, Keep(Roots(plugins)), roots[i]);
      assert roots[k] in roots && roots[i] in roots;
      if x in below {
        RootsApart(plugins, roots[k].pluginId, roots[i].pluginId, x);
      }
    }
    ConcatDistinct(visited, below);
  }

  /** A child's walk comes behind the plugin and the walks of its earlier children. */
  lemma ChildWalkFollows(plugins: seq<PluginMetaData>, id: string, children: seq<PluginMetaData>, i: nat,
                         visited: seq<string>, below: seq<string>)
    requires WellFormed(plugins) && RootUnclaimed(plugins) && Lookup(plugins, id).Some?
    requires children == Children(plugins, id) && i < |children| && Distinct(visited + below)
    requires InWalkOrder(plugins, visited) && InWalkOrder(plugins, below)
    requires forall x :: x in visited <==>
               x == id || exists k :: 0 <= k < i && DescendsFrom(plugins, x, children[k].pluginId)
    requires forall x :: x in below <==> DescendsFrom(plugins, x, children[i].pluginId)
    ensures InWalkOrder(plugins, visited + below)
  {
    var at := PositionOf(plugins, Lookup(plugins, id).value);
    var from := ChildrenExactly(plugins, id);
    forall u, v | u in visited && v in below ensures VisitedBefore(plugins, u, v) {
      ApartInConcat(visited, below, u, v);
      if u == id {
        assert children[i] in children;
        ChildrenMeaning(plugins, id, children[i]);
        LookupMember(plugins, children[i]);
        assert Ancestor(plugins, children[i].pluginId, 1) == Ancestor(plugins, id, 0) == Some(id);
        DescendsTransitive(plugins, v, children[i].pluginId, id);
      } else {
        var k :| 0 <= k < i && DescendsFrom(plugins, u, children[k].pluginId);
        assert from[k] in from && from[i] in from;
        assert SiblingRows(plugins, from[k], from[i]);
      }
    }
    WalkOrderConcat(plugins, visited, below);
  }

  lemma RootWalkFollows(plugins: seq<PluginMetaData>, roots: seq<PluginMetaData>, i: nat,
                        visited: seq<string>, below: seq<string>)
    requires roots == Filter(plugins, Roots(plugins)) && i < |roots| && Distinct(visited + below)
    requires InWalkOrder(plugins, visited) && InWalkOrder(plugins, below)
    requires forall x :: x in visited <==> exists k :: 0 <= k < i && DescendsFrom(plugins, x, roots[k].pluginId)
    requires forall x :: x in below <==> DescendsFrom(plugins, x, roots[i].pluginId)
    ensures InWalkOrder(plugins, visited + below)
  {
    var from := FilterPicks(plugins, Roots(plugins));
    forall u, v | u in visited && v in below ensures VisitedBefore(plugins, u, v) {
      ApartInConcat(visited, below, u, v);
      var k :| 0 <= k < i && DescendsFrom(plugins, u, roots[k].pluginId);
      assert SiblingRows(plugins, from[k], from[i]);
    }
    WalkOrderConcat(plugins, visited, below);
  }

  lemma ApartInConcat(a: seq<string>, b: seq<string>, u: string, v: string)
    requires Distinct(a + b) && u in a && v in b
    ensures u != v
  {
    var i, j := IndexOf(a, u), IndexOf(b, v);
    assert (a + b)[i] == u && (a + b)[|a| + j] == v;
  }

  lemma ByChild(plugins: seq<PluginMetaData>, children: seq<PluginMetaData>, x: string)
    ensures (exists c :: c in children && DescendsFrom(plugins, x, c.pluginId))
       <==> exists k :: 0 <= k < |children| && DescendsFrom(plugins, x, children[k].pluginId)
  {
    if c :| c in children && DescendsFrom(plugins, x, c.pluginId) {
      var k :| 0 <= k < |children| && children[k] == c;
    }
    if k :| 0 <= k < |children| && DescendsFrom(plugins, x, children[k].pluginId) {
      assert children[k] in children;
    }
  }

  lemma ByRoot(plugins: seq<PluginMetaData>, roots: seq<PluginMetaData>, x: string)
    requires WellFormed(plugins) && roots == Filter(plugins, Roots(plugins))
    ensures Attached(plugins, x) <==> exists k :: 0 <= k < |roots| && DescendsFrom(plugins, x, roots[k].pluginId)
  {
    if Attached(plugins, x) {
      var n: nat, root :| Ancestor(plugins, x, n) == Some(root) && IsRoot(plugins, root);
      var p := Lookup(plugins, root).value;
      var j := PositionOf(plugins, p);
      assert Keep(Roots(plugins))(plugins[j]) == Some(p);
      FilterMapMember(plugins, Keep(Roots(plugins)), p);
      var k :| 0 <= k < |roots| && roots[k] == p;
      assert DescendsFrom(plugins, x, roots[k].pluginId);
    }
    if k :| 0 <= k < |roots| && DescendsFrom(plugins, x, roots[k].pluginId) {
      FilterMapMember(plugins, Keep(Roots(plugins)), roots[k]);
      assert roots[k] in roots;
      var n: nat :| Ancestor(plugins, x, n) == Some(roots[k].pluginId);
    }
  }
}
