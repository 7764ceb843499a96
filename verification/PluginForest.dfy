/** Plugins as a forest of parent links taken from metadata nobody has checked: links may dangle,
    point to themselves or run in circles. */
module PluginForest {
  import opened Lists

  /** The reserved id of the root applet. */
  const ROOT_PLUGIN := "org.deepin.ds.root"

  datatype PluginMetaData = PluginMetaData(pluginId: string, parentId: string)

  /** The installed plugins: only valid metadata, one per id, in the order the map lists them. */
  ghost predicate WellFormed(plugins: seq<PluginMetaData>) {
    && (forall i | 0 <= i < |plugins| :: plugins[i].pluginId != "")
    && (forall i, j | 0 <= i < j < |plugins| :: plugins[i].pluginId != plugins[j].pluginId)
  }

  ghost predicate RootUnclaimed(plugins: seq<PluginMetaData>) {
    forall i | 0 <= i < |plugins| :: plugins[i].pluginId != ROOT_PLUGIN
  }

  function Lookup(plugins: seq<PluginMetaData>, id: string): (r: Option<PluginMetaData>)
    ensures r.Some? ==> r.value in plugins && r.value.pluginId == id
    ensures r.None? ==> forall p | p in plugins :: p.pluginId != id
  {
    if plugins == [] then None
    else if plugins[0].pluginId == id then Some(plugins[0])
    else Lookup(plugins[1..], id)
  }

  lemma LookupMember(plugins: seq<PluginMetaData>, p: PluginMetaData)
    requires WellFormed(plugins) && p in plugins
    ensures Lookup(plugins, p.pluginId) == Some(p)
  {
    var q := Lookup(plugins, p.pluginId).value;
    var i :| 0 <= i < |plugins| && plugins[i] == p;
    var j :| 0 <= j < |plugins| && plugins[j] == q;
  }

  /** What the reserved id or an installed plugin's id leads to; None is invalid metadata. */
  function MetaData(plugins: seq<PluginMetaData>, id: string): Option<PluginMetaData> {
    match Lookup(plugins, id)
    case Some(p) => Some(p)
    case None => if id == ROOT_PLUGIN then Some(PluginMetaData(ROOT_PLUGIN, "")) else None
  }

  function Parent(plugins: seq<PluginMetaData>, id: string): Option<PluginMetaData> {
    match MetaData(plugins, id)
    case None => None
    case Some(p) => MetaData(plugins, p.parentId)
  }

  /** A plugin whose parent link leads nowhere. */
  predicate IsRoot(plugins: seq<PluginMetaData>, id: string) {
    Lookup(plugins, id).Some? && Parent(plugins, id).None?
  }

  function Roots(plugins: seq<PluginMetaData>): PluginMetaData -> bool {
    (p: PluginMetaData) => IsRoot(plugins, p.pluginId)
  }

  function ChildOf(id: string): PluginMetaData -> bool {
    (p: PluginMetaData) => p.parentId == id
  }

  function Children(plugins: seq<PluginMetaData>, id: string): seq<PluginMetaData> {
    if MetaData(plugins, id).None? then []
    else if id == ROOT_PLUGIN then Filter(plugins, Roots(plugins))
    else Filter(plugins, ChildOf(id))
  }

  /** The child plugins are in the order of the map. */
  lemma ChildrenExactly(plugins: seq<PluginMetaData>, id: string) returns (from: seq<nat>)
    requires Lookup(plugins, id).Some? && id != ROOT_PLUGIN
    ensures Picks(from, |plugins|) && |from| == |Children(plugins, id)|
    ensures forall k | 0 <= k < |from| :: Children(plugins, id)[k] == plugins[from[k]]
    ensures forall j: nat | j < |plugins| :: j in from <==> plugins[j].parentId == id
  {
    from := FilterPicks(plugins, ChildOf(id));
  }

  // ---------- ancestry ----------

  /** The plugin reached from id by k parent links, each between installed plugins. */
  function Ancestor(plugins: seq<PluginMetaData>, id: string, k: nat): Option<string>
    decreases k
  {
    match Lookup(plugins, id)
    case None => None
    case Some(p) => if k == 0 then Some(id) else Ancestor(plugins, p.parentId, k - 1)
  }

  ghost predicate DescendsFrom(plugins: seq<PluginMetaData>, id: string, top: string) {
    exists k: nat :: Ancestor(plugins, id, k) == Some(top)
  }

  ghost predicate OnCycle(plugins: seq<PluginMetaData>, id: string) {
    exists k: nat :: k > 0 && Ancestor(plugins, id, k) == Some(id)
  }

  lemma {:induction false} AncestorAdds(plugins: seq<PluginMetaData>, id: string, j: nat, k: nat, mid: string)
    requires Ancestor(plugins, id, j) == Some(mid)
    ensures Ancestor(plugins, id, j + k) == Ancestor(plugins, mid, k)
    decreases j
  {
    if j > 0 { AncestorAdds(plugins, Lookup(plugins, id).value.parentId, j - 1, k, mid); }
  }

  /** Off a cycle, a plugin hangs below an ancestor at one depth only. */
  lemma {:induction false} DepthUnique(plugins: seq<PluginMetaData>, id: string, top: string, j: nat, k: nat)
    requires Ancestor(plugins, id, j) == Some(top) && Ancestor(plugins, id, k) == Some(top)
    requires !OnCycle(plugins, top)
    ensures j == k
  {
    if j < k {
      AncestorAdds(plugins, id, j, k - j, top);
    } else if k < j {
      AncestorAdds(plugins, id, k, j - k, top);
    }
  }

  function Ids(plugins: seq<PluginMetaData>): set<string> {
    set p | p in plugins :: p.pluginId
  }

  lemma {:induction false} IdsCount(plugins: seq<PluginMetaData>)
    ensures |Ids(plugins)| <= |plugins|
  {
    if plugins != [] {
      IdsCount(plugins[1..]);
      assert Ids(plugins) == {plugins[0].pluginId} + Ids(plugins[1..]);
    }
  }

  /** The ids met on the way up, excluding the last. */
  function Path(plugins: seq<PluginMetaData>, id: string, k: nat): set<string>
    requires Ancestor(plugins, id, k).Some?
    decreases k
  {
    if k == 0 then {} else {id} + Path(plugins, Lookup(plugins, id).value.parentId, k - 1)
  }

  lemma {:induction false} PathMembers(plugins: seq<PluginMetaData>, id: string, k: nat, x: string)
    requires Ancestor(plugins, id, k).Some? && x in Path(plugins, id, k)
    ensures x in Ids(plugins) && exists j: nat :: j < k && Ancestor(plugins, id, j) == Some(x)
    decreases k
  {
    var p := Lookup(plugins, id).value;
    if x == id {
      assert Ancestor(plugins, id, 0) == Some(x);
      assert p.pluginId in Ids(plugins);
    } else {
      PathMembers(plugins, p.parentId, k - 1, x);
      var j: nat :| j < k - 1 && Ancestor(plugins, p.parentId, j) == Some(x);
      assert Ancestor(plugins, id, j + 1) == Some(x);
    }
  }

  /** On the way up to a plugin that is on no cycle, no id is met twice. */
  lemma {:induction false} PathCount(plugins: seq<PluginMetaData>, id: string, k: nat, top: string)
    requires Ancestor(plugins, id, k) == Some(top) && !OnCycle(plugins, top)
    ensures |Path(plugins, id, k)| == k && top !in Path(plugins, id, k)
    decreases k
  {
    if k > 0 {
      var up := Lookup(plugins, id).value.parentId;
      PathCount(plugins, up, k - 1, top);
      if id in Path(plugins, up, k - 1) {
        PathMembers(plugins, up, k - 1, id);
        var j: nat :| j < k - 1 && Ancestor(plugins, up, j) == Some(id);
        AncestorAdds(plugins, up, j, k - 1 - j, id);
        DepthUnique(plugins, id, top, k, k - 1 - j);
      }
    }
  }

  /** Below a plugin that is on no cycle, the recursion is less deep than there are plugins. */
  lemma DepthBounded(plugins: seq<PluginMetaData>, id: string, k: nat, top: string)
    requires Ancestor(plugins, id, k) == Some(top) && !OnCycle(plugins, top)
    ensures k < |plugins|
  {
    PathCount(plugins, id, k, top);
    var path := Path(plugins, id, k);
    AncestorEnd(plugins, id, k, top);
    forall x | x in path ensures x in Ids(plugins) {
      PathMembers(plugins, id, k, x);
    }
    assert path + {top} <= Ids(plugins);
    SubsetCount(path + {top}, Ids(plugins));
    IdsCount(plugins);
  }

  lemma {:induction false} AncestorEnd(plugins: seq<PluginMetaData>, id: string, k: nat, top: string)
    requires Ancestor(plugins, id, k) == Some(top)
    ensures top in Ids(plugins)
    decreases k
  {
    var p := Lookup(plugins, id).value;
    if k == 0 { assert p.pluginId in Ids(plugins); } else { AncestorEnd(plugins, p.parentId, k - 1, top); }
  }

  /** On a cycle there is a call path of every depth, so the recursion cannot end: walking down from a
      plugin ends if and only if it is not its own ancestor. */
  lemma WalkEndsIff(plugins: seq<PluginMetaData>, top: string)
    requires Lookup(plugins, top).Some?
    ensures !OnCycle(plugins, top) <==> exists bound: nat :: DepthBelow(plugins, top, bound)
  {
    if OnCycle(plugins, top) {
      forall bound: nat ensures !DepthBelow(plugins, top, bound) {
        DeepPath(plugins, top, bound);
      }
    } else {
      forall id, k: nat | Ancestor(plugins, id, k) == Some(top) ensures k < |plugins| {
        DepthBounded(plugins, id, k, top);
      }
      assert DepthBelow(plugins, top, |plugins|);
    }
  }

  /** Every call path down from top is shorter than the bound. */
  ghost predicate DepthBelow(plugins: seq<PluginMetaData>, top: string, bound: nat) {
    forall id, k: nat | Ancestor(plugins, id, k) == Some(top) :: k < bound
  }

  lemma {:induction false} DeepPath(plugins: seq<PluginMetaData>, top: string, depth: nat)
    requires OnCycle(plugins, top)
    ensures exists k: nat :: k >= depth && Ancestor(plugins, top, k) == Some(top)
    decreases depth
  {
    var n: nat :| n > 0 && Ancestor(plugins, top, n) == Some(top);
    if depth > 0 {
      DeepPath(plugins, top, depth - 1);
      var k: nat :| k >= depth - 1 && Ancestor(plugins, top, k) == Some(top);
      AncestorAdds(plugins, top, k, n, top);
    } else {
      assert Ancestor(plugins, top, n) == Some(top);
    }
  }

  // ---------- roots ----------

  ghost predicate Attached(plugins: seq<PluginMetaData>, id: string) {
    exists k: nat, root :: Ancestor(plugins, id, k) == Some(root) && IsRoot(plugins, root)
  }

  lemma RootHasNoAncestor(plugins: seq<PluginMetaData>, root: string, k: nat)
    requires IsRoot(plugins, root) && k > 0
    ensures Ancestor(plugins, root, k).None?
  {
  }

  lemma RootsOffCycles(plugins: seq<PluginMetaData>, root: string)
    requires IsRoot(plugins, root)
    ensures !OnCycle(plugins, root)
  {
    if OnCycle(plugins, root) {
      var k: nat :| k > 0 && Ancestor(plugins, root, k) == Some(root);
      RootHasNoAncestor(plugins, root, k);
    }
  }

  lemma PositionOf(plugins: seq<PluginMetaData>, p: PluginMetaData) returns (i: nat)
    requires p in plugins
    ensures i < |plugins| && plugins[i] == p
  {
    i :| 0 <= i < |plugins| && plugins[i] == p;
  }

  /** The parent link of an ancestor leads on: it is no link to the reserved root, and off every cycle. */
  ghost predicate LeadsOn(plugins: seq<PluginMetaData>, id: string) {
    Lookup(plugins, id).Some? && Lookup(plugins, id).value.parentId != ROOT_PLUGIN && !OnCycle(plugins, id)
  }

  /** The recursion from the root plugins finds a plugin exactly when neither it nor any of its ancestors
      names the reserved root as its parent or lies on a cycle. */
  lemma AttachedIff(plugins: seq<PluginMetaData>, x: string)
    requires RootUnclaimed(plugins) && Lookup(plugins, x).Some?
    ensures Attached(plugins, x) <==> AllLeadOn(plugins, x)
  {
    if Attached(plugins, x) {
      var m: nat, root :| Ancestor(plugins, x, m) == Some(root) && IsRoot(plugins, root);
      forall k: nat, a | Ancestor(plugins, x, k) == Some(a) ensures LeadsOn(plugins, a) {
        BelowRootLeadsOn(plugins, x, m, root, k, a);
      }
    }
    if AllLeadOn(plugins, x) { LedToRoot(plugins, x); }
  }

  ghost predicate AllLeadOn(plugins: seq<PluginMetaData>, x: string) {
    forall k: nat, a | Ancestor(plugins, x, k) == Some(a) :: LeadsOn(plugins, a)
  }

  /** The chain of ancestors is finite, and its last one is a root plugin. */
  lemma LedToRoot(plugins: seq<PluginMetaData>, x: string)
    requires Lookup(plugins, x).Some? && AllLeadOn(plugins, x)
    ensures Attached(plugins, x)
  {
    var n := |plugins|;
    if top :| Ancestor(plugins, x, n) == Some(top) {
      assert LeadsOn(plugins, top);
      DepthBounded(plugins, x, n, top);
    } else {
      var j := LastAncestor(plugins, x, n);
      var root := Ancestor(plugins, x, j).value;
      assert LeadsOn(plugins, root);
      AncestorAdds(plugins, x, j, 1, root);
      NoParent(plugins, root);
    }
  }

  /** An installed plugin without an installed parent is a root plugin unless it names the reserved root. */
  lemma NoParent(plugins: seq<PluginMetaData>, id: string)
    requires Lookup(plugins, id).Some? && Ancestor(plugins, id, 1).None?
    ensures IsRoot(plugins, id) <==> Lookup(plugins, id).value.parentId != ROOT_PLUGIN
  {
    var p := Lookup(plugins, id).value;
    assert Ancestor(plugins, id, 1) == Ancestor(plugins, p.parentId, 0);
  }

  lemma {:induction false} LastAncestor(plugins: seq<PluginMetaData>, x: string, n: nat) returns (j: nat)
    requires Ancestor(plugins, x, 0).Some? && Ancestor(plugins, x, n).None?
    ensures j < n && Ancestor(plugins, x, j).Some? && Ancestor(plugins, x, j + 1).None?
    decreases n
  {
    if Ancestor(plugins, x, n - 1).Some? { j := n - 1; } else { j := LastAncestor(plugins, x, n - 1); }
  }

  lemma BelowRootLeadsOn(plugins: seq<PluginMetaData>, x: string, m: nat, root: string, k: nat, a: string)
    requires RootUnclaimed(plugins) && Ancestor(plugins, x, m) == Some(root) && IsRoot(plugins, root)
    requires Ancestor(plugins, x, k) == Some(a)
    ensures LeadsOn(plugins, a)
  {
    if k > m {
      var n: nat := k - m;
      AncestorAdds(plugins, x, m, n, root);
      RootHasNoAncestor(plugins, root, n);
    } else {
      var n: nat := m - k;
      AncestorAdds(plugins, x, k, n, a);
      RootsOffCycles(plugins, root);
      if OnCycle(plugins, a) {
        var c: nat :| c > 0 && Ancestor(plugins, a, c) == Some(a);
        AncestorAdds(plugins, a, c, n, a);
        DepthUnique(plugins, a, root, n, c + n);
      }
      AncestorIsInstalled(plugins, x, k, a);
      if n > 0 { ParentInstalled(plugins, a, n); }
    }
  }

  lemma {:induction false} AncestorIsInstalled(plugins: seq<PluginMetaData>, x: string, k: nat, a: string)
    requires Ancestor(plugins, x, k) == Some(a)
    ensures Lookup(plugins, a).Some?
    decreases k
  {
    if k > 0 { AncestorIsInstalled(plugins, Lookup(plugins, x).value.parentId, k - 1, a); }
  }

  lemma ParentInstalled(plugins: seq<PluginMetaData>, a: string, n: nat)
    requires RootUnclaimed(plugins) && n > 0 && Ancestor(plugins, a, n).Some?
    ensures Lookup(plugins, a).value.parentId != ROOT_PLUGIN
  {
    var p := Lookup(plugins, a).value;
    var q := Lookup(plugins, p.parentId).value;
    var i := PositionOf(plugins, q);
  }

  /** In particular, a plugin that names the reserved root as its parent is no root plugin, and no
      recursion from the root plugins finds it. */
  lemma ChildOfReservedRootIsLost(plugins: seq<PluginMetaData>, p: PluginMetaData)
    requires WellFormed(plugins) && RootUnclaimed(plugins) && p in plugins && p.parentId == ROOT_PLUGIN
    ensures !IsRoot(plugins, p.pluginId) && !Attached(plugins, p.pluginId)
    ensures p !in Children(plugins, ROOT_PLUGIN)
  {
    LookupMember(plugins, p);
    AttachedIff(plugins, p.pluginId);
    assert Ancestor(plugins, p.pluginId, 0) == Some(p.pluginId);
    FilterMapMember(plugins, Keep(Roots(plugins)), p);
  }

  /** Both ways to get lost, though installed: a link to the reserved root, and a link to oneself. */
  lemma LostPlugins()
    ensures var plugins := [PluginMetaData("a", ROOT_PLUGIN), PluginMetaData("b", "b")];
            && WellFormed(plugins) && RootUnclaimed(plugins)
            && !Attached(plugins, "a") && !Attached(plugins, "b")
            && !IsRoot(plugins, "a") && !IsRoot(plugins, "b")
  {
    var a, b := PluginMetaData("a", ROOT_PLUGIN), PluginMetaData("b", "b");
    var plugins := [a, b];
    assert plugins[1..] == [b];
    assert Lookup(plugins, "a") == Some(a) && Lookup(plugins, "b") == Some(b);
    assert Ancestor(plugins, "a", 0) == Some("a");
    assert Ancestor(plugins, "b", 0) == Some("b") && Ancestor(plugins, "b", 1) == Some("b");
    assert OnCycle(plugins, "b");
    AttachedIff(plugins, "a");
    AttachedIff(plugins, "b");
  }

  // ---------- descendants ----------

  lemma ChildrenMeaning(plugins: seq<PluginMetaData>, id: string, p: PluginMetaData)
    requires WellFormed(plugins) && RootUnclaimed(plugins) && Lookup(plugins, id).Some?
    ensures p in Children(plugins, id) <==> p in plugins && p.parentId == id
  {
    var q := Lookup(plugins, id).value;
    var i := PositionOf(plugins, q);
    assert id != ROOT_PLUGIN;
    FilterMapMember(plugins, Keep(ChildOf(id)), p);
    if p in plugins && p.parentId == id {
      var j := PositionOf(plugins, p);
      assert Keep(ChildOf(id))(plugins[j]) == Some(p);
    }
  }

  lemma {:induction false} LastLink(plugins: seq<PluginMetaData>, x: string, k: nat, id: string)
    returns (child: PluginMetaData)
    requires k > 0 && Ancestor(plugins, x, k) == Some(id)
    ensures child in plugins && child.parentId == id && Ancestor(plugins, x, k - 1) == Some(child.pluginId)
    decreases k
  {
    var p := Lookup(plugins, x).value;
    if k == 1 {
      child := p;
    } else {
      child := LastLink(plugins, p.parentId, k - 1, id);
    }
  }

  /** Below a plugin are the plugin itself and what is below its children. */
  lemma DescendantsSplit(plugins: seq<PluginMetaData>, id: string, x: string)
    requires WellFormed(plugins) && RootUnclaimed(plugins) && Lookup(plugins, id).Some?
    ensures DescendsFrom(plugins, x, id)
       <==> x == id || exists c :: c in Children(plugins, id) && DescendsFrom(plugins, x, c.pluginId)
  {
    if x == id { assert Ancestor(plugins, x, 0) == Some(id); }
    if DescendsFrom(plugins, x, id) && x != id {
      var k: nat :| Ancestor(plugins, x, k) == Some(id);
      var c := LastLink(plugins, x, k, id);
      ChildrenMeaning(plugins, id, c);
      assert c in Children(plugins, id) && DescendsFrom(plugins, x, c.pluginId);
    }
    if c :| c in Children(plugins, id) && DescendsFrom(plugins, x, c.pluginId) {
      ChildrenMeaning(plugins, id, c);
      LookupMember(plugins, c);
      var k: nat :| Ancestor(plugins, x, k) == Some(c.pluginId);
      AncestorAdds(plugins, x, k, 1, c.pluginId);
      assert Ancestor(plugins, c.pluginId, 1) == Some(id) by { assert Ancestor(plugins, id, 0) == Some(id); }
    }
  }

  lemma ChildDepth(plugins: seq<PluginMetaData>, c: PluginMetaData, id: string, top: string, depth: nat)
    requires WellFormed(plugins) && c in plugins && c.parentId == id && Ancestor(plugins, id, depth) == Some(top)
    ensures Ancestor(plugins, c.pluginId, depth + 1) == Some(top)
  {
    LookupMember(plugins, c);
  }

  /** Different children of a plugin have nothing below them in common. */
  lemma SiblingsApart(plugins: seq<PluginMetaData>, top: string, depth: nat, a: string, b: string, x: string)
    requires !OnCycle(plugins, top)
    requires Ancestor(plugins, a, depth) == Some(top) && Ancestor(plugins, b, depth) == Some(top)
    requires DescendsFrom(plugins, x, a) && DescendsFrom(plugins, x, b)
    ensures a == b
  {
    var j: nat :| Ancestor(plugins, x, j) == Some(a);
    var k: nat :| Ancestor(plugins, x, k) == Some(b);
    AncestorAdds(plugins, x, j, depth, a);
    AncestorAdds(plugins, x, k, depth, b);
    DepthUnique(plugins, x, top, j + depth, k + depth);
  }

  lemma NotBelowOwnChild(plugins: seq<PluginMetaData>, top: string, depth: nat, id: string, child: string)
    requires !OnCycle(plugins, top)
    requires Ancestor(plugins, id, depth) == Some(top) && Ancestor(plugins, child, depth + 1) == Some(top)
    ensures !DescendsFrom(plugins, id, child)
  {
    if DescendsFrom(plugins, id, child) {
      var k: nat :| Ancestor(plugins, id, k) == Some(child);
      AncestorAdds(plugins, id, k, depth + 1, child);
      DepthUnique(plugins, id, top, depth, k + depth + 1);
    }
  }

  lemma RootsApart(plugins: seq<PluginMetaData>, a: string, b: string, x: string)
    requires IsRoot(plugins, a) && IsRoot(plugins, b)
    requires DescendsFrom(plugins, x, a) && DescendsFrom(plugins, x, b)
    ensures a == b
  {
    var j: nat :| Ancestor(plugins, x, j) == Some(a);
    var k: nat :| Ancestor(plugins, x, k) == Some(b);
    if j < k {
      var n: nat := k - j;
      AncestorAdds(plugins, x, j, n, a);
      RootHasNoAncestor(plugins, a, n);
    } else if k < j {
      var n: nat := j - k;
      AncestorAdds(plugins, x, k, n, b);
      RootHasNoAncestor(plugins, b, n);
    }
  }
}
