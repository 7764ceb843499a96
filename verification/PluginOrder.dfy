/** The order in which a walk over the plugin forest visits: a plugin before everything below it, and siblings with
    all below them in the order of the map. */
module PluginOrder {
  import opened Lists
  import opened PluginForest

  /** Two rows of the map, the first one earlier: both root plugins, or with the same parent link. */
  ghost predicate SiblingRows(plugins: seq<PluginMetaData>, i: nat, j: nat) {
    && i < j < |plugins|
    && ((IsRoot(plugins, plugins[i].pluginId) && IsRoot(plugins, plugins[j].pluginId))
        || plugins[i].parentId == plugins[j].parentId)
  }

  ghost predicate EarlierSubtree(plugins: seq<PluginMetaData>, u: string, v: string) {
    exists i: nat, j: nat ::
      SiblingRows(plugins, i, j)
      && DescendsFrom(plugins, u, plugins[i].pluginId) && DescendsFrom(plugins, v, plugins[j].pluginId)
  }

  ghost predicate VisitedBefore(plugins: seq<PluginMetaData>, u: string, v: string) {
    u != v && (DescendsFrom(plugins, v, u) || EarlierSubtree(plugins, u, v))
  }

  ghost predicate InWalkOrder(plugins: seq<PluginMetaData>, visited: seq<string>) {
    forall i, j | 0 <= i < j < |visited| :: VisitedBefore(plugins, visited[i], visited[j])
  }

  lemma WalkOrderConcat(plugins: seq<PluginMetaData>, a: seq<string>, b: seq<string>)
    requires InWalkOrder(plugins, a) && InWalkOrder(plugins, b)
    requires forall u, v | u in a && v in b :: VisitedBefore(plugins, u, v)
    ensures InWalkOrder(plugins, a + b)
  {
  }

  // ---------- no two plugins of the forest come before each other ----------

  lemma DescendsTransitive(plugins: seq<PluginMetaData>, x: string, y: string, z: string)
    requires DescendsFrom(plugins, x, y) && DescendsFrom(plugins, y, z)
    ensures DescendsFrom(plugins, x, z)
  {
    var j: nat :| Ancestor(plugins, x, j) == Some(y);
    var k: nat :| Ancestor(plugins, y, k) == Some(z);
    AncestorAdds(plugins, x, j, k, y);
  }

  /** Of two plugins above a third, one is above the other. */
  lemma AboveBoth(plugins: seq<PluginMetaData>, x: string, a: string, b: string)
    requires DescendsFrom(plugins, x, a) && DescendsFrom(plugins, x, b)
    ensures DescendsFrom(plugins, a, b) || DescendsFrom(plugins, b, a)
  {
    var j: nat :| Ancestor(plugins, x, j) == Some(a);
    var k: nat :| Ancestor(plugins, x, k) == Some(b);
    if j <= k {
      AncestorAdds(plugins, x, j, k - j, a);
    } else {
      AncestorAdds(plugins, x, k, j - k, b);
    }
  }

  lemma AttachedUp(plugins: seq<PluginMetaData>, x: string, a: string)
    requires Attached(plugins, x) && DescendsFrom(plugins, x, a)
    ensures Attached(plugins, a)
  {
    var k: nat, root :| Ancestor(plugins, x, k) == Some(root) && IsRoot(plugins, root);
    assert DescendsFrom(plugins, x, root);
    AboveBoth(plugins, x, a, root);
    if DescendsFrom(plugins, a, root) {
      var j: nat :| Ancestor(plugins, a, j) == Some(root);
    } else {
      var j: nat :| Ancestor(plugins, root, j) == Some(a);
      if j > 0 { RootHasNoAncestor(plugins, root, j); }
    }
  }

  lemma AttachedOffCycle(plugins: seq<PluginMetaData>, x: string)
    requires Attached(plugins, x)
    ensures !OnCycle(plugins, x)
  {
    var k: nat, root :| Ancestor(plugins, x, k) == Some(root) && IsRoot(plugins, root);
    RootsOffCycles(plugins, root);
    if OnCycle(plugins, x) {
      var n: nat :| n > 0 && Ancestor(plugins, x, n) == Some(x);
      AncestorAdds(plugins, x, n, k, x);
      DepthUnique(plugins, x, root, k, n + k);
    }
  }

  /** What hangs strictly below b hangs below it through its own parent link, which siblings share. */
  lemma SiblingBelowToo(plugins: seq<PluginMetaData>, i: nat, j: nat, b: string)
    requires WellFormed(plugins) && (SiblingRows(plugins, i, j) || SiblingRows(plugins, j, i))
    requires DescendsFrom(plugins, plugins[i].pluginId, b) && plugins[i].pluginId != b
    ensures DescendsFrom(plugins, plugins[j].pluginId, b)
  {
    var p, q := plugins[i], plugins[j];
    LookupMember(plugins, p);
    LookupMember(plugins, q);
    var k: nat :| Ancestor(plugins, p.pluginId, k) == Some(b);
    assert k > 0;
    if IsRoot(plugins, p.pluginId) { RootHasNoAncestor(plugins, p.pluginId, k); }
    assert Ancestor(plugins, q.pluginId, k) == Ancestor(plugins, q.parentId, k - 1) == Some(b);
  }

  lemma SiblingsShareNothing(plugins: seq<PluginMetaData>, i: nat, j: nat, x: string)
    requires WellFormed(plugins) && SiblingRows(plugins, i, j) && Attached(plugins, x)
    ensures !(DescendsFrom(plugins, x, plugins[i].pluginId) && DescendsFrom(plugins, x, plugins[j].pluginId))
  {
    var a, b := plugins[i].pluginId, plugins[j].pluginId;
    if DescendsFrom(plugins, x, a) && DescendsFrom(plugins, x, b) {
      AboveBoth(plugins, x, a, b);
      AttachedUp(plugins, x, a);
      AttachedUp(plugins, x, b);
      if DescendsFrom(plugins, a, b) { OwnSibling(plugins, i, j); } else { OwnSibling(plugins, j, i); }
    }
  }

  lemma OwnSibling(plugins: seq<PluginMetaData>, i: nat, j: nat)
    requires WellFormed(plugins) && (SiblingRows(plugins, i, j) || SiblingRows(plugins, j, i))
    requires Attached(plugins, plugins[j].pluginId)
    ensures !DescendsFrom(plugins, plugins[i].pluginId, plugins[j].pluginId)
  {
    var p, q := plugins[i], plugins[j];
    if DescendsFrom(plugins, p.pluginId, q.pluginId) {
      LookupMember(plugins, p);
      LookupMember(plugins, q);
      var k: nat :| Ancestor(plugins, p.pluginId, k) == Some(q.pluginId);
      assert k > 0;
      if IsRoot(plugins, p.pluginId) { RootHasNoAncestor(plugins, p.pluginId, k); }
      assert Ancestor(plugins, q.pluginId, k) == Ancestor(plugins, q.parentId, k - 1) == Some(q.pluginId);
      AttachedOffCycle(plugins, q.pluginId);
    }
  }

  lemma VisitedOneWay(plugins: seq<PluginMetaData>, u: string, v: string)
    requires WellFormed(plugins) && Attached(plugins, u) && Attached(plugins, v) && VisitedBefore(plugins, u, v)
    ensures !VisitedBefore(plugins, v, u)
  {
    if DescendsFrom(plugins, v, u) {
      BelowIsNotBefore(plugins, u, v);
    } else {
      if DescendsFrom(plugins, u, v) { BelowIsNotBefore(plugins, v, u); }
      if EarlierSubtree(plugins, v, u) { NotBothEarlier(plugins, u, v); }
    }
  }

  lemma BelowIsNotBefore(plugins: seq<PluginMetaData>, u: string, v: string)
    requires WellFormed(plugins) && Attached(plugins, u) && Attached(plugins, v)
    requires DescendsFrom(plugins, v, u) && u != v
    ensures !DescendsFrom(plugins, u, v) && !EarlierSubtree(plugins, v, u) && !EarlierSubtree(plugins, u, v)
  {
    if DescendsFrom(plugins, u, v) {
      var j: nat :| Ancestor(plugins, v, j) == Some(u);
      var k: nat :| Ancestor(plugins, u, k) == Some(v);
      AncestorAdds(plugins, v, j, k, u);
      AttachedOffCycle(plugins, v);
    }
    forall i: nat, j: nat | SiblingRows(plugins, i, j)
      ensures !(DescendsFrom(plugins, v, plugins[i].pluginId) && DescendsFrom(plugins, u, plugins[j].pluginId))
      ensures !(DescendsFrom(plugins, u, plugins[i].pluginId) && DescendsFrom(plugins, v, plugins[j].pluginId))
    {
      SiblingsShareNothing(plugins, i, j, v);
      if DescendsFrom(plugins, u, plugins[j].pluginId) { DescendsTransitive(plugins, v, u, plugins[j].pluginId); }
      if DescendsFrom(plugins, u, plugins[i].pluginId) { DescendsTransitive(plugins, v, u, plugins[i].pluginId); }
    }
  }

  lemma NotBothEarlier(plugins: seq<PluginMetaData>, u: string, v: string)
    requires WellFormed(plugins) && Attached(plugins, u) && Attached(plugins, v)
    ensures !(EarlierSubtree(plugins, u, v) && EarlierSubtree(plugins, v, u))
  {
    if EarlierSubtree(plugins, u, v) && EarlierSubtree(plugins, v, u) {
      var i: nat, j: nat :| SiblingRows(plugins, i, j)
        && DescendsFrom(plugins, u, plugins[i].pluginId) && DescendsFrom(plugins, v, plugins[j].pluginId);
      var c: nat, d: nat :| SiblingRows(plugins, c, d)
        && DescendsFrom(plugins, v, plugins[c].pluginId) && DescendsFrom(plugins, u, plugins[d].pluginId);
      CrossedSiblings(plugins, u, v, i, j, c, d);
    }
  }

  lemma CrossedSiblings(plugins: seq<PluginMetaData>, u: string, v: string, i: nat, j: nat, c: nat, d: nat)
    requires WellFormed(plugins) && Attached(plugins, u) && Attached(plugins, v)
    requires SiblingRows(plugins, i, j) && SiblingRows(plugins, c, d)
    requires DescendsFrom(plugins, u, plugins[i].pluginId) && DescendsFrom(plugins, u, plugins[d].pluginId)
    ensures !(DescendsFrom(plugins, v, plugins[j].pluginId) && DescendsFrom(plugins, v, plugins[c].pluginId))
  {
    if DescendsFrom(plugins, v, plugins[j].pluginId) && DescendsFrom(plugins, v, plugins[c].pluginId) {
      AboveBoth(plugins, u, plugins[i].pluginId, plugins[d].pluginId);
      if i == d {
        assert SiblingRows(plugins, c, j) by { RootByLink(plugins, i, j); RootByLink(plugins, c, d); }
        SiblingsShareNothing(plugins, c, j, v);
      } else if DescendsFrom(plugins, plugins[i].pluginId, plugins[d].pluginId) {
        SiblingBelowToo(plugins, i, j, plugins[d].pluginId);
        DescendsTransitive(plugins, v, plugins[j].pluginId, plugins[d].pluginId);
        SiblingsShareNothing(plugins, c, d, v);
      } else {
        SiblingBelowToo(plugins, d, c, plugins[i].pluginId);
        DescendsTransitive(plugins, v, plugins[c].pluginId, plugins[i].pluginId);
        SiblingsShareNothing(plugins, i, j, v);
      }
    }
  }

  /** Whether a plugin is a root depends on its parent link alone. */
  lemma RootByLink(plugins: seq<PluginMetaData>, i: nat, j: nat)
    requires WellFormed(plugins) && SiblingRows(plugins, i, j)
    ensures IsRoot(plugins, plugins[i].pluginId) <==> IsRoot(plugins, plugins[j].pluginId)
  {
    LookupMember(plugins, plugins[i]);
    LookupMember(plugins, plugins[j]);
  }
}
