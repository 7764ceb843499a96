/** Loading and initialising an applet and everything below it. The outcome of each load and init is
    arbitrary. */
module AppletLoaders {
  import opened Lists
  import opened PluginForest
  import opened AppletTree
  import opened AppletOrder

  class DAppletLoader {
    const plugins: seq<PluginMetaData>
    const hasUrl: string -> bool   // the plugins whose metadata name a QML file
    var nodes: seq<Applet>   // nodes[0] is the loader's own applet
    var log: seq<Event>
    var rooted: seq<nat>     // the applets whose root object was asked for, in that order

    ghost predicate Valid()
      reads this
    {
      && WellFormed(plugins) && RootUnclaimed(plugins)
      && TreeShape(nodes) && nodes != [] && nodes[0].parent == None
      && OwnPlugins(nodes)
      && MissingFailed(nodes, log)
    }

    constructor (plugins: seq<PluginMetaData>, hasUrl: string -> bool, data: AppletData, containment: bool)
      requires WellFormed(plugins) && RootUnclaimed(plugins)
      ensures Valid() && this.plugins == plugins && this.hasUrl == hasUrl && log == [] && rooted == []
      ensures nodes == [Applet(data.pluginId, data, containment, None, [])]
    {
      this.plugins, this.hasUrl, log, rooted := plugins, hasUrl, [], [];
      nodes := [Applet(data.pluginId, data, containment, None, [])];
    }

    /** DContainment::createApplet: only child plugins are admitted, except by the root applet. */
    method CreateApplet(h: nat, data: AppletData) returns (created: bool)
      requires Valid() && h < |nodes| && nodes[h].containment
      modifies this`nodes
      ensures Valid()
      ensures created <==> Admitted(plugins, old(nodes)[h].pluginId, data.pluginId)
      ensures !created ==> nodes == old(nodes)
      ensures created ==> exists containment ::
                nodes == WithChild(old(nodes), h, Applet(data.pluginId, data, containment, Some(h), []))
    {
      var plugin := MetaData(plugins, data.pluginId);
      if nodes[h].pluginId != ROOT_PLUGIN {
        var children := Children(plugins, nodes[h].pluginId);
        var isChild := plugin.Some? && exists k | 0 <= k < |children| :: children[k].pluginId == plugin.value.pluginId;
        if !isChild { return false; }
      }
      if plugin.None? { return false; }
      var isContainment: bool := *;
      var applet := Applet(data.pluginId, data, isContainment, Some(h), []);
      WithChildShape(nodes, h, applet);
      WithChildMissing(nodes, log, h, applet);
      nodes := WithChild(nodes, h, applet);
      created := true;
    }

    /** Created from row `from` on: unloaded children of h without children of their own. */
    ghost predicate NewChildren(before: seq<Applet>, h: nat)
      requires h < |before|
      reads this
    {
      && |before| <= |nodes|
      && (forall i | 0 <= i < |before| && i != h :: nodes[i] == before[i])
      && nodes[h] == before[h].(applets := nodes[h].applets)
      && (forall c | c in nodes[h].applets :: c in before[h].applets || c >= |before|)
      && (forall c | |before| <= c < |nodes| ::
           && c in nodes[h].applets && nodes[c].parent == Some(h) && nodes[c].applets == []
           && Admitted(plugins, before[h].pluginId, nodes[c].pluginId))
    }

    method CreateChildren(h: nat)
      requires Valid() && h < |nodes|
      modifies this`nodes
      ensures Valid() && NewChildren(old(nodes), h)
      ensures Added(old(nodes), nodes, h, Configured(plugins, old(nodes)[h]))
    {
      if nodes[h].containment {
        var groups := GroupList(plugins, nodes[h]);
        ghost var admitted := AdmittedBelow(plugins, nodes[h].pluginId);
        var i := 0;
        assert groups[..0] == [];
        while i < |groups|
          invariant 0 <= i <= |groups|
          invariant Valid() && NewChildren(old(nodes), h) && nodes[h].containment
          invariant Added(old(nodes), nodes, h, Filter(groups[..i], admitted))
        {
          FilterSnoc(groups, i, admitted);
          CreateChild(h, groups[i], old(nodes), Filter(groups[..i], admitted));
          i := i + 1;
        }
        assert groups[..i] == groups;
      }
    }

    method CreateChild(h: nat, data: AppletData, ghost start: seq<Applet>, ghost datas: seq<AppletData>)
      requires Valid() && h < |start| && NewChildren(start, h) && nodes[h].containment && Added(start, nodes, h, datas)
      modifies this`nodes
      ensures Valid() && |start| <= |nodes| && NewChildren(start, h) && nodes[h].containment
      ensures var admitted := AdmittedBelow(plugins, start[h].pluginId);
              Added(start, nodes, h, if admitted(data) then datas + [data] else datas)
    {
      ghost var before := nodes;
      var created := CreateApplet(h, data);
      if created {
        OneMoreChild(start, before, h, nodes[|before|]);
        AddedOne(start, before, h, datas, nodes[|before|]);
      }
    }

    lemma OneMoreChild(start: seq<Applet>, before: seq<Applet>, h: nat, applet: Applet)
      requires h < |start| <= |before|
      requires forall i | 0 <= i < |start| && i != h :: before[i] == start[i]
      requires before[h] == start[h].(applets := before[h].applets)
      requires forall c | c in before[h].applets :: c in start[h].applets || c >= |start|
      requires forall c | |start| <= c < |before| ::
                 && c in before[h].applets && before[c].parent == Some(h) && before[c].applets == []
                 && Admitted(plugins, start[h].pluginId, before[c].pluginId)
      requires nodes == WithChild(before, h, applet) && applet.parent == Some(h) && applet.applets == []
      requires Admitted(plugins, start[h].pluginId, applet.pluginId)
      ensures NewChildren(start, h)
    {
    }

    // ---------- loading ----------

    method DoLoad(h: nat) returns (ok: bool)
      requires Valid() && Loading(nodes, log) && MayLoad(nodes, log, h)
      modifies this`nodes, this`log
      ensures Valid() && Loading(nodes, log)
      ensures nodes == (if ok then old(nodes) else Unlisted(old(nodes), h)) && log == old(log) + [Loaded(h, ok)]
    {
      ok := *;
      LoadOutcome(nodes, log, h, ok);
      StillOwnPlugins(nodes, h);
      OutcomeMissing(nodes, log, Loaded(h, ok));
      if !ok {
        nodes := Unlisted(nodes, h);
      }
      log := log + [Loaded(h, ok)];
    }

    method Load(h: nat, ghost top: string, ghost depth: nat) returns (ok: bool)
      requires Valid() && Loading(nodes, log) && MayLoad(nodes, log, h)
      requires nodes[h].applets == [] && ChildData(nodes, h) == []
      requires Ancestor(plugins, nodes[h].pluginId, depth) == Some(top) && !OnCycle(plugins, top)
      requires DepthFirst(nodes, log) && MayFollow(nodes, log, h, true)
      modifies this`nodes, this`log
      ensures Valid() && Loading(nodes, log) && LoadEffect(old(nodes), old(log), nodes, log, h, ok)
      ensures Built(plugins, old(nodes), nodes, log, [h]) && Orderly(nodes, old(log), log, [h])
      decreases |plugins| - depth, 3
    {
      ghost var n0, l0 := nodes, log;
      ok := DoLoad(h);
      OutcomeInOrder(n0, l0, nodes, Loaded(h, ok));
      if !ok {
        FailedLoad(n0, l0, h);
        NothingBuilt(plugins, n0, nodes, log, h);
        return;
      }
      AppendLoad(n0, l0, h, true);
      LoadBelow(h, l0, top, depth);
    }

    /** Once an applet is loaded: its children are created, then loaded. */
    method LoadBelow(h: nat, ghost l0: seq<Event>, ghost top: string, ghost depth: nat)
      requires Valid() && Loading(nodes, log) && h < |nodes| && nodes[h].applets == [] && ChildData(nodes, h) == []
      requires log == l0 + [Loaded(h, true)] && forall x :: IsLoaded(log, x) <==> IsLoaded(l0, x) || x == h
      requires Ancestor(plugins, nodes[h].pluginId, depth) == Some(top) && !OnCycle(plugins, top)
      requires DepthFirst(nodes, log) && UpTo(nodes, log, h, true)
      modifies this`nodes, this`log
      ensures Valid() && Loading(nodes, log) && LoadEffect(old(nodes), l0, nodes, log, h, true)
      ensures Built(plugins, old(nodes), nodes, log, [h]) && Orderly(nodes, l0, log, [h])
      decreases |plugins| - depth, 2
    {
      ghost var n0, l1 := nodes, log;
      NotRootPlugin(plugins, nodes[h].pluginId, depth, top);
      CreateChildren(h);
      ghost var n2 := nodes;
      ChildrenReady(n0, n2, log, h);
      assert l1[|l0|] == Loaded(h, true);
      CreatedInOrder(n0, n2, log, h);
      LoadChildren(h, top, depth);
      WholeLoad(n0, l0, l1, n2, nodes, log, h);
      WholeBuilt(plugins, n0, n2, nodes, log, h);
      WholeInOrder(n2, nodes, l0, Loaded(h, true), log, h);
    }

    /** The children just created may be loaded. */
    lemma ChildrenReady(n0: seq<Applet>, n2: seq<Applet>, log: seq<Event>, h: nat)
      requires TreeShape(n0) && TreeShape(n2) && Loading(n0, log) && n2 == nodes && h < |n0| && n0[h].applets == []
      requires NewChildren(n0, h) && Added(n0, n2, h, Configured(plugins, n0[h]))
      ensures Loading(n2, log) && ReadyChildren(plugins, n2, log, h)
      ensures forall c | 0 <= c < |n2| :: c in n2[h].applets <==> c >= |n0|
    {
      ChildrenStillLoading(n0, n2, log, h);
      NewChildrenReady(n0, n2, log, h);
    }

    method LoadChildren(h: nat, ghost top: string, ghost depth: nat)
      requires Valid() && Loading(nodes, log) && h < |nodes| && Loaded(h, true) in log
      requires Ancestor(plugins, nodes[h].pluginId, depth) == Some(top) && !OnCycle(plugins, top)
      requires ReadyChildren(plugins, nodes, log, h)
      requires DepthFirst(nodes, log) && UpTo(nodes, log, h, true)
      modifies this`nodes, this`log
      ensures Valid() && Loading(nodes, log)
      ensures LoadedSoFar(plugins, old(nodes), old(log), nodes, log, h, old(nodes)[h].applets)
      decreases |plugins| - depth, 1
    {
      ghost var n0, l0 := nodes, log;
      DepthBounded(plugins, n0[h].pluginId, depth, top);
      var applets := nodes[h].applets;
      var i := 0;
      NoneLoaded(plugins, n0, l0, h);
      assert applets[..0] == [];
      while i < |applets|
        invariant 0 <= i <= |applets|
        invariant Valid() && Loading(nodes, log)
        invariant LoadedSoFar(plugins, n0, l0, nodes, log, h, applets[..i])
      {
        LoadChild(applets[i], n0, l0, h, i, top, depth);
        i := i + 1;
      }
      assert applets[..i] == applets;
    }

    method LoadChild(child: nat, ghost n0: seq<Applet>, ghost l0: seq<Event>, ghost h: nat, ghost i: nat,
                     ghost top: string, ghost depth: nat)
      requires Valid() && Loading(nodes, log) && TreeShape(n0) && h < |n0| && Loaded(h, true) in l0
      requires Ancestor(plugins, n0[h].pluginId, depth) == Some(top) && !OnCycle(plugins, top)
      requires ReadyChildren(plugins, n0, l0, h) && i < |n0[h].applets| && child == n0[h].applets[i]
      requires UpTo(n0, l0, h, true) && LoadedSoFar(plugins, n0, l0, nodes, log, h, n0[h].applets[..i])
      modifies this`nodes, this`log
      ensures Valid() && Loading(nodes, log)
      ensures LoadedSoFar(plugins, n0, l0, nodes, log, h, n0[h].applets[..i + 1])
      decreases |plugins| - depth, 0
    {
      ghost var n1, l1 := nodes, log;
      ChildReady(plugins, n0, l0, n1, l1, h, i, top, depth);
      var ok := Load(child, top, depth + 1);
      ChildDone(plugins, n0, l0, n1, l1, nodes, log, h, i, ok);
    }

    // ---------- root objects ----------

    method DoCreateRootObject(h: nat)
      requires h < |nodes|
      modifies this`rooted
      ensures rooted == old(rooted) + Filter([h], WithUrl(nodes, hasUrl))
    {
      OneFiltered(h, WithUrl(nodes, hasUrl));
      if !hasUrl(nodes[h].pluginId) { return; }
      rooted := rooted + [h];
    }

    method CreateRootObject(h: nat)
      requires Valid() && h < |nodes|
      modifies this`rooted
      ensures rooted == old(rooted) + Filter(Preorder(nodes, h), WithUrl(nodes, hasUrl))
      decreases |nodes| - h
    {
      ghost var p := WithUrl(nodes, hasUrl);
      ghost var all := rooted + Filter(Preorder(nodes, h), p);
      ListedLater(nodes, h);
      FilterMapConcat([h], PreorderFrom(nodes, h, 0), Keep(p));
      Associative(rooted, Filter([h], p), Filter(PreorderFrom(nodes, h, 0), p));
      DoCreateRootObject(h);
      var applets := nodes[h].applets;
      var i := 0;
      while i < |applets|
        invariant 0 <= i <= |applets|
        invariant rooted + Filter(PreorderFrom(nodes, h, i), p) == all
      {
        ghost var child, rest := Preorder(nodes, applets[i]), PreorderFrom(nodes, h, i + 1);
        FilterMapConcat(child, rest, Keep(p));
        Associative(rooted, Filter(child, p), Filter(rest, p));
        CreateRootObject(applets[i]);
        i := i + 1;
      }
    }

    // ---------- initialising ----------

    method DoInit(h: nat) returns (ok: bool)
      requires Valid() && Initing(nodes, log) && MayInit(nodes, log, h)
      modifies this`nodes, this`log
      ensures Valid() && Initing(nodes, log)
      ensures nodes == (if ok then old(nodes) else Unlisted(old(nodes), h)) && log == old(log) + [Inited(h, ok)]
    {
      ok := *;
      InitOutcome(nodes, log, h, ok);
      StillOwnPlugins(nodes, h);
      OutcomeMissing(nodes, log, Inited(h, ok));
      if !ok {
        nodes := Unlisted(nodes, h);
      }
      log := log + [Inited(h, ok)];
    }

    method Init(h: nat) returns (ok: bool)
      requires Valid() && Initing(nodes, log) && MayInit(nodes, log, h)
      requires UninitedBelow(nodes, log, h)
      requires DepthFirst(nodes, log) && MayFollow(nodes, log, h, false)
      modifies this`nodes, this`log
      ensures Valid() && Initing(nodes, log) && InitEffect(old(nodes), old(log), nodes, log, h)
      ensures Orderly(nodes, old(log), log, [h])
      decreases |nodes| - h, 2
    {
      ghost var n0, l0 := nodes, log;
      ListedLoaded(nodes, log, h);
      ok := DoInit(h);
      OwnInit(n0, l0, nodes, log, h, ok);
      OutcomeInOrder(n0, l0, nodes, Inited(h, ok));
      if !ok { return; }
      InitChildren(h, n0, l0);
    }

    method InitChildren(h: nat, ghost n0: seq<Applet>, ghost l0: seq<Event>)
      requires Valid() && Initing(nodes, log) && h < |nodes| && nodes == n0 && Inited(h, true) in log
      requires UninitedBelow(n0, l0, h) && ChildrenInited(n0, l0, nodes, log, h, [])
      requires forall c | c in n0[h].applets :: Loaded(c, true) in l0
      requires log == l0 + [Inited(h, true)] && DepthFirst(nodes, log) && UpTo(nodes, log, h, false)
      modifies this`nodes, this`log
      ensures Valid() && Initing(nodes, log) && InitEffect(n0, l0, nodes, log, h)
      ensures Orderly(nodes, l0, log, [h])
      decreases |n0| - h, 1
    {
      ghost var l1 := log;
      var applets := nodes[h].applets;
      var i := 0;
      NothingSince(nodes, log);
      assert applets[..0] == [];
      while i < |applets|
        invariant 0 <= i <= |applets|
        invariant Valid() && Initing(nodes, log) && Inited(h, true) in log
        invariant ChildrenInited(n0, l0, nodes, log, h, applets[..i])
        invariant Orderly(nodes, l1, log, applets[..i])
      {
        InitChild(applets[i], n0, l0, l1, h, i);
        i := i + 1;
      }
      assert applets[..i] == applets;
      AllChildrenInited(n0, l0, nodes, log, h, applets);
      WholeInOrder(n0, nodes, l0, Inited(h, true), log, h);
    }

    method InitChild(child: nat, ghost n0: seq<Applet>, ghost l0: seq<Event>, ghost l1: seq<Event>, ghost h: nat,
                     ghost i: nat)
      requires Valid() && Initing(nodes, log) && h < |n0| && Inited(h, true) in log && TreeShape(n0)
      requires UninitedBelow(n0, l0, h) && i < |n0[h].applets| && child == n0[h].applets[i]
      requires Loaded(child, true) in l0
      requires ChildrenInited(n0, l0, nodes, log, h, n0[h].applets[..i])
      requires UpTo(n0, l1, h, false) && Orderly(nodes, l1, log, n0[h].applets[..i])
      modifies this`nodes, this`log
      ensures Valid() && Initing(nodes, log) && Inited(h, true) in log
      ensures ChildrenInited(n0, l0, nodes, log, h, n0[h].applets[..i + 1])
      ensures Orderly(nodes, l1, log, n0[h].applets[..i + 1])
      decreases |n0| - h, 0
    {
      ghost var n1, l2 := nodes, log;
      NextInit(n0, l0, n1, l2, h, i);
      ChildMayFollow(n0, l1, n1, l2, h, i, false);
      var initialised := Init(child);
      OneChildInited(n0, l0, n1, l2, nodes, log, h, i);
      OneChildMore(n1, nodes, l1, l2, log, n0[h].applets, i);
    }

    /** exec: everything is loaded, then root objects are asked for, then everything that is left is
        initialised. */
    method Exec()
      requires Valid() && |nodes| == 1 && nodes[0].applets == [] && log == [] && rooted == []
      requires Lookup(plugins, nodes[0].pluginId).Some? && !OnCycle(plugins, nodes[0].pluginId)
      modifies this`nodes, this`log, this`rooted
      ensures Valid() && LoadsInOrder(nodes, log) && InitsInOrder(nodes, log)
      ensures forall x | 0 <= x < |nodes| :: IsLoaded(log, x)
      ensures nodes[0] == old(nodes)[0].(applets := nodes[0].applets)
      ensures CreatedAsConfigured(plugins, nodes, log) && InitedExactly(nodes, log) && ListedExactly(nodes, log)
      ensures ChildrenAsConfigured(plugins, nodes, log)
      ensures DepthFirst(nodes, log) && InTreeOrder(nodes, rooted)
      ensures Distinct(rooted)
      ensures forall x: nat :: x in rooted <==> x < |nodes| && Loaded(x, true) in log && hasUrl(nodes[x].pluginId)
    {
      ghost var n0, l0 := nodes, log;
      NoChildrenYet(nodes, 0);
      var ok := Load(0, nodes[0].pluginId, 0);
      if !ok {
        LoadFailed(nodes, log);
        CreatedExactly(plugins, nodes, log);
        return;
      }
      AllLoaded(n0, nodes, log);
      CreateRootObject(0);
      AllRooted(nodes, log, hasUrl);
      InitAll();
    }

    method InitAll()
      requires Valid() && Initing(nodes, log) && MayInit(nodes, log, 0) && CreatedAsConfigured(plugins, nodes, log)
      requires (forall x | 0 <= x < |nodes| :: IsLoaded(log, x)) && forall x :: !IsInited(log, x)
      requires DepthFirst(nodes, log) && InTreeOrder(nodes, rooted)
      modifies this`nodes, this`log
      ensures Valid() && InTreeOrder(nodes, rooted)
      ensures LoadsInOrder(nodes, log) && InitsInOrder(nodes, log) && |nodes| == |old(nodes)|
      ensures forall x | 0 <= x < |nodes| :: nodes[x] == old(nodes)[x].(applets := nodes[x].applets)
      ensures DepthFirst(nodes, log) && ChildrenAsConfigured(plugins, nodes, log)
      ensures forall x | 0 <= x < |nodes| ::
                IsLoaded(log, x) && (Loaded(x, true) in log <==> Loaded(x, true) in old(log))
      ensures CreatedAsConfigured(plugins, nodes, log) && InitedExactly(nodes, log) && ListedExactly(nodes, log)
    {
      ghost var n1, l1 := nodes, log;
      forall x: nat ensures Inited(x, true) !in l1 {
        NotInited(l1, x);
      }
      FirstInit(n1, l1);
      var ok := Init(0);
      StillLoaded(n1, l1, log);
      SameOutcomes(nodes, l1, log);
      StillAsConfigured(plugins, n1, l1, nodes, log);
      AllInited(nodes, log);
      CreatedExactly(plugins, nodes, log);
      InOrderStable(n1, nodes, rooted);
    }
  }

  // ---------- what a whole start leaves behind ----------

  /** Each applet whose load succeeded has the children it is configured to have, in that order. */
  ghost predicate CreatedAsConfigured(plugins: seq<PluginMetaData>, nodes: seq<Applet>, log: seq<Event>) {
    forall p: nat | p < |nodes| ::
      ChildData(nodes, p) == if Loaded(p, true) in log then Configured(plugins, nodes[p]) else []
  }

  /** The children created under each applet, in order. Without a configured list, they are all the child plugins
      of its plugin; with one, the entries of it that name such a plugin. */
  ghost predicate ChildrenAsConfigured(plugins: seq<PluginMetaData>, nodes: seq<Applet>, log: seq<Event>) {
    forall p: nat | p < |nodes| ::
      var applet, created := nodes[p], ChildData(nodes, p);
      if !applet.containment || Loaded(p, true) !in log then created == []
      else if applet.data.groups != [] then
        created == Filter(applet.data.groups, (d: AppletData) => Admitted(plugins, applet.pluginId, d.pluginId))
      else
        var children := Children(plugins, applet.pluginId);
        && |created| == |children|
        && forall i | 0 <= i < |children| :: created[i] == AppletData(children[i].pluginId, [])
  }

  lemma CreatedExactly(plugins: seq<PluginMetaData>, nodes: seq<Applet>, log: seq<Event>)
    requires CreatedAsConfigured(plugins, nodes, log)
    ensures ChildrenAsConfigured(plugins, nodes, log)
  {
    forall p: nat | p < |nodes| && nodes[p].containment && Loaded(p, true) in log
      ensures ChildData(nodes, p) == Configured(plugins, nodes[p])
    {
    }
    forall p: nat | p < |nodes| && nodes[p].containment {
      ConfiguredExactly(plugins, nodes[p]);
    }
  }

  lemma ConfiguredExactly(plugins: seq<PluginMetaData>, applet: Applet)
    requires applet.containment
    ensures var r, children := Configured(plugins, applet), Children(plugins, applet.pluginId);
            if applet.data.groups != [] then
              r == Filter(applet.data.groups, (d: AppletData) => Admitted(plugins, applet.pluginId, d.pluginId))
            else
              |r| == |children| && forall i | 0 <= i < |children| :: r[i] == AppletData(children[i].pluginId, [])
  {
    var list, admitted := GroupList(plugins, applet), AdmittedBelow(plugins, applet.pluginId);
    if applet.data.groups != [] {
      FilterMapCongruence(list, Keep(admitted),
                          Keep((d: AppletData) => Admitted(plugins, applet.pluginId, d.pluginId)));
    } else {
      forall d | d in list ensures admitted(d) {
        var i :| 0 <= i < |list| && list[i] == d;
        ChildIsAdmitted(plugins, applet.pluginId, i);
      }
      FilterMapIdentity(list, Keep(admitted));
    }
  }

  lemma ChildIsAdmitted(plugins: seq<PluginMetaData>, parentPlugin: string, i: nat)
    requires i < |Children(plugins, parentPlugin)|
    ensures Admitted(plugins, parentPlugin, Children(plugins, parentPlugin)[i].pluginId)
  {
    var child := Children(plugins, parentPlugin)[i];
    assert child in Children(plugins, parentPlugin);
    var p := if parentPlugin == ROOT_PLUGIN then Roots(plugins) else ChildOf(parentPlugin);
    FilterMapMember(plugins, Keep(p), child);
  }

  /** init was called on exactly the applets that were loaded and whose parent was initialised. */
  ghost predicate InitedExactly(nodes: seq<Applet>, log: seq<Event>) {
    forall x: nat | x < |nodes| ::
      IsInited(log, x) <==>
        Loaded(x, true) in log && (x == 0 || (nodes[x].parent.Some? && Inited(nodes[x].parent.value, true) in log))
  }

  /** A child is still listed exactly when neither its load nor its init failed. */
  ghost predicate ListedExactly(nodes: seq<Applet>, log: seq<Event>) {
    forall c, p | 0 <= p < c < |nodes| && nodes[c].parent == Some(p) ::
      c in nodes[p].applets <==> Loaded(c, false) !in log && Inited(c, false) !in log
  }

  lemma OneLoadOutcome(nodes: seq<Applet>, log: seq<Event>, x: nat)
    requires LoadsInOrder(nodes, log)
    ensures !(Loaded(x, true) in log && Loaded(x, false) in log)
  {
  }

  lemma LoadFailed(nodes: seq<Applet>, log: seq<Event>)
    requires TreeShape(nodes) && Loading(nodes, log) && MissingFailed(nodes, log) && Loaded(0, false) in log
    ensures InitsInOrder(nodes, log) && InitedExactly(nodes, log) && ListedExactly(nodes, log)
    ensures forall x: nat :: Loaded(x, true) !in log
  {
    OneLoadOutcome(nodes, log, 0);
    forall i | 0 <= i < |log| ensures log[i] != Loaded(log[i].applet, true) {
      NothingAfterFailure(nodes, log, i);
    }
  }

  lemma SameOutcomes(nodes: seq<Applet>, l0: seq<Event>, l1: seq<Event>)
    requires l0 <= l1 && LoadsInOrder(nodes, l1) && forall x | 0 <= x < |nodes| :: IsLoaded(l0, x)
    ensures forall x: nat | x < |nodes| :: Loaded(x, true) in l1 <==> Loaded(x, true) in l0
  {
    forall x: nat | x < |nodes| ensures Loaded(x, true) in l1 <==> Loaded(x, true) in l0 {
      SameOutcome(nodes, l0, l1, x);
    }
  }

  lemma {:induction false} NothingAfterFailure(nodes: seq<Applet>, log: seq<Event>, i: nat)
    requires Loading(nodes, log) && Loaded(0, true) !in log && i < |log|
    ensures log[i] != Loaded(log[i].applet, true)
    decreases i
  {
    if log[i] == Loaded(log[i].applet, true) && log[i].applet != 0 {
      assert ParentSucceeded(nodes, log, i);
      var parent := nodes[log[i].applet].parent.value;
      var k :| 0 <= k < i && log[k] == Loaded(parent, true);
      NothingAfterFailure(nodes, log, k);
    }
  }

  lemma FirstInit(nodes: seq<Applet>, log: seq<Event>)
    requires TreeShape(nodes) && nodes != [] && forall x :: !IsInited(log, x)
    ensures MayFollow(nodes, log, 0, false)
  {
    forall i | 0 <= i < |log| ensures log[i].Loaded? {
      assert !IsInited(log, log[i].applet);
    }
  }

  lemma NotInited(log: seq<Event>, x: nat)
    requires !IsInited(log, x)
    ensures Inited(x, true) !in log && Inited(x, false) !in log
  {
  }

  function WithUrl(nodes: seq<Applet>, hasUrl: string -> bool): nat -> bool {
    (x: nat) => x < |nodes| && hasUrl(nodes[x].pluginId)
  }

  /** After the loads, what is listed below the start applet is what loaded with success. */
  lemma AllRooted(nodes: seq<Applet>, log: seq<Event>, hasUrl: string -> bool)
    requires TreeShape(nodes) && nodes != [] && Initing(nodes, log) && MissingFailed(nodes, log)
    requires Loaded(0, true) in log && forall x :: !IsInited(log, x)
    ensures Distinct(Filter(Preorder(nodes, 0), WithUrl(nodes, hasUrl)))
    ensures InTreeOrder(nodes, Filter(Preorder(nodes, 0), WithUrl(nodes, hasUrl)))
    ensures forall x: nat :: x in Filter(Preorder(nodes, 0), WithUrl(nodes, hasUrl)) <==>
                               x < |nodes| && Loaded(x, true) in log && hasUrl(nodes[x].pluginId)
  {
    var p := WithUrl(nodes, hasUrl);
    PreorderMeaning(nodes, 0);
    PreorderInOrder(nodes, 0);
    FilteredInOrder(nodes, Preorder(nodes, 0), p);
    forall x: nat | x < |nodes| ensures AtOrBelow(nodes, x, 0) <==> Loaded(x, true) in log {
      ListedIffLoaded(nodes, log, x);
    }
    FilteredDistinct(Preorder(nodes, 0), p);
    forall x: nat ensures x in Filter(Preorder(nodes, 0), p) <==> x in Preorder(nodes, 0) && p(x) {
      FilterMember(Preorder(nodes, 0), p, x);
    }
  }

  lemma {:induction false} ListedIffLoaded(nodes: seq<Applet>, log: seq<Event>, x: nat)
    requires TreeShape(nodes) && Initing(nodes, log) && MissingFailed(nodes, log) && x < |nodes|
    requires Loaded(0, true) in log && forall y :: !IsInited(log, y)
    ensures AtOrBelow(nodes, x, 0) <==> Loaded(x, true) in log
    decreases x
  {
    if x != 0 {
      OneLoadOutcome(nodes, log, x);
      if Loaded(x, true) in log {
        var i :| 0 <= i < |log| && log[i] == Loaded(x, true);
        assert ParentSucceeded(nodes, log, i);
        var p := nodes[x].parent.value;
        ListedIffLoaded(nodes, log, p);
        NotInited(log, x);
      }
    }
  }

  lemma StillAsConfigured(plugins: seq<PluginMetaData>, n1: seq<Applet>, l1: seq<Event>, n2: seq<Applet>,
                          l2: seq<Event>)
    requires CreatedAsConfigured(plugins, n1, l1) && FewerListed(n1, n2) && l1 <= l2 && LoadsInOrder(n2, l2)
    requires forall x | 0 <= x < |n1| :: IsLoaded(l1, x)
    ensures CreatedAsConfigured(plugins, n2, l2)
  {
    forall p: nat | p < |n2|
      ensures ChildData(n2, p) == if Loaded(p, true) in l2 then Configured(plugins, n2[p]) else []
    {
      SameOutcome(n2, l1, l2, p);
      ChildDataSame(n1, n2, p);
      assert n2[p] == n1[p].(applets := n2[p].applets);
      assert Configured(plugins, n2[p]) == Configured(plugins, n1[p]);
    }
  }

  lemma AllInited(nodes: seq<Applet>, log: seq<Event>)
    requires TreeShape(nodes) && Initing(nodes, log) && MissingFailed(nodes, log) && IsInited(log, 0)
    requires forall p: nat | p < |nodes| && Inited(p, true) in log :: Finished(nodes, log, p)
    ensures InitedExactly(nodes, log) && ListedExactly(nodes, log)
  {
    forall c, p | 0 <= p < c < |nodes| && nodes[c].parent == Some(p)
      ensures c in nodes[p].applets <==> Loaded(c, false) !in log && Inited(c, false) !in log
    {
      OneLoadOutcome(nodes, log, c);
    }
    forall x: nat | x < |nodes|
      ensures IsInited(log, x) <==>
        Loaded(x, true) in log && (x == 0 || (nodes[x].parent.Some? && Inited(nodes[x].parent.value, true) in log))
    {
      InitedBecause(nodes, log, x);
      if Loaded(x, true) in log && x != 0 && nodes[x].parent.Some? && Inited(nodes[x].parent.value, true) in log {
        OneLoadOutcome(nodes, log, x);
      }
    }
  }

  lemma InitedBecause(nodes: seq<Applet>, log: seq<Event>, x: nat)
    requires InitsInOrder(nodes, log) && x < |nodes|
    ensures IsInited(log, x) ==>
              && Loaded(x, true) in log
              && (x == 0 || (nodes[x].parent.Some? && Inited(nodes[x].parent.value, true) in log))
  {
    if i :| 0 <= i < |log| && log[i].Inited? && log[i].applet == x {
      assert ParentSucceeded(nodes, log, i);
    }
  }

  // ---------- the loading phase ----------

  ghost predicate Loading(nodes: seq<Applet>, log: seq<Event>) {
    && LoadsInOrder(nodes, log) && ListedDidNotFail(nodes, log)
    && forall i | 0 <= i < |log| :: log[i].Loaded?
  }

  ghost predicate MayLoad(nodes: seq<Applet>, log: seq<Event>, h: nat) {
    && h < |nodes| && !IsLoaded(log, h)
    && (h != 0 ==> nodes[h].parent.Some? && Loaded(nodes[h].parent.value, true) in log)
  }

  /** What load(h) does: besides h and the applets created below it nothing is loaded, all of those are,
      and of the old applets only h gets children and only its parent may lose one. */
  ghost predicate LoadEffect(n0: seq<Applet>, l0: seq<Event>, n1: seq<Applet>, l1: seq<Event>, h: nat, ok: bool) {
    && h < |n0| <= |n1| && l0 <= l1 && Loaded(h, ok) in l1
    && SameParents(n0, n1)
    && (forall i | 0 <= i < |n0| :: n1[i] == n0[i].(applets := n1[i].applets))
    && (forall i | 0 <= i < |n0| && i != h && Some(i) != n0[h].parent :: n1[i] == n0[i])
    && (forall x | 0 <= x < |n1| :: IsLoaded(l1, x) <==> IsLoaded(l0, x) || x == h || x >= |n0|)
  }

  /** The same for the calls on the children in `done`. */
  ghost predicate ChildrenLoaded(n0: seq<Applet>, l0: seq<Event>, n1: seq<Applet>, l1: seq<Event>, h: nat,
                                 done: seq<nat>)
  {
    && h < |n0| <= |n1| && l0 <= l1
    && SameParents(n0, n1)
    && (forall i | 0 <= i < |n0| :: n1[i] == n0[i].(applets := n1[i].applets))
    && (forall i | 0 <= i < |n0| && i != h && i !in done :: n1[i] == n0[i])
    && (forall x | 0 <= x < |n1| :: IsLoaded(l1, x) <==> IsLoaded(l0, x) || x in done || x >= |n0|)
  }

  lemma NotInPrefix<T>(s: seq<T>, i: nat)
    requires Distinct(s) && i < |s|
    ensures s[i] !in s[..i]
  {
  }

  ghost predicate ReadyChildren(plugins: seq<PluginMetaData>, nodes: seq<Applet>, log: seq<Event>, h: nat)
    requires h < |nodes|
  {
    forall c | c in nodes[h].applets ::
      && c < |nodes| && nodes[c].applets == [] && ChildData(nodes, c) == []
      && !IsLoaded(log, c) && Admitted(plugins, nodes[h].pluginId, nodes[c].pluginId)
  }

  /** An applet is made for the plugin that its configuration names. */
  ghost predicate OwnPlugins(nodes: seq<Applet>) {
    forall x | 0 <= x < |nodes| :: nodes[x].pluginId == nodes[x].data.pluginId
  }

  lemma StillOwnPlugins(nodes: seq<Applet>, h: nat)
    requires h < |nodes| && OwnPlugins(nodes)
    ensures OwnPlugins(Unlisted(nodes, h))
  {
  }

  lemma OutcomeInOrder(n0: seq<Applet>, l0: seq<Event>, n1: seq<Applet>, e: Event)
    requires TreeShape(n0) && e.applet < |n0| && n1 == if e.ok then n0 else Unlisted(n0, e.applet)
    requires DepthFirst(n0, l0) && MayFollow(n0, l0, e.applet, e.Loaded?)
    ensures TreeShape(n1) && SameParents(n0, n1)
    ensures Orderly(n1, l0, l0 + [e], [e.applet]) && UpTo(n1, l0 + [e], e.applet, e.Loaded?)
  {
    UnlistedShape(n0, e.applet);
    OneMoreInOrder(n0, l0, n1, e);
  }

  lemma CreatedInOrder(n0: seq<Applet>, n2: seq<Applet>, log: seq<Event>, h: nat)
    requires TreeShape(n0) && TreeShape(n2) && h < |n0| <= |n2|
    requires forall i | 0 <= i < |n0| :: n2[i].parent == n0[i].parent
    requires DepthFirst(n0, log) && UpTo(n0, log, h, true)
    ensures DepthFirst(n2, log) && UpTo(n2, log, h, true)
  {
    DepthFirstStable(n0, n2, log);
    UpToStable(n0, n2, log, h, true);
  }

  // ---------- what is created ----------

  function GroupList(plugins: seq<PluginMetaData>, applet: Applet): seq<AppletData> {
    if applet.data.groups != [] then applet.data.groups
    else
      var children := Children(plugins, applet.pluginId);
      seq(|children|, i requires 0 <= i < |children| => AppletData(children[i].pluginId, []))
  }

  function AdmittedBelow(plugins: seq<PluginMetaData>, parentPlugin: string): AppletData -> bool {
    (d: AppletData) => Admitted(plugins, parentPlugin, d.pluginId)
  }

  /** The children that an applet is configured to have. */
  function Configured(plugins: seq<PluginMetaData>, applet: Applet): seq<AppletData> {
    if applet.containment then Filter(GroupList(plugins, applet), AdmittedBelow(plugins, applet.pluginId)) else []
  }

  /** The applets in `done` and those created since n0 have their configured children if they were
      loaded, and none otherwise; the other old ones have no new children. */
  ghost predicate Built(plugins: seq<PluginMetaData>, n0: seq<Applet>, n1: seq<Applet>, log: seq<Event>,
                        done: seq<nat>)
  {
    forall p: nat | p < |n1| ::
      ChildData(n1, p) == if p < |n0| && p !in done then ChildData(n0, p)
                          else if Loaded(p, true) in log then Configured(plugins, n1[p]) else []
  }

  lemma NothingBuilt(plugins: seq<PluginMetaData>, n0: seq<Applet>, n1: seq<Applet>, log: seq<Event>, h: nat)
    requires h < |n0| && n1 == Unlisted(n0, h) && TreeShape(n0) && ChildData(n0, h) == [] && Loaded(h, true) !in log
    ensures Built(plugins, n0, n1, log, [h])
  {
    UnlistedShape(n0, h);
    forall p: nat | p < |n1| ensures ChildData(n1, p) == ChildData(n0, p) {
      ChildDataSame(n0, n1, p);
    }
  }

  lemma NewChildrenReady(n0: seq<Applet>, n2: seq<Applet>, log: seq<Event>, h: nat)
    requires h < |n0| <= |n2| && (exists datas :: Added(n0, n2, h, datas))
    requires forall c | c in n2[h].applets :: |n0| <= c < |n2|
    ensures forall c | c in n2[h].applets :: ChildData(n2, c) == []
  {
    var datas :| Added(n0, n2, h, datas);
  }

  lemma WholeBuilt(plugins: seq<PluginMetaData>, n0: seq<Applet>, n2: seq<Applet>, n3: seq<Applet>, log: seq<Event>,
                   h: nat)
    requires h < |n0| <= |n2| <= |n3| && ChildData(n0, h) == [] && Loaded(h, true) in log
    requires Added(n0, n2, h, Configured(plugins, n0[h]))
    requires Built(plugins, n2, n3, log, n2[h].applets)
    requires forall c | 0 <= c < |n2| :: c in n2[h].applets <==> c >= |n0|
    requires n3[h] == n0[h].(applets := n3[h].applets)
    ensures Built(plugins, n0, n3, log, [h])
  {
    assert Configured(plugins, n3[h]) == Configured(plugins, n0[h]);
    forall p: nat | p < |n0|
      ensures ChildData(n3, p) == if p != h then ChildData(n0, p) else Configured(plugins, n3[h])
    {
      assert ChildData(n3, p) == ChildData(n2, p);
    }
  }

  lemma NextUnbuilt(plugins: seq<PluginMetaData>, n0: seq<Applet>, n1: seq<Applet>, log: seq<Event>, h: nat, i: nat)
    requires TreeShape(n0) && h < |n0| <= |n1| && i < |n0[h].applets| && ChildData(n0, n0[h].applets[i]) == []
    requires Built(plugins, n0, n1, log, n0[h].applets[..i])
    ensures ChildData(n1, n0[h].applets[i]) == []
  {
    assert n0[h].applets[i] in n0[h].applets;
    NotInPrefix(n0[h].applets, i);
  }

  lemma StaysBuilt(plugins: seq<PluginMetaData>, n1: seq<Applet>, l1: seq<Event>, n2: seq<Applet>, l2: seq<Event>,
                   c: nat, p: nat, ok: bool)
    requires LoadEffect(n1, l1, n2, l2, c, ok) && LoadsInOrder(n2, l2) && p < |n1| && p != c && IsLoaded(l1, p)
    requires ChildData(n1, p) == if Loaded(p, true) in l1 then Configured(plugins, n1[p]) else []
    requires Built(plugins, n1, n2, l2, [c])
    ensures ChildData(n2, p) == if Loaded(p, true) in l2 then Configured(plugins, n2[p]) else []
  {
    SameOutcome(n2, l1, l2, p);
    assert n2[p] == n1[p].(applets := n2[p].applets);
    assert Configured(plugins, n2[p]) == Configured(plugins, n1[p]);
  }

  lemma OneChildBuilt(plugins: seq<PluginMetaData>, n0: seq<Applet>, l0: seq<Event>, n1: seq<Applet>, l1: seq<Event>,
                       n2: seq<Applet>, l2: seq<Event>, h: nat, i: nat, ok: bool)
    requires h < |n0| && i < |n0[h].applets| && LoadsInOrder(n2, l2)
    requires ChildrenLoaded(n0, l0, n1, l1, h, n0[h].applets[..i])
    requires LoadEffect(n1, l1, n2, l2, n0[h].applets[i], ok)
    requires Built(plugins, n0, n1, l1, n0[h].applets[..i])
    requires Built(plugins, n1, n2, l2, [n0[h].applets[i]])
    ensures Built(plugins, n0, n2, l2, n0[h].applets[..i + 1])
  {
    var applets := n0[h].applets;
    assert applets[..i + 1] == applets[..i] + [applets[i]];
    OneMoreBuilt(plugins, n0, l0, n1, l1, n2, l2, h, applets[..i], applets[i], ok);
  }

  lemma OneMoreBuilt(plugins: seq<PluginMetaData>, n0: seq<Applet>, l0: seq<Event>, n1: seq<Applet>, l1: seq<Event>,
                     n2: seq<Applet>, l2: seq<Event>, h: nat, done: seq<nat>, c: nat, ok: bool)
    requires LoadsInOrder(n2, l2)
    requires ChildrenLoaded(n0, l0, n1, l1, h, done) && LoadEffect(n1, l1, n2, l2, c, ok)
    requires Built(plugins, n0, n1, l1, done) && Built(plugins, n1, n2, l2, [c])
    ensures Built(plugins, n0, n2, l2, done + [c])
  {
    forall p: nat | p < |n2|
      ensures ChildData(n2, p) == if p < |n0| && p !in done + [c] then ChildData(n0, p)
                                  else if Loaded(p, true) in l2 then Configured(plugins, n2[p]) else []
    {
      BuiltAt(plugins, n0, l0, n1, l1, n2, l2, h, done, c, ok, p);
    }
  }

  lemma BuiltAt(plugins: seq<PluginMetaData>, n0: seq<Applet>, l0: seq<Event>, n1: seq<Applet>, l1: seq<Event>,
                n2: seq<Applet>, l2: seq<Event>, h: nat, done: seq<nat>, c: nat, ok: bool, p: nat)
    requires LoadsInOrder(n2, l2) && p < |n2|
    requires ChildrenLoaded(n0, l0, n1, l1, h, done) && LoadEffect(n1, l1, n2, l2, c, ok)
    requires Built(plugins, n0, n1, l1, done) && Built(plugins, n1, n2, l2, [c])
    ensures ChildData(n2, p) == if p < |n0| && p !in done + [c] then ChildData(n0, p)
                                else if Loaded(p, true) in l2 then Configured(plugins, n2[p]) else []
  {
    if p < |n1| && p != c && (p >= |n0| || p in done) {
      StaysBuilt(plugins, n1, l1, n2, l2, c, p, ok);
    }
  }

  /** The children in `done` are loaded with all below them, and nothing else has happened. */
  ghost predicate LoadedSoFar(plugins: seq<PluginMetaData>, n0: seq<Applet>, l0: seq<Event>, n1: seq<Applet>,
                              l1: seq<Event>, h: nat, done: seq<nat>)
  {
    && TreeShape(n1) && Orderly(n1, l0, l1, done)
    && ChildrenLoaded(n0, l0, n1, l1, h, done) && Built(plugins, n0, n1, l1, done)
  }

  lemma NoneLoaded(plugins: seq<PluginMetaData>, n0: seq<Applet>, l0: seq<Event>, h: nat)
    requires TreeShape(n0) && h < |n0| && DepthFirst(n0, l0)
    ensures LoadedSoFar(plugins, n0, l0, n0, l0, h, [])
  {
    NothingSince(n0, l0);
  }

  lemma NextChild(plugins: seq<PluginMetaData>, n0: seq<Applet>, l0: seq<Event>, n1: seq<Applet>, l1: seq<Event>,
                  h: nat, i: nat, top: string, depth: nat)
    requires WellFormed(plugins) && RootUnclaimed(plugins)
    requires TreeShape(n0) && h < |n0| && i < |n0[h].applets| && Loaded(h, true) in l0
    requires ReadyChildren(plugins, n0, l0, h)
    requires ChildrenLoaded(n0, l0, n1, l1, h, n0[h].applets[..i])
    requires Ancestor(plugins, n0[h].pluginId, depth) == Some(top) && !OnCycle(plugins, top)
    ensures var c := n0[h].applets[i];
            && c < |n0| && MayLoad(n1, l1, c) && n1[c].applets == []
            && Ancestor(plugins, n1[c].pluginId, depth + 1) == Some(top)
    ensures depth + 1 < |plugins|
  {
    var c := n0[h].applets[i];
    assert c in n0[h].applets;
    NotInPrefix(n0[h].applets, i);
    assert n1[c] == n0[c];
    assert Loaded(h, true) in l1;
    AdmittedDepth(plugins, n0[h].pluginId, n0[c].pluginId, depth, top);
    DepthBounded(plugins, n0[c].pluginId, depth + 1, top);
  }

  /** All that loading the next child needs. */
  lemma ChildReady(plugins: seq<PluginMetaData>, n0: seq<Applet>, l0: seq<Event>, n1: seq<Applet>, l1: seq<Event>,
                   h: nat, i: nat, top: string, depth: nat)
    requires WellFormed(plugins) && RootUnclaimed(plugins)
    requires TreeShape(n0) && h < |n0| && i < |n0[h].applets| && Loaded(h, true) in l0
    requires ReadyChildren(plugins, n0, l0, h) && UpTo(n0, l0, h, true)
    requires LoadedSoFar(plugins, n0, l0, n1, l1, h, n0[h].applets[..i])
    requires Ancestor(plugins, n0[h].pluginId, depth) == Some(top) && !OnCycle(plugins, top)
    ensures var c := n0[h].applets[i];
            && c < |n0| && MayLoad(n1, l1, c) && n1[c].applets == [] && ChildData(n1, c) == []
            && Ancestor(plugins, n1[c].pluginId, depth + 1) == Some(top) && depth + 1 < |plugins|
            && DepthFirst(n1, l1) && MayFollow(n1, l1, c, true)
  {
    NextChild(plugins, n0, l0, n1, l1, h, i, top, depth);
    assert n0[h].applets[i] in n0[h].applets;
    NextUnbuilt(plugins, n0, n1, l1, h, i);
    ChildMayFollow(n0, l0, n1, l1, h, i, true);
  }

  lemma ChildDone(plugins: seq<PluginMetaData>, n0: seq<Applet>, l0: seq<Event>, n1: seq<Applet>, l1: seq<Event>,
                  n2: seq<Applet>, l2: seq<Event>, h: nat, i: nat, ok: bool)
    requires TreeShape(n0) && TreeShape(n2) && h < |n0| && i < |n0[h].applets| && LoadsInOrder(n2, l2)
    requires LoadedSoFar(plugins, n0, l0, n1, l1, h, n0[h].applets[..i])
    requires LoadEffect(n1, l1, n2, l2, n0[h].applets[i], ok)
    requires Built(plugins, n1, n2, l2, [n0[h].applets[i]]) && Orderly(n2, l1, l2, [n0[h].applets[i]])
    ensures LoadedSoFar(plugins, n0, l0, n2, l2, h, n0[h].applets[..i + 1])
  {
    OneChildMore(n1, n2, l0, l1, l2, n0[h].applets, i);
    OneChildLoaded(n0, l0, n1, l1, n2, l2, h, i, ok);
    OneChildBuilt(plugins, n0, l0, n1, l1, n2, l2, h, i, ok);
  }

  lemma OneChildLoaded(n0: seq<Applet>, l0: seq<Event>, n1: seq<Applet>, l1: seq<Event>,
                       n2: seq<Applet>, l2: seq<Event>, h: nat, i: nat, ok: bool)
    requires TreeShape(n0) && h < |n0| && i < |n0[h].applets|
    requires ChildrenLoaded(n0, l0, n1, l1, h, n0[h].applets[..i])
    requires LoadEffect(n1, l1, n2, l2, n0[h].applets[i], ok)
    ensures ChildrenLoaded(n0, l0, n2, l2, h, n0[h].applets[..i + 1])
  {
    var applets := n0[h].applets;
    var c := applets[i];
    assert c in applets;
    assert applets[..i + 1] == applets[..i] + [c];
    assert n1[c].parent == Some(h);
    forall j | 0 <= j < |n0| ensures n2[j] == n0[j].(applets := n2[j].applets) {
      assert n1[j] == n0[j].(applets := n1[j].applets);
    }
    forall x | 0 <= x < |n2| ensures IsLoaded(l2, x) <==> IsLoaded(l0, x) || x in applets[..i + 1] || x >= |n0| {
      if x < |n1| { assert IsLoaded(l1, x) <==> IsLoaded(l0, x) || x in applets[..i] || x >= |n0|; }
    }
  }

  lemma LoadOutcome(nodes: seq<Applet>, log: seq<Event>, h: nat, ok: bool)
    requires TreeShape(nodes) && Loading(nodes, log) && MayLoad(nodes, log, h)
    ensures var r := if ok then nodes else Unlisted(nodes, h);
            TreeShape(r) && Loading(r, log + [Loaded(h, ok)]) && |r| > 0 && r[0].parent == nodes[0].parent
  {
    AppendLoad(nodes, log, h, ok);
    if !ok {
      FailureUnlists(nodes, log, h);
    } else {
      SuccessKeepsListed(nodes, log, h);
    }
  }

  lemma SuccessKeepsListed(nodes: seq<Applet>, log: seq<Event>, h: nat)
    requires ListedDidNotFail(nodes, log)
    ensures ListedDidNotFail(nodes, log + [Loaded(h, true)])
  {
  }

  lemma FailureUnlists(nodes: seq<Applet>, log: seq<Event>, h: nat)
    requires TreeShape(nodes) && h < |nodes| && ListedDidNotFail(nodes, log)
    requires LoadsInOrder(nodes, log + [Loaded(h, false)])
    ensures var r, l := Unlisted(nodes, h), log + [Loaded(h, false)];
            TreeShape(r) && r[0].parent == nodes[0].parent && LoadsInOrder(r, l) && ListedDidNotFail(r, l)
  {
    UnlistedShape(nodes, h);
    LoadsStayInOrder(nodes, Unlisted(nodes, h), log + [Loaded(h, false)]);
  }

  lemma FailedLoad(n0: seq<Applet>, l0: seq<Event>, h: nat)
    requires TreeShape(n0) && Loading(n0, l0) && MayLoad(n0, l0, h)
    ensures LoadEffect(n0, l0, Unlisted(n0, h), l0 + [Loaded(h, false)], h, false)
  {
    AppendLoad(n0, l0, h, false);
    UnlistedShape(n0, h);
    assert (l0 + [Loaded(h, false)])[|l0|] == Loaded(h, false);
  }

  lemma NotYetKnown(nodes: seq<Applet>, log: seq<Event>, c: nat)
    requires LoadsInOrder(nodes, log) && c >= |nodes|
    ensures Loaded(c, false) !in log && !IsLoaded(log, c)
  {
  }

  lemma ChildrenStillLoading(n0: seq<Applet>, n2: seq<Applet>, log: seq<Event>, h: nat)
    requires TreeShape(n0) && TreeShape(n2) && Loading(n0, log) && h < |n0| <= |n2| && n0[h].applets == []
    requires forall i | 0 <= i < |n0| && i != h :: n2[i] == n0[i]
    requires n2[h] == n0[h].(applets := n2[h].applets)
    requires forall c | c in n2[h].applets :: c >= |n0|
    requires forall c | |n0| <= c < |n2| :: c in n2[h].applets && n2[c].applets == []
    ensures Loading(n2, log)
    ensures forall c | 0 <= c < |n2| :: c in n2[h].applets <==> c >= |n0|
    ensures forall c | c in n2[h].applets :: !IsLoaded(log, c)
  {
    LoadsStayInOrder(n0, n2, log);
    forall i, c | 0 <= i < |n2| && c in n2[i].applets ensures Loaded(c, false) !in log {
      if i == h { NotYetKnown(n0, log, c); }
    }
  }

  lemma WholeLoad(n0: seq<Applet>, l0: seq<Event>, l1: seq<Event>, n2: seq<Applet>, n3: seq<Applet>, l3: seq<Event>,
                  h: nat)
    requires TreeShape(n0) && TreeShape(n2) && h < |n0| <= |n2| && n0[h].applets == []
    requires l1 == l0 + [Loaded(h, true)] && forall x :: IsLoaded(l1, x) <==> IsLoaded(l0, x) || x == h
    requires forall i | 0 <= i < |n0| && i != h :: n2[i] == n0[i]
    requires n2[h] == n0[h].(applets := n2[h].applets)
    requires forall c | 0 <= c < |n2| :: c in n2[h].applets <==> c >= |n0|
    requires ChildrenLoaded(n2, l1, n3, l3, h, n2[h].applets)
    ensures LoadEffect(n0, l0, n3, l3, h, true)
  {
    assert l1[|l0|] == Loaded(h, true) && l3[|l0|] == l1[|l0|];
    forall i | 0 <= i < |n0| ensures n3[i] == n0[i].(applets := n3[i].applets) {
      assert n3[i] == n2[i].(applets := n3[i].applets);
    }
  }

  lemma NotRootPlugin(plugins: seq<PluginMetaData>, id: string, depth: nat, top: string)
    requires RootUnclaimed(plugins) && Ancestor(plugins, id, depth) == Some(top)
    ensures id != ROOT_PLUGIN && Lookup(plugins, id).Some?
  {
    var i := PositionOf(plugins, Lookup(plugins, id).value);
  }

  lemma AdmittedDepth(plugins: seq<PluginMetaData>, parentPlugin: string, pluginId: string, depth: nat, top: string)
    requires WellFormed(plugins) && RootUnclaimed(plugins)
    requires Ancestor(plugins, parentPlugin, depth) == Some(top) && Admitted(plugins, parentPlugin, pluginId)
    ensures Ancestor(plugins, pluginId, depth + 1) == Some(top)
  {
    NotRootPlugin(plugins, parentPlugin, depth, top);
    var children := Children(plugins, parentPlugin);
    var k :| 0 <= k < |children| && children[k].pluginId == pluginId;
    assert children[k] in children;
    ChildrenMeaning(plugins, parentPlugin, children[k]);
    ChildDepth(plugins, children[k], parentPlugin, top, depth);
  }

  // ---------- the initialising phase ----------

  ghost predicate Initing(nodes: seq<Applet>, log: seq<Event>) {
    && LoadsInOrder(nodes, log) && InitsInOrder(nodes, log)
    && ListedUnfailed(nodes, log)
  }

  ghost predicate ListedUnfailed(nodes: seq<Applet>, log: seq<Event>) {
    forall h, c | 0 <= h < |nodes| && c in nodes[h].applets :: Loaded(c, true) in log && Inited(c, false) !in log
  }

  ghost predicate MayInit(nodes: seq<Applet>, log: seq<Event>, h: nat) {
    && h < |nodes| && !IsInited(log, h) && Loaded(h, true) in log
    && (h != 0 ==> nodes[h].parent.Some? && Inited(nodes[h].parent.value, true) in log)
  }

  ghost predicate InitEffect(n0: seq<Applet>, l0: seq<Event>, n1: seq<Applet>, l1: seq<Event>, h: nat) {
    && TreeShape(n0) && FewerListed(n0, n1) && l0 <= l1 && IsInited(l1, h)
    && (forall x: nat :: IsInited(l1, x) ==> IsInited(l0, x) || (x < |n0| && Below(n0, x, h)))
    && (forall p: nat | p < |n1| && Inited(p, true) in l1 && Inited(p, true) !in l0 :: Finished(n1, l1, p))
  }

  /** Only the lists of children may have become shorter. */
  ghost predicate FewerListed(n0: seq<Applet>, n1: seq<Applet>) {
    && |n0| == |n1| && (forall i | 0 <= i < |n0| :: n1[i] == n0[i].(applets := n1[i].applets))
    && forall i, c | 0 <= i < |n0| && c in n1[i].applets :: c in n0[i].applets
  }

  /** The init of every listed child was called. */
  ghost predicate Finished(nodes: seq<Applet>, log: seq<Event>, p: nat)
    requires p < |nodes|
  {
    forall c | c in nodes[p].applets :: IsInited(log, c)
  }

  ghost predicate UninitedBelow(nodes: seq<Applet>, log: seq<Event>, h: nat)
    requires TreeShape(nodes)
  {
    forall x | 0 <= x < |nodes| && Below(nodes, x, h) :: !IsInited(log, x)
  }

  ghost predicate ChildrenInited(n0: seq<Applet>, l0: seq<Event>, n1: seq<Applet>, l1: seq<Event>, h: nat,
                                 done: seq<nat>)
  {
    && TreeShape(n0) && FewerListed(n0, n1) && l0 <= l1 && IsInited(l1, h)
    && (forall x: nat :: IsInited(l1, x) ==>
         IsInited(l0, x) || x == h || (x < |n0| && exists k :: 0 <= k < |done| && Below(n0, x, done[k])))
    && (forall c | c in done :: IsInited(l1, c))
    && (forall p: nat | p < |n1| && p != h && Inited(p, true) in l1 && Inited(p, true) !in l0 :: Finished(n1, l1, p))
  }

  lemma AppendInit(nodes: seq<Applet>, log: seq<Event>, h: nat, ok: bool)
    requires LoadsInOrder(nodes, log) && InitsInOrder(nodes, log) && MayInit(nodes, log, h)
    ensures InitsInOrder(nodes, log + [Inited(h, ok)]) && LoadsInOrder(nodes, log + [Inited(h, ok)])
    ensures forall x :: IsInited(log + [Inited(h, ok)], x) <==> IsInited(log, x) || x == h
  {
    var r := log + [Inited(h, ok)];
    forall i | 0 <= i < |r| ensures ParentSucceeded(nodes, r, i) {
      ParentSucceededLater(nodes, log, h, ok, i);
    }
    LoadedBeforeInited(nodes, log, h, ok);
    InitedOnce(log, h, ok);
  }

  lemma LoadedBeforeInited(nodes: seq<Applet>, log: seq<Event>, h: nat, ok: bool)
    requires InitsInOrder(nodes, log) && MayInit(nodes, log, h)
    ensures var r := log + [Inited(h, ok)]; forall i | 0 <= i < |r| && r[i].Inited? :: Loaded(r[i].applet, true) in r
  {
    var r := log + [Inited(h, ok)];
    forall i | 0 <= i < |r| && r[i].Inited? ensures Loaded(r[i].applet, true) in r {
      if i < |log| { assert Loaded(log[i].applet, true) in log; }
    }
  }

  lemma InitedOnce(log: seq<Event>, h: nat, ok: bool)
    ensures forall x :: IsInited(log + [Inited(h, ok)], x) <==> IsInited(log, x) || x == h
  {
    var r := log + [Inited(h, ok)];
    forall x ensures IsInited(r, x) <==> IsInited(log, x) || x == h {
      if IsInited(log, x) {
        var i :| 0 <= i < |log| && log[i].Inited? && log[i].applet == x;
        assert r[i].Inited? && r[i].applet == x;
      }
      if x == h { assert r[|log|].Inited? && r[|log|].applet == h; }
    }
  }

  lemma ParentSucceededLater(nodes: seq<Applet>, log: seq<Event>, h: nat, ok: bool, i: nat)
    requires LoadsInOrder(nodes, log) && InitsInOrder(nodes, log) && MayInit(nodes, log, h) && i <= |log|
    ensures ParentSucceeded(nodes, log + [Inited(h, ok)], i)
  {
    var r := log + [Inited(h, ok)];
    if r[i].applet != 0 {
      if i < |log| {
        assert ParentSucceeded(nodes, log, i);
        var parent := nodes[log[i].applet].parent.value;
        var k :| 0 <= k < i && log[k] == if log[i].Loaded? then Loaded(parent, true) else Inited(parent, true);
        assert r[k] == log[k];
      } else {
        var k :| 0 <= k < |log| && log[k] == Inited(nodes[h].parent.value, true);
        assert r[k] == log[k];
      }
    }
  }

  lemma InitsStayInOrder(a: seq<Applet>, b: seq<Applet>, log: seq<Event>)
    requires SameParents(a, b) && InitsInOrder(a, log)
    ensures InitsInOrder(b, log)
  {
    forall i | 0 <= i < |log| && log[i].Inited? ensures ParentSucceeded(b, log, i) {
      assert ParentSucceeded(a, log, i);
    }
  }

  lemma InitOutcome(nodes: seq<Applet>, log: seq<Event>, h: nat, ok: bool)
    requires TreeShape(nodes) && Initing(nodes, log) && MayInit(nodes, log, h)
    ensures var r := if ok then nodes else Unlisted(nodes, h);
            TreeShape(r) && Initing(r, log + [Inited(h, ok)]) && |r| > 0 && r[0].parent == nodes[0].parent
  {
    var r := if ok then nodes else Unlisted(nodes, h);
    var l := log + [Inited(h, ok)];
    AppendInit(nodes, log, h, ok);
    UnlistedShape(nodes, h);
    LoadsStayInOrder(nodes, r, l);
    InitsStayInOrder(nodes, r, l);
    StillUnfailed(nodes, log, h, ok);
  }

  lemma StillUnfailed(nodes: seq<Applet>, log: seq<Event>, h: nat, ok: bool)
    requires TreeShape(nodes) && h < |nodes| && ListedUnfailed(nodes, log)
    ensures ListedUnfailed(if ok then nodes else Unlisted(nodes, h), log + [Inited(h, ok)])
  {
    UnlistedShape(nodes, h);
  }

  lemma ListedLoaded(nodes: seq<Applet>, log: seq<Event>, h: nat)
    requires ListedUnfailed(nodes, log) && h < |nodes|
    ensures forall c | c in nodes[h].applets :: Loaded(c, true) in log
  {
  }

  lemma OwnInit(n0: seq<Applet>, l0: seq<Event>, n1: seq<Applet>, l1: seq<Event>, h: nat, ok: bool)
    requires TreeShape(n0) && Initing(n0, l0) && MayInit(n0, l0, h)
    requires n1 == (if ok then n0 else Unlisted(n0, h)) && l1 == l0 + [Inited(h, ok)]
    ensures Inited(h, ok) in l1 && ChildrenInited(n0, l0, n1, l1, h, []) && (!ok ==> InitEffect(n0, l0, n1, l1, h))
  {
    InitedOnce(l0, h, ok);
    UnlistedShape(n0, h);
    assert l1[|l0|] == Inited(h, ok);
    assert FewerListed(n0, n1);
    if !ok { FailedInit(n0, l0, n1, l1, h); }
  }

  lemma FailedInit(n0: seq<Applet>, l0: seq<Event>, n1: seq<Applet>, l1: seq<Event>, h: nat)
    requires TreeShape(n0) && h < |n0| && FewerListed(n0, n1) && l1 == l0 + [Inited(h, false)]
    requires forall x :: IsInited(l1, x) <==> IsInited(l0, x) || x == h
    ensures InitEffect(n0, l0, n1, l1, h)
  {
    assert Below(n0, h, h);
  }

  lemma NextInit(n0: seq<Applet>, l0: seq<Event>, n1: seq<Applet>, l1: seq<Event>, h: nat, i: nat)
    requires TreeShape(n0) && TreeShape(n1) && h < |n0| && i < |n0[h].applets|
    requires UninitedBelow(n0, l0, h)
    requires ChildrenInited(n0, l0, n1, l1, h, n0[h].applets[..i]) && Inited(h, true) in l1
    requires Loaded(n0[h].applets[i], true) in l0
    ensures MayInit(n1, l1, n0[h].applets[i]) && h < n0[h].applets[i]
    ensures UninitedBelow(n1, l1, n0[h].applets[i])
  {
    var applets := n0[h].applets;
    var c := applets[i];
    assert c in applets && n0[c].parent == Some(h);
    forall x | 0 <= x < |n1| && Below(n1, x, c) ensures !IsInited(l1, x) {
      BelowSameParents(n0, n1, x, c);
      BelowChild(n0, x, c, h);
      if k :| 0 <= k < i && Below(n0, x, applets[..i][k]) {
        assert applets[k] in applets;
        ChildrenApart(n0, x, h, applets[k], c);
      }
    }
    assert Below(n1, c, c);
  }

  lemma OneChildInited(n0: seq<Applet>, l0: seq<Event>, n1: seq<Applet>, l1: seq<Event>,
                       n2: seq<Applet>, l2: seq<Event>, h: nat, i: nat)
    requires TreeShape(n0) && TreeShape(n1) && h < |n0| && i < |n0[h].applets|
    requires ChildrenInited(n0, l0, n1, l1, h, n0[h].applets[..i])
    requires InitEffect(n1, l1, n2, l2, n0[h].applets[i])
    ensures ChildrenInited(n0, l0, n2, l2, h, n0[h].applets[..i + 1])
  {
    var done, more := n0[h].applets[..i], n0[h].applets[..i + 1];
    assert more == done + [n0[h].applets[i]];
    forall x: nat | IsInited(l2, x)
      ensures IsInited(l0, x) || x == h || (x < |n0| && exists k :: 0 <= k < |more| && Below(n0, x, more[k]))
    {
      if IsInited(l1, x) {
        if k :| x < |n0| && 0 <= k < |done| && Below(n0, x, done[k]) {
          assert more[k] == done[k];
        }
      } else {
        BelowSameParents(n0, n1, x, n0[h].applets[i]);
        assert more[i] == n0[h].applets[i];
      }
    }
  }

  lemma AllChildrenInited(n0: seq<Applet>, l0: seq<Event>, n1: seq<Applet>, l1: seq<Event>, h: nat, done: seq<nat>)
    requires ChildrenInited(n0, l0, n1, l1, h, done) && h < |n0| && done == n0[h].applets
    ensures InitEffect(n0, l0, n1, l1, h)
  {
    forall x: nat | IsInited(l1, x) ensures IsInited(l0, x) || (x < |n0| && Below(n0, x, h)) {
      if x == h {
        assert Below(n0, x, h);
      } else if !IsInited(l0, x) {
        var k :| 0 <= k < |done| && Below(n0, x, done[k]);
        assert done[k] in n0[h].applets;
        BelowChild(n0, x, done[k], h);
      }
    }
  }

  lemma AllLoaded(n0: seq<Applet>, nodes: seq<Applet>, log: seq<Event>)
    requires TreeShape(nodes) && Loading(nodes, log) && |n0| == 1 && LoadEffect(n0, [], nodes, log, 0, true)
    ensures Initing(nodes, log) && MayInit(nodes, log, 0)
    ensures forall x | 0 <= x < |nodes| :: IsLoaded(log, x)
    ensures forall x :: !IsInited(log, x)
  {
    forall h, c | 0 <= h < |nodes| && c in nodes[h].applets ensures Loaded(c, true) in log && Inited(c, false) !in log {
      assert c < |nodes| && IsLoaded(log, c);
      var i :| 0 <= i < |log| && log[i].Loaded? && log[i].applet == c;
      assert log[i] == Loaded(c, log[i].ok);
    }
  }

  lemma StillLoaded(nodes: seq<Applet>, l0: seq<Event>, l1: seq<Event>)
    requires l0 <= l1 && forall x | 0 <= x < |nodes| :: IsLoaded(l0, x)
    ensures forall x | 0 <= x < |nodes| :: IsLoaded(l1, x)
  {
    forall x | 0 <= x < |nodes| ensures IsLoaded(l1, x) {
      assert IsLoaded(l0, x);
      var i :| 0 <= i < |l0| && l0[i].Loaded? && l0[i].applet == x;
      assert l1[i] == l0[i];
    }
  }

  /** Below an applet of an installed plugin, what is admitted is exactly its installed child plugins. */
  lemma AdmittedIff(plugins: seq<PluginMetaData>, parentPlugin: string, pluginId: string)
    requires WellFormed(plugins) && RootUnclaimed(plugins) && Lookup(plugins, parentPlugin).Some?
    ensures Admitted(plugins, parentPlugin, pluginId) <==>
              exists p :: p in plugins && p.pluginId == pluginId && p.parentId == parentPlugin
  {
    var children := Children(plugins, parentPlugin);
    var parent := PositionOf(plugins, Lookup(plugins, parentPlugin).value);
    if Admitted(plugins, parentPlugin, pluginId) {
      var k :| 0 <= k < |children| && children[k].pluginId == pluginId;
      ChildrenMeaning(plugins, parentPlugin, children[k]);
    }
    if p :| p in plugins && p.pluginId == pluginId && p.parentId == parentPlugin {
      ChildrenMeaning(plugins, parentPlugin, p);
      var k := PositionOf(children, p);
    }
  }

  /** createApplet's check: a child plugin, unless the parent is the root applet. */
  predicate Admitted(plugins: seq<PluginMetaData>, parentPlugin: string, pluginId: string) {
    var children := Children(plugins, parentPlugin);
    && MetaData(plugins, pluginId).Some?
    && (parentPlugin == ROOT_PLUGIN || exists k | 0 <= k < |children| :: children[k].pluginId == pluginId)
  }
}
