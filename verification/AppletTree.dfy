/** The tree of applets, as a table: an applet is known by the number under which it was created. */
module AppletTree {
  import opened Lists

  /** The nested configuration of an applet; an empty group list means "all child plugins". */
  datatype AppletData = AppletData(pluginId: string, groups: seq<AppletData>)

  datatype Applet = Applet(pluginId: string, data: AppletData, containment: bool, parent: Option<nat>,
                           applets: seq<nat>)

  ghost predicate Ascending(s: seq<nat>) {
    forall j, k | 0 <= j < k < |s| :: s[j] < s[k]
  }

  /** Children are created after their parent, know it, and are listed once, in the order of their creation; only
      containments have any. */
  ghost predicate TreeShape(nodes: seq<Applet>) {
    && (forall h | 0 <= h < |nodes| && nodes[h].parent.Some? :: nodes[h].parent.value < h)
    && (forall h | 0 <= h < |nodes| ::
         && Ascending(nodes[h].applets)
         && (nodes[h].applets != [] ==> nodes[h].containment)
         && forall c | c in nodes[h].applets :: h < c < |nodes| && nodes[c].parent == Some(h))
  }

  /** x is top or was created somewhere below it. */
  ghost predicate Below(nodes: seq<Applet>, x: nat, top: nat)
    requires TreeShape(nodes) && x < |nodes|
    decreases x
  {
    x == top || (nodes[x].parent.Some? && Below(nodes, nodes[x].parent.value, top))
  }

  lemma {:induction false} BelowIsLater(nodes: seq<Applet>, x: nat, top: nat)
    requires TreeShape(nodes) && x < |nodes| && Below(nodes, x, top)
    ensures top <= x
    decreases x
  {
    if x != top { BelowIsLater(nodes, nodes[x].parent.value, top); }
  }

  /** Different children of one applet have nothing below them in common. */
  lemma {:induction false} ChildrenApart(nodes: seq<Applet>, x: nat, h: nat, a: nat, b: nat)
    requires TreeShape(nodes) && x < |nodes| && a < |nodes| && b < |nodes|
    requires nodes[a].parent == Some(h) && nodes[b].parent == Some(h)
    requires Below(nodes, x, a) && Below(nodes, x, b)
    ensures a == b
    decreases x
  {
    if x == a && x != b {
      BelowIsLater(nodes, h, b);
    } else if x == b && x != a {
      BelowIsLater(nodes, h, a);
    } else if x != a {
      ChildrenApart(nodes, nodes[x].parent.value, h, a, b);
    }
  }

  lemma {:induction false} BelowChild(nodes: seq<Applet>, x: nat, c: nat, h: nat)
    requires TreeShape(nodes) && x < |nodes| && c < |nodes| && nodes[c].parent == Some(h) && Below(nodes, x, c)
    ensures Below(nodes, x, h) && x != h
    decreases x
  {
    if x != c { BelowChild(nodes, nodes[x].parent.value, c, h); }
    BelowIsLater(nodes, x, c);
  }

  /** Tables with the same parent links have the same applets below. */
  lemma {:induction false} BelowSameParents(a: seq<Applet>, b: seq<Applet>, x: nat, top: nat)
    requires TreeShape(a) && TreeShape(b) && x < |a| <= |b|
    requires forall i | 0 <= i < |a| :: a[i].parent == b[i].parent
    ensures Below(a, x, top) <==> Below(b, x, top)
    decreases x
  {
    if x != top && a[x].parent.Some? { BelowSameParents(a, b, a[x].parent.value, top); }
  }

  /** x is listed below top: it is a child of something listed below, or of top itself. */
  ghost predicate ListedBelow(nodes: seq<Applet>, x: nat, top: nat)
    requires TreeShape(nodes) && x < |nodes|
    decreases x
  {
    && x != top && nodes[x].parent.Some? && x in nodes[nodes[x].parent.value].applets
    && (nodes[x].parent.value == top || ListedBelow(nodes, nodes[x].parent.value, top))
  }

  lemma {:induction false} ListedIsBelow(nodes: seq<Applet>, x: nat, top: nat)
    requires TreeShape(nodes) && x < |nodes| && ListedBelow(nodes, x, top)
    ensures Below(nodes, x, top)
    decreases x
  {
    if nodes[x].parent.value != top { ListedIsBelow(nodes, nodes[x].parent.value, top); }
  }

  /** An applet, then what is listed below it, child after child. */
  function Preorder(nodes: seq<Applet>, h: nat): seq<nat>
    requires TreeShape(nodes) && h < |nodes|
    decreases |nodes| - h, 0
  {
    ListedLater(nodes, h);
    [h] + PreorderFrom(nodes, h, 0)
  }

  function PreorderFrom(nodes: seq<Applet>, h: nat, i: nat): seq<nat>
    requires TreeShape(nodes) && h < |nodes| && i <= |nodes[h].applets|
    decreases |nodes| - h - 1, |nodes[h].applets| - i + 1
  {
    if i == |nodes[h].applets| then []
    else
      ListedLater(nodes, h);
      Preorder(nodes, nodes[h].applets[i]) + PreorderFrom(nodes, h, i + 1)
  }

  lemma ListedLater(nodes: seq<Applet>, h: nat)
    requires TreeShape(nodes) && h < |nodes|
    ensures forall k | 0 <= k < |nodes[h].applets| ::
              h < nodes[h].applets[k] < |nodes| && nodes[nodes[h].applets[k]].parent == Some(h)
  {
    forall k | 0 <= k < |nodes[h].applets|
      ensures h < nodes[h].applets[k] < |nodes| && nodes[nodes[h].applets[k]].parent == Some(h)
    {
      assert nodes[h].applets[k] in nodes[h].applets;
    }
  }

  ghost predicate AtOrBelow(nodes: seq<Applet>, x: nat, top: nat)
    requires TreeShape(nodes) && x < |nodes|
  {
    x == top || ListedBelow(nodes, x, top)
  }

  /** What is listed below an applet is one of its children or below one. */
  lemma {:induction false} ListedSplit(nodes: seq<Applet>, x: nat, h: nat)
    requires TreeShape(nodes) && x < |nodes| && h < |nodes|
    ensures ListedBelow(nodes, x, h) <==> exists c :: c in nodes[h].applets && AtOrBelow(nodes, x, c)
    decreases x
  {
    if nodes[x].parent.Some? {
      var p := nodes[x].parent.value;
      ListedSplit(nodes, p, h);
      if ListedBelow(nodes, x, h) && p != h {
        var c :| c in nodes[h].applets && AtOrBelow(nodes, p, c);
        if p != c { ListedIsBelow(nodes, p, c); }
        BelowIsLater(nodes, p, c);
        assert AtOrBelow(nodes, x, c);
      }
      if c :| c in nodes[h].applets && AtOrBelow(nodes, x, c) {
        assert nodes[c].parent == Some(h) && h < c;
        if x != c {
          assert AtOrBelow(nodes, p, c);
          ListedIsBelow(nodes, x, c);
          BelowIsLater(nodes, x, c);
        }
      }
    }
  }

  /** The walk meets every applet listed below once. */
  lemma PreorderMeaning(nodes: seq<Applet>, h: nat)
    requires TreeShape(nodes) && h < |nodes|
    ensures Distinct(Preorder(nodes, h))
    ensures forall x: nat :: x in Preorder(nodes, h) <==> x < |nodes| && AtOrBelow(nodes, x, h)
    decreases |nodes| - h, 0
  {
    var rest := PreorderFrom(nodes, h, 0);
    PreorderFromMeaning(nodes, h, 0);
    forall x: nat ensures x in rest <==> x < |nodes| && ListedBelow(nodes, x, h) {
      if x < |nodes| { ListedSplit(nodes, x, h); }
    }
    ConcatDistinct([h], rest);
  }

  lemma {:induction false} PreorderFromMeaning(nodes: seq<Applet>, h: nat, i: nat)
    requires TreeShape(nodes) && h < |nodes| && i <= |nodes[h].applets|
    ensures Distinct(PreorderFrom(nodes, h, i))
    ensures forall x: nat :: x in PreorderFrom(nodes, h, i) <==>
              x < |nodes| && exists c :: c in nodes[h].applets[i..] && AtOrBelow(nodes, x, c)
    decreases |nodes| - h - 1, |nodes[h].applets| - i + 1
  {
    if i < |nodes[h].applets| {
      var applets := nodes[h].applets;
      ListedLater(nodes, h);
      var first, rest := Preorder(nodes, applets[i]), PreorderFrom(nodes, h, i + 1);
      PreorderMeaning(nodes, applets[i]);
      PreorderFromMeaning(nodes, h, i + 1);
      assert applets[i..] == [applets[i]] + applets[i + 1..];
      forall x | x in rest ensures x !in first {
        var c :| c in applets[i + 1..] && AtOrBelow(nodes, x, c);
        ApartUnder(nodes, h, i, c, x);
      }
      ConcatDistinct(first, rest);
    }
  }

  lemma ApartUnder(nodes: seq<Applet>, h: nat, i: nat, c: nat, x: nat)
    requires TreeShape(nodes) && h < |nodes| && i < |nodes[h].applets| && c in nodes[h].applets[i + 1..] && x < |nodes|
    requires AtOrBelow(nodes, x, c)
    ensures !AtOrBelow(nodes, x, nodes[h].applets[i])
  {
    var d := nodes[h].applets[i];
    ListedLater(nodes, h);
    if AtOrBelow(nodes, x, d) {
      if x != c { ListedIsBelow(nodes, x, c); }
      if x != d { ListedIsBelow(nodes, x, d); }
      ChildrenApart(nodes, x, h, c, d);
    }
  }

  /** A new applet, listed last under applet h. */
  function WithChild(nodes: seq<Applet>, h: nat, applet: Applet): (r: seq<Applet>)
    requires h < |nodes|
    ensures |r| == |nodes| + 1
  {
    nodes[h := nodes[h].(applets := nodes[h].applets + [|nodes|])] + [applet]
  }

  lemma WithChildShape(nodes: seq<Applet>, h: nat, applet: Applet)
    requires TreeShape(nodes) && h < |nodes| && nodes[h].containment && applet.parent == Some(h) && applet.applets == []
    ensures TreeShape(WithChild(nodes, h, applet))
  {
    var r := WithChild(nodes, h, applet);
    forall i | 0 <= i < |r|
      ensures Ascending(r[i].applets)
      ensures r[i].applets != [] ==> r[i].containment
      ensures forall c | c in r[i].applets :: i < c < |r| && r[c].parent == Some(i)
    {
      if i == h {
        forall j, k | 0 <= j < k < |r[h].applets| ensures r[h].applets[j] < r[h].applets[k] {
          assert nodes[h].applets[j] in nodes[h].applets;
        }
      }
    }
  }

  /** removeApplet: h is no longer listed under its parent. */
  function Unlisted(nodes: seq<Applet>, h: nat): (r: seq<Applet>)
    requires h < |nodes|
    ensures |r| == |nodes|
  {
    match nodes[h].parent
    case None => nodes
    case Some(p) =>
      if p < |nodes| && h in nodes[p].applets then
        nodes[p := nodes[p].(applets := RemoveAt(nodes[p].applets, IndexOf(nodes[p].applets, h)))]
      else nodes
  }

  lemma UnlistedShape(nodes: seq<Applet>, h: nat)
    requires TreeShape(nodes) && h < |nodes|
    ensures var r := Unlisted(nodes, h);
            && TreeShape(r)
            && (forall i | 0 <= i < |r| :: r[i] == nodes[i].(applets := r[i].applets))
            && (forall i | 0 <= i < |r| && Some(i) != nodes[h].parent :: r[i] == nodes[i])
            && (forall i, c | 0 <= i < |r| && c in r[i].applets :: c in nodes[i].applets && c != h)
            && (forall i, c | 0 <= i < |r| && c in nodes[i].applets && c != h :: c in r[i].applets)
  {
    if nodes[h].parent.Some? && h in nodes[nodes[h].parent.value].applets {
      RemovedMembers(nodes[nodes[h].parent.value].applets, h);
    }
  }

  lemma RemovedMembers(s: seq<nat>, x: nat)
    requires Ascending(s) && x in s
    ensures var r := RemoveAt(s, IndexOf(s, x)); Ascending(r) && forall c :: c in r <==> c in s && c != x
  {
    var i := IndexOf(s, x);
    var r := RemoveAt(s, i);
    forall c | c in s && c != x ensures c in r {
      var k :| 0 <= k < |s| && s[k] == c;
      assert r[if k < i then k else k - 1] == c;
    }
  }

  // ---------- what happened to the applets ----------

  datatype Event = Loaded(applet: nat, ok: bool) | Inited(applet: nat, ok: bool)

  ghost predicate IsLoaded(log: seq<Event>, x: nat) {
    exists i :: 0 <= i < |log| && log[i].Loaded? && log[i].applet == x
  }

  ghost predicate IsInited(log: seq<Event>, x: nat) {
    exists i :: 0 <= i < |log| && log[i].Inited? && log[i].applet == x
  }

  /** load: at most once per applet, only for created ones, and for all but the start applet after the
      parent's load succeeded. */
  ghost predicate LoadsInOrder(nodes: seq<Applet>, log: seq<Event>) {
    && (forall i, j | 0 <= i < j < |log| && log[i].Loaded? && log[j].Loaded? :: log[i].applet != log[j].applet)
    && (forall i | 0 <= i < |log| && log[i].Loaded? :: log[i].applet < |nodes|)
    && (forall i {:trigger ParentSucceeded(nodes, log, i)} | 0 <= i < |log| ::
         log[i].Loaded? ==> ParentSucceeded(nodes, log, i))
  }

  /** The start applet, or one whose parent went through the same step with success before. */
  ghost predicate ParentSucceeded(nodes: seq<Applet>, log: seq<Event>, i: nat)
    requires i < |log| && log[i].applet < |nodes|
  {
    var parent := nodes[log[i].applet].parent;
    log[i].applet != 0 ==>
    && parent.Some?
    && exists k :: 0 <= k < i && (if log[i].Loaded? then log[k] == Loaded(parent.value, true)
                                  else log[k] == Inited(parent.value, true))
  }

  /** init: at most once per applet, only after its own load succeeded, and for all but the start applet
      after the parent's init succeeded; and no load comes after an init. */
  ghost predicate InitsInOrder(nodes: seq<Applet>, log: seq<Event>) {
    && (forall i, j | 0 <= i < j < |log| && log[i].Inited? && log[j].Inited? :: log[i].applet != log[j].applet)
    && (forall i | 0 <= i < |log| && log[i].Inited? ::
         && log[i].applet < |nodes|
         && Loaded(log[i].applet, true) in log)
    && (forall i {:trigger ParentSucceeded(nodes, log, i)} | 0 <= i < |log| ::
         log[i].Inited? ==> ParentSucceeded(nodes, log, i))
    && (forall i, j | 0 <= i < j < |log| && log[i].Inited? :: log[j].Inited?)
  }

  /** Who is still listed as a child has not failed so far. */
  ghost predicate ListedDidNotFail(nodes: seq<Applet>, log: seq<Event>) {
    forall h, c | 0 <= h < |nodes| && c in nodes[h].applets :: Loaded(c, false) !in log
  }

  ghost predicate SameParents(a: seq<Applet>, b: seq<Applet>) {
    |a| <= |b| && forall i | 0 <= i < |a| :: a[i].parent == b[i].parent
  }

  lemma LoadsStayInOrder(a: seq<Applet>, b: seq<Applet>, log: seq<Event>)
    requires SameParents(a, b) && LoadsInOrder(a, log)
    ensures LoadsInOrder(b, log)
  {
    forall i | 0 <= i < |log| && log[i].Loaded? ensures ParentSucceeded(b, log, i) {
      assert ParentSucceeded(a, log, i);
    }
  }

  lemma AppendLoad(nodes: seq<Applet>, log: seq<Event>, h: nat, ok: bool)
    requires h < |nodes| && LoadsInOrder(nodes, log) && !IsLoaded(log, h)
    requires h != 0 ==> nodes[h].parent.Some? && Loaded(nodes[h].parent.value, true) in log
    ensures LoadsInOrder(nodes, log + [Loaded(h, ok)])
    ensures forall x :: IsLoaded(log + [Loaded(h, ok)], x) <==> IsLoaded(log, x) || x == h
  {
    var r := log + [Loaded(h, ok)];
    forall i | 0 <= i < |r| && r[i].Loaded? ensures ParentSucceeded(nodes, r, i) {
      if r[i].applet == 0 {
      } else if i < |log| {
        assert ParentSucceeded(nodes, log, i);
        var k :| 0 <= k < i && log[k] == Loaded(nodes[log[i].applet].parent.value, true);
        assert r[k] == log[k];
      } else {
        var k :| 0 <= k < |log| && log[k] == Loaded(nodes[h].parent.value, true);
        assert r[k] == log[k];
      }
    }
    forall x ensures IsLoaded(r, x) <==> IsLoaded(log, x) || x == h {
      if IsLoaded(log, x) {
        var i :| 0 <= i < |log| && log[i].Loaded? && log[i].applet == x;
        assert r[i].Loaded? && r[i].applet == x;
      }
      if x == h { assert r[|log|].Loaded? && r[|log|].applet == h; }
    }
  }

  /** Everything above an applet whose init was called was loaded and initialised with success. */
  lemma {:induction false} InitNeedsAllAncestors(nodes: seq<Applet>, log: seq<Event>, x: nat, i: nat, top: nat)
    requires TreeShape(nodes) && InitsInOrder(nodes, log) && nodes != [] && nodes[0].parent == None
    requires i < |log| && log[i].Inited? && log[i].applet == x
    requires x < |nodes| && Below(nodes, x, top)
    ensures Loaded(top, true) in log
    ensures top != x ==> exists k :: 0 <= k < i && log[k] == Inited(top, true)
    decreases x
  {
    if top != x {
      var parent := nodes[x].parent.value;
      assert ParentSucceeded(nodes, log, i);
      var k :| 0 <= k < i && log[k] == Inited(parent, true);
      InitNeedsAllAncestors(nodes, log, parent, k, top);
      if top != parent {
        var m :| 0 <= m < k && log[m] == Inited(top, true);
      }
    }
  }

  // ---------- which children were created, and which are still listed ----------

  function DataOfChild(p: nat): Applet -> Option<AppletData> {
    (a: Applet) => if a.parent == Some(p) then Some(a.data) else None
  }

  /** The configurations of the applets created under p, in the order of their creation. */
  function ChildData(nodes: seq<Applet>, p: nat): seq<AppletData> {
    FilterMap(nodes, DataOfChild(p))
  }

  lemma {:induction false} ChildDataSame(a: seq<Applet>, b: seq<Applet>, p: nat)
    requires |a| == |b| && forall i | 0 <= i < |a| :: a[i].parent == b[i].parent && a[i].data == b[i].data
    ensures ChildData(a, p) == ChildData(b, p)
  {
    if a != [] { ChildDataSame(a[1..], b[1..], p); }
  }

  lemma ChildDataWithChild(nodes: seq<Applet>, h: nat, applet: Applet, p: nat)
    requires h < |nodes|
    ensures ChildData(WithChild(nodes, h, applet), p)
         == ChildData(nodes, p) + if applet.parent == Some(p) then [applet.data] else []
  {
    var listed := nodes[h := nodes[h].(applets := nodes[h].applets + [|nodes|])];
    ChildDataSame(nodes, listed, p);
    FilterMapConcat(listed, [applet], DataOfChild(p));
    assert [applet][1..] == [];
  }

  lemma {:induction false} NoChildrenYet(nodes: seq<Applet>, p: nat)
    requires forall i | 0 <= i < |nodes| :: nodes[i].parent != Some(p)
    ensures ChildData(nodes, p) == []
  {
    if nodes != [] { NoChildrenYet(nodes[1..], p); }
  }

  /** `datas` were created under h since n0, and nothing else was. */
  ghost predicate Added(n0: seq<Applet>, n1: seq<Applet>, h: nat, datas: seq<AppletData>) {
    forall p | 0 <= p < |n1| ::
      ChildData(n1, p) == if p == h then ChildData(n0, h) + datas else if p < |n0| then ChildData(n0, p) else []
  }

  lemma AddedOne(n0: seq<Applet>, n1: seq<Applet>, h: nat, datas: seq<AppletData>, applet: Applet)
    requires TreeShape(n1) && h < |n0| <= |n1| && Added(n0, n1, h, datas) && applet.parent == Some(h)
    ensures Added(n0, WithChild(n1, h, applet), h, datas + [applet.data])
  {
    forall p | 0 <= p < |n1| + 1
      ensures ChildData(WithChild(n1, h, applet), p)
           == if p == h then ChildData(n0, h) + (datas + [applet.data]) else if p < |n0| then ChildData(n0, p) else []
    {
      ChildDataWithChild(n1, h, applet, p);
      if p == |n1| { NoChildrenYet(n1, p); }
    }
  }

  /** Who is not listed under its parent has failed. */
  ghost predicate MissingFailed(nodes: seq<Applet>, log: seq<Event>) {
    forall c, p | 0 <= p < c < |nodes| && nodes[c].parent == Some(p) && c !in nodes[p].applets ::
      Loaded(c, false) in log || Inited(c, false) in log
  }

  lemma WithChildMissing(nodes: seq<Applet>, log: seq<Event>, h: nat, applet: Applet)
    requires h < |nodes| && MissingFailed(nodes, log) && applet.parent == Some(h)
    ensures MissingFailed(WithChild(nodes, h, applet), log)
  {
    var r := WithChild(nodes, h, applet);
    assert r[h].applets[|nodes[h].applets|] == |nodes|;
  }

  lemma OutcomeMissing(nodes: seq<Applet>, log: seq<Event>, e: Event)
    requires TreeShape(nodes) && MissingFailed(nodes, log) && e.applet < |nodes|
    ensures MissingFailed(if e.ok then nodes else Unlisted(nodes, e.applet), log + [e])
  {
    var r := if e.ok then nodes else Unlisted(nodes, e.applet);
    assert (log + [e])[|log|] == e;
    UnlistedShape(nodes, e.applet);
    forall c, p | 0 <= p < c < |r| && r[c].parent == Some(p) && c !in r[p].applets
      ensures Loaded(c, false) in log + [e] || Inited(c, false) in log + [e]
    {
      if !e.ok && c in nodes[p].applets { assert c == e.applet; }
    }
  }

  /** An applet is loaded once, so what its load returned does not change. */
  lemma SameOutcome(nodes: seq<Applet>, l0: seq<Event>, l1: seq<Event>, x: nat)
    requires l0 <= l1 && LoadsInOrder(nodes, l1) && IsLoaded(l0, x)
    ensures Loaded(x, true) in l1 <==> Loaded(x, true) in l0
  {
    var i :| 0 <= i < |l0| && l0[i].Loaded? && l0[i].applet == x;
    assert l1[i] == l0[i];
    if Loaded(x, true) in l1 {
      var j :| 0 <= j < |l1| && l1[j] == Loaded(x, true);
      assert i == j;
    }
  }
}
