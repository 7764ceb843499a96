/** The order in which a recursion over the applets meets them: an applet before everything below it, and an
    earlier child with all below it before a later one. */
module AppletOrder {
  import opened Lists
  import opened AppletTree

  /** u and v hang below different children of one applet, u below the earlier one. */
  ghost predicate EarlierBranch(nodes: seq<Applet>, u: nat, v: nat)
    requires TreeShape(nodes) && u < |nodes| && v < |nodes|
  {
    exists a: nat, b: nat ::
      a < b < |nodes| && nodes[a].parent.Some? && nodes[a].parent == nodes[b].parent
      && Below(nodes, u, a) && Below(nodes, v, b)
  }

  ghost predicate Before(nodes: seq<Applet>, u: nat, v: nat)
    requires TreeShape(nodes) && u < |nodes| && v < |nodes|
  {
    u != v && (Below(nodes, v, u) || EarlierBranch(nodes, u, v))
  }

  lemma {:induction false} BelowTransitive(nodes: seq<Applet>, x: nat, y: nat, z: nat)
    requires TreeShape(nodes) && x < |nodes| && y < |nodes| && Below(nodes, x, y) && Below(nodes, y, z)
    ensures Below(nodes, x, z)
    decreases x
  {
    if x != y { BelowTransitive(nodes, nodes[x].parent.value, y, z); }
  }

  /** Of two applets above a third, one is above the other. */
  lemma {:induction false} AboveBoth(nodes: seq<Applet>, x: nat, a: nat, b: nat)
    requires TreeShape(nodes) && x < |nodes| && a < |nodes| && b < |nodes| && Below(nodes, x, a) && Below(nodes, x, b)
    ensures Below(nodes, a, b) || Below(nodes, b, a)
    decreases x
  {
    if x != a && x != b { AboveBoth(nodes, nodes[x].parent.value, a, b); }
  }

  lemma NoEarlierAncestor(nodes: seq<Applet>, u: nat, v: nat)
    requires TreeShape(nodes) && u < |nodes| && v < |nodes| && EarlierBranch(nodes, u, v)
    ensures u != v && !Below(nodes, u, v) && !Below(nodes, v, u)
  {
    var a: nat, b: nat :| a < b < |nodes| && nodes[a].parent.Some? && nodes[a].parent == nodes[b].parent
                          && Below(nodes, u, a) && Below(nodes, v, b);
    var p := nodes[a].parent.value;
    if Below(nodes, u, v) {
      BelowTransitive(nodes, u, v, b);
      ChildrenApart(nodes, u, p, a, b);
    }
    if Below(nodes, v, u) {
      BelowTransitive(nodes, v, u, a);
      ChildrenApart(nodes, v, p, a, b);
    }
  }

  /** Two pairs of children that u and v hang below are the same pair. */
  lemma SameBranches(nodes: seq<Applet>, u: nat, v: nat, a: nat, b: nat, c: nat, d: nat)
    requires TreeShape(nodes) && u < |nodes| && v < |nodes| && a < |nodes| && b < |nodes| && c < |nodes| && d < |nodes|
    requires nodes[a].parent.Some? && nodes[a].parent == nodes[b].parent && a != b
    requires nodes[c].parent.Some? && nodes[c].parent == nodes[d].parent && c != d
    requires Below(nodes, u, a) && Below(nodes, v, b) && Below(nodes, u, c) && Below(nodes, v, d)
    ensures a == c && b == d
  {
    AboveBoth(nodes, u, a, c);
    if a != c {
      var up, down, other := if Below(nodes, a, c) then c else a, if Below(nodes, a, c) then a else c,
                             if Below(nodes, a, c) then b else d;
      var p := nodes[down].parent.value;
      assert Below(nodes, p, up) && Below(nodes, other, p);
      BelowTransitive(nodes, other, p, up);
      BelowTransitive(nodes, v, other, up);
      ChildrenApart(nodes, v, nodes[up].parent.value, up, if Below(nodes, a, c) then d else b);
    } else {
      ChildrenApart(nodes, v, nodes[a].parent.value, b, d);
    }
  }

  /** No two applets come before each other, so a list in this order is the only one with its members. */
  lemma BeforeOneWay(nodes: seq<Applet>, u: nat, v: nat)
    requires TreeShape(nodes) && u < |nodes| && v < |nodes| && Before(nodes, u, v)
    ensures !Before(nodes, v, u)
  {
    if Below(nodes, v, u) {
      BelowIsLater(nodes, v, u);
      if Below(nodes, u, v) { BelowIsLater(nodes, u, v); }
      if EarlierBranch(nodes, v, u) { NoEarlierAncestor(nodes, v, u); }
    } else {
      NoEarlierAncestor(nodes, u, v);
      if EarlierBranch(nodes, v, u) {
        var a: nat, b: nat :| a < b < |nodes| && nodes[a].parent.Some? && nodes[a].parent == nodes[b].parent
                              && Below(nodes, u, a) && Below(nodes, v, b);
        var c: nat, d: nat :| c < d < |nodes| && nodes[c].parent.Some? && nodes[c].parent == nodes[d].parent
                              && Below(nodes, v, c) && Below(nodes, u, d);
        SameBranches(nodes, u, v, a, b, d, c);
      }
    }
  }

  lemma BeforeBelow(nodes: seq<Applet>, u: nat, h: nat, c: nat)
    requires TreeShape(nodes) && u < |nodes| && h < |nodes| && c < |nodes| && Below(nodes, c, h)
    requires if u == h then c != h else Before(nodes, u, h)
    ensures Before(nodes, u, c)
  {
    if u != h {
      if Below(nodes, h, u) {
        BelowTransitive(nodes, c, h, u);
        BelowIsLater(nodes, h, u);
        BelowIsLater(nodes, c, h);
      } else {
        var a: nat, b: nat :| a < b < |nodes| && nodes[a].parent.Some? && nodes[a].parent == nodes[b].parent
                              && Below(nodes, u, a) && Below(nodes, h, b);
        BelowTransitive(nodes, c, h, b);
        NoEarlierAncestor(nodes, u, c);
      }
    }
  }

  lemma BeforeStable(n0: seq<Applet>, n1: seq<Applet>, u: nat, v: nat)
    requires TreeShape(n0) && TreeShape(n1) && SameParents(n0, n1) && u < |n0| && v < |n0| && Before(n0, u, v)
    ensures Before(n1, u, v)
  {
    BelowSameParents(n0, n1, v, u);
    if EarlierBranch(n0, u, v) {
      var a: nat, b: nat :| a < b < |n0| && n0[a].parent.Some? && n0[a].parent == n0[b].parent
                            && Below(n0, u, a) && Below(n0, v, b);
      BelowSameParents(n0, n1, u, a);
      BelowSameParents(n0, n1, v, b);
    }
  }

  // ---------- the walk over what is listed ----------

  ghost predicate InTreeOrder(nodes: seq<Applet>, s: seq<nat>)
    requires TreeShape(nodes)
  {
    && (forall i | 0 <= i < |s| :: s[i] < |nodes|)
    && forall i, j | 0 <= i < j < |s| :: Before(nodes, s[i], s[j])
  }

  /** The walk over the listed applets is in this order. */
  lemma PreorderInOrder(nodes: seq<Applet>, h: nat)
    requires TreeShape(nodes) && h < |nodes|
    ensures InTreeOrder(nodes, Preorder(nodes, h))
    ensures forall x | x in Preorder(nodes, h) :: Below(nodes, x, h)
    decreases |nodes| - h, 0
  {
    var rest := PreorderFrom(nodes, h, 0);
    PreorderMeaning(nodes, h);
    PreorderFromInOrder(nodes, h, 0);
    forall x | x in Preorder(nodes, h) ensures Below(nodes, x, h) {
      if x != h { ListedIsBelow(nodes, x, h); }
    }
    forall k | 0 <= k < |rest| ensures Before(nodes, h, rest[k]) {
      assert rest[k] == Preorder(nodes, h)[k + 1] && rest[k] != Preorder(nodes, h)[0];
    }
    assert Preorder(nodes, h) == [h] + rest;
  }

  lemma {:induction false} PreorderFromInOrder(nodes: seq<Applet>, h: nat, i: nat)
    requires TreeShape(nodes) && h < |nodes| && i <= |nodes[h].applets|
    ensures InTreeOrder(nodes, PreorderFrom(nodes, h, i))
    ensures forall x | x in PreorderFrom(nodes, h, i) :: BelowSomeOf(nodes, x, nodes[h].applets, i)
    decreases |nodes| - h - 1, |nodes[h].applets| - i + 1
  {
    var applets := nodes[h].applets;
    if i < |applets| {
      ListedLater(nodes, h);
      var first, rest := Preorder(nodes, applets[i]), PreorderFrom(nodes, h, i + 1);
      PreorderInOrder(nodes, applets[i]);
      PreorderFromInOrder(nodes, h, i + 1);
      forall u, v | u in first && v in rest ensures Before(nodes, u, v) {
        var k :| i + 1 <= k < |applets| && Below(nodes, v, applets[k]);
        assert applets[i] < applets[k];
        assert EarlierBranch(nodes, u, v);
        NoEarlierAncestor(nodes, u, v);
      }
      OrderConcat(nodes, first, rest);
      forall x | x in first + rest ensures BelowSomeOf(nodes, x, applets, i) {
        if x in rest {
          var k :| i + 1 <= k < |applets| && Below(nodes, x, applets[k]);
        }
      }
    }
  }

  ghost predicate BelowSomeOf(nodes: seq<Applet>, x: nat, applets: seq<nat>, from: nat)
    requires TreeShape(nodes)
  {
    x < |nodes| && exists k :: from <= k < |applets| && Below(nodes, x, applets[k])
  }

  lemma OrderConcat(nodes: seq<Applet>, a: seq<nat>, b: seq<nat>)
    requires TreeShape(nodes) && InTreeOrder(nodes, a) && InTreeOrder(nodes, b)
    requires forall u, v | u in a && v in b :: Before(nodes, u, v)
    ensures InTreeOrder(nodes, a + b)
  {
  }

  lemma FilteredInOrder(nodes: seq<Applet>, s: seq<nat>, p: nat -> bool)
    requires TreeShape(nodes) && InTreeOrder(nodes, s)
    ensures InTreeOrder(nodes, Filter(s, p))
  {
    var from := FilterPicks(s, p);
  }

  lemma InOrderStable(n0: seq<Applet>, n1: seq<Applet>, s: seq<nat>)
    requires TreeShape(n0) && TreeShape(n1) && SameParents(n0, n1) && InTreeOrder(n0, s)
    ensures InTreeOrder(n1, s)
  {
    forall i, j | 0 <= i < j < |s| ensures Before(n1, s[i], s[j]) {
      BeforeStable(n0, n1, s[i], s[j]);
    }
  }

  // ---------- the order of the loads and of the inits ----------

  /** Loads come in tree order, and so do inits. */
  ghost predicate DepthFirst(nodes: seq<Applet>, log: seq<Event>)
    requires TreeShape(nodes)
  {
    && (forall i | 0 <= i < |log| :: log[i].applet < |nodes|)
    && forall i, j | 0 <= i < j < |log| && log[i].Loaded? == log[j].Loaded? ::
         Before(nodes, log[i].applet, log[j].applet)
  }

  /** What was loaded (or initialised) so far comes before h, or is h. */
  ghost predicate UpTo(nodes: seq<Applet>, log: seq<Event>, h: nat, loading: bool)
    requires TreeShape(nodes) && h < |nodes|
  {
    forall i | 0 <= i < |log| && log[i].Loaded? == loading ::
      log[i].applet < |nodes| && (log[i].applet == h || Before(nodes, log[i].applet, h))
  }

  ghost predicate MayFollow(nodes: seq<Applet>, log: seq<Event>, h: nat, loading: bool)
    requires TreeShape(nodes) && h < |nodes|
  {
    forall i | 0 <= i < |log| && log[i].Loaded? == loading ::
      log[i].applet < |nodes| && Before(nodes, log[i].applet, h)
  }

  /** Since l0 was the log, only applets at or below one of the given ones were dealt with, all in order. */
  ghost predicate Orderly(nodes: seq<Applet>, l0: seq<Event>, l1: seq<Event>, tops: seq<nat>)
    requires TreeShape(nodes)
  {
    && DepthFirst(nodes, l1) && l0 <= l1
    && forall i | |l0| <= i < |l1| :: BelowSomeOf(nodes, l1[i].applet, tops, 0)
  }

  lemma DepthFirstStable(n0: seq<Applet>, n1: seq<Applet>, log: seq<Event>)
    requires TreeShape(n0) && TreeShape(n1) && SameParents(n0, n1) && DepthFirst(n0, log)
    ensures DepthFirst(n1, log)
  {
    forall i, j | 0 <= i < j < |log| && log[i].Loaded? == log[j].Loaded?
      ensures Before(n1, log[i].applet, log[j].applet)
    {
      BeforeStable(n0, n1, log[i].applet, log[j].applet);
    }
  }

  /** One more event, of an applet that may follow. */
  lemma OneMoreInOrder(n0: seq<Applet>, l0: seq<Event>, n1: seq<Applet>, e: Event)
    requires TreeShape(n0) && TreeShape(n1) && SameParents(n0, n1) && DepthFirst(n0, l0)
    requires e.applet < |n0| && MayFollow(n0, l0, e.applet, e.Loaded?)
    ensures Orderly(n1, l0, l0 + [e], [e.applet]) && UpTo(n1, l0 + [e], e.applet, e.Loaded?)
  {
    var r := l0 + [e];
    DepthFirstStable(n0, n1, l0);
    forall i | 0 <= i < |l0| && l0[i].Loaded? == e.Loaded? ensures Before(n1, l0[i].applet, e.applet) {
      BeforeStable(n0, n1, l0[i].applet, e.applet);
    }
    assert Below(n1, r[|l0|].applet, [e.applet][0]);
  }

  lemma UpToStable(n0: seq<Applet>, n1: seq<Applet>, log: seq<Event>, h: nat, loading: bool)
    requires TreeShape(n0) && TreeShape(n1) && SameParents(n0, n1) && h < |n0| && UpTo(n0, log, h, loading)
    ensures UpTo(n1, log, h, loading)
  {
    forall i | 0 <= i < |log| && log[i].Loaded? == loading && log[i].applet != h
      ensures Before(n1, log[i].applet, h)
    {
      BeforeStable(n0, n1, log[i].applet, h);
    }
  }

  lemma NothingSince(nodes: seq<Applet>, log: seq<Event>)
    requires TreeShape(nodes) && DepthFirst(nodes, log)
    ensures Orderly(nodes, log, log, [])
  {
  }

  /** The next child of h may follow when only h, what comes before it, and the earlier children with all below
      them were dealt with. */
  lemma ChildMayFollow(n0: seq<Applet>, l0: seq<Event>, n1: seq<Applet>, l1: seq<Event>, h: nat, i: nat, loading: bool)
    requires TreeShape(n0) && TreeShape(n1) && SameParents(n0, n1) && h < |n0| && i < |n0[h].applets|
    requires UpTo(n0, l0, h, loading) && Orderly(n1, l0, l1, n0[h].applets[..i])
    ensures n0[h].applets[i] < |n1| && MayFollow(n1, l1, n0[h].applets[i], loading)
  {
    var applets := n0[h].applets;
    ListedLater(n0, h);
    UpToStable(n0, n1, l0, h, loading);
    forall k | 0 <= k < |l1| && l1[k].Loaded? == loading ensures Before(n1, l1[k].applet, applets[i]) {
      if k < |l0| {
        assert Below(n1, applets[i], h);
        BeforeBelow(n1, l0[k].applet, h, applets[i]);
      } else {
        var m :| 0 <= m < i && Below(n1, l1[k].applet, applets[..i][m]);
        BranchBefore(n1, l1[k].applet, applets[m], applets[i]);
      }
    }
  }

  lemma BranchBefore(nodes: seq<Applet>, u: nat, a: nat, b: nat)
    requires TreeShape(nodes) && u < |nodes| && a < b < |nodes| && nodes[a].parent.Some?
    requires nodes[a].parent == nodes[b].parent && Below(nodes, u, a)
    ensures Before(nodes, u, b)
  {
    assert Below(nodes, b, b);
    assert EarlierBranch(nodes, u, b);
    NoEarlierAncestor(nodes, u, b);
  }

  lemma OneChildMore(n1: seq<Applet>, n2: seq<Applet>, l0: seq<Event>, l1: seq<Event>, l2: seq<Event>,
                     applets: seq<nat>, i: nat)
    requires TreeShape(n1) && TreeShape(n2) && SameParents(n1, n2) && i < |applets|
    requires Orderly(n1, l0, l1, applets[..i]) && Orderly(n2, l1, l2, [applets[i]])
    ensures Orderly(n2, l0, l2, applets[..i + 1])
  {
    var more := applets[..i + 1];
    forall j | |l0| <= j < |l2| ensures BelowSomeOf(n2, l2[j].applet, more, 0) {
      if j < |l1| {
        var k :| 0 <= k < i && Below(n1, l1[j].applet, applets[..i][k]);
        BelowSameParents(n1, n2, l1[j].applet, applets[k]);
        assert Below(n2, l2[j].applet, more[k]);
      } else {
        var k :| 0 <= k < 1 && Below(n2, l2[j].applet, [applets[i]][k]);
        assert Below(n2, l2[j].applet, more[i]);
      }
    }
  }

  /** h itself and then its children: that is everything at or below h. */
  lemma WholeInOrder(n2: seq<Applet>, n3: seq<Applet>, l0: seq<Event>, e: Event, l3: seq<Event>, h: nat)
    requires TreeShape(n2) && TreeShape(n3) && SameParents(n2, n3) && h < |n2| && e.applet == h
    requires Orderly(n3, l0 + [e], l3, n2[h].applets)
    ensures Orderly(n3, l0, l3, [h])
  {
    ListedLater(n2, h);
    var l1 := l0 + [e];
    assert l1[..|l0|] == l0 && l3[|l0|] == l1[|l0|];
    forall i | |l0| <= i < |l3| ensures BelowSomeOf(n3, l3[i].applet, [h], 0) {
      if i > |l0| {
        assert BelowSomeOf(n3, l3[i].applet, n2[h].applets, 0);
        var k :| 0 <= k < |n2[h].applets| && Below(n3, l3[i].applet, n2[h].applets[k]);
        BelowChild(n3, l3[i].applet, n2[h].applets[k], h);
      }
      assert Below(n3, l3[i].applet, [h][0]);
    }
  }
}
