/** The bridge's breadth-first search for the applets of a plugin. */
module AppletBridges {
  import opened Lists
  import opened AppletTree
  import opened AppletOrder

  // ---------- level order ----------

  function Kids(nodes: seq<Applet>, level: seq<nat>): seq<nat>
    requires forall k | 0 <= k < |level| :: level[k] < |nodes|
  {
    if level == [] then [] else nodes[level[0]].applets + Kids(nodes, level[1..])
  }

  function Containment(nodes: seq<Applet>): nat -> bool {
    (h: nat) => h < |nodes| && nodes[h].containment
  }

  ghost predicate Within(nodes: seq<Applet>, level: seq<nat>, from: nat) {
    forall k | 0 <= k < |level| :: from <= level[k] < |nodes|
  }

  lemma {:induction false} KidsWithin(nodes: seq<Applet>, level: seq<nat>, from: nat)
    requires TreeShape(nodes) && Within(nodes, level, from)
    ensures Within(nodes, Kids(nodes, level), from + 1)
  {
    if level != [] {
      KidsWithin(nodes, level[1..], from);
      assert forall k | 0 <= k < |nodes[level[0]].applets| :: nodes[level[0]].applets[k] in nodes[level[0]].applets;
    }
  }

  lemma FilterWithin(nodes: seq<Applet>, level: seq<nat>, from: nat)
    requires Within(nodes, level, from)
    ensures Within(nodes, Filter(level, Containment(nodes)), from)
  {
    var r := Filter(level, Containment(nodes));
    var origin := FilterMapOrigin(level, Keep(Containment(nodes)));
    forall k | 0 <= k < |r| ensures from <= r[k] < |nodes| {
      assert Keep(Containment(nodes))(level[origin[k]]) == Some(r[k]);
    }
  }

  /** The children of a level, level after level. */
  ghost function LevelOrder(nodes: seq<Applet>, level: seq<nat>, from: nat): seq<nat>
    requires TreeShape(nodes) && Within(nodes, level, from)
    decreases |nodes| - from
  {
    if level == [] then []
    else
      var kids := Kids(nodes, level);
      KidsWithin(nodes, level, from);
      FilterWithin(nodes, kids, from + 1);
      kids + LevelOrder(nodes, Filter(kids, Containment(nodes)), from + 1)
  }

  lemma LevelOrderStep(nodes: seq<Applet>, level: seq<nat>, from: nat)
    requires TreeShape(nodes) && Within(nodes, level, from) && level != []
    ensures var next := Filter(Kids(nodes, level), Containment(nodes));
            Within(nodes, next, from + 1)
            && from < |nodes|
            && LevelOrder(nodes, level, from) == Kids(nodes, level) + LevelOrder(nodes, next, from + 1)
  {
    KidsWithin(nodes, level, from);
    FilterWithin(nodes, Kids(nodes, level), from + 1);
    assert from <= level[0] < |nodes|;
  }

  lemma {:induction false} LevelOrderFrom(nodes: seq<Applet>, level: seq<nat>, a: nat, b: nat)
    requires TreeShape(nodes) && Within(nodes, level, a) && Within(nodes, level, b)
    ensures LevelOrder(nodes, level, a) == LevelOrder(nodes, level, b)
    decreases |nodes| - a
  {
    if level != [] {
      var next := Filter(Kids(nodes, level), Containment(nodes));
      NextWithin(nodes, level, a);
      NextWithin(nodes, level, b);
      LevelOrderFrom(nodes, next, a + 1, b + 1);
      SameBelow(nodes, level, next, a, b);
    }
  }

  lemma NextWithin(nodes: seq<Applet>, level: seq<nat>, from: nat)
    requires TreeShape(nodes) && Within(nodes, level, from) && level != []
    ensures Within(nodes, Filter(Kids(nodes, level), Containment(nodes)), from + 1) && from < |nodes|
  {
    LevelOrderStep(nodes, level, from);
  }

  lemma SameBelow(nodes: seq<Applet>, level: seq<nat>, next: seq<nat>, a: nat, b: nat)
    requires TreeShape(nodes) && Within(nodes, level, a) && Within(nodes, level, b) && level != []
    requires next == Filter(Kids(nodes, level), Containment(nodes))
    requires Within(nodes, next, a + 1) && Within(nodes, next, b + 1)
    requires LevelOrder(nodes, next, a + 1) == LevelOrder(nodes, next, b + 1)
    ensures LevelOrder(nodes, level, a) == LevelOrder(nodes, level, b)
  {
    LevelOrderStep(nodes, level, a);
    LevelOrderStep(nodes, level, b);
  }

  lemma TailOfConcat(a: seq<nat>, b: seq<nat>, c: seq<nat>)
    requires a != []
    ensures (a + b)[1..] + c == a[1..] + (b + c)
  {
  }

  /** What is still to be listed when the rest of a level and the part of the next one met so far
      are in the queue. */
  ghost function Pending(nodes: seq<Applet>, rest: seq<nat>, next: seq<nat>): seq<nat>
    requires TreeShape(nodes) && Within(nodes, rest, 0) && Within(nodes, next, 0)
  {
    var kids := Kids(nodes, rest);
    KidsWithin(nodes, rest, 0);
    FilterWithin(nodes, kids, 0);
    kids + LevelOrder(nodes, next + Filter(kids, Containment(nodes)), 0)
  }

  lemma PendingStep(nodes: seq<Applet>, rest: seq<nat>, next: seq<nat>)
    requires TreeShape(nodes) && Within(nodes, rest, 0) && Within(nodes, next, 0) && rest != []
    ensures Within(nodes, next + Filter(nodes[rest[0]].applets, Containment(nodes)), 0)
    ensures Pending(nodes, rest, next)
         == nodes[rest[0]].applets
            + Pending(nodes, rest[1..], next + Filter(nodes[rest[0]].applets, Containment(nodes)))
  {
    var own, others := nodes[rest[0]].applets, Kids(nodes, rest[1..]);
    assert Kids(nodes, [rest[0]]) == own by { assert [rest[0]][1..] == []; }
    KidsWithin(nodes, [rest[0]], 0);
    KidsWithin(nodes, rest[1..], 0);
    FilterWithin(nodes, own, 0);
    FilterWithin(nodes, others, 0);
    FilterMapConcat(own, others, Keep(Containment(nodes)));
    Associative(next, Filter(own, Containment(nodes)), Filter(others, Containment(nodes)));
    Associative(own, others, LevelOrder(nodes, next + Filter(own + others, Containment(nodes)), 0));
  }

  /** An empty level hands over to the next one. */
  lemma NothingAtHand(nodes: seq<Applet>, next: seq<nat>)
    requires TreeShape(nodes) && Within(nodes, next, 0)
    ensures Pending(nodes, [], next) == LevelOrder(nodes, next, 0)
  {
    var none: seq<nat> := [];
    assert Kids(nodes, none) == none && Filter(none, Containment(nodes)) == none;
    assert none + LevelOrder(nodes, next, 0) == LevelOrder(nodes, next, 0) && next + none == next;
  }

  lemma PendingTurn(nodes: seq<Applet>, next: seq<nat>)
    requires TreeShape(nodes) && Within(nodes, next, 0)
    ensures Pending(nodes, [], next) == Pending(nodes, next, [])
  {
    NothingAtHand(nodes, next);
    if next != [] {
      var kids := Kids(nodes, next);
      KidsWithin(nodes, next, 0);
      FilterWithin(nodes, kids, 1);
      FilterWithin(nodes, kids, 0);
      LevelOrderFrom(nodes, Filter(kids, Containment(nodes)), 0, 1);
      assert [] + Filter(kids, Containment(nodes)) == Filter(kids, Containment(nodes));
    }
  }

  // ---------- what level order means ----------

  function Depth(nodes: seq<Applet>, x: nat): nat
    requires TreeShape(nodes) && x < |nodes|
    decreases x
  {
    if nodes[x].parent.None? then 0 else 1 + Depth(nodes, nodes[x].parent.value)
  }

  /** u is less deep than v, or as deep and in an earlier branch. */
  ghost predicate LevelBefore(nodes: seq<Applet>, u: nat, v: nat)
    requires TreeShape(nodes) && u < |nodes| && v < |nodes|
  {
    Depth(nodes, u) < Depth(nodes, v) || (Depth(nodes, u) == Depth(nodes, v) && EarlierBranch(nodes, u, v))
  }

  lemma LevelBeforeOneWay(nodes: seq<Applet>, u: nat, v: nat)
    requires TreeShape(nodes) && u < |nodes| && v < |nodes| && LevelBefore(nodes, u, v)
    ensures u != v && !LevelBefore(nodes, v, u)
  {
    if EarlierBranch(nodes, u, v) {
      NoEarlierAncestor(nodes, u, v);
      BeforeOneWay(nodes, u, v);
    }
  }

  ghost predicate ByLevels(nodes: seq<Applet>, s: seq<nat>)
    requires TreeShape(nodes)
  {
    (forall i | 0 <= i < |s| :: s[i] < |nodes|) && forall i, j | 0 <= i < j < |s| :: LevelBefore(nodes, s[i], s[j])
  }

  /** Applets of one depth, from left to right. */
  ghost predicate OneLevel(nodes: seq<Applet>, s: seq<nat>, depth: nat)
    requires TreeShape(nodes)
  {
    && (forall i | 0 <= i < |s| :: s[i] < |nodes| && Depth(nodes, s[i]) == depth)
    && forall i, j | 0 <= i < j < |s| :: EarlierBranch(nodes, s[i], s[j])
  }

  lemma {:induction false} KidsOneLevel(nodes: seq<Applet>, level: seq<nat>, depth: nat)
    requires TreeShape(nodes) && OneLevel(nodes, level, depth)
    ensures OneLevel(nodes, Kids(nodes, level), depth + 1)
    ensures forall c | c in Kids(nodes, level) :: c < |nodes| && nodes[c].parent.Some? && nodes[c].parent.value in level
  {
    if level != [] {
      var own, others := nodes[level[0]].applets, Kids(nodes, level[1..]);
      KidsOneLevel(nodes, level[1..], depth);
      ListedLater(nodes, level[0]);
      forall i, j | 0 <= i < j < |own| ensures EarlierBranch(nodes, own[i], own[j]) {
        assert Below(nodes, own[i], own[i]) && Below(nodes, own[j], own[j]);
      }
      forall c, d | c in own && d in others ensures EarlierBranch(nodes, c, d) {
        var k :| 0 <= k < |level[1..]| && level[1..][k] == nodes[d].parent.value;
        assert level[1..][k] == level[k + 1];
        ChildrenOfBranches(nodes, level[0], level[k + 1], c, d);
      }
    }
  }

  lemma ChildrenOfBranches(nodes: seq<Applet>, u: nat, v: nat, c: nat, d: nat)
    requires TreeShape(nodes) && u < |nodes| && v < |nodes| && EarlierBranch(nodes, u, v)
    requires c < |nodes| && d < |nodes| && nodes[c].parent == Some(u) && nodes[d].parent == Some(v)
    ensures EarlierBranch(nodes, c, d)
  {
    var a: nat, b: nat :| a < b < |nodes| && nodes[a].parent.Some? && nodes[a].parent == nodes[b].parent
                          && Below(nodes, u, a) && Below(nodes, v, b);
    assert Below(nodes, c, a) && Below(nodes, d, b);
  }

  lemma FilterOneLevel(nodes: seq<Applet>, s: seq<nat>, depth: nat, p: nat -> bool)
    requires TreeShape(nodes) && OneLevel(nodes, s, depth)
    ensures OneLevel(nodes, Filter(s, p), depth)
  {
    var from := FilterPicks(s, p);
  }

  lemma {:induction false} LevelOrderByLevels(nodes: seq<Applet>, level: seq<nat>, from: nat, depth: nat)
    requires TreeShape(nodes) && Within(nodes, level, from) && OneLevel(nodes, level, depth)
    ensures ByLevels(nodes, LevelOrder(nodes, level, from))
    ensures forall x | x in LevelOrder(nodes, level, from) :: x < |nodes| && Depth(nodes, x) > depth
    decreases |nodes| - from
  {
    if level != [] {
      var kids := Kids(nodes, level);
      var next := Filter(kids, Containment(nodes));
      LevelOrderStep(nodes, level, from);
      KidsOneLevel(nodes, level, depth);
      FilterOneLevel(nodes, kids, depth + 1, Containment(nodes));
      LevelOrderByLevels(nodes, next, from + 1, depth + 1);
      LevelsConcat(nodes, kids, LevelOrder(nodes, next, from + 1), depth + 1);
    }
  }

  lemma LevelsConcat(nodes: seq<Applet>, level: seq<nat>, rest: seq<nat>, depth: nat)
    requires TreeShape(nodes) && OneLevel(nodes, level, depth) && ByLevels(nodes, rest)
    requires forall x | x in rest :: x < |nodes| && Depth(nodes, x) > depth
    ensures ByLevels(nodes, level + rest)
  {
    var r := level + rest;
    forall i, j | 0 <= i < j < |r| ensures LevelBefore(nodes, r[i], r[j]) {
      if i < |level| <= j { assert r[j] in rest; }
    }
  }

  /** The search reports in this order, in which no two applets come before each other. */
  lemma FoundByLevels(nodes: seq<Applet>, root: nat, p: nat -> bool)
    requires TreeShape(nodes) && root < |nodes|
    ensures ByLevels(nodes, Filter(LevelOrder(nodes, [root], root), p))
  {
    var order := LevelOrder(nodes, [root], root);
    LevelOrderByLevels(nodes, [root], root, Depth(nodes, root));
    var from := FilterPicks(order, p);
  }

  function HasPlugin(nodes: seq<Applet>, pluginId: string): nat -> bool {
    (h: nat) => h < |nodes| && nodes[h].pluginId == pluginId
  }

  // ---------- the search ----------

  method Applets(nodes: seq<Applet>, root: nat, pluginId: string) returns (applets: seq<nat>)
    requires TreeShape(nodes) && root < |nodes| && nodes[root].containment
    ensures applets == Filter(LevelOrder(nodes, [root], root), HasPlugin(nodes, pluginId))
    ensures ByLevels(nodes, applets) && Distinct(applets)
    ensures forall x: nat :: x in applets <==>
              x < |nodes| && ListedBelow(nodes, x, root) && nodes[x].pluginId == pluginId
  {
    applets := [];
    var containments := [root];
    ghost var done: seq<nat>, seen: seq<nat>, rest: seq<nat>, next: seq<nat> := [], [], [root], [];
    ghost var order := LevelOrder(nodes, [root], root);
    StartPending(nodes, root);
    StartExplored(nodes, root);
    while containments != []
      invariant Levels(nodes, containments, seen, rest, next, order)
      invariant Explored(nodes, root, done, containments, seen)
      invariant applets == Filter(seen, HasPlugin(nodes, pluginId))
      decreases |nodes| - |done|
    {
      var containment := containments[0];
      VisitsBounded(nodes, root, done, containments, seen);
      var more, found := ScanChildren(nodes, containment, pluginId);
      FilterMapConcat(seen, nodes[containment].applets, Keep(HasPlugin(nodes, pluginId)));
      ExploreOne(nodes, root, done, containments, seen);
      if rest == [] {
        LevelsTurn(nodes, containments, seen, next, order);
        rest, next := next, [];
      }
      LevelsStep(nodes, containments, seen, rest, next, order);
      rest, next := rest[1..], next + more;
      done, seen := done + [containment], seen + nodes[containment].applets;
      containments := containments[1..] + more;
      applets := applets + found;
    }
    NothingPending(nodes, seen, rest, next, order);
    FoundByLevels(nodes, root, HasPlugin(nodes, pluginId));
    EverythingFound(nodes, root, done, seen, pluginId);
  }

  /** rest and next are the queue, split where the level ends; seen is the part of the level order
      listed so far. */
  ghost predicate Levels(nodes: seq<Applet>, queue: seq<nat>, seen: seq<nat>, rest: seq<nat>, next: seq<nat>,
                         order: seq<nat>)
    requires TreeShape(nodes)
  {
    && Within(nodes, rest, 0) && Within(nodes, next, 0) && queue == rest + next
    && seen + Pending(nodes, rest, next) == order
  }

  lemma LevelsTurn(nodes: seq<Applet>, queue: seq<nat>, seen: seq<nat>, next: seq<nat>, order: seq<nat>)
    requires TreeShape(nodes) && Levels(nodes, queue, seen, [], next, order)
    ensures Levels(nodes, queue, seen, next, [], order)
  {
    PendingTurn(nodes, next);
  }

  lemma LevelsStep(nodes: seq<Applet>, queue: seq<nat>, seen: seq<nat>,
                                      rest: seq<nat>, next: seq<nat>, order: seq<nat>)
    requires TreeShape(nodes) && rest != [] && Levels(nodes, queue, seen, rest, next, order)
    ensures queue != [] && queue[0] == rest[0] < |nodes|
    ensures var own := nodes[rest[0]].applets;
            var more := Filter(own, Containment(nodes));
            Levels(nodes, queue[1..] + more, seen + own, rest[1..], next + more, order)
  {
    var own := nodes[rest[0]].applets;
    var more := Filter(own, Containment(nodes));
    PendingStep(nodes, rest, next);
    Associative(seen, own, Pending(nodes, rest[1..], next + more));
    TailOfConcat(rest, next, more);
  }

  lemma NothingPending(nodes: seq<Applet>, seen: seq<nat>, rest: seq<nat>, next: seq<nat>, order: seq<nat>)
    requires TreeShape(nodes) && Levels(nodes, [], seen, rest, next, order)
    ensures seen == order
  {
    assert rest == [] && next == [];
    assert Pending(nodes, [], []) == [];
  }

  method ScanChildren(nodes: seq<Applet>, h: nat, pluginId: string) returns (more: seq<nat>, found: seq<nat>)
    requires TreeShape(nodes) && h < |nodes|
    ensures more == Filter(nodes[h].applets, Containment(nodes))
    ensures found == Filter(nodes[h].applets, HasPlugin(nodes, pluginId))
  {
    more, found := [], [];
    var children := nodes[h].applets;
    var i := 0;
    while i < |children|
      invariant 0 <= i <= |children|
      invariant more == Filter(children[..i], Containment(nodes))
      invariant found == Filter(children[..i], HasPlugin(nodes, pluginId))
    {
      var applet := children[i];
      assert applet in children;
      assert children[..i + 1] == children[..i] + [applet];
      FilterMapConcat(children[..i], [applet], Keep(Containment(nodes)));
      FilterMapConcat(children[..i], [applet], Keep(HasPlugin(nodes, pluginId)));
      assert [applet][1..] == [];
      if nodes[applet].containment { more := more + [applet]; }
      if nodes[applet].pluginId == pluginId { found := found + [applet]; }
      i := i + 1;
    }
    assert children[..i] == children;
  }

  // ---------- the search visits everything once ----------

  /** done: the containments whose children were scanned; seen: those children, in order. */
  ghost predicate Explored(nodes: seq<Applet>, root: nat, done: seq<nat>, queue: seq<nat>, seen: seq<nat>) {
    && Within(nodes, done, root) && Within(nodes, queue, root) && Within(nodes, seen, root + 1)
    && Distinct(done + queue) && Distinct(seen)
    && (forall x | x in seen ::
         && nodes[x].parent.Some? && nodes[x].parent.value in done
         && x in nodes[nodes[x].parent.value].applets)
    && (forall h, c | h in done && c in nodes[h].applets :: c in seen)
    && (forall x: nat :: x in done + queue <==> x == root || (x in seen && nodes[x].containment))
  }

  lemma StartPending(nodes: seq<Applet>, root: nat)
    requires TreeShape(nodes) && root < |nodes|
    ensures Pending(nodes, [root], []) == LevelOrder(nodes, [root], root)
  {
    PendingLevel(nodes, [root], root);
  }

  lemma PendingLevel(nodes: seq<Applet>, level: seq<nat>, from: nat)
    requires TreeShape(nodes) && Within(nodes, level, from)
    ensures Within(nodes, level, 0) && Pending(nodes, level, []) == LevelOrder(nodes, level, from)
  {
    PendingTurn(nodes, level);
    NothingAtHand(nodes, level);
    LevelOrderFrom(nodes, level, 0, from);
  }

  lemma StartExplored(nodes: seq<Applet>, root: nat)
    requires TreeShape(nodes) && root < |nodes|
    ensures Explored(nodes, root, [], [root], [])
  {
    assert [] + [root] == [root];
  }

  ghost function Elements(s: seq<nat>): set<nat> {
    set x | x in s
  }

  ghost function Numbers(n: nat): set<nat> {
    if n == 0 then {} else Numbers(n - 1) + {n - 1}
  }

  lemma {:induction false} NumbersCount(n: nat)
    ensures |Numbers(n)| == n && forall x: nat :: x in Numbers(n) <==> x < n
  {
    if n > 0 { NumbersCount(n - 1); }
  }

  lemma {:induction false} DistinctCount(s: seq<nat>)
    requires Distinct(s)
    ensures |Elements(s)| == |s|
  {
    if s != [] {
      DistinctCount(s[1..]);
      assert s[0] !in s[1..] && Elements(s) == {s[0]} + Elements(s[1..]);
    }
  }

  lemma DistinctBounded(s: seq<nat>, n: nat)
    requires Distinct(s) && forall k | 0 <= k < |s| :: s[k] < n
    ensures |s| <= n
  {
    DistinctCount(s);
    NumbersCount(n);
    assert Elements(s) <= Numbers(n);
    assert Numbers(n) == Elements(s) + (Numbers(n) - Elements(s));
  }

  lemma VisitsBounded(nodes: seq<Applet>, root: nat, done: seq<nat>, queue: seq<nat>, seen: seq<nat>)
    requires Explored(nodes, root, done, queue, seen)
    ensures |done| + |queue| <= |nodes|
  {
    DistinctBounded(done + queue, |nodes|);
  }

  lemma ExploreOne(nodes: seq<Applet>, root: nat, done: seq<nat>, queue: seq<nat>, seen: seq<nat>)
    requires TreeShape(nodes) && Explored(nodes, root, done, queue, seen) && queue != []
    ensures var own := nodes[queue[0]].applets;
            Explored(nodes, root, done + [queue[0]], queue[1..] + Filter(own, Containment(nodes)), seen + own)
  {
    ExploredWithin(nodes, root, done, queue, seen);
    ExploredDistinct(nodes, root, done, queue, seen);
    ExploredParents(nodes, root, done, queue, seen);
    ExploredMembers(nodes, root, done, queue, seen);
  }

  lemma ExploredWithin(nodes: seq<Applet>, root: nat, done: seq<nat>, queue: seq<nat>, seen: seq<nat>)
    requires TreeShape(nodes) && Explored(nodes, root, done, queue, seen) && queue != []
    ensures var own := nodes[queue[0]].applets;
            && Within(nodes, done + [queue[0]], root)
            && Within(nodes, queue[1..] + Filter(own, Containment(nodes)), root)
            && Within(nodes, seen + own, root + 1)
  {
    var own := nodes[queue[0]].applets;
    NewChildrenWithin(nodes, root, queue[0]);
    WithinConcat(nodes, done, [queue[0]], root);
    WithinConcat(nodes, queue[1..], Filter(own, Containment(nodes)), root);
    WithinConcat(nodes, seen, own, root + 1);
  }

  lemma ExploredDistinct(nodes: seq<Applet>, root: nat, done: seq<nat>, queue: seq<nat>, seen: seq<nat>)
    requires TreeShape(nodes) && Explored(nodes, root, done, queue, seen) && queue != []
    ensures var own := nodes[queue[0]].applets;
            && Distinct((done + [queue[0]]) + (queue[1..] + Filter(own, Containment(nodes))))
            && Distinct(seen + own)
  {
    var own := nodes[queue[0]].applets;
    NewChildrenFresh(nodes, root, done, queue, seen);
    NewChildrenWithin(nodes, root, queue[0]);
    MoreDistinct(done + queue, own, Containment(nodes));
    ConcatDistinct(seen, own);
    HeadAcross(done, queue, Filter(own, Containment(nodes)));
  }

  lemma HeadAcross(a: seq<nat>, b: seq<nat>, c: seq<nat>)
    requires b != []
    ensures (a + [b[0]]) + (b[1..] + c) == (a + b) + c
  {
  }

  lemma WithinConcat(nodes: seq<Applet>, a: seq<nat>, b: seq<nat>, from: nat)
    requires Within(nodes, a, from) && Within(nodes, b, from)
    ensures Within(nodes, a + b, from)
  {
  }

  lemma ExploredParents(nodes: seq<Applet>, root: nat, done: seq<nat>, queue: seq<nat>, seen: seq<nat>)
    requires TreeShape(nodes) && Explored(nodes, root, done, queue, seen) && queue != []
    ensures forall x | x in seen + nodes[queue[0]].applets ::
              && nodes[x].parent.Some? && nodes[x].parent.value in done + [queue[0]]
              && x in nodes[nodes[x].parent.value].applets
    ensures forall h, c | h in done + [queue[0]] && c in nodes[h].applets :: c in seen + nodes[queue[0]].applets
  {
  }

  lemma ExploredMembers(nodes: seq<Applet>, root: nat, done: seq<nat>, queue: seq<nat>, seen: seq<nat>)
    requires TreeShape(nodes) && Explored(nodes, root, done, queue, seen) && queue != []
    ensures var own := nodes[queue[0]].applets;
            forall x: nat :: x in (done + [queue[0]]) + (queue[1..] + Filter(own, Containment(nodes)))
                             <==> x == root || (x in seen + own && nodes[x].containment)
  {
    var own := nodes[queue[0]].applets;
    HeadAcross(done, queue, Filter(own, Containment(nodes)));
    forall x: nat ensures x in Filter(own, Containment(nodes)) <==> x in own && nodes[x].containment {
      FilterMapMember(own, Keep(Containment(nodes)), x);
      assert x in own <==> exists k :: 0 <= k < |own| && own[k] == x;
    }
  }

  lemma NewChildrenWithin(nodes: seq<Applet>, root: nat, h: nat)
    requires TreeShape(nodes) && root <= h < |nodes|
    ensures var own := nodes[h].applets;
            && Within(nodes, own, root + 1) && Within(nodes, Filter(own, Containment(nodes)), root)
            && Distinct(own)
  {
    var own := nodes[h].applets;
    forall k | 0 <= k < |own| ensures root + 1 <= own[k] < |nodes| {
      assert own[k] in own;
    }
    FilterWithin(nodes, own, root);
  }

  lemma MoreDistinct(a: seq<nat>, own: seq<nat>, p: nat -> bool)
    requires Distinct(a) && Distinct(own) && forall x | x in own :: x !in a
    ensures Distinct(a + Filter(own, p))
  {
    FilteredDistinct(own, p);
    forall x | x in Filter(own, p) ensures x !in a {
      FilterMapMember(own, Keep(p), x);
    }
    ConcatDistinct(a, Filter(own, p));
  }

  lemma NewChildrenFresh(nodes: seq<Applet>, root: nat, done: seq<nat>, queue: seq<nat>, seen: seq<nat>)
    requires TreeShape(nodes) && Explored(nodes, root, done, queue, seen) && queue != []
    ensures forall c | c in nodes[queue[0]].applets :: c !in seen && c !in done + queue
  {
    var h := queue[0];
    NotInFront(done, queue);
    forall c | c in nodes[h].applets ensures c !in seen && c !in done + queue {
      assert nodes[c].parent == Some(h) && h < c;
      assert root <= h;
    }
  }

  lemma NotInFront(a: seq<nat>, b: seq<nat>)
    requires Distinct(a + b) && b != []
    ensures b[0] !in a
  {
    assert (a + b)[|a|] == b[0];
    forall k | 0 <= k < |a| ensures a[k] != b[0] {
      assert (a + b)[k] == a[k];
    }
  }

  lemma EverythingFound(nodes: seq<Applet>, root: nat, done: seq<nat>, seen: seq<nat>, pluginId: string)
    requires TreeShape(nodes) && root < |nodes| && Explored(nodes, root, done, [], seen)
    ensures var r := Filter(seen, HasPlugin(nodes, pluginId));
            && Distinct(r)
            && forall x: nat :: x in r <==> x < |nodes| && ListedBelow(nodes, x, root) && nodes[x].pluginId == pluginId
  {
    var p := HasPlugin(nodes, pluginId);
    var r := Filter(seen, p);
    assert done + [] == done;
    forall x: nat ensures x in r <==> x < |nodes| && ListedBelow(nodes, x, root) && nodes[x].pluginId == pluginId {
      FilterMapMember(seen, Keep(p), x);
      if x < |nodes| { SeenIsBelow(nodes, root, done, seen, x); }
    }
    FilteredDistinct(seen, p);
  }

  lemma {:induction false} SeenIsBelow(nodes: seq<Applet>, root: nat, done: seq<nat>, seen: seq<nat>, x: nat)
    requires TreeShape(nodes) && root < |nodes| && Explored(nodes, root, done, [], seen) && x < |nodes|
    ensures x in seen <==> ListedBelow(nodes, x, root)
    decreases x
  {
    assert done + [] == done;
    if nodes[x].parent.Some? {
      var parent := nodes[x].parent.value;
      SeenIsBelow(nodes, root, done, seen, parent);
    }
  }
}
