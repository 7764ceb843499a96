/** What "grouped by application" means for a list of dock entries. */
module DockGrouping {
  import opened Lists
  import opened DockState

  function WithId(id: string): Entry -> bool {
    (e: Entry) => e.id == id
  }

  function WithoutId(id: string): Entry -> bool {
    (e: Entry) => e.id != id
  }

  /** The entries of the leftmost application first, in their order, then the others likewise. */
  function StableGrouping(data: seq<Entry>): seq<Entry>
    decreases |data|
  {
    if data == [] then []
    else
      var id := data[0].id;
      FilterShortens(data, WithoutId(id));
      Filter(data, WithId(id)) + StableGrouping(Filter(data, WithoutId(id)))
  }

  /** Each id once, in the order of its first entry. */
  function FirstSeen(data: seq<Entry>): seq<string>
    decreases |data|
  {
    if data == [] then []
    else
      var id := data[0].id;
      FilterShortens(data, WithoutId(id));
      [id] + FirstSeen(Filter(data, WithoutId(id)))
  }

  /** No application's entries are interrupted by another's. */
  ghost predicate Contiguous(data: seq<Entry>) {
    forall i, j, k | 0 <= i < j < k < |data| && data[i].id == data[k].id :: data[j].id == data[i].id
  }

  ghost predicate SameEntriesPerApp(a: seq<Entry>, b: seq<Entry>) {
    forall id :: Filter(a, WithId(id)) == Filter(b, WithId(id))
  }

  ghost predicate All<T>(s: seq<T>, p: T -> bool) {
    forall x | x in s :: p(x)
  }

  // ---------- filtering ----------

  lemma FilterAll<T>(s: seq<T>, p: T -> bool)
    requires All(s, p)
    ensures Filter(s, p) == s
  {
    FilterMapIdentity(s, Keep(p));
  }

  lemma {:induction false} FilterNone<T>(s: seq<T>, p: T -> bool)
    requires forall x | x in s :: !p(x)
    ensures Filter(s, p) == []
  {
    if s != [] { FilterNone(s[1..], p); }
  }

  lemma FilterGives(s: seq<Entry>, p: Entry -> bool)
    ensures All(Filter(s, p), p)
    ensures forall x :: x in Filter(s, p) <==> x in s && p(x)
  {
    forall x ensures x in Filter(s, p) <==> x in s && p(x) {
      FilterMapMember(s, Keep(p), x);
      if x in Filter(s, p) {
        var i :| 0 <= i < |s| && Keep(p)(s[i]) == Some(x);
      }
    }
  }

  lemma FilterConcat<T>(a: seq<T>, b: seq<T>, p: T -> bool)
    ensures Filter(a + b, p) == Filter(a, p) + Filter(b, p)
  {
    FilterMapConcat(a, b, Keep(p));
  }

  lemma FilterFilter(s: seq<Entry>, id: string, x: string)
    ensures Filter(Filter(s, WithoutId(id)), WithId(x)) == if x == id then [] else Filter(s, WithId(x))
  {
    if x == id {
      FilterGives(s, WithoutId(id));
      FilterNone(Filter(s, WithoutId(id)), WithId(id));
    } else {
      FilterMapCompose(s, Keep(WithoutId(id)), Keep(WithId(x)), Keep(WithId(x)));
    }
  }

  lemma {:induction false} FilterPartition(s: seq<Entry>, id: string)
    ensures multiset(Filter(s, WithId(id))) + multiset(Filter(s, WithoutId(id))) == multiset(s)
  {
    if s != [] {
      var mine, others := Filter(s[1..], WithId(id)), Filter(s[1..], WithoutId(id));
      FilterPartition(s[1..], id);
      assert s == [s[0]] + s[1..];
      if s[0].id == id {
        assert Filter(s, WithId(id)) == [s[0]] + mine && Filter(s, WithoutId(id)) == others;
      } else {
        assert Filter(s, WithId(id)) == mine && Filter(s, WithoutId(id)) == [s[0]] + others;
      }
    }
  }

  // ---------- the grouping is the only list with these properties ----------

  lemma {:induction false} StableGroupingContiguous(data: seq<Entry>)
    ensures Contiguous(StableGrouping(data))
    ensures forall e :: e in StableGrouping(data) <==> e in data
    decreases |data|
  {
    if data != [] {
      var id := data[0].id;
      var mine, rest := Filter(data, WithId(id)), Filter(data, WithoutId(id));
      FilterShortens(data, WithoutId(id));
      FilterGives(data, WithId(id));
      FilterGives(data, WithoutId(id));
      StableGroupingContiguous(rest);
      var tail := StableGrouping(rest);
      forall i | 0 <= i < |tail| ensures tail[i].id != id {
        assert tail[i] in rest;
      }
      forall i | 0 <= i < |mine| ensures mine[i].id == id {
        assert mine[i] in mine;
      }
      var r := mine + tail;
      forall i, j, k | 0 <= i < j < k < |r| && r[i].id == r[k].id ensures r[j].id == r[i].id {
        if i >= |mine| {
          assert r[i] == tail[i - |mine|] && r[j] == tail[j - |mine|] && r[k] == tail[k - |mine|];
        }
      }
    }
  }

  lemma {:induction false} StableGroupingSameEntries(data: seq<Entry>, x: string)
    ensures Filter(StableGrouping(data), WithId(x)) == Filter(data, WithId(x))
    decreases |data|
  {
    if data != [] {
      var id := data[0].id;
      var mine, rest := Filter(data, WithId(id)), Filter(data, WithoutId(id));
      FilterShortens(data, WithoutId(id));
      StableGroupingSameEntries(rest, x);
      FilterConcat(mine, StableGrouping(rest), WithId(x));
      FilterFilter(data, id, x);
      FilterGives(data, WithId(id));
      if x == id {
        FilterAll(mine, WithId(id));
      } else {
        FilterNone(mine, WithId(x));
      }
    }
  }

  lemma {:induction false} StableGroupingFirstSeen(data: seq<Entry>)
    ensures FirstSeen(StableGrouping(data)) == FirstSeen(data)
    decreases |data|
  {
    if data != [] {
      var id := data[0].id;
      var mine, rest := Filter(data, WithId(id)), Filter(data, WithoutId(id));
      var tail := StableGrouping(rest);
      FilterShortens(data, WithoutId(id));
      FilterGives(data, WithId(id));
      FilterGives(data, WithoutId(id));
      StableGroupingFirstSeen(rest);
      StableGroupingContiguous(rest);
      assert data[0] in mine;
      assert (mine + tail)[0] in mine;
      FilterBlocks(mine, tail, id);
      var r := StableGrouping(data);
      assert r == mine + tail && r[0].id == id;
      assert Filter(r, WithoutId(r[0].id)) == tail;
    }
  }

  lemma LeadingBlock(r: seq<Entry>) returns (n: nat)
    requires Contiguous(r) && r != []
    ensures 0 < n <= |r| && All(r[..n], WithId(r[0].id)) && All(r[n..], WithoutId(r[0].id))
  {
    var id := r[0].id;
    n := 1;
    while n < |r| && r[n].id == id
      invariant 1 <= n <= |r|
      invariant forall i | 0 <= i < n :: r[i].id == id
    {
      n := n + 1;
    }
    forall i | n <= i < |r| ensures r[i].id != id {
      assert r[0].id == id && r[n].id != id;
    }
  }

  lemma ContiguousSplit(r: seq<Entry>)
    requires Contiguous(r) && r != []
    ensures r == Filter(r, WithId(r[0].id)) + Filter(r, WithoutId(r[0].id))
    ensures Contiguous(Filter(r, WithoutId(r[0].id)))
  {
    var n := LeadingBlock(r);
    var t := r[n..];
    assert r == r[..n] + t;
    FilterBlocks(r[..n], t, r[0].id);
    forall i, j, k | 0 <= i < j < k < |t| && t[i].id == t[k].id ensures t[j].id == t[i].id {
      assert r[n + i].id == r[n + k].id && r[n + j] == t[j];
    }
  }

  lemma {:induction false} StableGroupingUnique(r: seq<Entry>, data: seq<Entry>)
    requires Contiguous(r) && SameEntriesPerApp(r, data) && FirstSeen(r) == FirstSeen(data)
    ensures r == StableGrouping(data)
    decreases |data|
  {
    if data == [] {
      assert FirstSeen(r) == [];
    } else {
      var id := data[0].id;
      assert FirstSeen(data)[0] == id;
      assert r != [] && r[0].id == id;
      var r', rest := Filter(r, WithoutId(id)), Filter(data, WithoutId(id));
      ContiguousSplit(r);
      assert FirstSeen(r') == FirstSeen(r)[1..] && FirstSeen(rest) == FirstSeen(data)[1..];
      forall x ensures Filter(r', WithId(x)) == Filter(rest, WithId(x)) {
        FilterFilter(r, id, x);
        FilterFilter(data, id, x);
      }
      FilterShortens(data, WithoutId(id));
      StableGroupingUnique(r', rest);
    }
  }

  /** Stable grouping is exactly: every application's entries contiguous and in their old order,
      applications ordered by their first old entry. */
  lemma StableGroupingMeaning(r: seq<Entry>, data: seq<Entry>)
    ensures r == StableGrouping(data)
       <==> Contiguous(r) && SameEntriesPerApp(r, data) && FirstSeen(r) == FirstSeen(data)
  {
    if r == StableGrouping(data) {
      StableGroupingContiguous(data);
      StableGroupingFirstSeen(data);
      forall id ensures Filter(r, WithId(id)) == Filter(data, WithId(id)) {
        StableGroupingSameEntries(data, id);
      }
    }
    if Contiguous(r) && SameEntriesPerApp(r, data) && FirstSeen(r) == FirstSeen(data) {
      StableGroupingUnique(r, data);
    }
  }

  lemma StableGroupingIdempotent(data: seq<Entry>)
    ensures StableGrouping(StableGrouping(data)) == StableGrouping(data)
  {
    var r := StableGrouping(data);
    StableGroupingMeaning(r, data);
    StableGroupingMeaning(r, r);
  }

  lemma {:induction false} StableGroupingPermutes(data: seq<Entry>)
    ensures multiset(StableGrouping(data)) == multiset(data)
    decreases |data|
  {
    if data != [] {
      var id := data[0].id;
      FilterShortens(data, WithoutId(id));
      StableGroupingPermutes(Filter(data, WithoutId(id)));
      FilterPartition(data, id);
    }
  }

  // ---------- steps of the in-place rewriting ----------

  /** Moving an entry left past entries of other applications changes neither selection. */
  lemma FilterPastStrangers(a: seq<Entry>, m: seq<Entry>, x: Entry, b: seq<Entry>)
    requires All(m, WithoutId(x.id))
    ensures Filter(a + [x] + m + b, WithId(x.id)) == Filter(a + m + [x] + b, WithId(x.id))
    ensures Filter(a + [x] + m + b, WithoutId(x.id)) == Filter(a + m + [x] + b, WithoutId(x.id))
  {
    var id := x.id;
    FilterNone(m, WithId(id));
    FilterAll([x], WithId(id));
    FilterNone([x], WithoutId(id));
    FilterSwap(a, m, [x], b, WithId(id));
    FilterSwap(a, m, [x], b, WithoutId(id));
  }

  lemma FilterSwap(a: seq<Entry>, m: seq<Entry>, x: seq<Entry>, b: seq<Entry>, p: Entry -> bool)
    requires Filter(m, p) == [] || Filter(x, p) == []
    ensures Filter(a + x + m + b, p) == Filter(a + m + x + b, p)
  {
    FilterConcat(a + x + m, b, p);
    FilterConcat(a + m + x, b, p);
    FilterConcat(a + x, m, p);
    FilterConcat(a + m, x, p);
    FilterConcat(a, x, p);
    FilterConcat(a, m, p);
  }

  /** A block of one application followed by strangers is its own pair of selections. */
  lemma FilterBlocks(mine: seq<Entry>, others: seq<Entry>, id: string)
    requires All(mine, WithId(id)) && All(others, WithoutId(id))
    ensures Filter(mine + others, WithId(id)) == mine
    ensures Filter(mine + others, WithoutId(id)) == others
  {
    FilterConcat(mine, others, WithId(id));
    FilterConcat(mine, others, WithoutId(id));
    FilterAll(mine, WithId(id));
    FilterNone(others, WithId(id));
    FilterNone(mine, WithoutId(id));
    FilterAll(others, WithoutId(id));
  }
}
