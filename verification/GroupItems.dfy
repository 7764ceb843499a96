/** The items of all groups together: how often one is there, where it is found, and what adding the
    missing ones does. */
module GroupItems {
  import opened Lists
  import opened Pages
  import opened Groups

  ghost predicate DuplicateFree(groups: seq<Group>) {
    Distinct(AllItems(groups))
  }

  ghost predicate NoEmptyPages(groups: seq<Group>) {
    forall i | 0 <= i < |groups| :: NoEmptyPage(groups[i].pages)
  }

  function Once(b: bool): nat {
    if b then 1 else 0
  }

  // ---------- items of all rows ----------

  lemma {:induction false} AllItemsConcat(a: seq<Group>, b: seq<Group>)
    ensures AllItems(a + b) == AllItems(a) + AllItems(b)
  {
    if a == [] {
      assert a + b == b;
    } else {
      assert (a + b)[1..] == a[1..] + b;
      AllItemsConcat(a[1..], b);
    }
  }

  lemma AllItemsAround(groups: seq<Group>, k: nat)
    requires k < |groups|
    ensures AllItems(groups) == AllItems(groups[..k]) + groups[k].Flat() + AllItems(groups[k + 1..])
  {
    assert groups == groups[..k] + groups[k..];
    AllItemsConcat(groups[..k], groups[k..]);
    assert groups[k..][1..] == groups[k + 1..];
    Associative(AllItems(groups[..k]), groups[k].Flat(), AllItems(groups[k + 1..]));
  }

  lemma CountAround(groups: seq<Group>, k: nat, x: string)
    requires k < |groups|
    ensures Count(AllItems(groups), x)
         == Count(AllItems(groups[..k]), x) + Count(groups[k].Flat(), x) + Count(AllItems(groups[k + 1..]), x)
  {
    AllItemsAround(groups, k);
    CountConcat(AllItems(groups[..k]) + groups[k].Flat(), AllItems(groups[k + 1..]), x);
    CountConcat(AllItems(groups[..k]), groups[k].Flat(), x);
  }

  lemma CountRowChanged(groups: seq<Group>, k: nat, g: Group, x: string)
    requires k < |groups|
    ensures Count(AllItems(groups[k := g]), x) + Count(groups[k].Flat(), x)
         == Count(AllItems(groups), x) + Count(g.Flat(), x)
  {
    var r := groups[k := g];
    CountAround(groups, k, x);
    CountAround(r, k, x);
    assert r[..k] == groups[..k] && r[k + 1..] == groups[k + 1..];
  }

  lemma CountRowGone(groups: seq<Group>, k: nat, x: string)
    requires k < |groups|
    ensures Count(AllItems(groups), x) == Count(AllItems(RemoveAt(groups, k)), x) + Count(groups[k].Flat(), x)
  {
    CountAround(groups, k, x);
    AllItemsConcat(groups[..k], groups[k + 1..]);
    CountConcat(AllItems(groups[..k]), AllItems(groups[k + 1..]), x);
  }

  lemma {:induction false} AllItemsMember(groups: seq<Group>, x: string)
    ensures x in AllItems(groups) <==> exists k :: 0 <= k < |groups| && x in groups[k].Flat()
  {
    if groups != [] {
      AllItemsMember(groups[1..], x);
      if x in AllItems(groups[1..]) {
        var k :| 0 <= k < |groups[1..]| && x in groups[1..][k].Flat();
        assert x in groups[k + 1].Flat();
      }
      if k :| 0 <= k < |groups| && x in groups[k].Flat() {
        if k > 0 { assert groups[1..][k - 1] == groups[k]; }
      }
    }
  }

  /** In a duplicate-free arrangement, no two rows have an item in common. */
  lemma OneRowOnly(groups: seq<Group>, x: string, j: nat, k: nat)
    requires DuplicateFree(groups) && j < |groups| && k < |groups| && x in groups[j].Flat() && x in groups[k].Flat()
    ensures j == k
  {
    if j != k {
      var a, b := if j < k then j else k, if j < k then k else j;
      DistinctCounts(AllItems(groups), x);
      CountAround(groups, b, x);
      CountPositive(groups[b].Flat(), x);
      AllItemsMember(groups[..b], x);
      assert groups[..b][a] == groups[a];
      CountPositive(AllItems(groups[..b]), x);
    }
  }

  lemma TakeOne(pages: seq<Page>, max: nat, id: string, x: string)
    requires Bounded(pages, max)
    ensures var r := Removed(pages, id, true);
            && Bounded(r, max)
            && (id in Flatten(pages) ==> Count(Flatten(r), x) + (if x == id then 1 else 0) == Count(Flatten(pages), x))
    ensures Find(pages, id).Some? ==> id in Flatten(pages)
  {
    FindMeaning(pages, id);
    RemoveItemRefines(pages, max, id, true);
    if id in Flatten(pages) { CountRemoveAt(Flatten(pages), IndexOf(Flatten(pages), id), x); }
  }

  lemma PutOne(pages: seq<Page>, max: nat, id: string, page: nat, pos: nat, x: string)
    requires max >= 1 && Bounded(pages, max) && page < |pages|
    ensures var r := Inserted(pages, max, id, page, pos);
            && Bounded(r, max)
            && Count(Flatten(r), x) == Count(Flatten(pages), x) + (if x == id then 1 else 0)
  {
    InsertItemRefines(pages, max, id, page, pos);
    CountInsertAt(Flatten(pages), |Flatten(pages[..page])| + Min(pos, |pages[page]|), id, x);
  }

  // ---------- finding ----------

  function FirstRowWith(groups: seq<Group>, id: string): (k: nat)
    requires id in AllItems(groups)
    ensures k < |groups| && id in groups[k].Flat() && forall j | 0 <= j < k :: id !in groups[j].Flat()
  {
    if id in groups[0].Flat() then 0 else 1 + FirstRowWith(groups[1..], id)
  }

  /** The position found is the one in the first row that has the item, under that row's folder id. */
  lemma {:induction false} FindItemMeaning(groups: seq<Group>, id: string)
    ensures id !in AllItems(groups) ==> FindItem(groups, id) == ItemPosition(-1, -1, -1)
    ensures id in AllItems(groups) ==>
              var g := groups[FirstRowWith(groups, id)];
              var at := Find(g.pages, id);
              at.Some? && FindItem(groups, id) == ItemPosition(g.FolderId(), at.value.0, at.value.1)
  {
    if groups != [] {
      FindMeaning(groups[0].pages, id);
      FindItemMeaning(groups[1..], id);
    }
  }

  /** An item counts as missing when no row has it, and also when the folder id of the first row that has
      it is -1. */
  lemma ReportedMissingIff(groups: seq<Group>, id: string)
    ensures FindItem(groups, id).group == -1 <==>
              id in AllItems(groups) ==> groups[FirstRowWith(groups, id)].FolderId() == -1
  {
    FindItemMeaning(groups, id);
  }

  // ---------- adding ----------

  function Unfound(groups: seq<Group>): string -> bool {
    (id: string) => FindItem(groups, id).group == -1
  }

  function IsNot(x: string): string -> bool {
    (y: string) => y != x
  }

  /** The first occurrence of each. */
  function Firsts(ids: seq<string>): seq<string>
    decreases |ids|
  {
    if ids == [] then []
    else
      FilterShortens(ids[1..], IsNot(ids[0]));
      [ids[0]] + Firsts(Filter(ids[1..], IsNot(ids[0])))
  }

  /** What the top level gains: each id reported missing, once, in order. */
  function NewItems(groups: seq<Group>, ids: seq<string>): seq<string> {
    Firsts(Filter(ids, Unfound(groups)))
  }

  lemma AddOneEffect(groups: seq<Group>, id: string)
    requires groups != [] && groups[0].FolderId() == 0 && WithinBounds(groups)
    requires FindItem(groups, id).group == -1
    ensures var r := AddOne(groups, id);
            && WithinBounds(r) && r[0].FolderId() == 0 && r[0].Flat() == groups[0].Flat() + [id]
            && forall y :: Unfound(r)(y) <==> y != id && Unfound(groups)(y)
  {
    var r := AddOne(groups, id);
    AppendItemRefines(groups[0].pages, groups[0].Max(), id);
    forall y ensures Unfound(r)(y) <==> y != id && Unfound(groups)(y) {
      FindMeaning(groups[0].pages, y);
      FindMeaning(r[0].pages, y);
      assert r[1..] == groups[1..];
    }
  }

  lemma NewItemsStep(groups: seq<Group>, next: seq<Group>, ids: seq<string>)
    requires ids != [] && FindItem(groups, ids[0]).group == -1
    requires forall y :: Unfound(next)(y) <==> y != ids[0] && Unfound(groups)(y)
    ensures NewItems(groups, ids) == [ids[0]] + NewItems(next, ids[1..])
  {
    var id, rest := ids[0], ids[1..];
    var found := Filter(rest, Unfound(groups));
    FilterMapCompose(rest, Keep(Unfound(groups)), Keep(IsNot(id)), Keep(Unfound(next)));
    assert Filter(ids, Unfound(groups)) == [id] + found && ([id] + found)[1..] == found;
  }

  lemma {:induction false} AddMissingEffect(groups: seq<Group>, ids: seq<string>)
    requires groups != [] && groups[0].FolderId() == 0 && WithinBounds(groups)
    ensures WithinBounds(AddMissing(groups, ids))
    ensures AddMissing(groups, ids)[0].Flat() == groups[0].Flat() + NewItems(groups, ids)
    decreases ids
  {
    if ids == [] {
      assert groups[0].Flat() + [] == groups[0].Flat();
    } else if FindItem(groups, ids[0]).group == -1 {
      var next := AddOne(groups, ids[0]);
      AddOneEffect(groups, ids[0]);
      NewItemsStep(groups, next, ids);
      AddMissingEffect(next, ids[1..]);
      Associative(groups[0].Flat(), [ids[0]], NewItems(next, ids[1..]));
    } else {
      AddMissingEffect(groups, ids[1..]);
    }
  }

  lemma {:induction false} FirstsCount(ids: seq<string>, x: string)
    ensures Count(Firsts(ids), x) == if x in ids then 1 else 0
    decreases |ids|
  {
    if ids != [] {
      var rest := Filter(ids[1..], IsNot(ids[0]));
      FilterShortens(ids[1..], IsNot(ids[0]));
      FirstsCount(rest, x);
      FilterMember(ids[1..], IsNot(ids[0]), x);
      assert ([ids[0]] + Firsts(rest))[1..] == Firsts(rest);
      assert ids == [ids[0]] + ids[1..];
    }
  }

  lemma {:induction false} FirstsOrder(ids: seq<string>)
    ensures InOrderOf(Firsts(ids), ids)
    decreases |ids|
  {
    if ids != [] {
      var rest := Filter(ids[1..], IsNot(ids[0]));
      FilterShortens(ids[1..], IsNot(ids[0]));
      FirstsOrder(rest);
      FilterOrder(Firsts(rest), ids[1..], IsNot(ids[0]));
      forall k | 0 <= k < |Firsts(rest)| ensures Firsts(rest)[k] != ids[0] {
        FilterMember(ids[1..], IsNot(ids[0]), Firsts(rest)[k]);
      }
      InFrontOfOrder(ids, Firsts(rest));
    }
  }

  lemma InFrontOfOrder(ids: seq<string>, r: seq<string>)
    requires ids != [] && InOrderOf(r, ids[1..]) && ids[0] !in r
    ensures InOrderOf([ids[0]] + r, ids)
  {
    forall k | 0 <= k < |r| ensures r[k] in ids && IndexOf(ids, r[k]) == 1 + IndexOf(ids[1..], r[k]) {
      assert r[k] != ids[0];
    }
  }

  /** The top level gains them in the order in which the applications list them. */
  lemma NewItemsOrder(groups: seq<Group>, ids: seq<string>)
    ensures InOrderOf(NewItems(groups, ids), ids)
  {
    FirstsOrder(Filter(ids, Unfound(groups)));
    FilterOrder(NewItems(groups, ids), ids, Unfound(groups));
  }

  lemma NewItemsCount(groups: seq<Group>, ids: seq<string>, x: string)
    ensures Count(NewItems(groups, ids), x) == if x in ids && FindItem(groups, x).group == -1 then 1 else 0
  {
    FirstsCount(Filter(ids, Unfound(groups)), x);
    FilterMember(ids, Unfound(groups), x);
  }
}
