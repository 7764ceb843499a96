/** On which page every item stands after an operation: which pages remain, and how many items each holds.
    Together with the flat list that determines the pages. */
module PageSizes {
  import opened Lists
  import opened Pages

  function Sizes(pages: seq<Page>): (r: seq<nat>)
    ensures |r| == |pages|
  {
    seq(|pages|, i requires 0 <= i < |pages| => |pages[i]|)
  }

  lemma SameFlatSameSizes(a: seq<Page>, b: seq<Page>)
    requires Sizes(a) == Sizes(b) && Flatten(a) == Flatten(b)
    ensures a == b
  {
    forall i | 0 <= i < |a| ensures |a[i]| == |b[i]| {
      assert Sizes(a)[i] == Sizes(b)[i];
    }
    PagesDetermined(a, b);
  }

  /** One item more on page k; a new page of one item if there is no page k. */
  function Grown(sizes: seq<nat>, k: nat): seq<nat>
    requires k <= |sizes|
  {
    if k == |sizes| then sizes + [1] else sizes[k := sizes[k] + 1]
  }

  lemma GrownSizes(before: seq<Page>, after: seq<Page>, k: nat)
    requires OneGrew(before, after, k)
    ensures Sizes(after) == Grown(Sizes(before), k)
  {
  }

  /** Page k is the first one from `start` on that is not full; if all are, k is the number of pages. */
  ghost predicate FirstNotFull(sizes: seq<nat>, max: nat, start: nat, k: nat) {
    && start <= k <= |sizes| && (forall i | start <= i < k :: sizes[i] >= max)
    && (k < |sizes| ==> sizes[k] < max)
  }

  // ---------- appending ----------

  /** appendItem puts the item at the end of the first page with room, from the given page on or from the last
      page, and on a page of its own only when there is no room on any of them. */
  lemma AppendItemExactly(pages: seq<Page>, max: nat, id: string, page: int) returns (k: nat)
    requires max >= 1 && Bounded(pages, max) && page < |pages|
    ensures var r := Appended(pages, max, id, page);
            && FirstNotFull(Sizes(pages), max, if page >= 0 then page else if pages == [] then 0 else |pages| - 1, k)
            && Sizes(r) == Grown(Sizes(pages), k) && Bounded(r, max)
            && (if k < |pages| then r[k] == pages[k] + [id] && forall i | 0 <= i < |pages| && i != k :: r[i] == pages[i]
                else r == pages + [[id]])
  {
    var start := if page >= 0 then page else if pages == [] then 0 else |pages| - 1;
    k := FirstWithRoom(pages, max, start);
    assert OneGrew(pages, Appended(pages, max, id, page), k);
    GrownSizes(pages, Appended(pages, max, id, page), k);
  }

  // ---------- removing ----------

  /** removeItem changes the first page that has the item, by its first occurrence there, or drops that page. */
  lemma RemoveItemExactly(pages: seq<Page>, id: string, dropEmptyPage: bool) returns (page: nat)
    ensures var r := Removed(pages, id, dropEmptyPage);
            if id !in Flatten(pages) then r == pages
            else
              && page < |pages| && id in pages[page] && (forall i | 0 <= i < page :: id !in pages[i])
              && if dropEmptyPage && pages[page] == [id] then r == RemoveAt(pages, page)
                 else
                   && |r| == |pages| && r[page] == WithoutFirst(pages[page], id)
                   && forall i | 0 <= i < |pages| && i != page :: r[i] == pages[i]
  {
    FindMeaning(pages, id);
    page := if Find(pages, id).Some? then Find(pages, id).value.0 else 0;
    FindFirst(pages, id);
  }

  /** No page is left exactly when there was none, or one with the item alone. */
  lemma RemovedAllIff(pages: seq<Page>, id: string)
    ensures Removed(pages, id, true) == [] <==> pages == [] || pages == [[id]]
  {
    var page := RemoveItemExactly(pages, id, true);
    if pages == [[id]] {
      assert pages[0] == [id];
      FindMeaning(pages, id);
      assert Find(pages, id).Some?;
    }
  }

  lemma {:induction false} FindFirst(pages: seq<Page>, id: string)
    ensures match Find(pages, id)
            case None => true
            case Some((page, pos)) =>
              id in pages[page] && pos == IndexOf(pages[page], id) && forall i | 0 <= i < page :: id !in pages[i]
  {
    if pages != [] {
      FindFirst(pages[1..], id);
      if id !in pages[0] && Find(pages[1..], id).Some? {
        var page := Find(pages[1..], id).value.0;
        assert forall i | 1 <= i < page + 1 :: pages[i] == pages[1..][i - 1];
      }
    }
  }

  /** removeEmptyPages keeps exactly the pages with items, in their order. */
  lemma WithoutEmptyPagesExactly(pages: seq<Page>) returns (from: seq<nat>)
    ensures var r := WithoutEmptyPages(pages);
            && Picks(from, |pages|) && |from| == |r|
            && (forall j: nat | j < |pages| :: j in from <==> pages[j] != [])
            && forall k | 0 <= k < |r| :: r[k] == pages[from[k]]
  {
    from := FilterPicks(pages, HasItems());
  }

  /** What is kept of a page stays on it, and the pages of which nothing is kept are gone. */
  ghost predicate PageByPage(pages: seq<Page>, r: seq<Page>, keep: string -> bool) {
    exists from :: KeptOfPages(pages, r, keep, from)
  }

  ghost predicate KeptOfPages(pages: seq<Page>, r: seq<Page>, keep: string -> bool, from: seq<nat>) {
    && Picks(from, |pages|) && |from| == |r|
    && (forall j: nat | j < |pages| :: j in from <==> exists x :: x in pages[j] && keep(x))
    && forall k | 0 <= k < |r| :: r[k] == Filter(pages[from[k]], keep)
  }

  /** removeItemsNotIn works page by page. */
  lemma NarrowedExactly(pages: seq<Page>, keep: string -> bool)
    ensures PageByPage(pages, Narrowed(pages, keep), keep)
  {
    var narrow := FilterMap(pages, Narrow(keep));
    FilterMapAll(pages, Narrow(keep));
    var from := WithoutEmptyPagesExactly(narrow);
    forall j: nat | j < |pages| ensures j in from <==> exists x :: x in pages[j] && keep(x) {
      assert narrow[j] == Filter(pages[j], keep);
      if narrow[j] != [] { FilterMember(pages[j], keep, narrow[j][0]); }
      if x :| x in pages[j] && keep(x) { FilterMember(pages[j], keep, x); }
    }
    assert KeptOfPages(pages, Narrowed(pages, keep), keep, from);
  }

  // ---------- moving ----------

  /** One item less on page p. */
  function Cut(sizes: seq<nat>, p: nat): seq<nat>
    requires p < |sizes| && sizes[p] > 0
  {
    sizes[p := sizes[p] - 1]
  }

  function Positive(): nat -> bool {
    (n: nat) => n > 0
  }

  lemma {:induction false} SizesWithoutEmpty(pages: seq<Page>)
    ensures Sizes(WithoutEmptyPages(pages)) == Filter(Sizes(pages), Positive())
  {
    if pages != [] {
      SizesWithoutEmpty(pages[1..]);
      assert Sizes(pages)[1..] == Sizes(pages[1..]);
      if pages[0] != [] {
        assert WithoutEmptyPages(pages) == [pages[0]] + WithoutEmptyPages(pages[1..]);
      }
    }
  }

  /** moveItem leaves the sizes alone on one page; across pages the item leaves one page, and the first page from
      the target on that is then not full has one item more. */
  lemma MoveItemSizes(pages: seq<Page>, max: nat, fromPage: nat, fromIndex: nat, toPage: nat, toIndex: nat)
    returns (k: nat)
    requires max >= 1 && Bounded(pages, max)
    requires fromPage < |pages| && fromIndex < |pages[fromPage]| && toPage < |pages|
    requires fromPage == toPage ==> toIndex < |pages[toPage]|
    ensures var r := MovedItem(pages, max, fromPage, fromIndex, toPage, toIndex);
            if fromPage == toPage then Sizes(r) == Sizes(pages)
            else
              && FirstNotFull(Cut(Sizes(pages), fromPage), max, toPage, k)
              && Sizes(r) == Grown(Cut(Sizes(pages), fromPage), k)
  {
    if fromPage == toPage {
      k := 0;
    } else {
      var cut := TakenOut(pages, fromPage, fromIndex);
      k := FirstWithRoom(cut, max, toPage);
      assert Sizes(cut) == Cut(Sizes(pages), fromPage);
      InsertItemSizes(cut, max, pages[fromPage][fromIndex], toPage, toIndex);
      GrownSizes(cut, Inserted(cut, max, pages[fromPage][fromIndex], toPage, toIndex), k);
    }
  }

  /** moveItemPosition does the same, and then the empty pages go if the item was alone on its page. */
  lemma MoveItemPositionSizes(pages: seq<Page>, max: nat,
                              fromPage: nat, fromIndex: nat, toPage: nat, toIndex: nat, behind: bool)
    returns (k: nat)
    requires max >= 1 && Bounded(pages, max)
    requires fromPage < |pages| && fromIndex < |pages[fromPage]| && toPage < |pages|
    requires fromPage == toPage ==> toIndex < |pages[toPage]|
    ensures var sizes := Sizes(MovedPosition(pages, max, fromPage, fromIndex, toPage, toIndex, behind));
            var tidy := (s: seq<nat>) => if |pages[fromPage]| == 1 then Filter(s, Positive()) else s;
            if fromPage == toPage then sizes == tidy(Sizes(pages))
            else
              && FirstNotFull(Cut(Sizes(pages), fromPage), max, toPage, k)
              && sizes == tidy(Grown(Cut(Sizes(pages), fromPage), k))
  {
    var target := TargetIndex(fromPage, fromIndex, toPage, toIndex, behind);
    k := MoveItemSizes(pages, max, fromPage, fromIndex, toPage, target);
    SizesWithoutEmpty(MovedItem(pages, max, fromPage, fromIndex, toPage, target));
  }
}
