/** The launcher's paged item list, changed in place. */
module ItemsPages {
  import opened Lists
  import opened Arithmetic
  import opened Pages

  /** What removeItemsNotIn spares: the listed items and the launcher's own "internal/" ones. */
  predicate IsInternal(item: string) {
    "internal/" <= item
  }

  function Spared(itemSet: set<string>): string -> bool {
    (item: string) => item in itemSet || IsInternal(item)
  }

  class ItemsPage {
    const maxItemCountPerPage: nat
    var pages: seq<Page>

    ghost predicate Valid()
      reads this
    {
      maxItemCountPerPage >= 1 && Bounded(pages, maxItemCountPerPage)
    }

    constructor (max: nat)
      requires max >= 1
      ensures Valid() && pages == [] && maxItemCountPerPage == max
    {
      maxItemCountPerPage := max;
      pages := [];
    }

    method AppendPage(items: seq<string>)
      requires Valid()
      modifies this
      ensures Valid() && pages == old(pages) + Chunks(items, maxItemCountPerPage)
      ensures Flatten(pages) == Flatten(old(pages)) + items
    {
      ChunksMeaning(items, maxItemCountPerPage);
      FlattenConcat(pages, Chunks(items, maxItemCountPerPage));
      if |items| == 0 { return; }
      var begin := AppendFullPages(items);
      if begin != |items| {
        pages := pages + [items[begin..]];
      }
      assert pages == old(pages) + Chunks(items, maxItemCountPerPage);
    }

    /** The loop over the full pages; what remains from `begin` on is shorter than a page. */
    method AppendFullPages(items: seq<string>) returns (begin: nat)
      requires maxItemCountPerPage >= 1
      modifies this
      ensures begin <= |items| < begin + maxItemCountPerPage
      ensures pages + Chunks(items[begin..], maxItemCountPerPage) == old(pages) + Chunks(items, maxItemCountPerPage)
    {
      var fullPages := |items| / maxItemCountPerPage;
      FullPagesIsQuotient(|items|, maxItemCountPerPage);
      begin := 0;
      var i := 0;
      assert items[0..] == items;
      while i < fullPages
        invariant 0 <= i <= fullPages && begin <= |items|
        invariant fullPages - i == FullPages(|items| - begin, maxItemCountPerPage)
        invariant pages + Chunks(items[begin..], maxItemCountPerPage) == old(pages) + Chunks(items, maxItemCountPerPage)
      {
        var next := begin + maxItemCountPerPage;
        ChunkStep(items, begin, maxItemCountPerPage);
        Associative(pages, [items[begin..next]], Chunks(items[next..], maxItemCountPerPage));
        pages := pages + [items[begin..next]];
        begin, i := next, i + 1;
      }
    }

    method AppendItem(id: string, page: int)
      requires Valid() && (page < 0 || page < |pages|)
      modifies this
      ensures Valid() && pages == Appended(old(pages), maxItemCountPerPage, id, page)
      ensures page < 0 ==> Flatten(pages) == Flatten(old(pages)) + [id]
      ensures var start := if page >= 0 then page else if old(pages) == [] then 0 else |old(pages)| - 1;
              OneGrew(old(pages), pages, FirstWithRoom(old(pages), maxItemCountPerPage, start))
    {
      AppendItemRefines(pages, maxItemCountPerPage, id);
      var at := if page >= 0 then page else if pages == [] then 0 else |pages| - 1;
      ghost var start := at;
      while at < |pages| && |pages[at]| >= maxItemCountPerPage
        invariant start <= at <= |pages|
        invariant FirstWithRoom(pages, maxItemCountPerPage, at) == FirstWithRoom(pages, maxItemCountPerPage, start)
      {
        at := at + 1;
      }
      if at == |pages| {
        ChunksOfOne(id, maxItemCountPerPage);
        AppendPage([id]);
      } else {
        pages := pages[at := pages[at] + [id]];
      }
    }

    method InsertItem(id: string, page: nat, pos: nat)
      requires Valid() && page < |pages|
      modifies this
      ensures Valid() && pages == Inserted(old(pages), maxItemCountPerPage, id, page, pos)
      ensures pages[..page] == old(pages)[..page]
      ensures var at := |Flatten(old(pages)[..page])| + Min(pos, |old(pages)[page]|);
              at <= |Flatten(old(pages))| && Flatten(pages) == InsertAt(Flatten(old(pages)), at, id)
      decreases |pages| - page
    {
      InsertItemRefines(pages, maxItemCountPerPage, id, page, pos);
      var grown := InsertAt(pages[page], Min(pos, |pages[page]|), id);
      if |grown| > maxItemCountPerPage {
        InsertedOver(pages, maxItemCountPerPage, id, page, pos, grown);
        pages := pages[page := grown[..|grown| - 1]];
        PassOn(grown[|grown| - 1], page);
      } else {
        InsertedWithin(pages, maxItemCountPerPage, id, page, pos, grown);
        pages := pages[page := grown];
      }
    }

    /** The overflow of a page goes to the front of the next one, or onto a page of its own. */
    method PassOn(last: string, page: nat)
      requires Valid() && page < |pages|
      modifies this
      ensures Valid()
      ensures pages == if page + 1 == |old(pages)| then old(pages) + Chunks([last], maxItemCountPerPage)
                       else Inserted(old(pages), maxItemCountPerPage, last, page + 1, 0)
      decreases |pages| - page, 0
    {
      if page + 1 == |pages| {
        AppendPage([last]);
      } else {
        InsertItem(last, page + 1, 0);
      }
    }

    method FindItem(id: string) returns (page: int, index: int)
      requires Valid()
      ensures match Find(pages, id)
              case None => page == -1 && index == -1
              case Some((p, i)) => page == p && index == i
      ensures page == -1 <==> id !in Flatten(pages)
    {
      FindMeaning(pages, id);
      var i := 0;
      assert pages[0..] == pages;
      while i < |pages|
        invariant 0 <= i <= |pages|
        invariant match Find(pages[i..], id)
                  case None => Find(pages, id) == None
                  case Some((p, k)) => Find(pages, id) == Some((i + p, k))
      {
        assert pages[i..][0] == pages[i] && pages[i..][1..] == pages[i + 1..];
        if id in pages[i] {
          return i, IndexOf(pages[i], id);
        }
        i := i + 1;
      }
      return -1, -1;
    }

    method RemoveItem(id: string, removePageIfPageIsEmpty: bool) returns (removed: bool)
      requires Valid()
      modifies this
      ensures Valid() && pages == Removed(old(pages), id, removePageIfPageIsEmpty)
      ensures removed <==> id in Flatten(old(pages))
      ensures removed ==> Flatten(pages) == RemoveAt(Flatten(old(pages)), IndexOf(Flatten(old(pages)), id))
    {
      ghost var before := pages;
      var page, index := FindItem(id);
      if index != -1 {
        pages := pages[page := RemoveAt(pages[page], index)];
        if removePageIfPageIsEmpty && pages[page] == [] {
          pages := RemoveAt(pages, page);
        }
      }
      assert pages == Removed(before, id, removePageIfPageIsEmpty);
      RemoveItemRefines(before, maxItemCountPerPage, id, removePageIfPageIsEmpty);
      return index != -1;
    }

    method RemoveEmptyPages()
      requires Valid()
      modifies this
      ensures Valid() && pages == WithoutEmptyPages(old(pages))
      ensures Flatten(pages) == Flatten(old(pages)) && NoEmptyPage(pages)
    {
      WithoutEmptyPagesMeaning(pages, maxItemCountPerPage);
      pages := WithoutEmptyPages(pages);
    }

    method RemoveItemsNotIn(itemSet: set<string>)
      requires Valid()
      modifies this
      ensures Valid() && pages == Narrowed(old(pages), Spared(itemSet))
      ensures Flatten(pages) == Filter(Flatten(old(pages)), Spared(itemSet)) && NoEmptyPage(pages)
    {
      RemoveItemsNotInRefines(pages, maxItemCountPerPage, Spared(itemSet));
      NarrowFlat(pages, maxItemCountPerPage, Spared(itemSet));
      ghost var before := pages;
      var i := 0;
      while i < |pages|
        invariant 0 <= i <= |pages| == |before|
        invariant forall k | 0 <= k < i :: pages[k] == Filter(before[k], Spared(itemSet))
        invariant forall k | i <= k < |pages| :: pages[k] == before[k]
      {
        NarrowPage(i, itemSet);
        i := i + 1;
      }
      FilterMapTotal(before, Narrow(Spared(itemSet)), pages);
      RemoveEmptyPages();
    }

    /** Walks one page from its end, removing what is not spared. */
    method NarrowPage(i: nat, itemSet: set<string>)
      requires i < |pages|
      modifies this
      ensures pages == old(pages)[i := Filter(old(pages)[i], Spared(itemSet))]
    {
      ghost var page := pages[i];
      var j := |pages[i]| - 1;
      assert page[..j + 1] + Filter(page[j + 1..], Spared(itemSet)) == page;
      while j >= 0
        invariant -1 <= j < |page| && |pages| == |old(pages)|
        invariant forall k | 0 <= k < |pages| && k != i :: pages[k] == old(pages)[k]
        invariant pages[i] == page[..j + 1] + Filter(page[j + 1..], Spared(itemSet))
      {
        var item := pages[i][j];
        ghost var tail := Filter(page[j + 1..], Spared(itemSet));
        assert page[j..][1..] == page[j + 1..];
        assert page[..j + 1] == page[..j] + [item];
        if !(item in itemSet) && !IsInternal(item) {
          assert RemoveAt(pages[i], j) == page[..j] + tail;
          pages := pages[i := RemoveAt(pages[i], j)];
        } else {
          assert pages[i] == page[..j] + ([item] + tail);
        }
        j := j - 1;
      }
      assert page[0..] == page;
      assert pages[i] == Filter(page, Spared(itemSet));
      assert pages == old(pages)[i := pages[i]];
    }

    method MoveItemPosition(fromPage: nat, fromIndex: nat, toPage: nat, toIndex: nat, appendToIndexItem: bool)
      requires Valid()
      requires fromPage < |pages| && fromIndex < |pages[fromPage]| && toPage < |pages|
      requires fromPage == toPage ==> toIndex < |pages[toPage]|
      modifies this
      ensures Valid()
      ensures pages == MovedPosition(old(pages), maxItemCountPerPage, fromPage, fromIndex, toPage, toIndex,
                                     appendToIndexItem)
      ensures OneFlatMove(old(pages), pages, |Flatten(old(pages)[..fromPage])| + fromIndex,
                          LandingIndex(old(pages), fromPage, fromIndex, toPage, toIndex, appendToIndexItem))
    {
      MoveItemPositionRefines(pages, maxItemCountPerPage, fromPage, fromIndex, toPage, toIndex, appendToIndexItem);
      var index := toIndex;
      if fromPage == toPage && fromIndex > toIndex && appendToIndexItem {
        if fromIndex == toIndex + 1 {
          StayingPut(pages, fromPage, fromIndex);
          return;
        }
        index := index + 1;
      }
      var needRemoveEmptyPage := |pages[fromPage]| == 1;
      MoveItem(fromPage, fromIndex, toPage, index);
      if needRemoveEmptyPage {
        RemoveEmptyPages();
      }
    }

    method MoveItem(fromPage: nat, fromIndex: nat, toPage: nat, toIndex: nat)
      requires Valid()
      requires fromPage < |pages| && fromIndex < |pages[fromPage]| && toPage < |pages|
      requires fromPage == toPage ==> toIndex < |pages[toPage]|
      modifies this
      ensures Valid()
      ensures pages == MovedItem(old(pages), maxItemCountPerPage, fromPage, fromIndex, toPage, toIndex)
      ensures OneFlatMove(old(pages), pages, |Flatten(old(pages)[..fromPage])| + fromIndex,
                          LandingIndex(old(pages), fromPage, fromIndex, toPage, toIndex, false))
    {
      MoveItemRefines(pages, maxItemCountPerPage, fromPage, fromIndex, toPage, toIndex, false);
      var item := pages[fromPage][fromIndex];
      var rest := RemoveAt(pages[fromPage], fromIndex);
      pages := pages[fromPage := rest];
      if fromPage == toPage {
        pages := pages[fromPage := InsertAt(rest, toIndex, item)];
      } else {
        InsertItem(item, toPage, toIndex);
      }
    }
  }

  // ---------- steps ----------

  function FullPages(len: nat, max: nat): nat
    requires max >= 1
  {
    if len < max then 0 else 1 + FullPages(len - max, max)
  }

  lemma {:induction false} FullPagesBounds(len: nat, max: nat)
    requires max >= 1
    ensures FullPages(len, max) * max <= len < FullPages(len, max) * max + max
  {
    if len >= max {
      FullPagesBounds(len - max, max);
      assert FullPages(len, max) * max == FullPages(len - max, max) * max + max;
    }
  }

  lemma FullPagesIsQuotient(len: nat, max: nat)
    requires max >= 1
    ensures FullPages(len, max) == len / max
  {
    FullPagesBounds(len, max);
    QuotientUnique(len, max, FullPages(len, max), len / max);
  }

  lemma ChunkStep(items: seq<string>, begin: nat, max: nat)
    requires max >= 1 && begin + max <= |items|
    ensures Chunks(items[begin..], max) == [items[begin..begin + max]] + Chunks(items[begin + max..], max)
  {
    var rest := items[begin..];
    assert rest[..max] == items[begin..begin + max];
    assert rest[max..] == items[begin + max..];
    if |rest| == max {
      assert rest[..max] == rest && rest[max..] == [];
    }
  }

  /** One step of the cascade, page by page in place. */
  lemma InsertedWithin(pages: seq<Page>, max: nat, id: string, page: nat, pos: nat, grown: Page)
    requires page < |pages| && max >= 1 && grown == InsertAt(pages[page], Min(pos, |pages[page]|), id) && |grown| <= max
    ensures Inserted(pages, max, id, page, pos) == pages[page := grown]
  {
    var rest := pages[page..];
    assert Cascade(rest, max, id, pos) == [grown] + rest[1..];
    assert pages[..page] + ([grown] + rest[1..]) == pages[page := grown];
  }

  lemma InsertedOver(pages: seq<Page>, max: nat, id: string, page: nat, pos: nat, grown: Page)
    requires page < |pages| && max >= 1 && Bounded(pages, max)
    requires grown == InsertAt(pages[page], Min(pos, |pages[page]|), id) && |grown| > max
    ensures var r, last := pages[page := grown[..|grown| - 1]], grown[|grown| - 1];
            && Bounded(r, max)
            && Inserted(pages, max, id, page, pos)
            == (if page + 1 == |pages| then r + Chunks([last], max) else Inserted(r, max, last, page + 1, 0))
  {
    var kept, last := grown[..|grown| - 1], grown[|grown| - 1];
    var r, rest := pages[page := kept], pages[page..];
    var tail := if |rest| == 1 then Chunks([last], max) else Cascade(rest[1..], max, last, 0);
    ReplacedSplit(pages, page, kept);
    CascadeOver(rest, max, id, pos, grown);
    calc {
      Inserted(pages, max, id, page, pos);
      pages[..page] + ([kept] + tail);
      { Associative(pages[..page], [kept], tail); }
      r[..page + 1] + tail;
    }
  }

  lemma ReplacedSplit<T>(s: seq<T>, i: nat, x: T)
    requires i < |s|
    ensures s[i := x][..i + 1] == s[..i] + [x] && s[i := x][i + 1..] == s[i + 1..] == s[i..][1..]
    ensures i + 1 == |s| ==> s[i := x] == s[..i] + [x]
  {
  }

  /** Moving an item behind its left neighbour leaves it where it is. */
  lemma StayingPut(pages: seq<Page>, page: nat, index: nat)
    requires page < |pages| && index < |pages[page]|
    ensures pages[page := Move(pages[page], index, index)] == pages
    ensures NoEmptyPage(pages) ==> WithoutEmptyPages(pages) == pages
  {
    assert Move(pages[page], index, index) == pages[page];
    if NoEmptyPage(pages) { FilterMapIdentity(pages, Keep(HasItems())); }
  }
}
