/** Launcher pages as values: a list of pages of bounded size that stands for one flat list. */
module Pages {
  import opened Lists

  type Page = seq<string>

  function Flatten(pages: seq<Page>): seq<string> {
    if pages == [] then [] else pages[0] + Flatten(pages[1..])
  }

  ghost predicate Bounded(pages: seq<Page>, max: nat) {
    forall i | 0 <= i < |pages| :: |pages[i]| <= max
  }

  ghost predicate NoEmptyPage(pages: seq<Page>) {
    forall i | 0 <= i < |pages| :: pages[i] != []
  }

  function Min(a: int, b: int): int {
    if a < b then a else b
  }

  // ---------- operations ----------

  /** The items cut into full pages and, if any are left, a last shorter one. */
  function Chunks(items: seq<string>, max: nat): seq<Page>
    requires max >= 1
  {
    if items == [] then []
    else if |items| <= max then [items]
    else [items[..max]] + Chunks(items[max..], max)
  }

  /** Insertion into the first of the pages; an overfull page hands its last item on. */
  function Cascade(pages: seq<Page>, max: nat, id: string, pos: nat): seq<Page>
    requires pages != [] && max >= 1
    decreases pages
  {
    var page := InsertAt(pages[0], Min(pos, |pages[0]|), id);
    if |page| <= max then [page] + pages[1..]
    else
      var kept, last := page[..|page| - 1], page[|page| - 1];
      [kept] + if |pages| == 1 then Chunks([last], max) else Cascade(pages[1..], max, last, 0)
  }

  function Inserted(pages: seq<Page>, max: nat, id: string, page: nat, pos: nat): seq<Page>
    requires page < |pages| && max >= 1
  {
    pages[..page] + Cascade(pages[page..], max, id, pos)
  }

  /** The first page from `start` on with room for another item; |pages| if there is none. */
  function FirstWithRoom(pages: seq<Page>, max: nat, start: nat): (k: nat)
    requires start <= |pages|
    ensures start <= k <= |pages|
    ensures k < |pages| ==> |pages[k]| < max
    ensures forall i | start <= i < k :: |pages[i]| >= max
    decreases |pages| - start
  {
    if start == |pages| || |pages[start]| < max then start else FirstWithRoom(pages, max, start + 1)
  }

  function Appended(pages: seq<Page>, max: nat, id: string, page: int): seq<Page>
    requires page < |pages| || page < 0
  {
    var start := if page >= 0 then page else if pages == [] then 0 else |pages| - 1;
    var k := FirstWithRoom(pages, max, start);
    if k == |pages| then pages + [[id]] else pages[k := pages[k] + [id]]
  }

  /** The position of the first occurrence, in reading order. */
  function Find(pages: seq<Page>, id: string): (r: Option<(nat, nat)>)
    ensures r.Some? ==> r.value.0 < |pages| && r.value.1 < |pages[r.value.0]| && pages[r.value.0][r.value.1] == id
  {
    if pages == [] then None
    else if id in pages[0] then Some((0, IndexOf(pages[0], id)))
    else match Find(pages[1..], id)
         case None => None
         case Some((page, pos)) => Some((page + 1, pos))
  }

  function TakenOut(pages: seq<Page>, page: nat, pos: nat): seq<Page>
    requires page < |pages| && pos < |pages[page]|
  {
    pages[page := RemoveAt(pages[page], pos)]
  }

  function Removed(pages: seq<Page>, id: string, dropEmptyPage: bool): seq<Page> {
    match Find(pages, id)
    case None => pages
    case Some((page, pos)) =>
      var r := TakenOut(pages, page, pos);
      if dropEmptyPage && r[page] == [] then RemoveAt(r, page) else r
  }

  function HasItems(): Page -> bool {
    (p: Page) => p != []
  }

  function WithoutEmptyPages(pages: seq<Page>): seq<Page> {
    Filter(pages, HasItems())
  }

  function Narrow(keep: string -> bool): Page -> Option<Page> {
    (p: Page) => Some(Filter(p, keep))
  }

  function Narrowed(pages: seq<Page>, keep: string -> bool): seq<Page> {
    WithoutEmptyPages(FilterMap(pages, Narrow(keep)))
  }

  function MovedItem(pages: seq<Page>, max: nat, fromPage: nat, fromIndex: nat, toPage: nat, toIndex: nat): seq<Page>
    requires max >= 1 && fromPage < |pages| && fromIndex < |pages[fromPage]| && toPage < |pages|
    requires fromPage == toPage ==> toIndex < |pages[toPage]|
  {
    if fromPage == toPage then pages[fromPage := Move(pages[fromPage], fromIndex, toIndex)]
    else Inserted(TakenOut(pages, fromPage, fromIndex), max, pages[fromPage][fromIndex], toPage, toIndex)
  }

  /** On one page, "behind the target" differs from "at the target" only when moving left. */
  function TargetIndex(fromPage: nat, fromIndex: nat, toPage: nat, toIndex: nat, behind: bool): nat {
    if fromPage == toPage && fromIndex > toIndex && behind then toIndex + 1 else toIndex
  }

  function MovedPosition(pages: seq<Page>, max: nat,
                         fromPage: nat, fromIndex: nat, toPage: nat, toIndex: nat, behind: bool): seq<Page>
    requires max >= 1 && fromPage < |pages| && fromIndex < |pages[fromPage]| && toPage < |pages|
    requires fromPage == toPage ==> toIndex < |pages[toPage]|
  {
    var target := TargetIndex(fromPage, fromIndex, toPage, toIndex, behind);
    var r := MovedItem(pages, max, fromPage, fromIndex, toPage, target);
    if |pages[fromPage]| == 1 then WithoutEmptyPages(r) else r
  }

  // ---------- flat meaning ----------

  lemma {:induction false} FlattenConcat(a: seq<Page>, b: seq<Page>)
    ensures Flatten(a + b) == Flatten(a) + Flatten(b)
  {
    if a == [] {
      assert a + b == b;
    } else {
      assert (a + b)[1..] == a[1..] + b;
      FlattenConcat(a[1..], b);
    }
  }

  lemma FlattenAround(pages: seq<Page>, k: nat)
    requires k < |pages|
    ensures Flatten(pages) == Flatten(pages[..k]) + pages[k] + Flatten(pages[k + 1..])
  {
    assert pages == pages[..k] + pages[k..];
    FlattenConcat(pages[..k], pages[k..]);
    assert pages[k..][1..] == pages[k + 1..];
  }

  lemma FlattenReplaced(pages: seq<Page>, k: nat, page: Page)
    requires k < |pages|
    ensures Flatten(pages[k := page]) == Flatten(pages[..k]) + page + Flatten(pages[k + 1..])
  {
    var r := pages[k := page];
    FlattenAround(r, k);
    assert r[..k] == pages[..k] && r[k + 1..] == pages[k + 1..];
  }

  lemma {:induction false} ChunksMeaning(items: seq<string>, max: nat)
    requires max >= 1
    ensures Flatten(Chunks(items, max)) == items
    ensures Bounded(Chunks(items, max), max) && NoEmptyPage(Chunks(items, max))
    ensures forall i | 0 <= i < |Chunks(items, max)| - 1 :: |Chunks(items, max)[i]| == max
    decreases items
  {
    if items == [] {
    } else if |items| <= max {
      assert [items][1..] == [];
    } else {
      ChunksMeaning(items[max..], max);
      assert items == items[..max] + items[max..];
    }
  }

  lemma ChunksOfOne(id: string, max: nat)
    requires max >= 1
    ensures Chunks([id], max) == [[id]] && Flatten([[id]]) == [id]
  {
    assert [[id]][1..] == [];
  }

  /** However far the overflow cascades, the pages read in order are the old ones with the id
      inserted at the clamped position. */
  lemma {:induction false} CascadeFlat(pages: seq<Page>, max: nat, id: string, pos: nat)
    requires pages != [] && max >= 1 && Bounded(pages, max)
    ensures Bounded(Cascade(pages, max, id, pos), max)
    ensures Min(pos, |pages[0]|) <= |Flatten(pages)|
    ensures Flatten(Cascade(pages, max, id, pos)) == InsertAt(Flatten(pages), Min(pos, |pages[0]|), id)
    decreases pages
  {
    var at := Min(pos, |pages[0]|);
    var page := InsertAt(pages[0], at, id);
    var rest := pages[1..];
    assert InsertAt(Flatten(pages), at, id) == page + Flatten(rest);
    if |page| > max {
      var kept, last := page[..|page| - 1], page[|page| - 1];
      assert page == kept + [last];
      assert page + Flatten(rest) == kept + ([last] + Flatten(rest));
      if rest == [] {
        ChunksOfOne(last, max);
        FlattenConcat([kept], [[last]]);
      } else {
        CascadeFlat(rest, max, last, 0);
        assert InsertAt(Flatten(rest), 0, last) == [last] + Flatten(rest);
      }
    }
  }

  /** Page k has gained an item; k == |before| stands for a new page with one item. */
  ghost predicate OneGrew(before: seq<Page>, after: seq<Page>, k: nat) {
    && k <= |before| && |after| == (if k == |before| then k + 1 else |before|)
    && (forall i | 0 <= i < |before| && i != k :: |after[i]| == |before[i]|)
    && |after[k]| == (if k == |before| then 1 else |before[k]| + 1)
  }

  lemma GrewBehind(a: seq<Page>, b: seq<Page>, before: seq<Page>, after: seq<Page>, k: nat)
    requires OneGrew(before, after, k) && |a| == |b| && forall i | 0 <= i < |a| :: |a[i]| == |b[i]|
    ensures OneGrew(a + before, b + after, |a| + k)
  {
  }

  lemma CascadeOver(pages: seq<Page>, max: nat, id: string, pos: nat, grown: Page)
    requires pages != [] && max >= 1 && grown == InsertAt(pages[0], Min(pos, |pages[0]|), id) && |grown| > max
    ensures var kept, last := grown[..|grown| - 1], grown[|grown| - 1];
            Cascade(pages, max, id, pos)
            == [kept] + if |pages| == 1 then Chunks([last], max) else Cascade(pages[1..], max, last, 0)
  {
  }

  /** The only page whose size changes is the first one from `page` on that had room, and it gains
      one item; when none had room, one page with one item is added. */
  lemma {:induction false} CascadeSizes(pages: seq<Page>, max: nat, id: string, pos: nat)
    requires pages != [] && max >= 1 && Bounded(pages, max)
    ensures OneGrew(pages, Cascade(pages, max, id, pos), FirstWithRoom(pages, max, 0))
    decreases pages
  {
    var at := Min(pos, |pages[0]|);
    var page := InsertAt(pages[0], at, id);
    if |page| > max {
      var last := page[|page| - 1];
      if |pages| == 1 {
        ChunksOfOne(last, max);
        GrewFirst([], [last]);
      } else {
        CascadeSizes(pages[1..], max, last, 0);
      }
      OverflowSizes(pages, max, id, pos, page);
    } else {
      GrewFirst(pages, page);
    }
  }

  lemma OverflowSizes(pages: seq<Page>, max: nat, id: string, pos: nat, grown: Page)
    requires pages != [] && max >= 1 && |pages[0]| == max && grown == InsertAt(pages[0], Min(pos, |pages[0]|), id)
    requires var last := grown[|grown| - 1];
             var tail := if |pages| == 1 then Chunks([last], max) else Cascade(pages[1..], max, last, 0);
             OneGrew(pages[1..], tail, FirstWithRoom(pages[1..], max, 0))
    ensures OneGrew(pages, Cascade(pages, max, id, pos), FirstWithRoom(pages, max, 0))
  {
    var kept, last := grown[..|grown| - 1], grown[|grown| - 1];
    var tail := if |pages| == 1 then Chunks([last], max) else Cascade(pages[1..], max, last, 0);
    CascadeOver(pages, max, id, pos, grown);
    GrewOverflow(pages, kept, tail, FirstWithRoom(pages[1..], max, 0));
    RoomInTail(pages, max, 1);
  }

  lemma GrewFirst(pages: seq<Page>, page: Page)
    requires |page| == 1 + if pages == [] then 0 else |pages[0]|
    ensures OneGrew(pages, [page] + if pages == [] then [] else pages[1..], 0)
  {
  }

  lemma GrewOverflow(pages: seq<Page>, kept: Page, tail: seq<Page>, k: nat)
    requires pages != [] && |kept| == |pages[0]| && OneGrew(pages[1..], tail, k)
    ensures OneGrew(pages, [kept] + tail, k + 1)
  {
    GrewBehind([pages[0]], [kept], pages[1..], tail, k);
    assert [pages[0]] + pages[1..] == pages;
  }

  lemma {:induction false} RoomInTail(pages: seq<Page>, max: nat, start: nat)
    requires 1 <= start <= |pages|
    ensures FirstWithRoom(pages, max, start) == FirstWithRoom(pages[1..], max, start - 1) + 1
    decreases |pages| - start
  {
    if start < |pages| && |pages[start]| >= max { RoomInTail(pages, max, start + 1); }
  }

  lemma {:induction false} RoomFrom(pages: seq<Page>, max: nat, page: nat, start: nat)
    requires page <= start <= |pages|
    ensures FirstWithRoom(pages, max, start) == FirstWithRoom(pages[page..], max, start - page) + page
    decreases |pages| - start
  {
    if start < |pages| && |pages[start]| >= max { RoomFrom(pages, max, page, start + 1); }
  }

  /** insertItem refines insertion into the flat list. */
  lemma InsertItemRefines(pages: seq<Page>, max: nat, id: string, page: nat, pos: nat)
    requires page < |pages| && max >= 1 && Bounded(pages, max)
    ensures var r := Inserted(pages, max, id, page, pos);
            && Bounded(r, max)
            && r[..page] == pages[..page]
            && |Flatten(pages[..page])| + Min(pos, |pages[page]|) <= |Flatten(pages)|
            && Flatten(r) == InsertAt(Flatten(pages), |Flatten(pages[..page])| + Min(pos, |pages[page]|), id)
  {
    var r := Inserted(pages, max, id, page, pos);
    var before, rest := pages[..page], pages[page..];
    CascadeFlat(rest, max, id, pos);
    FlattenConcat(before, Cascade(rest, max, id, pos));
    FlattenConcat(before, rest);
    assert pages == before + rest;
    InsertBehind(Flatten(before), Flatten(rest), Min(pos, |rest[0]|), id);
  }

  lemma InsertBehind<T>(a: seq<T>, b: seq<T>, at: nat, x: T)
    requires at <= |b|
    ensures InsertAt(a + b, |a| + at, x) == a + InsertAt(b, at, x)
  {
  }

  lemma InsertItemSizes(pages: seq<Page>, max: nat, id: string, page: nat, pos: nat)
    requires page < |pages| && max >= 1 && Bounded(pages, max)
    ensures OneGrew(pages, Inserted(pages, max, id, page, pos), FirstWithRoom(pages, max, page))
  {
    CascadeSizes(pages[page..], max, id, pos);
    RoomFrom(pages, max, page, page);
    GrewFrom(pages, page, Cascade(pages[page..], max, id, pos), FirstWithRoom(pages[page..], max, 0));
  }

  lemma GrewFrom(pages: seq<Page>, page: nat, after: seq<Page>, k: nat)
    requires page <= |pages| && OneGrew(pages[page..], after, k)
    ensures OneGrew(pages, pages[..page] + after, page + k)
  {
    GrewBehind(pages[..page], pages[..page], pages[page..], after, k);
    assert pages[..page] + pages[page..] == pages;
  }

  /** With flat content and sizes fixed, the pages are determined. */
  lemma {:induction false} PagesDetermined(a: seq<Page>, b: seq<Page>)
    requires |a| == |b| && (forall i | 0 <= i < |a| :: |a[i]| == |b[i]|) && Flatten(a) == Flatten(b)
    ensures a == b
  {
    if a != [] {
      assert Flatten(a)[..|a[0]|] == a[0] && Flatten(b)[..|b[0]|] == b[0];
      assert Flatten(a)[|a[0]|..] == Flatten(a[1..]) && Flatten(b)[|b[0]|..] == Flatten(b[1..]);
      PagesDetermined(a[1..], b[1..]);
      assert a == [a[0]] + a[1..] && b == [b[0]] + b[1..];
    }
  }

  /** appendItem on the last page appends to the flat list. */
  lemma AppendItemRefines(pages: seq<Page>, max: nat, id: string)
    requires max >= 1 && Bounded(pages, max)
    ensures var r := Appended(pages, max, id, -1);
            Bounded(r, max) && Flatten(r) == Flatten(pages) + [id] && (NoEmptyPage(pages) ==> NoEmptyPage(r))
  {
    var k := FirstWithRoom(pages, max, if pages == [] then 0 else |pages| - 1);
    if k == |pages| {
      FlattenConcat(pages, [[id]]);
      ChunksOfOne(id, max);
    } else {
      FlattenReplaced(pages, k, pages[k] + [id]);
      FlattenAround(pages, k);
      assert pages[k + 1..] == [];
    }
  }

  lemma {:induction false} FindMeaning(pages: seq<Page>, id: string)
    ensures Find(pages, id).None? <==> id !in Flatten(pages)
    ensures match Find(pages, id)
            case None => true
            case Some((page, pos)) => IndexOf(Flatten(pages), id) == |Flatten(pages[..page])| + pos
  {
    if pages != [] {
      var rest := Flatten(pages[1..]);
      FindMeaning(pages[1..], id);
      if id in pages[0] {
        IndexInPrefix(pages[0], rest, id);
        assert pages[..0] == [];
      } else if id in rest {
        IndexBehind(pages[0], rest, id);
        var page := Find(pages[1..], id).value.0;
        assert pages[..page + 1][1..] == pages[1..][..page];
      }
    }
  }

  lemma IndexInPrefix<T>(a: seq<T>, b: seq<T>, x: T)
    requires x in a
    ensures IndexOf(a + b, x) == IndexOf(a, x)
  {
    var i, j := IndexOf(a, x), IndexOf(a + b, x);
    assert (a + b)[i] == x && j <= i;
  }

  lemma IndexBehind<T>(a: seq<T>, b: seq<T>, x: T)
    requires x !in a && x in b
    ensures IndexOf(a + b, x) == |a| + IndexOf(b, x)
  {
    var i, j := IndexOf(b, x), IndexOf(a + b, x);
    assert (a + b)[|a| + i] == x && j <= |a| + i && j >= |a|;
    assert (a + b)[j] == b[j - |a|];
  }

  lemma TakenOutFlat(pages: seq<Page>, page: nat, pos: nat)
    requires page < |pages| && pos < |pages[page]|
    ensures |Flatten(pages[..page])| + pos < |Flatten(pages)|
    ensures Flatten(pages)[|Flatten(pages[..page])| + pos] == pages[page][pos]
    ensures Flatten(TakenOut(pages, page, pos)) == RemoveAt(Flatten(pages), |Flatten(pages[..page])| + pos)
  {
    FlattenAround(pages, page);
    FlattenReplaced(pages, page, RemoveAt(pages[page], pos));
  }

  lemma FlattenDropEmpty(pages: seq<Page>, k: nat)
    requires k < |pages| && pages[k] == []
    ensures Flatten(RemoveAt(pages, k)) == Flatten(pages)
  {
    FlattenAround(pages, k);
    FlattenConcat(pages[..k], pages[k + 1..]);
  }

  /** removeItem takes out the first occurrence, and nothing else. */
  lemma RemoveItemRefines(pages: seq<Page>, max: nat, id: string, dropEmptyPage: bool)
    requires Bounded(pages, max)
    ensures var r := Removed(pages, id, dropEmptyPage);
            && Bounded(r, max)
            && Flatten(r) == (if id in Flatten(pages) then RemoveAt(Flatten(pages), IndexOf(Flatten(pages), id))
                              else Flatten(pages))
            && (dropEmptyPage && NoEmptyPage(pages) ==> NoEmptyPage(r))
  {
    FindMeaning(pages, id);
    match Find(pages, id)
    case None =>
    case Some((page, pos)) =>
      var t := TakenOut(pages, page, pos);
      var r := if dropEmptyPage && t[page] == [] then RemoveAt(t, page) else t;
      assert Removed(pages, id, dropEmptyPage) == r;
      TakenOutPages(pages, max, page, pos, dropEmptyPage);
  }

  lemma TakenOutPages(pages: seq<Page>, max: nat, page: nat, pos: nat, dropEmptyPage: bool)
    requires Bounded(pages, max) && page < |pages| && pos < |pages[page]|
    ensures var t := TakenOut(pages, page, pos);
            var r := if dropEmptyPage && t[page] == [] then RemoveAt(t, page) else t;
            && Bounded(r, max)
            && |Flatten(pages[..page])| + pos < |Flatten(pages)|
            && Flatten(r) == RemoveAt(Flatten(pages), |Flatten(pages[..page])| + pos)
            && (dropEmptyPage && NoEmptyPage(pages) ==> NoEmptyPage(r))
  {
    var t := TakenOut(pages, page, pos);
    TakenOutFlat(pages, page, pos);
    if dropEmptyPage && t[page] == [] { FlattenDropEmpty(t, page); }
  }

  lemma {:induction false} WithoutEmptyPagesMeaning(pages: seq<Page>, max: nat)
    ensures Flatten(WithoutEmptyPages(pages)) == Flatten(pages) && NoEmptyPage(WithoutEmptyPages(pages))
    ensures Bounded(pages, max) ==> Bounded(WithoutEmptyPages(pages), max)
  {
    if pages != [] {
      WithoutEmptyPagesMeaning(pages[1..], max);
      var rest := WithoutEmptyPages(pages[1..]);
      if pages[0] != [] {
        assert WithoutEmptyPages(pages) == [pages[0]] + rest;
      }
    }
  }

  lemma {:induction false} NarrowFlat(pages: seq<Page>, max: nat, keep: string -> bool)
    ensures var r := FilterMap(pages, Narrow(keep));
            Flatten(r) == Filter(Flatten(pages), keep) && (Bounded(pages, max) ==> Bounded(r, max))
  {
    if pages != [] {
      NarrowFlat(pages[1..], max, keep);
      FilterMapConcat(pages[0], Flatten(pages[1..]), Keep(keep));
      FilterShortens(pages[0], keep);
      var rest := FilterMap(pages[1..], Narrow(keep));
      assert ([Filter(pages[0], keep)] + rest)[1..] == rest;
    }
  }

  /** removeItemsNotIn keeps the kept items, in order, and leaves no empty page. */
  lemma RemoveItemsNotInRefines(pages: seq<Page>, max: nat, keep: string -> bool)
    requires Bounded(pages, max)
    ensures var r := Narrowed(pages, keep);
            Bounded(r, max) && NoEmptyPage(r) && Flatten(r) == Filter(Flatten(pages), keep)
  {
    NarrowFlat(pages, max, keep);
    WithoutEmptyPagesMeaning(FilterMap(pages, Narrow(keep)), max);
  }

  // ---------- moving ----------

  /** Where in the flat list, the moved item taken out, the item is put back. */
  function LandingIndex(pages: seq<Page>, fromPage: nat, fromIndex: nat, toPage: nat, toIndex: nat, behind: bool): int
    requires fromPage < |pages| && toPage < |pages|
  {
    var offset := |Flatten(pages[..toPage])|;
    if fromPage == toPage then offset + TargetIndex(fromPage, fromIndex, toPage, toIndex, behind)
    else offset - (if fromPage < toPage then 1 else 0) + Min(toIndex, |pages[toPage]|)
  }

  ghost predicate OneFlatMove(before: seq<Page>, after: seq<Page>, source: nat, landing: int) {
    && source < |Flatten(before)| && 0 <= landing < |Flatten(before)|
    && Flatten(after) == InsertAt(RemoveAt(Flatten(before), source), landing, Flatten(before)[source])
  }

  lemma MoveWithinPage(pages: seq<Page>, max: nat, page: nat, fromIndex: nat, toIndex: nat)
    requires page < |pages| && fromIndex < |pages[page]| && toIndex < |pages[page]| && Bounded(pages, max)
    ensures var r := pages[page := Move(pages[page], fromIndex, toIndex)];
            var offset := |Flatten(pages[..page])|;
            Bounded(r, max) && OneFlatMove(pages, r, offset + fromIndex, offset + toIndex)
  {
    FlattenAround(pages, page);
    FlattenReplaced(pages, page, Move(pages[page], fromIndex, toIndex));
    MoveInside(Flatten(pages[..page]), pages[page], Flatten(pages[page + 1..]), fromIndex, toIndex);
  }

  lemma MoveInside<T>(a: seq<T>, m: seq<T>, b: seq<T>, i: nat, j: nat)
    requires i < |m| && j < |m|
    ensures Move(a + m + b, |a| + i, |a| + j) == a + Move(m, i, j) + b
  {
    var cut := RemoveAt(m, i);
    assert RemoveAt(a + m + b, |a| + i) == a + cut + b;
    assert InsertAt(a + cut + b, |a| + j, m[i]) == a + InsertAt(cut, j, m[i]) + b;
  }

  lemma OffsetAfterTaking(pages: seq<Page>, fromPage: nat, fromIndex: nat, toPage: nat)
    requires fromPage < |pages| && fromIndex < |pages[fromPage]| && toPage < |pages| && fromPage != toPage
    ensures |Flatten(TakenOut(pages, fromPage, fromIndex)[..toPage])|
         == |Flatten(pages[..toPage])| - (if fromPage < toPage then 1 else 0)
  {
    var r := TakenOut(pages, fromPage, fromIndex);
    if fromPage < toPage {
      assert r[..toPage] == TakenOut(pages[..toPage], fromPage, fromIndex);
      TakenOutFlat(pages[..toPage], fromPage, fromIndex);
    } else {
      assert r[..toPage] == pages[..toPage];
    }
  }

  lemma MoveAcrossPages(pages: seq<Page>, max: nat, fromPage: nat, fromIndex: nat, toPage: nat, toIndex: nat)
    requires max >= 1 && Bounded(pages, max) && fromPage != toPage
    requires fromPage < |pages| && fromIndex < |pages[fromPage]| && toPage < |pages|
    ensures var r := MovedItem(pages, max, fromPage, fromIndex, toPage, toIndex);
            var source := |Flatten(pages[..fromPage])| + fromIndex;
            var landing := LandingIndex(pages, fromPage, fromIndex, toPage, toIndex, false);
            Bounded(r, max) && OneFlatMove(pages, r, source, landing)
  {
    var cut := TakenOut(pages, fromPage, fromIndex);
    TakenOutFlat(pages, fromPage, fromIndex);
    OffsetAfterTaking(pages, fromPage, fromIndex, toPage);
    InsertItemRefines(cut, max, pages[fromPage][fromIndex], toPage, toIndex);
  }

  lemma MoveItemRefines(pages: seq<Page>, max: nat, fromPage: nat, fromIndex: nat, toPage: nat, toIndex: nat,
                        behind: bool)
    requires max >= 1 && Bounded(pages, max)
    requires fromPage < |pages| && fromIndex < |pages[fromPage]| && toPage < |pages|
    requires fromPage == toPage ==> toIndex < |pages[toPage]|
    ensures var target := TargetIndex(fromPage, fromIndex, toPage, toIndex, behind);
            var r := MovedItem(pages, max, fromPage, fromIndex, toPage, target);
            && Bounded(r, max)
            && OneFlatMove(pages, r, |Flatten(pages[..fromPage])| + fromIndex,
                           LandingIndex(pages, fromPage, fromIndex, toPage, toIndex, behind))
  {
    if fromPage == toPage {
      MoveWithinPage(pages, max, fromPage, fromIndex, TargetIndex(fromPage, fromIndex, toPage, toIndex, behind));
    } else {
      MoveAcrossPages(pages, max, fromPage, fromIndex, toPage, toIndex);
    }
  }

  /** moveItemPosition is one move in the flat list, to a known place, and keeps the bounds. */
  lemma MoveItemPositionRefines(pages: seq<Page>, max: nat,
                                fromPage: nat, fromIndex: nat, toPage: nat, toIndex: nat, behind: bool)
    requires max >= 1 && Bounded(pages, max)
    requires fromPage < |pages| && fromIndex < |pages[fromPage]| && toPage < |pages|
    requires fromPage == toPage ==> toIndex < |pages[toPage]|
    ensures var r := MovedPosition(pages, max, fromPage, fromIndex, toPage, toIndex, behind);
            && Bounded(r, max)
            && OneFlatMove(pages, r, |Flatten(pages[..fromPage])| + fromIndex,
                           LandingIndex(pages, fromPage, fromIndex, toPage, toIndex, behind))
  {
    var target := TargetIndex(fromPage, fromIndex, toPage, toIndex, behind);
    MoveItemRefines(pages, max, fromPage, fromIndex, toPage, toIndex, behind);
    WithoutEmptyPagesMeaning(MovedItem(pages, max, fromPage, fromIndex, toPage, target), max);
  }

  lemma MoveLeavesNoEmptyPage(pages: seq<Page>, max: nat,
                              fromPage: nat, fromIndex: nat, toPage: nat, toIndex: nat, behind: bool)
    requires max >= 1 && Bounded(pages, max) && NoEmptyPage(pages)
    requires fromPage < |pages| && fromIndex < |pages[fromPage]| && toPage < |pages|
    requires fromPage == toPage ==> toIndex < |pages[toPage]|
    ensures NoEmptyPage(MovedPosition(pages, max, fromPage, fromIndex, toPage, toIndex, behind))
  {
    var target := TargetIndex(fromPage, fromIndex, toPage, toIndex, behind);
    if |pages[fromPage]| == 1 {
      WithoutEmptyPagesMeaning(MovedItem(pages, max, fromPage, fromIndex, toPage, target), max);
    } else if fromPage != toPage {
      var cut := TakenOut(pages, fromPage, fromIndex);
      InsertItemSizes(cut, max, pages[fromPage][fromIndex], toPage, target);
      var r := Inserted(cut, max, pages[fromPage][fromIndex], toPage, target);
      forall i | 0 <= i < |r| ensures r[i] != [] {
        if i < |cut| && i != FirstWithRoom(cut, max, toPage) { assert |r[i]| == |cut[i]|; }
      }
    }
  }
}
