/** `Paginator(object_list, per_page).get_page(number)` as the views use it:
    orphans = 0 and an empty first page allowed. The paginator itself belongs
    to the web framework; it is modelled after its documented behaviour. */
module Paginator {
  import opened Wrappers

  /** One page of `objectList`: `items` is page `number` of `numPages`.
      `objectList` is the paginator's `object_list`, the whole ordered list
      (what the templates and tests read as `paginator.object_list`);
      `items` is the page's own `object_list`, its slice. */
  datatype Page<T> = Page(objectList: seq<T>, perPage: nat, numPages: nat, number: nat, items: seq<T>)

  function Min(a: int, b: int): int
  {
    if a <= b then a else b
  }

  /** The number of pages: enough to hold every item, never zero, and no
      trailing page left empty. */
  function NumPages(count: nat, perPage: nat): (n: nat)
    requires perPage > 0
    ensures n >= 1
    ensures count <= n * perPage
    ensures count == 0 ==> n == 1
    ensures count == 0 || (n - 1) * perPage < count
  {
    if count == 0 then 1
    else
      var n := (count + perPage - 1) / perPage;
      DivBounds(count + perPage - 1, perPage);
      n
  }

  lemma DivBounds(a: nat, d: nat)
    requires d > 0
    ensures (a / d) * d <= a < (a / d) * d + d
  {
  }

  /** Which page `get_page` shows for the `page` query parameter. `None`
      stands for a missing or non-integer parameter, which gives the first
      page; a number outside 1..numPages gives the last page. */
  function ResolvePageNumber(requested: Option<int>, numPages: nat): (k: nat)
    requires numPages >= 1
    ensures 1 <= k <= numPages
    ensures requested.Some? && 1 <= requested.value <= numPages ==> k == requested.value
    ensures requested.None? ==> k == 1
    ensures requested.Some? && !(1 <= requested.value <= numPages) ==> k == numPages
  {
    match requested
    case None => 1
    case Some(v) => if 1 <= v <= numPages then v else numPages
  }

  /** `p` is page `p.number` of `list` cut into pages of `perPage`: a valid
      page number, and the items at the matching offset, as many as remain up
      to `perPage`. */
  ghost predicate IsPageOf<T>(p: Page<T>, list: seq<T>, perPage: nat)
  {
    && perPage > 0
    && p.objectList == list
    && p.perPage == perPage
    && p.numPages >= 1
    && |list| <= p.numPages * perPage
    && (|list| == 0 ==> p.numPages == 1)
    && (|list| == 0 || (p.numPages - 1) * perPage < |list|)
    && 1 <= p.number <= p.numPages
    && var lo := (p.number - 1) * perPage;
       && lo <= |list|
       && |p.items| == Min(perPage, |list| - lo)
       && p.items == list[lo..lo + |p.items|]
  }

  lemma MulMonotone(a: nat, b: nat, c: nat)
    requires a <= b
    ensures a * c <= b * c
  {
  }

  /** `paginator.get_page(requested)`. */
  function GetPage<T>(list: seq<T>, perPage: nat, requested: Option<int>): (p: Page<T>)
    requires perPage > 0
    ensures IsPageOf(p, list, perPage)
    ensures p.number == ResolvePageNumber(requested, p.numPages)
  {
    var n := NumPages(|list|, perPage);
    var k := ResolvePageNumber(requested, n);
    MulMonotone(k - 1, n - 1, perPage);
    var lo := (k - 1) * perPage;
    var hi := if lo + perPage <= |list| then lo + perPage else |list|;
    Page(list, perPage, n, k, list[lo..hi])
  }

  lemma MulSucc(a: nat, c: nat)
    ensures (a + 1) * c == a * c + c
  {
  }

  lemma DivMod(i: nat, d: nat)
    requires d > 0
    ensures i == (i / d) * d + i % d
    ensures 0 <= i % d < d
  {
  }

  /** Every page but the last is full, and the last page is empty only when
      the whole list is. */
  lemma {:induction false} PageShape<T>(p: Page<T>, list: seq<T>, perPage: nat)
    requires IsPageOf(p, list, perPage)
    ensures |p.items| <= perPage
    ensures p.number < p.numPages ==> |p.items| == perPage
    ensures p.number == p.numPages ==> (|p.items| == 0 <==> |list| == 0)
  {
    var lo := (p.number - 1) * perPage;
    MulSucc(p.number - 1, perPage);
    if p.number < p.numPages {
      MulMonotone(p.number, p.numPages - 1, perPage);
      assert lo + perPage <= (p.numPages - 1) * perPage;
    }
  }

  /** Page `q + 1` exists when some item lies at offset `q * perPage` or
      beyond, and shows the item at `q * perPage + r` at position `r`. */
  lemma {:induction false} PageOfRank<T>(list: seq<T>, perPage: nat, q: nat, r: nat)
    requires perPage > 0 && r < perPage && q * perPage + r < |list|
    ensures q + 1 <= NumPages(|list|, perPage)
    ensures GetPage(list, perPage, Some(q + 1)).number == q + 1
    ensures r < |GetPage(list, perPage, Some(q + 1)).items|
    ensures GetPage(list, perPage, Some(q + 1)).items[r] == list[q * perPage + r]
  {
    var n := NumPages(|list|, perPage);
    if n <= q {
      MulMonotone(n, q, perPage);
    }
    var p := GetPage(list, perPage, Some(q + 1));
    OffsetOnPage(p, list, perPage, q * perPage, r);
  }

  /** A page starting at offset `lo` holds the item at `lo + r` at position `r`. */
  lemma {:induction false} OffsetOnPage<T>(p: Page<T>, list: seq<T>, perPage: nat, lo: nat, r: nat)
    requires IsPageOf(p, list, perPage)
    requires lo == (p.number - 1) * perPage
    requires r < perPage && lo + r < |list|
    ensures r < |p.items| && p.items[r] == list[lo + r]
  {
  }

  /** The item at position `i` of the list is shown on page `i / perPage + 1`,
      at position `i % perPage`: every post of a feed is reachable, on exactly
      the page its rank dictates. */
  lemma {:induction false} ItemOnItsPage<T>(list: seq<T>, perPage: nat, i: nat)
    requires perPage > 0 && i < |list|
    ensures i / perPage + 1 <= NumPages(|list|, perPage)
    ensures GetPage(list, perPage, Some(i / perPage + 1)).number == i / perPage + 1
    ensures i % perPage < |GetPage(list, perPage, Some(i / perPage + 1)).items|
    ensures GetPage(list, perPage, Some(i / perPage + 1)).items[i % perPage] == list[i]
  {
    DivMod(i, perPage);
    PageOfRank(list, perPage, i / perPage, i % perPage);
  }
}
