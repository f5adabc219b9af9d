/** The blog's page controls and page slices. */
module Pagination {
  import opened Options

  datatype PageItem = Page(number: int) | Gap

  function PageCount(total: nat, perPage: int): (count: int)
    requires perPage >= 1
    ensures count >= 1
  {
    var pages := (total + perPage - 1) / perPage;
    if pages < 1 then 1 else pages
  }

  /** `raw` is what the query string held: nothing, one value or several. */
  function ParsePage(raw: seq<string>, count: int, parseInt: string -> Option<int>): (page: int)
    requires count >= 1
    ensures 1 <= page <= count
    ensures match parseInt(if raw == [] then "" else raw[0])
            case Some(asked) => page == asked || (asked < 1 && page == 1) || (asked > count && page == count)
            case None => page == 1
  {
    var page := parseInt(if raw == [] then "" else raw[0]);
    if page.None? || page.value < 1 then 1
    else if page.value < count then page.value else count
  }

  function PageSlice<T>(items: seq<T>, page: int, perPage: int): seq<T>
    requires page >= 1 && perPage >= 1
  {
    var start := (page - 1) * perPage;
    assert start >= 0;
    if start >= |items| then []
    else if start + perPage >= |items| then items[start..]
    else items[start..start + perPage]
  }

  ghost function FirstPages<T>(items: seq<T>, pages: nat, perPage: int): seq<T>
    requires perPage >= 1
  {
    if pages == 0 then [] else FirstPages(items, pages - 1, perPage) + PageSlice(items, pages, perPage)
  }

  ghost function Prefix<T>(items: seq<T>, n: nat): seq<T> {
    if n < |items| then items[..n] else items
  }

  /** A page goes on where the prefix before it ends. */
  lemma PageExtends<T>(items: seq<T>, page: int, perPage: int, start: nat)
    requires page >= 1 && perPage >= 1 && start == (page - 1) * perPage
    ensures Prefix(items, start) + PageSlice(items, page, perPage) == Prefix(items, start + perPage)
  {
  }

  lemma {:induction false} FirstPagesArePrefix<T>(items: seq<T>, pages: nat, perPage: int)
    requires perPage >= 1
    ensures pages * perPage >= 0 && FirstPages(items, pages, perPage) == Prefix(items, pages * perPage)
  {
    if pages == 0 {
      assert Prefix(items, 0) == [];
    } else {
      var start := (pages - 1) * perPage;
      FirstPagesArePrefix(items, pages - 1, perPage);
      PageExtends(items, pages, perPage, start);
      assert pages * perPage == start + perPage;
    }
  }

  /** All the pages, joined, are the items. */
  lemma PagesJoinToItems<T>(items: seq<T>, perPage: int)
    requires perPage >= 1
    ensures FirstPages(items, PageCount(|items|, perPage), perPage) == items
    ensures items == [] ==> PageCount(|items|, perPage) == 1
  {
    var count := PageCount(|items|, perPage);
    CeilingCovers(|items|, perPage);
    FirstPagesArePrefix(items, count, perPage);
  }

  /** No page up to the last is empty, unless there is nothing to show. */
  lemma NoEmptyPage<T>(items: seq<T>, page: int, perPage: int)
    requires perPage >= 1 && items != [] && 1 <= page <= PageCount(|items|, perPage)
    ensures 1 <= |PageSlice(items, page, perPage)| <= perPage
    ensures page < PageCount(|items|, perPage) ==> |PageSlice(items, page, perPage)| == perPage
  {
    var count, start := PageCount(|items|, perPage), (page - 1) * perPage;
    CeilingCovers(|items|, perPage);
    EarlierStart(page, count, perPage);
    assert page * perPage == start + perPage;
    if page < count { EarlierStart(page + 1, count, perPage); }
  }

  lemma EarlierStart(page: int, count: int, perPage: int)
    requires page <= count && perPage >= 1
    ensures (page - 1) * perPage <= (count - 1) * perPage
  {
    assert (count - page) * perPage >= 0;
  }

  lemma CeilingCovers(total: nat, perPage: int)
    requires perPage >= 1
    ensures var count := PageCount(total, perPage);
            count * perPage >= total && (total > 0 ==> (count - 1) * perPage < total)
  {
    var up := total + perPage - 1;
    assert up == (up / perPage) * perPage + up % perPage;
  }

  // ----- The controls -----

  /** The elements of `pages` within lo..hi, smallest first. */
  function Ascending(pages: set<int>, lo: int, hi: int): seq<int>
    decreases hi - lo
  {
    if lo > hi then []
    else (if lo in pages then [lo] else []) + Ascending(pages, lo + 1, hi)
  }

  ghost predicate Increasing(xs: seq<int>) {
    forall i, j | 0 <= i < j < |xs| :: xs[i] < xs[j]
  }

  lemma {:induction false} AscendingMembers(pages: set<int>, lo: int, hi: int, p: int)
    ensures p in Ascending(pages, lo, hi) <==> p in pages && lo <= p <= hi
    decreases hi - lo
  {
    if lo > hi {
    } else {
      AscendingMembers(pages, lo + 1, hi, p);
    }
  }

  lemma {:induction false} AscendingIncreases(pages: set<int>, lo: int, hi: int)
    ensures Increasing(Ascending(pages, lo, hi))
    decreases hi - lo
  {
    if lo > hi {
    } else {
      AscendingIncreases(pages, lo + 1, hi);
      var rest := Ascending(pages, lo + 1, hi);
      forall i | 0 <= i < |rest| ensures lo < rest[i] {
        AscendingMembers(pages, lo + 1, hi, rest[i]);
      }
    }
  }

  lemma AscendingSorts(pages: set<int>, lo: int, hi: int)
    ensures Increasing(Ascending(pages, lo, hi))
    ensures forall p :: p in Ascending(pages, lo, hi) <==> p in pages && lo <= p <= hi
  {
    AscendingIncreases(pages, lo, hi);
    forall p ensures p in Ascending(pages, lo, hi) <==> p in pages && lo <= p <= hi {
      AscendingMembers(pages, lo, hi, p);
    }
  }

  /** What one page contributes after the previous one. */
  function Step(previous: int, page: int): seq<PageItem> {
    if page == previous + 1 then [Page(page)]
    else if page == previous + 2 then [Page(previous + 1), Page(page)]
    else [Gap, Page(page)]
  }

  function Rendered(sorted: seq<int>): seq<PageItem> {
    if sorted == [] then []
    else if |sorted| == 1 then [Page(sorted[0])]
    else Rendered(sorted[..|sorted| - 1]) + Step(sorted[|sorted| - 2], sorted[|sorted| - 1])
  }

  predicate Between(p: int, lo: int, hi: int) {
    lo <= p <= hi
  }

  /** The pages from lo to hi that exist. */
  ghost function Existing(lo: int, hi: int, count: int): set<int> {
    set p | 1 <= p <= count && Between(p, lo, hi)
  }

  ghost function ShownPages(current: int, count: int, siblings: nat): set<int> {
    {1, count} + Existing(current - siblings, current + siblings, count)
  }

  method PageItems(current: int, count: int, siblings: nat) returns (items: seq<PageItem>)
    requires 1 <= current <= count
    ensures items == Rendered(Ascending(ShownPages(current, count, siblings), 1, count))
    ensures Readable(items, 1, count)
    ensures forall p :: ShowsPage(items, ShownPages(current, count, siblings), p)
    ensures |items| <= 2 * siblings + 5
  {
    var pages := {1, count};
    var page := current - siblings;
    while page <= current + siblings
      invariant current - siblings <= page <= current + siblings + 1
      invariant pages == {1, count} + Existing(current - siblings, page - 1, count)
    {
      if page >= 1 && page <= count {
        pages := pages + {page};
      }
      page := page + 1;
    }
    assert pages == ShownPages(current, count, siblings);
    var sorted := Ascending(pages, 1, count);
    items := [];
    for index := 0 to |sorted|
      invariant items == Rendered(sorted[..index])
    {
      assert sorted[..index + 1][..index] == sorted[..index];
      items := items + (if index == 0 then [Page(sorted[0])] else Step(sorted[index - 1], sorted[index]));
    }
    assert sorted[..|sorted|] == sorted;
    PageItemsReadable(current, count, siblings);
    PageItemsShort(current, count, siblings);
  }

  /** Neighbouring numbers are consecutive, and a gap stands between two numbers with at
      least two pages hidden between them. */
  ghost predicate ReadableAt(items: seq<PageItem>, i: int)
    requires 0 <= i < |items|
  {
    match items[i]
    case Page(number) =>
      i + 1 < |items| && items[i + 1].Page? ==> items[i + 1].number == number + 1
    case Gap =>
      && 0 < i < |items| - 1 && items[i - 1].Page? && items[i + 1].Page?
      && items[i + 1].number - items[i - 1].number >= 3
  }

  /** Starts at `first`, ends at `last` and can be read from one to the other. */
  ghost predicate Readable(items: seq<PageItem>, first: int, last: int) {
    && items != []
    && items[0] == Page(first) && items[|items| - 1] == Page(last)
    && forall i | 0 <= i < |items| :: ReadableAt(items, i)
  }

  /** Page `p` has a control exactly when it is wanted, or is alone between two that are. */
  ghost predicate ShowsPage(items: seq<PageItem>, wanted: set<int>, p: int) {
    Page(p) in items <==> p in wanted || (p - 1 in wanted && p + 1 in wanted)
  }

  lemma StepKeepsReadable(items: seq<PageItem>, first: int, previous: int, page: int)
    requires Readable(items, first, previous) && previous < page
    ensures Readable(items + Step(previous, page), first, page)
  {
    var n, step := |items|, Step(previous, page);
    var longer := items + step;
    assert longer[n - 1] == Page(previous) && longer[|longer| - 1] == Page(page);
    forall i | 0 <= i < |longer| ensures ReadableAt(longer, i) {
      if i < n - 1 {
        assert ReadableAt(items, i) && longer[i + 1] == items[i + 1];
      } else {
        assert longer[n] == step[0];
      }
    }
  }

  lemma {:induction false} RenderedReadable(sorted: seq<int>)
    requires sorted != [] && Increasing(sorted)
    ensures Readable(Rendered(sorted), sorted[0], sorted[|sorted| - 1])
  {
    if |sorted| <= 1 {
    } else {
      var front, previous, page := sorted[..|sorted| - 1], sorted[|sorted| - 2], sorted[|sorted| - 1];
      RenderedReadable(front);
      assert front[0] == sorted[0] && front[|front| - 1] == previous;
      StepKeepsReadable(Rendered(front), sorted[0], previous, page);
    }
  }

  lemma {:induction false} RenderedShows(sorted: seq<int>, p: int)
    requires Increasing(sorted)
    ensures Page(p) in Rendered(sorted) <==> p in sorted || (p - 1 in sorted && p + 1 in sorted)
  {
    var n := |sorted|;
    if n <= 1 {
    } else {
      var front, previous, page := sorted[..n - 1], sorted[n - 2], sorted[n - 1];
      RenderedShows(front, p);
      assert front[n - 2] == previous;
      assert Page(p) in Rendered(sorted) <==> Page(p) in Rendered(front) || Page(p) in Step(previous, page);
    }
  }

  /** The numbers shown are the first and last page, the current one with its siblings, and
      any single page left between two of those. */
  lemma PageItemsReadable(current: int, count: int, siblings: nat)
    requires 1 <= current <= count
    ensures var shown := ShownPages(current, count, siblings);
            var items := Rendered(Ascending(shown, 1, count));
            && Readable(items, 1, count)
            && (forall p :: ShowsPage(items, shown, p))
  {
    var shown := ShownPages(current, count, siblings);
    var sorted := Ascending(shown, 1, count);
    AscendingSorts(shown, 1, count);
    assert 1 in sorted && count in sorted;
    Ends(sorted, 1, count);
    RenderedReadable(sorted);
    forall p ensures ShowsPage(Rendered(sorted), shown, p) {
      RenderedShows(sorted, p);
      ShownInRange(current, count, siblings, p);
      ShownInRange(current, count, siblings, p - 1);
      ShownInRange(current, count, siblings, p + 1);
    }
  }

  lemma ShownInRange(current: int, count: int, siblings: nat, p: int)
    requires 1 <= current <= count
    ensures p in ShownPages(current, count, siblings)
        <==> p in Ascending(ShownPages(current, count, siblings), 1, count)
  {
    AscendingSorts(ShownPages(current, count, siblings), 1, count);
  }

  lemma Ends(sorted: seq<int>, lo: int, hi: int)
    requires Increasing(sorted) && lo in sorted && hi in sorted
    requires forall p | p in sorted :: lo <= p <= hi
    ensures sorted[0] == lo && sorted[|sorted| - 1] == hi
  {
    var i :| 0 <= i < |sorted| && sorted[i] == lo;
    var j :| 0 <= j < |sorted| && sorted[j] == hi;
    assert sorted[0] in sorted && sorted[|sorted| - 1] in sorted;
  }

  /** A readable list rises: later numbers are larger. */
  lemma {:induction false} ReadableRises(items: seq<PageItem>, first: int, last: int, i: nat, j: nat)
    requires Readable(items, first, last) && i < j < |items| && items[i].Page? && items[j].Page?
    ensures items[i].number < items[j].number
    decreases j
  {
    assert ReadableAt(items, j - 1);
    var previous := if items[j - 1].Gap? then j - 2 else j - 1;
    if i >= previous {
    } else {
      ReadableRises(items, first, last, i, previous);
    }
  }

  // ----- How long the controls get -----

  function Jumps(sorted: seq<int>): nat {
    if |sorted| <= 1 then 0
    else Jumps(sorted[..|sorted| - 1]) + (if sorted[|sorted| - 1] == sorted[|sorted| - 2] + 1 then 0 else 1)
  }

  lemma {:induction false} RenderedLength(sorted: seq<int>)
    ensures |Rendered(sorted)| == |sorted| + Jumps(sorted)
  {
    if |sorted| <= 1 {
    } else {
      RenderedLength(sorted[..|sorted| - 1]);
    }
  }

  lemma {:induction false} NoJumpsWithin(sorted: seq<int>)
    requires forall i | 1 <= i < |sorted| - 1 :: sorted[i + 1] == sorted[i] + 1
    ensures Jumps(sorted) <= 1
  {
    if |sorted| > 2 {
      var front := sorted[..|sorted| - 1];
      NoJumpsWithin(front);
      assert sorted[|sorted| - 2 + 1] == sorted[|sorted| - 2] + 1;
    } else if |sorted| == 2 {
      assert Jumps(sorted[..1]) == 0;
    }
  }

  lemma {:induction false} IncreasingSpreads(sorted: seq<int>, i: nat, j: nat)
    requires Increasing(sorted) && i <= j < |sorted|
    ensures sorted[j] - sorted[i] >= j - i
    decreases j
  {
    if i == j {
    } else {
      IncreasingSpreads(sorted, i, j - 1);
    }
  }

  /** Away from the two ends, the sorted pages are one run of consecutive siblings. */
  lemma MiddleIsConsecutive(current: int, count: int, siblings: nat, sorted: seq<int>, i: nat)
    requires sorted == Ascending(ShownPages(current, count, siblings), 1, count)
    requires 1 <= i < |sorted| - 1
    ensures current - siblings <= sorted[i] <= current + siblings
    ensures i < |sorted| - 2 ==> sorted[i + 1] == sorted[i] + 1
  {
    var shown := ShownPages(current, count, siblings);
    AscendingSorts(shown, 1, count);
    assert sorted[0] in sorted && sorted[i] in sorted && sorted[|sorted| - 1] in sorted;
    assert 1 < sorted[i] < count;
    if i < |sorted| - 2 {
      assert sorted[i + 1] in sorted && sorted[i + 1] < sorted[|sorted| - 1];
      var p := sorted[i] + 1;
      assert p in shown && p in sorted;
      var k :| 0 <= k < |sorted| && sorted[k] == p;
    }
  }

  lemma AtMostOneMoreJump(sorted: seq<int>)
    requires |sorted| > 2
    requires forall i | 1 <= i < |sorted| - 2 :: sorted[i + 1] == sorted[i] + 1
    ensures Jumps(sorted) <= 2
  {
    var front := sorted[..|sorted| - 1];
    assert forall i | 1 <= i < |front| - 1 :: front[i + 1] == front[i] + 1;
    NoJumpsWithin(front);
  }

  /** At most 2 * siblings + 5 controls, however many pages there are. */
  lemma PageItemsShort(current: int, count: int, siblings: nat)
    requires 1 <= current <= count
    ensures |Rendered(Ascending(ShownPages(current, count, siblings), 1, count))| <= 2 * siblings + 5
  {
    var sorted := Ascending(ShownPages(current, count, siblings), 1, count);
    RenderedLength(sorted);
    var n := |sorted|;
    if n > 2 {
      forall i | 1 <= i < n - 2 ensures sorted[i + 1] == sorted[i] + 1 {
        MiddleIsConsecutive(current, count, siblings, sorted, i);
      }
      AtMostOneMoreJump(sorted);
      assert n - 3 <= 2 * siblings by {
        MiddleIsConsecutive(current, count, siblings, sorted, 1);
        MiddleIsConsecutive(current, count, siblings, sorted, n - 2);
        AscendingIncreases(ShownPages(current, count, siblings), 1, count);
        IncreasingSpreads(sorted, 1, n - 2);
      }
    } else if n == 2 {
      assert Jumps(sorted[..1]) == 0;
    }
  }
}
