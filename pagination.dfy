/**
 * The page arithmetic of the `!list` command (boss-tracker-bot.js, lines
 * 283-298): ten bosses a page, the page number taken from the first
 * argument when it parses as an integer and clamped to the existing pages.
 */
module Pagination {
  import opened Wrappers
  import opened Text

  const ItemsPerPage := 10

  /** The page shown, the page count, and the half-open index range `[startIndex, endIndex)`. */
  datatype Page = Page(page: int, pages: int, startIndex: int, endIndex: int)

  /** `Math.ceil(count / ItemsPerPage)` for a non-negative count. */
  function PageCount(count: nat): (pages: nat)
    ensures (pages - 1) * ItemsPerPage < count <= pages * ItemsPerPage || (count == 0 && pages == 0)
  {
    (count + ItemsPerPage - 1) / ItemsPerPage
  }

  /** The requested page number: `parseInt(args[0])` when there is an argument and it is not NaN. */
  function RequestedPage(args: seq<string>): (r: Option<int>)
    ensures r.Some? ==> args != [] && exists i :: 0 <= i < |args[0]| && IsDigit(args[0][i])
  {
    if args != [] then ParseIntNeedsDigit(args[0]); ParseInt(args[0]) else None
  }

  /** Only the first argument counts: words after it change nothing. */
  lemma RequestedPageFirst(args: seq<string>, more: seq<string>)
    requires args != []
    ensures RequestedPage(args + more) == RequestedPage(args)
  {
    assert (args + more)[0] == args[0];
  }

  /**
   * `!list [page]` over a list of `count` bosses: `None` for the empty list
   * (the "no boss data" reply), otherwise the page shown.
   */
  function ListPage(count: nat, args: seq<string>): (r: Option<Page>)
    ensures r.None? <==> count == 0
    ensures r.Some? ==>
      var p := r.value;
      && 1 <= p.page <= p.pages
      && (p.pages - 1) * ItemsPerPage < count <= p.pages * ItemsPerPage
      && p.startIndex == (p.page - 1) * ItemsPerPage
      && 0 <= p.startIndex < p.endIndex <= count
      && p.endIndex - p.startIndex <= ItemsPerPage
      && (p.endIndex - p.startIndex == ItemsPerPage || p.endIndex == count)
    ensures r.Some? && RequestedPage(args).None? ==> r.value.page == 1
    ensures r.Some? && RequestedPage(args).Some? ==>
      var n := RequestedPage(args).value;
      r.value.page == (if n < 1 then 1 else if n > r.value.pages then r.value.pages else n)
  {
    if count == 0 then None
    else
      var pages := PageCount(count);
      var requested := RequestedPage(args);
      var page :=
        if requested.Some? then Max(1, Min(pages, requested.value)) else 1;
      var startIndex := (page - 1) * ItemsPerPage;
      var endIndex := Min(startIndex + ItemsPerPage, count);
      Some(Page(page, pages, startIndex, endIndex))
  }

  function Min(a: int, b: int): int { if a <= b then a else b }
  function Max(a: int, b: int): int { if a >= b then a else b }

  /** `bossData.slice(startIndex, endIndex)`: the entries of the page shown. */
  function PageEntries<T>(items: seq<T>, args: seq<string>): (entries: seq<T>)
    ensures |items| == 0 <==> entries == []
    ensures |entries| <= ItemsPerPage
    ensures |items| > 0 ==>
      var p := ListPage(|items|, args).value;
      && |entries| == p.endIndex - p.startIndex
      && forall k :: 0 <= k < |entries| ==> entries[k] == items[p.startIndex + k]
  {
    match ListPage(|items|, args)
    case None => []
    case Some(p) => items[p.startIndex..p.endIndex]
  }

  /** Asking for page `i / 10 + 1` shows the boss at index `i`. */
  lemma PageOfIndex(count: nat, i: nat)
    requires i < count
    ensures var r := ListPage(count, [NatToString(i / ItemsPerPage + 1)]);
      r.Some? && r.value.page == i / ItemsPerPage + 1 && r.value.startIndex <= i < r.value.endIndex
  {
    RequestNumber(i / ItemsPerPage + 1);
    IndexPage(count, i);
  }

  /** The page asked for as `i / 10 + 1` lists the boss at index `i`, in position `i % 10`. */
  lemma PageEntriesOfIndex<T>(items: seq<T>, i: nat)
    requires i < |items|
    ensures var entries := PageEntries(items, [NatToString(i / ItemsPerPage + 1)]);
      i % ItemsPerPage < |entries| && entries[i % ItemsPerPage] == items[i]
  {
    var q, k := i / ItemsPerPage, i % ItemsPerPage;
    var args := [NatToString(q + 1)];
    PageOfIndex(|items|, i);
    var p := ListPage(|items|, args).value;
    assert p.page - 1 == q;
    assert p.startIndex == q * ItemsPerPage;
    assert p.startIndex + k == i;
    PageEntryAt(items, args, k);
  }

  /** Position `k` of a page is the entry `k` places after the page's start. */
  lemma PageEntryAt<T>(items: seq<T>, args: seq<string>, k: nat)
    requires items != []
    requires ListPage(|items|, args).value.startIndex + k < ListPage(|items|, args).value.endIndex
    ensures k < |PageEntries(items, args)|
    ensures PageEntries(items, args)[k] == items[ListPage(|items|, args).value.startIndex + k]
  {
  }

  /** The decimal text of a number requests that page. */
  lemma RequestNumber(n: nat)
    ensures RequestedPage([NatToString(n)]) == Some(n as int)
  {
    ParseIntNatToString(n);
  }

  /** Index `i` lies in the `(i / 10)`-th block of ten, which is an existing page. */
  lemma IndexPage(count: nat, i: nat)
    requires i < count
    ensures i / ItemsPerPage * ItemsPerPage <= i < i / ItemsPerPage * ItemsPerPage + ItemsPerPage
    ensures i / ItemsPerPage + 1 <= PageCount(count)
  {
    var q := i / 10;
    assert q * 10 <= i < q * 10 + 10;
    assert count <= PageCount(count) * 10;
  }

  /** No other page shows the boss at index `i`. */
  lemma OnlyPageOfIndex(count: nat, i: nat, args: seq<string>)
    requires i < count
    ensures var r := ListPage(count, args);
      r.value.startIndex <= i < r.value.endIndex ==> r.value.page == i / ItemsPerPage + 1
  {
    var r := ListPage(count, args).value;
    if r.startIndex <= i < r.endIndex {
      var q := r.page - 1;
      assert q * ItemsPerPage <= i < q * ItemsPerPage + ItemsPerPage;
      assert i / ItemsPerPage == q;
    }
  }
}
