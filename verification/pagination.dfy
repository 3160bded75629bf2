/** `get_starred_repos`, identical in the three starred scripts: request
    pages 1, 2, 3, ... of the starred endpoint (100 per page) and append
    each page's items until a page answers with a status other than 200 or
    with no items.

    The endpoint is given as the sequence of its answers, page i + 1 being
    `pages[i]`; a page past the end of the sequence answers 200 with no
    items, so the listing is finite. */
module Pagination {
  import opened GitHubApi

  datatype Page<T> = Page(status: int, items: seq<T>)

  /** A page that lets the fetch continue. */
  predicate Usable<T>(p: Page<T>) {
    p.status == 200 && p.items != []
  }

  /** The answer to the request for page number `n` (counting from 1). */
  function PageAt<T>(pages: seq<Page<T>>, n: nat): Page<T>
    requires n >= 1
  {
    if n <= |pages| then pages[n - 1] else Page(200, [])
  }

  /** How many leading pages are usable. */
  function UsableRun<T>(pages: seq<Page<T>>): (k: nat)
    ensures k <= |pages|
    ensures forall i :: 0 <= i < k ==> Usable(pages[i])
    ensures k < |pages| ==> !Usable(pages[k])
  {
    if pages == [] || !Usable(pages[0]) then 0 else 1 + UsableRun(pages[1..])
  }

  /** The items of `pages`, page after page. */
  function Flatten<T>(pages: seq<Page<T>>): seq<T> {
    if pages == [] then [] else Flatten(pages[..|pages| - 1]) + pages[|pages| - 1].items
  }

  lemma {:induction false} FlattenSnoc<T>(pages: seq<Page<T>>, n: nat)
    requires n < |pages|
    ensures Flatten(pages[..n + 1]) == Flatten(pages[..n]) + pages[n].items
  {
    assert pages[..n + 1][..n] == pages[..n];
  }

  /** The starred fetch: returns the items and how many pages it requested. */
  method FetchAll<T>(pages: seq<Page<T>>) returns (items: seq<T>, requested: nat)
    ensures requested == UsableRun(pages) + 1
    ensures items == Flatten(pages[..UsableRun(pages)])
    ensures forall n :: 1 <= n < requested ==> Usable(PageAt(pages, n))
    ensures !Usable(PageAt(pages, requested))
  {
    var k := UsableRun(pages);
    items := [];
    var page: nat := 1;
    while true
      invariant 1 <= page <= k + 1
      invariant items == Flatten(pages[..page - 1])
      decreases k + 1 - page
    {
      var response := PageAt(pages, page);
      if response.status != 200 {
        break;
      }
      if response.items == [] {
        break;
      }
      FlattenSnoc(pages, page - 1);
      items := items + response.items;
      page := page + 1;
    }
    requested := page;
  }

  /** One full page of 100 followed by an empty page: exactly those 100
      records come back and page 3 is never requested. */
  lemma {:induction false} OnePageThenEmpty<T>(first: seq<T>, pages: seq<Page<T>>)
    requires |first| == 100
    requires |pages| >= 2 && pages[0] == Page(200, first) && pages[1].status == 200 && pages[1].items == []
    ensures UsableRun(pages) == 1
    ensures Flatten(pages[..UsableRun(pages)]) == first
  {
    assert pages[..1] == [pages[0]];
    assert Flatten(pages[..1]) == Flatten(pages[..1][..0]) + first;
  }

  /** The starred scripts' pages carry repository records. */
  type StarredPage = Page<StarredRepo>
}
