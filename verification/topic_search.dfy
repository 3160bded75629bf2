/** The repository search endpoint as the recommenders use it, and
    `search_repositories_by_topic`: ask for pages 1, 2, ... of 100 results
    until a page fails, answers with a status other than 200 or holds no
    items, or until enough results have been collected, and return at most
    `max_results` of them.

    The endpoint is a total function of the query, the page size and the
    page number; `Raised` stands for a request or decoding that raised. */
module TopicSearch {
  import opened Results
  import opened Text

  /** One search result: the fields the recommenders read.  `Field`
      members are read with `.get(key, default)`, which tells a missing
      key from a JSON `null`; `topics` is None when the key is missing. */
  datatype SearchHit = SearchHit(
    id: int,
    fullName: string,
    description: Field<string>,
    stars: int,
    forks: int,
    language: Field<string>,
    htmlUrl: string,
    topics: Option<seq<string>>)

  /** The answer to one search request; `items` is the body's `items`
      (empty when the key is missing). */
  datatype SearchReply = Raised | Reply(status: int, items: seq<SearchHit>)

  /** The endpoint, addressed by query text, page size and page number. */
  type SearchApi = (string, int, int) -> SearchReply

  /** The page size of `search_repositories_by_topic`. */
  const PerPage: int := 100

  /** The search query for a topic. */
  function Query(topic: string, minStars: int): string {
    "topic:" + topic + " stars:>=" + IntToDecimal(minStars)
  }

  /** `max_results // per_page + 1`; Dafny's `/` floors like Python's `//`
      when the divisor is positive. */
  function MaxPages(maxResults: int): int {
    maxResults / PerPage + 1
  }

  /** A reply that lets the paging continue. */
  predicate Usable(r: SearchReply) {
    r.Reply? && r.status == 200 && r.items != []
  }

  /** The items of pages `first` .. `last`, page after page, whatever the replies. */
  function Pages(search: SearchApi, q: string, first: int, last: int): seq<SearchHit>
    decreases last - first
  {
    if last < first then []
    else
      var r := search(q, PerPage, last);
      Pages(search, q, first, last - 1) + (if r.Reply? then r.items else [])
  }

  /** The items of the usable pages `page`, `page + 1`, ... up to `last`,
      stopping at the first page that is not usable. */
  function RunFrom(search: SearchApi, q: string, page: int, last: int): seq<SearchHit>
    decreases last - page
  {
    if last < page then []
    else
      var r := search(q, PerPage, page);
      if !Usable(r) then [] else r.items + RunFrom(search, q, page + 1, last)
  }

  /** `s[:n]` for `n >= 0`; the empty sequence for a negative bound, which
      the search never reaches with a non-empty `s`. */
  function Take<T>(s: seq<T>, n: int): (r: seq<T>)
    ensures n >= 0 ==> |r| == if n < |s| then n else |s|
    ensures r <= s
  {
    if n <= 0 then [] else if n < |s| then s[..n] else s
  }

  /** What `search_repositories_by_topic(topic, min_stars, max_results)` returns. */
  function SearchResults(search: SearchApi, topic: string, minStars: int, maxResults: int): (r: seq<SearchHit>)
    ensures |r| <= if maxResults < 0 then 0 else maxResults
  {
    Take(RunFrom(search, Query(topic, minStars), 1, MaxPages(maxResults)), maxResults)
  }

  /** While the pages `first` .. `mid - 1` are all usable, the run from
      `first` is their items followed by the run from `mid`. */
  lemma {:induction false} RunFromSplit(search: SearchApi, q: string, first: int, mid: int, last: int)
    requires first <= mid <= last + 1
    requires forall p :: first <= p < mid ==> Usable(search(q, PerPage, p))
    ensures RunFrom(search, q, first, last) == Pages(search, q, first, mid - 1) + RunFrom(search, q, mid, last)
    decreases mid - first
  {
    if first < mid {
      RunFromSplit(search, q, first, mid - 1, last);
      var r := search(q, PerPage, mid - 1);
      assert Usable(r);
      if mid - 1 <= last {
        assert RunFrom(search, q, mid - 1, last) == r.items + RunFrom(search, q, mid, last);
      }
    }
  }

  /** `search_repositories_by_topic`: the results, and how many pages were
      requested.  Pages are requested in order from 1; no page after the first is
      requested once enough results are in hand, and the paging stops
      early only at a page that is not usable or that completes the
      results. */
  method SearchByTopic(search: SearchApi, topic: string, minStars: int, maxResults: int)
    returns (repos: seq<SearchHit>, requested: nat)
    ensures repos == SearchResults(search, topic, minStars, maxResults)
    ensures requested <= if MaxPages(maxResults) < 0 then 0 else MaxPages(maxResults)
    ensures forall p :: 1 <= p < requested ==> Usable(search(Query(topic, minStars), PerPage, p))
    ensures requested >= 2 ==> |Pages(search, Query(topic, minStars), 1, requested - 1)| < maxResults
    ensures 1 <= requested < MaxPages(maxResults) ==>
      || !Usable(search(Query(topic, minStars), PerPage, requested))
      || |Pages(search, Query(topic, minStars), 1, requested)| >= maxResults
    ensures requested == 0 <==> MaxPages(maxResults) < 1
  {
    var q := Query(topic, minStars);
    var maxPages := MaxPages(maxResults);
    repos := [];
    requested := 0;
    var page := 1;
    while page <= maxPages
      invariant 1 <= page && requested == page - 1
      invariant page - 1 <= if maxPages < 0 then 0 else maxPages
      invariant forall p :: 1 <= p < page ==> Usable(search(q, PerPage, p))
      invariant repos == Pages(search, q, 1, page - 1)
      invariant page > 1 ==> |repos| < maxResults
      decreases maxPages - page
    {
      var reply := search(q, PerPage, page);
      requested := page;
      if reply.Raised? || reply.status != 200 || reply.items == [] {
        RunFromSplit(search, q, 1, page, maxPages);
        assert RunFrom(search, q, page, maxPages) == [];
        return;
      }
      repos := repos + reply.items;
      if |repos| >= maxResults {
        RunFromSplit(search, q, 1, page + 1, maxPages);
        assert repos == Pages(search, q, 1, page);
        assert (repos + RunFrom(search, q, page + 1, maxPages))[..maxResults] == repos[..maxResults];
        repos := repos[..maxResults];
        return;
      }
      page := page + 1;
    }
    if maxPages >= 1 {
      RunFromSplit(search, q, 1, page, maxPages);
    }
  }

  /** When every page the search may request comes back full, the search
      returns exactly `max_results` results: `max_pages` pages of 100 are
      always enough. */
  lemma {:induction false} FullPagesFillResults(search: SearchApi, topic: string, minStars: int, maxResults: nat)
    requires forall p :: 1 <= p <= MaxPages(maxResults) ==>
      var r := search(Query(topic, minStars), PerPage, p); r.Reply? && r.status == 200 && |r.items| == PerPage
    ensures |SearchResults(search, topic, minStars, maxResults)| == maxResults
  {
    var q, last := Query(topic, minStars), MaxPages(maxResults);
    RunFromSplit(search, q, 1, last + 1, last);
    PagesLength(search, q, last);
  }

  lemma {:induction false} PagesLength(search: SearchApi, q: string, last: nat)
    requires forall p :: 1 <= p <= last ==>
      var r := search(q, PerPage, p); r.Reply? && |r.items| == PerPage
    ensures |Pages(search, q, 1, last)| == last * PerPage
  {
    if last > 0 {
      PagesLength(search, q, last - 1);
    }
  }

  /** A first page that fails leaves the search empty, whatever follows. */
  lemma {:induction false} FailedFirstPage(search: SearchApi, topic: string, minStars: int, maxResults: int)
    requires !Usable(search(Query(topic, minStars), PerPage, 1))
    ensures SearchResults(search, topic, minStars, maxResults) == []
  {
  }
}
