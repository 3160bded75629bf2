/** Turning starred repositories into sheet rows, as each of the three
    starred scripts does it: split `full_name` into owner and repository,
    ask the two per-repository endpoints, and attach the curated tags.

    Python iterates a `set` in an unspecified order; a repository's
    curated-tag set is listed here in the order of the slug list it came
    from, and `CuratedOrderIrrelevant` shows that no row depends on that
    choice. */
module StarredRows {
  import opened Results
  import opened Text
  import opened GitHubApi
  import Counting
  import CuratedLists

  /** The tags recorded for `name` (the empty set when it has no entry). */
  function TagsOf(tags: map<string, set<string>>, name: string): set<string> {
    if name in tags then tags[name] else {}
  }

  /** `list(repo_tags.get(full_name, set()))`, listing the set in the order
      of `order`. */
  function CuratedListing(tags: map<string, set<string>>, name: string, order: seq<string>): (r: seq<string>)
    ensures forall t :: t in r <==> t in order && t in TagsOf(tags, name)
    ensures Counting.Distinct(order) ==> Counting.Distinct(r)
  {
    if order == [] then []
    else
      var rest := CuratedListing(tags, name, order[1..]);
      assert Counting.Distinct(order) ==> order[0] !in rest;
      if order[0] in TagsOf(tags, name) then [order[0]] + rest else rest
  }

  /** A listing of every tag of a set: no tag twice, none missing. */
  ghost predicate Lists(r: seq<string>, s: set<string>) {
    Counting.Distinct(r) && forall t :: t in r <==> t in s
  }

  /** When the slug list is duplicate-free and holds every tag of the set,
      the listing lists the whole set and is as long as it. */
  lemma {:induction false} ListingComplete(tags: map<string, set<string>>, name: string, order: seq<string>)
    requires Counting.Distinct(order)
    requires TagsOf(tags, name) <= set t | t in order
    ensures Lists(CuratedListing(tags, name, order), TagsOf(tags, name))
    ensures |CuratedListing(tags, name, order)| == |TagsOf(tags, name)|
  {
    var r := CuratedListing(tags, name, order);
    assert TagsOf(tags, name) == set t | t in r;
    Counting.DistinctCard(r);
  }

  /** Two listings of one set hold the same elements, once each. */
  lemma {:induction false} ListingsPermute(a: seq<string>, b: seq<string>, s: set<string>)
    requires Lists(a, s) && Lists(b, s)
    ensures multiset(a) == multiset(b)
  {
    Counting.DistinctMultiset(a);
    Counting.DistinctMultiset(b);
    assert forall x :: multiset(a)[x] == multiset(b)[x];
  }

  /** The unified sync's row of a starred repository. */
  datatype SyncRow = SyncRow(
    name: string,
    stars: int,
    language: Option<string>,
    url: string,
    lastRelease: Option<string>,
    curatedTags: seq<string>,
    allTags: seq<string>,
    isCurated: bool)

  /** The row of `repo` built from a listing of its curated tags; the
      unpacking of `full_name` fails unless it splits into two pieces. */
  function SyncRowWith(repo: StarredRepo, curated: seq<string>, api: RepoEndpoints): (r: Result<SyncRow>)
    ensures r.Ok? <==> SplitFullName(repo.fullName).Some?
    ensures r.Ok? ==> var (owner, name) := SplitFullName(repo.fullName).value;
      && r.value.name == repo.fullName
      && r.value.lastRelease == LastRelease(api.release(owner, name))
      && Sorting.Sorted(r.value.curatedTags, StrLess)
      && multiset(r.value.curatedTags) == multiset(curated)
      && Sorting.Sorted(r.value.allTags, StrLess)
      && multiset(r.value.allTags) == multiset(RepoTopics(api.topics(owner, name))) + multiset(curated)
      && (r.value.isCurated <==> curated != [])
      && r.value.stars == repo.stars && r.value.url == repo.htmlUrl
      && r.value.language == repo.language.Get("Unknown")
  {
    match SplitFullName(repo.fullName)
    case None => Err("ValueError: cannot unpack " + repo.fullName)
    case Some((owner, name)) =>
      var topics := RepoTopics(api.topics(owner, name));
      Ok(SyncRow(
        repo.fullName,
        repo.stars,
        repo.language.Get("Unknown"),
        repo.htmlUrl,
        LastRelease(api.release(owner, name)),
        SortStrings(curated),
        SortStrings(topics + curated),
        |curated| > 0))
  }

  /** The row `process_starred_repositories` emits for one repository. */
  function SyncRowOf(repo: StarredRepo, tags: map<string, set<string>>, order: seq<string>, api: RepoEndpoints): Result<SyncRow> {
    SyncRowWith(repo, CuratedListing(tags, repo.fullName, order), api)
  }

  /** The rows do not depend on the order a tag set is listed in. */
  lemma {:induction false} CuratedOrderIrrelevant(repo: StarredRepo, a: seq<string>, b: seq<string>, s: set<string>, api: RepoEndpoints)
    requires Lists(a, s) && Lists(b, s)
    ensures SyncRowWith(repo, a, api) == SyncRowWith(repo, b, api)
  {
    ListingsPermute(a, b, s);
    SortStringsOrderIndependent(a, b);
    if SplitFullName(repo.fullName).Some? {
      var (owner, name) := SplitFullName(repo.fullName).value;
      var topics := RepoTopics(api.topics(owner, name));
      SortStringsOrderIndependent(topics + a, topics + b);
      assert |a| > 0 <==> |b| > 0 by {
        if a != [] { assert a[0] in b; }
        if b != [] { assert b[0] in a; }
      }
    }
  }

  /** The repositories whose name is not excluded, in input order. */
  function NotIgnored(repos: seq<StarredRepo>, ignored: set<string>): (r: seq<StarredRepo>)
    ensures |r| <= |repos|
    ensures forall x :: x in r <==> x in repos && x.fullName !in ignored
  {
    if repos == [] then []
    else (if repos[0].fullName in ignored then [] else [repos[0]]) + NotIgnored(repos[1..], ignored)
  }

  /** With a duplicate-free slug list holding every tag of the repository,
      the row's curated tags list the tag set, once each, and `is_curated`
      says the set is not empty. */
  lemma {:induction false} SyncRowListsTags(repo: StarredRepo, tags: map<string, set<string>>, order: seq<string>, api: RepoEndpoints)
    requires Counting.Distinct(order)
    requires TagsOf(tags, repo.fullName) <= set t | t in order
    requires SyncRowOf(repo, tags, order, api).Ok?
    ensures var row := SyncRowOf(repo, tags, order, api).value;
      && Lists(row.curatedTags, TagsOf(tags, repo.fullName))
      && (row.isCurated <==> TagsOf(tags, repo.fullName) != {})
  {
    var n := repo.fullName;
    ListingComplete(tags, n, order);
    var listing := CuratedListing(tags, n, order);
    var row := SyncRowOf(repo, tags, order, api).value;
    Counting.PermutationKeysDistinct(listing, row.curatedTags, (t: string) => t);
    assert forall t :: t in row.curatedTags <==> t in multiset(listing);
    assert listing != [] <==> TagsOf(tags, n) != {} by {
      if listing != [] { assert listing[0] in TagsOf(tags, n); }
    }
  }

  /** With the sync's own tag map, listed along its slug list, a row's
      curated tags are exactly the repository's tag set, once each and never
      "ignore"; `is_curated` says the set is not empty. */
  lemma {:induction false} SyncRowCurated(repo: StarredRepo, lists: string -> CuratedLists.ListPage, api: RepoEndpoints)
    requires SyncRowOf(repo, CuratedLists.SyncCuratedTags(CuratedLists.SyncLists, lists).tags, CuratedLists.SyncLists, api).Ok?
    ensures var tags := CuratedLists.SyncCuratedTags(CuratedLists.SyncLists, lists).tags;
      var row := SyncRowOf(repo, tags, CuratedLists.SyncLists, api).value;
      && Lists(row.curatedTags, TagsOf(tags, repo.fullName))
      && CuratedLists.IgnoreSlug !in row.curatedTags
      && (row.isCurated <==> TagsOf(tags, repo.fullName) != {})
  {
    var tags := CuratedLists.SyncCuratedTags(CuratedLists.SyncLists, lists).tags;
    var n := repo.fullName;
    SyncListsDistinct();
    assert TagsOf(tags, n) <= set t | t in CuratedLists.SyncLists by {
      forall t | t in TagsOf(tags, n) ensures t in CuratedLists.SyncLists {
        assert CuratedLists.HasTag(tags, n, t);
      }
    }
    SyncRowListsTags(repo, tags, CuratedLists.SyncLists, api);
    assert !CuratedLists.HasTag(tags, n, CuratedLists.IgnoreSlug);
  }

  lemma {:induction false} SyncListsDistinct()
    ensures Counting.Distinct(CuratedLists.SyncLists)
  {
    var t := CuratedLists.SyncLists;
    assert t[0][0] == 'f' && t[1][0] == 's' && t[2][0] == 'n' && t[3][0] == 'i' && t[4][0] == 'e';
  }

  /** A script's row loop: `row` applied to every repository in order; the
      first repository whose row fails (raises) aborts the whole loop. */
  function MapRows<R>(repos: seq<StarredRepo>, row: StarredRepo -> Result<R>): (r: Result<seq<R>>)
    ensures r.Ok? <==> forall i :: 0 <= i < |repos| ==> row(repos[i]).Ok?
    ensures r.Ok? ==> |r.value| == |repos| && forall i :: 0 <= i < |repos| ==> row(repos[i]) == Ok(r.value[i])
    ensures r.Err? ==> exists i :: 0 <= i < |repos| && row(repos[i]) == Err(r.message) && forall j :: 0 <= j < i ==> row(repos[j]).Ok?
  {
    if repos == [] then Ok([])
    else
      match row(repos[0])
      case Err(e) => Err(e)
      case Ok(first) =>
        var rest := MapRows(repos[1..], row);
        if rest.Err? then
          var k :| 0 <= k < |repos| - 1 && row(repos[1..][k]) == Err(rest.message) && forall j :: 0 <= j < k ==> row(repos[1..][j]).Ok?;
          assert forall j :: 0 < j <= k ==> repos[j] == repos[1..][j - 1];
          Err(rest.message)
        else
          Ok([first] + rest.value)
  }

  /** Every repository's name unpacks into owner and repository. */
  predicate AllSplit(repos: seq<StarredRepo>) {
    forall i :: 0 <= i < |repos| ==> SplitFullName(repos[i].fullName).Some?
  }

  /** `process_starred_repositories`: an aborting unpack aborts the run;
      otherwise one row per repository that is not excluded, in order. */
  function ProcessStarred(repos: seq<StarredRepo>, tags: map<string, set<string>>, ignored: set<string>,
                          order: seq<string>, api: RepoEndpoints): (r: Result<seq<SyncRow>>)
    ensures var kept := NotIgnored(repos, ignored);
      && (r.Ok? <==> AllSplit(kept))
      && (r.Ok? ==> |r.value| == |kept| && forall i :: 0 <= i < |kept| ==> SyncRowOf(kept[i], tags, order, api) == Ok(r.value[i]))
  {
    MapRows(NotIgnored(repos, ignored), repo => SyncRowOf(repo, tags, order, api))
  }

  /** No row names an excluded repository, and every repository that is not
      excluded has its row. */
  lemma {:induction false} ProcessStarredNames(repos: seq<StarredRepo>, tags: map<string, set<string>>, ignored: set<string>,
                            order: seq<string>, api: RepoEndpoints, n: string)
    requires ProcessStarred(repos, tags, ignored, order, api).Ok?
    ensures var rows := ProcessStarred(repos, tags, ignored, order, api).value;
      (exists i :: 0 <= i < |rows| && rows[i].name == n) <==> n !in ignored && exists x :: x in repos && x.fullName == n
  {
    var rows := ProcessStarred(repos, tags, ignored, order, api).value;
    RowsNamed(NotIgnored(repos, ignored), rows, tags, order, api);
    KeptNames(repos, ignored, rows, n);
  }

  /** Rows named after the repositories that are not excluded name exactly those. */
  lemma {:induction false} KeptNames(repos: seq<StarredRepo>, ignored: set<string>, rows: seq<SyncRow>, n: string)
    requires var kept := NotIgnored(repos, ignored);
      |rows| == |kept| && forall i :: 0 <= i < |rows| ==> rows[i].name == kept[i].fullName
    ensures (exists i :: 0 <= i < |rows| && rows[i].name == n) <==> n !in ignored && exists x :: x in repos && x.fullName == n
  {
    var kept := NotIgnored(repos, ignored);
    if i :| 0 <= i < |rows| && rows[i].name == n {
      assert kept[i] in kept;
    }
    if x :| x in repos && x.fullName == n && n !in ignored {
      assert x in kept;
      var i :| 0 <= i < |kept| && kept[i] == x;
      assert rows[i].name == n;
    }
  }

  /** Each row carries the name of its repository. */
  lemma {:induction false} RowsNamed(kept: seq<StarredRepo>, rows: seq<SyncRow>, tags: map<string, set<string>>,
                                     order: seq<string>, api: RepoEndpoints)
    requires |rows| == |kept|
    requires forall i :: 0 <= i < |kept| ==> SyncRowOf(kept[i], tags, order, api) == Ok(rows[i])
    ensures forall i :: 0 <= i < |rows| ==> rows[i].name == kept[i].fullName
  {
    forall i | 0 <= i < |rows| ensures rows[i].name == kept[i].fullName {
      assert SyncRowOf(kept[i], tags, order, api) == Ok(rows[i]);
    }
  }

  /** The unified starred fetcher's row. */
  datatype FetcherRow = FetcherRow(
    name: string,
    description: Option<string>,
    stars: int,
    forks: int,
    language: Option<string>,
    url: string,
    lastRelease: Option<string>,
    topics: string,
    curatedTags: seq<string>,
    allTags: seq<string>,
    tagsCount: nat,
    isCurated: bool,
    createdAt: string,
    updatedAt: string,
    pushedAt: Option<string>,
    openIssues: Option<int>,
    archived: Option<bool>,
    fork: Option<bool>)

  /** The unified fetcher's row of `repo`, from a listing of its curated
      tags: `tags_count` counts topics and curated tags, duplicates included. */
  function FetcherRowWith(repo: StarredRepo, curated: seq<string>, api: RepoEndpoints): (r: Result<FetcherRow>)
    ensures r.Ok? <==> SplitFullName(repo.fullName).Some?
    ensures r.Ok? ==> var (owner, name) := SplitFullName(repo.fullName).value;
      var topics := RepoTopics(api.topics(owner, name));
      && r.value.name == repo.fullName
      && r.value.lastRelease == LastRelease(api.release(owner, name))
      && r.value.topics == Cell(topics)
      && Sorting.Sorted(r.value.curatedTags, StrLess)
      && multiset(r.value.curatedTags) == multiset(curated)
      && Sorting.Sorted(r.value.allTags, StrLess)
      && multiset(r.value.allTags) == multiset(topics) + multiset(curated)
      && r.value.tagsCount == |topics| + |curated|
      && (r.value.isCurated <==> curated != [])
      && r.value.stars == repo.stars && r.value.forks == repo.forks && r.value.url == repo.htmlUrl
      && r.value.createdAt == repo.createdAt && r.value.updatedAt == repo.updatedAt
      && r.value.description == repo.description.Get("")
      && r.value.language == repo.language.Get("Unknown")
      && r.value.pushedAt == repo.pushedAt.Get("")
      && r.value.openIssues == repo.openIssues.Get(0)
      && r.value.archived == repo.archived.Get(false)
      && r.value.fork == repo.fork.Get(false)
  {
    match SplitFullName(repo.fullName)
    case None => Err("ValueError: cannot unpack " + repo.fullName)
    case Some((owner, name)) =>
      var topics := RepoTopics(api.topics(owner, name));
      var all := topics + curated;
      Ok(FetcherRow(
        repo.fullName,
        repo.description.Get(""),
        repo.stars,
        repo.forks,
        repo.language.Get("Unknown"),
        repo.htmlUrl,
        LastRelease(api.release(owner, name)),
        Cell(topics),
        SortStrings(curated),
        SortStrings(all),
        |all|,
        |curated| > 0,
        repo.createdAt,
        repo.updatedAt,
        repo.pushedAt.Get(""),
        repo.openIssues.Get(0),
        repo.archived.Get(false),
        repo.fork.Get(false)))
  }

  /** `process_repositories` of the unified fetcher: no repository is
      skipped; one row per repository, in order, unless an unpack aborts. */
  function ProcessFetcher(repos: seq<StarredRepo>, tags: map<string, set<string>>, order: seq<string>,
                          api: RepoEndpoints): (r: Result<seq<FetcherRow>>)
    ensures r.Ok? <==> AllSplit(repos)
    ensures r.Ok? ==> |r.value| == |repos| && forall i :: 0 <= i < |repos| ==>
      FetcherRowWith(repos[i], CuratedListing(tags, repos[i].fullName, order), api) == Ok(r.value[i])
  {
    MapRows(repos, (repo: StarredRepo) => FetcherRowWith(repo, CuratedListing(tags, repo.fullName, order), api))
  }

  /** With the fetcher's own tag map, listed along `TAG_NAMES`, a row's
      `tags_count` is its number of topics plus its number of curated tags. */
  lemma {:induction false} FetcherTagsCount(repos: seq<StarredRepo>, lists: string -> CuratedLists.ListPage, api: RepoEndpoints, i: nat)
    requires ProcessFetcher(repos, CuratedLists.FetcherCuratedTags(CuratedLists.TagNames, lists), CuratedLists.TagNames, api).Ok?
    requires i < |repos|
    ensures var tags := CuratedLists.FetcherCuratedTags(CuratedLists.TagNames, lists);
      var row := ProcessFetcher(repos, tags, CuratedLists.TagNames, api).value[i];
      var (owner, name) := SplitFullName(repos[i].fullName).value;
      && row.tagsCount == |RepoTopics(api.topics(owner, name))| + |TagsOf(tags, repos[i].fullName)|
      && (row.isCurated <==> TagsOf(tags, repos[i].fullName) != {})
  {
    var tags := CuratedLists.FetcherCuratedTags(CuratedLists.TagNames, lists);
    var n := repos[i].fullName;
    TagNamesDistinct();
    assert TagsOf(tags, n) <= set t | t in CuratedLists.TagNames by {
      forall t | t in TagsOf(tags, n) ensures t in CuratedLists.TagNames {
        assert CuratedLists.HasTag(tags, n, t);
      }
    }
    ListingComplete(tags, n, CuratedLists.TagNames);
    var listing := CuratedListing(tags, n, CuratedLists.TagNames);
    assert listing != [] <==> TagsOf(tags, n) != {} by {
      if listing != [] { assert listing[0] in TagsOf(tags, n); }
    }
  }

  lemma {:induction false} TagNamesDistinct()
    ensures Counting.Distinct(CuratedLists.TagNames)
  {
    var t := CuratedLists.TagNames;
    assert t[0][0] == 's' && t[1][0] == 'n' && t[2][0] == 'f';
  }

  /** The starred-repositories fetcher's row: no curated tags. */
  datatype ReposRow = ReposRow(
    name: string,
    description: Option<string>,
    stars: int,
    forks: int,
    language: Option<string>,
    url: string,
    lastRelease: Option<string>,
    topics: string,
    createdAt: string,
    updatedAt: string,
    pushedAt: Option<string>,
    openIssues: Option<int>,
    archived: Option<bool>,
    fork: Option<bool>)

  /** The row of `repo`: the `topics` cell is the ", "-join of its topics. */
  function ReposRowOf(repo: StarredRepo, api: RepoEndpoints): (r: Result<ReposRow>)
    ensures r.Ok? <==> SplitFullName(repo.fullName).Some?
    ensures r.Ok? ==> var (owner, name) := SplitFullName(repo.fullName).value;
      && r.value.name == repo.fullName
      && r.value.lastRelease == LastRelease(api.release(owner, name))
      && r.value.topics == Cell(RepoTopics(api.topics(owner, name)))
      && r.value.stars == repo.stars && r.value.forks == repo.forks && r.value.url == repo.htmlUrl
      && r.value.createdAt == repo.createdAt && r.value.updatedAt == repo.updatedAt
      && r.value.description == repo.description.Get("")
      && r.value.language == repo.language.Get("Unknown")
      && r.value.pushedAt == repo.pushedAt.Get("")
      && r.value.openIssues == repo.openIssues.Get(0)
      && r.value.archived == repo.archived.Get(false)
      && r.value.fork == repo.fork.Get(false)
  {
    match SplitFullName(repo.fullName)
    case None => Err("ValueError: cannot unpack " + repo.fullName)
    case Some((owner, name)) =>
      Ok(ReposRow(
        repo.fullName,
        repo.description.Get(""),
        repo.stars,
        repo.forks,
        repo.language.Get("Unknown"),
        repo.htmlUrl,
        LastRelease(api.release(owner, name)),
        Cell(RepoTopics(api.topics(owner, name))),
        repo.createdAt,
        repo.updatedAt,
        repo.pushedAt.Get(""),
        repo.openIssues.Get(0),
        repo.archived.Get(false),
        repo.fork.Get(false)))
  }

  /** `process_repositories` of the starred-repositories fetcher. */
  function ProcessRepos(repos: seq<StarredRepo>, api: RepoEndpoints): (r: Result<seq<ReposRow>>)
    ensures r.Ok? <==> AllSplit(repos)
    ensures r.Ok? ==> |r.value| == |repos| && forall i :: 0 <= i < |repos| ==> ReposRowOf(repos[i], api) == Ok(r.value[i])
  {
    MapRows(repos, repo => ReposRowOf(repo, api))
  }
}
