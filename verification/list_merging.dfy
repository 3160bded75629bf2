/** Combining the curated lists' repositories into one row per repository
    (`combine_repos_with_tags` and `fetch_all_lists` of the lists fetcher).

    Rows arrive list after list, each carrying the tag of its list.  They
    are grouped by name in a dict (names in first-seen order); a group
    collects the set of its tags and keeps one record: the first, replaced
    by a later one only when both `updated_at` strings are non-empty and the
    later is strictly greater.  The groups become rows with the sorted tags,
    and the rows are sorted by stars, largest first, with Python's stable
    `list.sort`. */
module ListMerging {
  import opened Text
  import Sorting
  import Counting
  import CuratedLists

  /** One repository of a list page, with the tag of that list. */
  datatype ListedRepo = ListedRepo(
    name: string,
    url: string,
    description: string,
    language: string,
    stars: int,
    forks: int,
    updatedAt: string,
    tag: string)

  /** A listed repository without its tag: the record a group keeps. */
  datatype RepoData = RepoData(
    name: string,
    url: string,
    description: string,
    language: string,
    stars: int,
    forks: int,
    updatedAt: string)

  function DataOf(r: ListedRepo): RepoData {
    RepoData(r.name, r.url, r.description, r.language, r.stars, r.forks, r.updatedAt)
  }

  /** The names of the listed rows, in order. */
  function Names(rs: seq<ListedRepo>): (r: seq<string>)
    ensures |r| == |rs| && forall i :: 0 <= i < |rs| ==> r[i] == rs[i].name
  {
    seq(|rs|, i requires 0 <= i < |rs| => rs[i].name)
  }

  /** Some row lists `name` with `tag`. */
  ghost predicate Seen(rs: seq<ListedRepo>, name: string, tag: string) {
    exists k :: 0 <= k < |rs| && rs[k].name == name && rs[k].tag == tag
  }

  /** The replacement test: both timestamps present and the candidate's
      strictly greater as a string. */
  predicate Newer(candidate: string, kept: string) {
    candidate != "" && kept != "" && StrLess(kept, candidate)
  }

  /** `rs[k]` is the record the grouping should keep for its name, the
      first row of which is `rs[f]`: that first row itself when it has no
      timestamp, otherwise the earliest row holding the greatest timestamp. */
  ghost predicate KeptIndex(rs: seq<ListedRepo>, f: nat, k: nat)
    requires f < |rs| && k < |rs|
  {
    if rs[f].updatedAt == "" then k == f
    else
      && (forall j :: 0 <= j < |rs| && rs[j].name == rs[f].name ==> !StrLess(rs[k].updatedAt, rs[j].updatedAt))
      && (forall j :: 0 <= j < k && rs[j].name == rs[f].name ==> StrLess(rs[j].updatedAt, rs[k].updatedAt))
  }

  /** `d` is the record of the row the grouping should keep for `name`. */
  ghost predicate IsKept(d: RepoData, rs: seq<ListedRepo>, name: string)
    requires name in Names(rs)
  {
    var f := Counting.FirstIndex(Names(rs), name);
    exists k :: 0 <= k < |rs| && rs[k].name == name && d == DataOf(rs[k]) && KeptIndex(rs, f, k)
  }

  /** A dict entry: the tags seen, first-seen order, and the kept record. */
  datatype Group = Group(tags: seq<string>, data: RepoData)

  /** The dict: names in insertion order, and their entries. */
  datatype Grouping = Grouping(names: seq<string>, groups: map<string, Group>)

  /** One iteration of the grouping loop. */
  function AddRepo(g: Grouping, r: ListedRepo): Grouping {
    if r.name !in g.groups then
      Grouping(g.names + [r.name], g.groups[r.name := Group([r.tag], DataOf(r))])
    else
      var e := g.groups[r.name];
      var tags := if r.tag in e.tags then e.tags else e.tags + [r.tag];
      var data := if Newer(r.updatedAt, e.data.updatedAt) then DataOf(r) else e.data;
      Grouping(g.names, g.groups[r.name := Group(tags, data)])
  }

  /** The names are the dict's keys, in the order a Counter of the names
      would list them: first occurrence. */
  ghost predicate NamesOk(g: Grouping, rs: seq<ListedRepo>) {
    g.names == Counting.CounterOf(Names(rs)).keys && KeysOk(g, rs)
  }

  /** The dict's keys are the names listed. */
  ghost predicate KeysOk(g: Grouping, rs: seq<ListedRepo>) {
    forall n :: n in g.groups <==> n in Names(rs)
  }

  /** Each entry's tags are the tags its name was seen with, once each. */
  ghost predicate TagsOk(g: Grouping, rs: seq<ListedRepo>) {
    forall n :: n in g.groups ==>
      && Counting.Distinct(g.groups[n].tags)
      && (forall t :: t in g.groups[n].tags <==> Seen(rs, n, t))
  }

  /** Each entry keeps the record `IsKept` names. */
  ghost predicate KeptOk(g: Grouping, rs: seq<ListedRepo>)
    requires forall n :: n in g.groups ==> n in Names(rs)
  {
    forall n :: n in g.groups ==> IsKept(g.groups[n].data, rs, n)
  }

  lemma {:induction false} NamesSnoc(p: seq<ListedRepo>, r: ListedRepo)
    ensures Names(p + [r]) == Names(p) + [r.name]
  {
  }

  lemma {:induction false} AddRepoNames(g: Grouping, p: seq<ListedRepo>, r: ListedRepo)
    requires NamesOk(g, p)
    ensures NamesOk(AddRepo(g, r), p + [r])
  {
    NamesSnoc(p, r);
    var s := Names(p + [r]);
    assert s[..|s| - 1] == Names(p);
    assert Counting.Tallies(Counting.CounterOf(Names(p)), Names(p));
  }

  lemma {:induction false} SeenSnoc(p: seq<ListedRepo>, r: ListedRepo, n: string, t: string)
    ensures Seen(p + [r], n, t) <==> Seen(p, n, t) || (n == r.name && t == r.tag)
  {
    var s := p + [r];
    if Seen(p, n, t) {
      var k :| 0 <= k < |p| && p[k].name == n && p[k].tag == t;
      assert s[k] == p[k];
    }
    if Seen(s, n, t) {
      var k :| 0 <= k < |s| && s[k].name == n && s[k].tag == t;
      if k < |p| {
        assert p[k] == s[k];
      }
    }
    if n == r.name && t == r.tag {
      assert s[|p|] == r;
    }
  }

  lemma {:induction false} AddRepoTags(g: Grouping, p: seq<ListedRepo>, r: ListedRepo)
    requires KeysOk(g, p) && TagsOk(g, p)
    ensures TagsOk(AddRepo(g, r), p + [r])
  {
    var s, h := p + [r], AddRepo(g, r);
    forall n | n in h.groups
      ensures Counting.Distinct(h.groups[n].tags)
      ensures forall t :: t in h.groups[n].tags <==> Seen(s, n, t)
    {
      forall t ensures t in h.groups[n].tags <==> Seen(s, n, t) {
        SeenSnoc(p, r, n, t);
      }
    }
  }

  /** The kept record of a name other than the new row's is unaffected. */
  lemma {:induction false} KeptOtherName(p: seq<ListedRepo>, r: ListedRepo, n: string, d: RepoData)
    requires n in Names(p) && n != r.name && IsKept(d, p, n)
    ensures n in Names(p + [r]) && IsKept(d, p + [r], n)
  {
    var s := p + [r];
    NamesSnoc(p, r);
    Counting.FirstIndexSnoc(Names(p), r.name, n);
    var f := Counting.FirstIndex(Names(p), n);
    var k :| 0 <= k < |p| && p[k].name == n && d == DataOf(p[k]) && KeptIndex(p, f, k);
    assert s[k] == p[k] && s[f] == p[f];
    if p[f].updatedAt != "" {
      forall j | 0 <= j < |s| && s[j].name == n ensures !StrLess(s[k].updatedAt, s[j].updatedAt) {
        assert j < |p| && s[j] == p[j];
      }
      forall j | 0 <= j < k && s[j].name == n ensures StrLess(s[j].updatedAt, s[k].updatedAt) {
        assert s[j] == p[j];
      }
    }
  }

  /** A new name keeps its one and only row. */
  lemma {:induction false} KeptNewName(p: seq<ListedRepo>, r: ListedRepo)
    requires r.name !in Names(p)
    ensures r.name in Names(p + [r]) && IsKept(DataOf(r), p + [r], r.name)
  {
    var s, m := p + [r], |p|;
    NamesSnoc(p, r);
    assert Names(s)[m] == r.name;
    assert Counting.FirstIndex(Names(s), r.name) == m;
    assert s[m] == r;
    if r.updatedAt != "" {
      StrLessIrreflexive(r.updatedAt);
      forall j | 0 <= j < |s| && s[j].name == r.name ensures j == m {
      }
      forall j | 0 <= j < m ensures s[j].name != r.name {
        assert Names(p)[j] == s[j].name;
      }
    }
    assert KeptIndex(s, m, m);
  }

  /** A newer row for an old name beats every earlier row of that name. */
  lemma {:induction false} NewerIsKept(p: seq<ListedRepo>, r: ListedRepo, d: RepoData, f: nat, k: nat)
    requires k < |p| && f < |p| && p[k].name == r.name && p[f].name == r.name
    requires d == DataOf(p[k]) && KeptIndex(p, f, k) && p[f].updatedAt != ""
    requires d.updatedAt != "" && Newer(r.updatedAt, d.updatedAt)
    ensures KeptIndex(p + [r], f, |p|)
  {
    var s, m, n := p + [r], |p|, r.name;
    assert s[m] == r && s[f] == p[f];
    forall j | 0 <= j < |s| && s[j].name == n ensures !StrLess(r.updatedAt, s[j].updatedAt) {
      if j < m {
        assert s[j] == p[j];
        if StrLess(r.updatedAt, p[j].updatedAt) {
          StrLessTransitive(d.updatedAt, r.updatedAt, p[j].updatedAt);
        }
      } else {
        StrLessIrreflexive(r.updatedAt);
      }
    }
    forall j | 0 <= j < m && s[j].name == n ensures StrLess(s[j].updatedAt, r.updatedAt) {
      assert s[j] == p[j];
      StrLessConnected(p[j].updatedAt, d.updatedAt);
      if StrLess(p[j].updatedAt, d.updatedAt) {
        StrLessTransitive(p[j].updatedAt, d.updatedAt, r.updatedAt);
      }
    }
  }

  /** A row for an old name that is not newer leaves the kept row where it was. */
  lemma {:induction false} OlderLeavesKept(p: seq<ListedRepo>, r: ListedRepo, d: RepoData, f: nat, k: nat)
    requires k < |p| && f < |p| && p[k].name == r.name && p[f].name == r.name
    requires d == DataOf(p[k]) && KeptIndex(p, f, k) && p[f].updatedAt != ""
    requires d.updatedAt != "" && !Newer(r.updatedAt, d.updatedAt)
    ensures KeptIndex(p + [r], f, k)
  {
    var s, m, n := p + [r], |p|, r.name;
    assert s[k] == p[k] && s[f] == p[f] && s[m] == r;
    forall j | 0 <= j < |s| && s[j].name == n ensures !StrLess(s[k].updatedAt, s[j].updatedAt) {
      if j < m { assert s[j] == p[j]; }
    }
    forall j | 0 <= j < k && s[j].name == n ensures StrLess(s[j].updatedAt, s[k].updatedAt) {
      assert s[j] == p[j];
    }
  }

  /** An old name: the kept record moves to the new row exactly when that
      row is newer. */
  lemma {:induction false} KeptOldName(p: seq<ListedRepo>, r: ListedRepo, d: RepoData)
    requires r.name in Names(p) && IsKept(d, p, r.name)
    ensures r.name in Names(p + [r])
    ensures IsKept(if Newer(r.updatedAt, d.updatedAt) then DataOf(r) else d, p + [r], r.name)
  {
    var s, m, n := p + [r], |p|, r.name;
    NamesSnoc(p, r);
    Counting.FirstIndexSnoc(Names(p), r.name, n);
    var f := Counting.FirstIndex(Names(p), n);
    var k :| 0 <= k < |p| && p[k].name == n && d == DataOf(p[k]) && KeptIndex(p, f, k);
    assert s[k] == p[k] && s[f] == p[f] && s[m] == r;
    assert p[f].name == n by { assert Names(p)[f] == n; }
    if p[f].updatedAt == "" {
      assert k == f && !Newer(r.updatedAt, d.updatedAt);
      assert KeptIndex(s, f, k);
    } else {
      assert d.updatedAt != "" by {
        assert !StrLess(p[k].updatedAt, p[f].updatedAt);
      }
      if Newer(r.updatedAt, d.updatedAt) {
        NewerIsKept(p, r, d, f, k);
        assert KeptIndex(s, f, m);
      } else {
        OlderLeavesKept(p, r, d, f, k);
      }
    }
  }

  lemma {:induction false} AddRepoKept(g: Grouping, p: seq<ListedRepo>, r: ListedRepo)
    requires NamesOk(g, p) && KeptOk(g, p)
    ensures NamesOk(AddRepo(g, r), p + [r]) && KeptOk(AddRepo(g, r), p + [r])
  {
    AddRepoNames(g, p, r);
    var h := AddRepo(g, r);
    forall n | n in h.groups ensures IsKept(h.groups[n].data, p + [r], n) {
      if n != r.name {
        KeptOtherName(p, r, n, g.groups[n].data);
      } else if r.name in g.groups {
        KeptOldName(p, r, g.groups[n].data);
      } else {
        KeptNewName(p, r);
      }
    }
  }

  /** The grouping loop over all rows. */
  function GroupAll(rs: seq<ListedRepo>): (g: Grouping)
    ensures forall n :: n in g.names <==> n in g.groups
  {
    if rs == [] then Grouping([], map[])
    else AddRepo(GroupAll(rs[..|rs| - 1]), rs[|rs| - 1])
  }

  /** The grouping loop keeps its three invariants. */
  lemma {:induction false} GroupAllInvariants(rs: seq<ListedRepo>)
    ensures NamesOk(GroupAll(rs), rs) && TagsOk(GroupAll(rs), rs) && KeptOk(GroupAll(rs), rs)
  {
    if rs != [] {
      var p, r := rs[..|rs| - 1], rs[|rs| - 1];
      assert rs == p + [r];
      GroupAllInvariants(p);
      var g := GroupAll(p);
      assert KeysOk(g, p);
      AddRepoTags(g, p, r);
      AddRepoKept(g, p, r);
    }
  }

  /** What the grouping holds, read off its invariants: the names are the
      distinct names of the input in first-seen order, each with an entry
      whose record carries that name. */
  lemma {:induction false} GroupAllFacts(rs: seq<ListedRepo>)
    ensures var g := GroupAll(rs);
      && Counting.Distinct(g.names)
      && (forall n :: n in g.names <==> n in g.groups)
      && (forall n :: n in g.names <==> n in Names(rs))
      && (forall i, j :: 0 <= i < j < |g.names| ==>
            Counting.FirstIndex(Names(rs), g.names[i]) < Counting.FirstIndex(Names(rs), g.names[j]))
      && (forall n :: n in g.groups ==> g.groups[n].data.name == n)
  {
    var g := GroupAll(rs);
    GroupAllInvariants(rs);
    assert Counting.Tallies(Counting.CounterOf(Names(rs)), Names(rs));
    forall n | n in g.groups ensures g.groups[n].data.name == n {
      assert IsKept(g.groups[n].data, rs, n);
    }
  }

  /** One output row: the kept record, the sorted tags and how many there
      are; the sheet's `tags` cell is `Join(tags, ", ")`. */
  datatype CombinedRow = CombinedRow(data: RepoData, tags: seq<string>, tagsCount: nat)

  function RowOf(e: Group): CombinedRow {
    var tags := SortStrings(e.tags);
    CombinedRow(e.data, tags, |tags|)
  }

  /** The rows in dict order, before sorting. */
  function Rows(g: Grouping): (r: seq<CombinedRow>)
    requires forall n :: n in g.names ==> n in g.groups
    ensures |r| == |g.names| && forall i :: 0 <= i < |r| ==> r[i] == RowOf(g.groups[g.names[i]])
  {
    seq(|g.names|, i requires 0 <= i < |g.names| => RowOf(g.groups[g.names[i]]))
  }

  /** `key=lambda x: x.get('stars', 0), reverse=True`: more stars first. */
  predicate MoreStars(a: CombinedRow, b: CombinedRow) {
    a.data.stars > b.data.stars
  }

  lemma {:induction false} MoreStarsIsStrictWeakOrder()
    ensures Sorting.StrictWeakOrder(MoreStars)
  {
  }

  /** `combined_data.sort(key=..., reverse=True)`: Python's stable sort. */
  function SortByStars(rows: seq<CombinedRow>): (r: seq<CombinedRow>)
    ensures Sorting.Sorted(r, MoreStars)
    ensures multiset(r) == multiset(rows)
  {
    MoreStarsIsStrictWeakOrder();
    Sorting.SortSorted(rows, MoreStars);
    Sorting.Sort(rows, MoreStars)
  }

  /** The dict's entries made rows and sorted by stars. */
  function CombineGrouped(g: Grouping): seq<CombinedRow>
    requires forall n :: n in g.names ==> n in g.groups
  {
    SortByStars(Rows(g))
  }

  /** `combine_repos_with_tags`: the dict's rows, most stars first. */
  function CombineReposWithTags(rs: seq<ListedRepo>): (rows: seq<CombinedRow>)
    ensures Sorting.Sorted(rows, MoreStars)
    ensures multiset(rows) == multiset(Rows(GroupAll(rs)))
  {
    CombineGrouped(GroupAll(rs))
  }

  /** Every sorted row is the row of one of the dict's names. */
  lemma {:induction false} GroupedRowOrigin(g: Grouping, i: nat)
    requires forall n :: n in g.names ==> n in g.groups
    requires i < |CombineGrouped(g)|
    ensures exists k :: 0 <= k < |g.names| && CombineGrouped(g)[i] == RowOf(g.groups[g.names[k]])
  {
    var rows, r := CombineGrouped(g), Rows(g);
    assert rows[i] in multiset(r);
    var k :| 0 <= k < |r| && r[k] == rows[i];
  }

  /** The row at position i of the result is the row of some name's entry. */
  lemma {:induction false} CombinedRowOrigin(rs: seq<ListedRepo>, i: nat)
    requires i < |CombineReposWithTags(rs)|
    ensures var g := GroupAll(rs);
      exists k :: 0 <= k < |g.names| && CombineReposWithTags(rs)[i] == RowOf(g.groups[g.names[k]])
  {
    assert CombineReposWithTags(rs) == CombineGrouped(GroupAll(rs));
    GroupedRowOrigin(GroupAll(rs), i);
  }

  /** A permutation of rows named by distinct names holds one row per name. */
  lemma {:induction false} PermutedNames(r: seq<CombinedRow>, rows: seq<CombinedRow>, ns: seq<string>)
    requires multiset(rows) == multiset(r)
    requires |r| == |ns| && Counting.Distinct(ns)
    requires forall k :: 0 <= k < |r| ==> r[k].data.name == ns[k]
    ensures forall i, j :: 0 <= i < j < |rows| ==> rows[i].data.name != rows[j].data.name
    ensures forall n :: (exists i :: 0 <= i < |rows| && rows[i].data.name == n) <==> n in ns
  {
    Counting.PermutationKeysDistinct(r, rows, (row: CombinedRow) => row.data.name);
    forall n ensures (exists i :: 0 <= i < |rows| && rows[i].data.name == n) <==> n in ns {
      if i :| 0 <= i < |rows| && rows[i].data.name == n {
        assert rows[i] in multiset(r);
        var k :| 0 <= k < |r| && r[k] == rows[i];
      }
      if n in ns {
        var k :| 0 <= k < |ns| && ns[k] == n;
        assert r[k] in multiset(rows);
      }
    }
  }

  /** The sorted rows hold one row per name of a dict whose entries carry
      their own names. */
  lemma {:induction false} GroupedOneRowPerName(g: Grouping)
    requires forall n :: n in g.names ==> n in g.groups
    requires Counting.Distinct(g.names)
    requires forall k :: 0 <= k < |g.names| ==> g.groups[g.names[k]].data.name == g.names[k]
    ensures var rows := CombineGrouped(g);
      && (forall i, j :: 0 <= i < j < |rows| ==> rows[i].data.name != rows[j].data.name)
      && (forall n :: (exists i :: 0 <= i < |rows| && rows[i].data.name == n) <==> n in g.names)
  {
    PermutedNames(Rows(g), CombineGrouped(g), g.names);
  }

  /** Exactly one row per distinct name of the input. */
  lemma {:induction false} CombineOneRowPerName(rs: seq<ListedRepo>)
    ensures var rows := CombineReposWithTags(rs);
      && (forall i, j :: 0 <= i < j < |rows| ==> rows[i].data.name != rows[j].data.name)
      && (forall n :: (exists i :: 0 <= i < |rows| && rows[i].data.name == n) <==> n in Names(rs))
  {
    var g := GroupAll(rs);
    GroupAllFacts(rs);
    GroupedOneRowPerName(g);
  }

  /** A group's row lists the group's tags sorted; distinct tags stay distinct. */
  lemma {:induction false} RowOfTags(e: Group)
    requires Counting.Distinct(e.tags)
    ensures var row := RowOf(e);
      && Sorting.Sorted(row.tags, StrLess)
      && Counting.Distinct(row.tags)
      && (forall t :: t in row.tags <==> t in e.tags)
      && row.tagsCount == |row.tags|
  {
    var tags := SortStrings(e.tags);
    assert forall t :: t in tags <==> t in multiset(e.tags);
    Counting.PermutationKeysDistinct(e.tags, tags, (t: string) => t);
  }

  /** A sorted row is its name's entry made a row: the entry's record,
      and its tags sorted. */
  lemma {:induction false} GroupedRowFacts(g: Grouping, i: nat)
    requires forall n :: n in g.names ==> n in g.groups
    requires forall n :: n in g.groups ==> g.groups[n].data.name == n && Counting.Distinct(g.groups[n].tags)
    requires i < |CombineGrouped(g)|
    ensures var row := CombineGrouped(g)[i];
      && row.data.name in g.groups
      && row.data == g.groups[row.data.name].data
      && Sorting.Sorted(row.tags, StrLess)
      && Counting.Distinct(row.tags)
      && (forall t :: t in row.tags <==> t in g.groups[row.data.name].tags)
      && row.tagsCount == |row.tags|
  {
    GroupedRowOrigin(g, i);
    var k :| 0 <= k < |g.names| && CombineGrouped(g)[i] == RowOf(g.groups[g.names[k]]);
    RowOfTags(g.groups[g.names[k]]);
  }

  /** A row's tags are the tags its name was listed with, sorted, once each,
      and `tags_count` is their number. */
  lemma {:induction false} CombineTags(rs: seq<ListedRepo>, i: nat)
    requires i < |CombineReposWithTags(rs)|
    ensures var row := CombineReposWithTags(rs)[i];
      && Sorting.Sorted(row.tags, StrLess)
      && Counting.Distinct(row.tags)
      && (forall t :: t in row.tags <==> Seen(rs, row.data.name, t))
      && row.tagsCount == |row.tags|
  {
    GroupAllFacts(rs);
    GroupAllInvariants(rs);
    GroupedRowFacts(GroupAll(rs), i);
  }

  /** A row's record is the one `IsKept` describes. */
  lemma {:induction false} CombineKept(rs: seq<ListedRepo>, i: nat)
    requires i < |CombineReposWithTags(rs)|
    ensures var row := CombineReposWithTags(rs)[i];
      row.data.name in Names(rs) && IsKept(row.data, rs, row.data.name)
  {
    GroupAllFacts(rs);
    GroupAllInvariants(rs);
    GroupedRowFacts(GroupAll(rs), i);
  }

  /** Rows whose names were first seen earlier come first. */
  function FirstSeenEarlier(ns: seq<string>): (CombinedRow, CombinedRow) -> bool {
    (a: CombinedRow, b: CombinedRow) =>
      a.data.name in ns && b.data.name in ns && Counting.FirstIndex(ns, a.data.name) < Counting.FirstIndex(ns, b.data.name)
  }

  /** Before sorting, the rows are in the order their names were first seen. */
  lemma {:induction false} RowsInFirstSeenOrder(rs: seq<ListedRepo>)
    ensures Sorting.TiesRespect(Rows(GroupAll(rs)), MoreStars, FirstSeenEarlier(Names(rs)))
  {
    var g := GroupAll(rs);
    var r := Rows(g);
    GroupAllFacts(rs);
    forall i, j | 0 <= i < j < |r| ensures FirstSeenEarlier(Names(rs))(r[i], r[j]) {
      assert r[i].data.name == g.names[i] && r[j].data.name == g.names[j];
    }
  }

  /** Sorting by stars keeps tied rows in the order `earlier` fixes, when
      the unsorted rows are in that order. */
  lemma {:induction false} SortByStarsKeepsTies(r: seq<CombinedRow>, earlier: (CombinedRow, CombinedRow) -> bool)
    requires Sorting.TiesRespect(r, MoreStars, earlier)
    ensures var rows := SortByStars(r);
      forall i, j :: 0 <= i < j < |rows| && rows[i].data.stars == rows[j].data.stars ==> earlier(rows[i], rows[j])
  {
    MoreStarsIsStrictWeakOrder();
    Sorting.SortKeepsTieOrder(r, MoreStars, earlier);
    var rows := SortByStars(r);
    forall i, j | 0 <= i < j < |rows| && rows[i].data.stars == rows[j].data.stars
      ensures earlier(rows[i], rows[j])
    {
      assert Sorting.Tied(MoreStars, rows[i], rows[j]);
    }
  }

  /** Stability: rows with equal stars keep the order in which their names
      first appeared. */
  lemma {:induction false} CombineTieOrder(rs: seq<ListedRepo>)
    ensures var rows := CombineReposWithTags(rs);
      forall i, j :: 0 <= i < j < |rows| && rows[i].data.stars == rows[j].data.stars ==>
        && rows[i].data.name in Names(rs) && rows[j].data.name in Names(rs)
        && Counting.FirstIndex(Names(rs), rows[i].data.name) < Counting.FirstIndex(Names(rs), rows[j].data.name)
  {
    RowsInFirstSeenOrder(rs);
    SortByStarsKeepsTies(Rows(GroupAll(rs)), FirstSeenEarlier(Names(rs)));
  }

  /** No listed repository, no row. */
  lemma {:induction false} CombineEmpty()
    ensures CombineReposWithTags([]) == []
  {
    assert |Rows(GroupAll([]))| == 0;
  }

  /** `fetch_all_lists`: the lists' rows in `TAG_NAMES` order, combined;
      an empty frame when no list yields a row.  `scraped` gives the
      records of each list page, which the scraper tags with the list's
      name. */
  function FetchAllLists(scraped: string -> seq<RepoData>): (rows: seq<CombinedRow>)
    ensures rows == CombineReposWithTags(AllListed(CuratedLists.TagNames, scraped))
  {
    var all := AllListed(CuratedLists.TagNames, scraped);
    if all != [] then CombineReposWithTags(all) else (CombineEmpty(); [])
  }

  /** `'tag': tag_name` on every record of one list page. */
  function Tagged(ds: seq<RepoData>, tag: string): (r: seq<ListedRepo>)
    ensures |r| == |ds|
    ensures forall i :: 0 <= i < |ds| ==> DataOf(r[i]) == ds[i] && r[i].tag == tag
  {
    seq(|ds|, i requires 0 <= i < |ds| =>
      ListedRepo(ds[i].name, ds[i].url, ds[i].description, ds[i].language, ds[i].stars, ds[i].forks, ds[i].updatedAt, tag))
  }

  /** The rows of the named lists, list after list, each tagged with its
      list's name. */
  function AllListed(tagNames: seq<string>, scraped: string -> seq<RepoData>): (r: seq<ListedRepo>)
    ensures forall k :: 0 <= k < |r| ==> r[k].tag in tagNames
  {
    if tagNames == [] then []
    else
      var first, rest := Tagged(scraped(tagNames[0]), tagNames[0]), AllListed(tagNames[1..], scraped);
      assert forall k :: 0 <= k < |rest| ==> rest[k].tag in tagNames;
      first + rest
  }

  /** Every combined row's tags are names of configured lists. */
  lemma {:induction false} FetchAllListsTags(scraped: string -> seq<RepoData>, i: nat)
    requires i < |FetchAllLists(scraped)|
    ensures forall t :: t in FetchAllLists(scraped)[i].tags ==> t in CuratedLists.TagNames
  {
    var all := AllListed(CuratedLists.TagNames, scraped);
    CombineTags(all, i);
    var row := FetchAllLists(scraped)[i];
    forall t | t in row.tags ensures t in CuratedLists.TagNames {
      assert Seen(all, row.data.name, t);
      var k :| 0 <= k < |all| && all[k].name == row.data.name && all[k].tag == t;
    }
  }
}
