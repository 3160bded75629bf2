/** `generate_recommendations` of the unified sync.

    The starred rows' `all_tags` cells give a Counter of topics.  Each
    topic, in `most_common()` order, is searched once (first page only,
    `min(max_per_topic, 100)` results); a reply that raised or whose status
    is not 200 is skipped.  Every result that is neither starred nor
    ignored is stored under its repository id, a later result replacing an
    earlier one under the same id.  The stored rows come out sorted by
    stars, most first.

    Two versions are given.  `GenerateAsWritten` follows the script: when
    topics exist but no result survives the filters, sorting the empty
    frame by a `stars` column it does not have raises.  `GenerateRecommendations`
    returns no rows in that case, as the script's caller expects. */
module SyncRecommendations {
  import opened Results
  import opened Text
  import Counting
  import Sorting
  import opened Dicts
  import opened Topics
  import opened TopicSearch
  import opened StarredRows

  /** One recommendation row. */
  datatype RecRow = RecRow(name: string, stars: int, language: Option<string>, url: string)

  /** `all_topics`: the topics of the rows' `all_tags` cells, row after row. */
  function SheetTopics(rows: seq<SyncRow>): seq<string> {
    if rows == [] then []
    else SheetTopics(rows[..|rows| - 1]) + CellTopics(Cell(rows[|rows| - 1].allTags))
  }

  /** `starred_names`. */
  function SyncedNames(rows: seq<SyncRow>): set<string> {
    set i | 0 <= i < |rows| :: rows[i].name
  }

  /** `min(max_per_topic, 100)`, the page size of every topic search. */
  function PageSize(maxPerTopic: int): int {
    if maxPerTopic < PerPage then maxPerTopic else PerPage
  }

  /** The first page of results for `topic`. */
  function TopicReply(search: SearchApi, topic: string, minStars: int, maxPerTopic: int): SearchReply {
    search(Query(topic, minStars), PageSize(maxPerTopic), 1)
  }

  /** The items the loop walks for one reply: none when the request raised
      or the status is not 200. */
  function ReplyItems(r: SearchReply): (items: seq<SearchHit>)
    ensures r.Reply? && r.status == 200 ==> items == r.items
    ensures !(r.Reply? && r.status == 200) ==> items == []
  {
    if r.Reply? && r.status == 200 then r.items else []
  }

  /** The results in processing order: topic after topic, each reply's
      items in order. */
  function Candidates(order: seq<(string, nat)>, search: SearchApi, minStars: int, maxPerTopic: int): seq<SearchHit> {
    if order == [] then []
    else
      Candidates(order[..|order| - 1], search, minStars, maxPerTopic)
        + ReplyItems(TopicReply(search, order[|order| - 1].0, minStars, maxPerTopic))
  }

  /** The results for the topics of `rows`, in `most_common()` order. */
  function CandidatesOf(rows: seq<SyncRow>, search: SearchApi, minStars: int, maxPerTopic: int): seq<SearchHit> {
    Candidates(Counting.MostCommon(Counting.CounterOf(SheetTopics(rows))), search, minStars, maxPerTopic)
  }

  /** A result that is neither starred nor ignored. */
  predicate Accepted(h: SearchHit, starred: set<string>, ignored: set<string>) {
    h.fullName !in starred && h.fullName !in ignored
  }

  /** The row stored for a result; a missing `language` reads as
      "Unknown", a JSON `null` one stays empty. */
  function RecOf(h: SearchHit): (r: RecRow)
    ensures r.name == h.fullName && r.stars == h.stars && r.url == h.htmlUrl
    ensures h.language.Missing? ==> r.language == Some("Unknown")
    ensures h.language.Null? ==> r.language == None
    ensures h.language.Present? ==> r.language == Some(h.language.value)
  {
    RecRow(h.fullName, h.stars, h.language.Get("Unknown"), h.htmlUrl)
  }

  type Recs = Dict<int, RecRow>

  /** `recommendations`, after the results `hits`; the dict stays well
      formed all along. */
  function Collect(hits: seq<SearchHit>, starred: set<string>, ignored: set<string>): (d: Recs)
    ensures Valid(d) && KeysHaveValues(d)
    ensures |d.keys| <= |hits|
  {
    if hits == [] then Empty()
    else
      var d := Collect(hits[..|hits| - 1], starred, ignored);
      var h := hits[|hits| - 1];
      if Accepted(h, starred, ignored) then
        PutFacts(d, h.id, RecOf(h));
        Put(d, h.id, RecOf(h))
      else d
  }

  /** `hits[k]` is the last accepted result with repository id `id`. */
  ghost predicate LastFor(hits: seq<SearchHit>, starred: set<string>, ignored: set<string>, id: int, k: int) {
    && 0 <= k < |hits|
    && Accepted(hits[k], starred, ignored) && hits[k].id == id
    && forall j :: k < j < |hits| ==> !(Accepted(hits[j], starred, ignored) && hits[j].id == id)
  }

  /** What the dict holds for `id` after the results `hits`: an entry
      exactly when some accepted result has that id, and then the row of
      the last of them. */
  ghost predicate IdOk(d: Recs, hits: seq<SearchHit>, starred: set<string>, ignored: set<string>, id: int) {
    && (id in d.values <==> exists k :: 0 <= k < |hits| && Accepted(hits[k], starred, ignored) && hits[k].id == id)
    && (id in d.values ==> exists k :: LastFor(hits, starred, ignored, id, k) && d.values[id] == RecOf(hits[k]))
  }

  lemma {:induction false} CollectStep(p: seq<SearchHit>, h: SearchHit, starred: set<string>, ignored: set<string>, id: int)
    requires IdOk(Collect(p, starred, ignored), p, starred, ignored, id)
    ensures IdOk(Collect(p + [h], starred, ignored), p + [h], starred, ignored, id)
  {
    var hits, d := p + [h], Collect(p, starred, ignored);
    assert hits[..|hits| - 1] == p;
    assert hits[|p|] == h;
    if Accepted(h, starred, ignored) {
      PutFacts(d, h.id, RecOf(h));
    }
    if Accepted(h, starred, ignored) && h.id == id {
      assert LastFor(hits, starred, ignored, id, |p|);
    } else {
      if id in d.values {
        var k :| LastFor(p, starred, ignored, id, k) && d.values[id] == RecOf(p[k]);
        assert hits[k] == p[k];
        assert LastFor(hits, starred, ignored, id, k);
      }
      if exists k :: 0 <= k < |hits| && Accepted(hits[k], starred, ignored) && hits[k].id == id {
        var k :| 0 <= k < |hits| && Accepted(hits[k], starred, ignored) && hits[k].id == id;
        assert hits[k] == p[k];
      }
    }
  }

  /** Last write wins: after any results, each id of an accepted result has
      exactly the row of the last accepted result with that id, and no
      other id has an entry. */
  lemma {:induction false} CollectLastWins(hits: seq<SearchHit>, starred: set<string>, ignored: set<string>, id: int)
    ensures IdOk(Collect(hits, starred, ignored), hits, starred, ignored, id)
  {
    if hits != [] {
      var p := hits[..|hits| - 1];
      assert hits == p + [hits[|hits| - 1]];
      CollectLastWins(p, starred, ignored, id);
      CollectStep(p, hits[|hits| - 1], starred, ignored, id);
    }
  }

  /** The stored rows, most stars first. */
  predicate MoreStars(a: RecRow, b: RecRow) {
    a.stars > b.stars
  }

  lemma {:induction false} MoreStarsIsStrictWeakOrder()
    ensures Sorting.StrictWeakOrder(MoreStars)
  {
  }

  /** `pd.DataFrame(recommendations.values()).sort_values('stars', ascending=False)`
      for a non-empty dict.  Only the order by stars is promised; the order
      among rows with equal stars is not part of the contract. */
  function RankByStars(d: Recs): (rows: seq<RecRow>)
    requires KeysHaveValues(d)
    ensures Sorting.Sorted(rows, MoreStars)
    ensures multiset(rows) == multiset(Values(d))
    ensures |rows| == |d.keys|
  {
    var raw := Values(d);
    MoreStarsIsStrictWeakOrder();
    Sorting.SortSorted(raw, MoreStars);
    var rows := Sorting.Sort(raw, MoreStars);
    assert |rows| == |multiset(rows)| == |multiset(raw)| == |raw|;
    rows
  }

  /** `generate_recommendations` as written.  `starred_df['name']` raises
      on the column-less frame built from no rows; when no result survives
      the filters, `sort_values('stars')` raises on the column-less frame
      built from an empty dict. */
  function GenerateAsWritten(rows: seq<SyncRow>, ignored: set<string>, search: SearchApi, minStars: int, maxPerTopic: int)
    : (r: Result<seq<RecRow>>)
    ensures rows == [] ==> r == Err("KeyError: 'name'")
    ensures r.Ok? ==> Sorting.Sorted(r.value, MoreStars)
  {
    if rows == [] then Err("KeyError: 'name'")
    else
      var c := Counting.CounterOf(SheetTopics(rows));
      if c.keys == [] then Ok([])
      else
        var d := Collect(CandidatesOf(rows, search, minStars, maxPerTopic), SyncedNames(rows), ignored);
        if d.keys == [] then Err("KeyError: 'stars'") else Ok(RankByStars(d))
  }

  /** `generate_recommendations` with an empty dict giving no rows. */
  function GenerateRecommendations(rows: seq<SyncRow>, ignored: set<string>, search: SearchApi, minStars: int, maxPerTopic: int)
    : (r: Result<seq<RecRow>>)
    ensures r.Err? <==> rows == []
    ensures r.Err? ==> r.message == "KeyError: 'name'"
    ensures r.Ok? ==> Sorting.Sorted(r.value, MoreStars)
  {
    if rows == [] then Err("KeyError: 'name'")
    else
      var c := Counting.CounterOf(SheetTopics(rows));
      if c.keys == [] then Ok([])
      else Ok(RankByStars(Collect(CandidatesOf(rows, search, minStars, maxPerTopic), SyncedNames(rows), ignored)))
  }

  /** The two versions agree except when topics exist and no result is
      accepted, where the script raises and the corrected version returns
      no rows. */
  lemma {:induction false} AsWrittenDiffers(rows: seq<SyncRow>, ignored: set<string>, search: SearchApi, minStars: int, maxPerTopic: int)
    ensures var cands := CandidatesOf(rows, search, minStars, maxPerTopic);
      GenerateAsWritten(rows, ignored, search, minStars, maxPerTopic) != GenerateRecommendations(rows, ignored, search, minStars, maxPerTopic)
      <==> && rows != [] && SheetTopics(rows) != []
           && forall k :: 0 <= k < |cands| ==> !Accepted(cands[k], SyncedNames(rows), ignored)
    ensures GenerateAsWritten(rows, ignored, search, minStars, maxPerTopic).Ok? ==>
      GenerateAsWritten(rows, ignored, search, minStars, maxPerTopic) == GenerateRecommendations(rows, ignored, search, minStars, maxPerTopic)
  {
    if rows != [] {
      var cands := CandidatesOf(rows, search, minStars, maxPerTopic);
      var starred := SyncedNames(rows);
      var d := Collect(cands, starred, ignored);
      Counting.CounterEmpty(SheetTopics(rows));
      if d.keys == [] {
        forall k | 0 <= k < |cands| ensures !Accepted(cands[k], starred, ignored) {
          CollectLastWins(cands, starred, ignored, cands[k].id);
        }
      } else {
        var id := d.keys[0];
        CollectLastWins(cands, starred, ignored, id);
      }
    }
  }

  /** A concrete run that shows the difference: one starred row tagged
      "go", and a search that answers every query with an empty page. */
  lemma {:induction false} NoCandidatesExample()
    ensures var rows := [SyncRow("a/b", 5, Some("Go"), "https://github.com/a/b", None, [], ["go"], false)];
      var search: SearchApi := (q, n, p) => Reply(200, []);
      && GenerateAsWritten(rows, {}, search, 1000, 50) == Err("KeyError: 'stars'")
      && GenerateRecommendations(rows, {}, search, 1000, 50) == Ok([])
  {
    var rows := [SyncRow("a/b", 5, Some("Go"), "https://github.com/a/b", None, [], ["go"], false)];
    var search: SearchApi := (q, n, p) => Reply(200, []);
    assert CleanTopic("go");
    SheetTopicsAreTags(rows);
    assert rows[..0] == [];
    assert SheetTopics(rows) == ["go"];
    NoCandidatesDiffer(rows, {}, search, 1000, 50);
  }

  /** Topics present and no result accepted: the script raises where the
      corrected version returns no rows. */
  lemma {:induction false} NoCandidatesDiffer(rows: seq<SyncRow>, ignored: set<string>, search: SearchApi, minStars: int, maxPerTopic: int)
    requires rows != [] && SheetTopics(rows) != []
    requires forall t :: ReplyItems(TopicReply(search, t, minStars, maxPerTopic)) == []
    ensures GenerateAsWritten(rows, ignored, search, minStars, maxPerTopic) == Err("KeyError: 'stars'")
    ensures GenerateRecommendations(rows, ignored, search, minStars, maxPerTopic) == Ok([])
  {
    Counting.CounterEmpty(SheetTopics(rows));
    var cands := CandidatesOf(rows, search, minStars, maxPerTopic);
    NoRepliesNoCandidates(Counting.MostCommon(Counting.CounterOf(SheetTopics(rows))), search, minStars, maxPerTopic);
    assert cands == [];
  }

  lemma {:induction false} NoRepliesNoCandidates(order: seq<(string, nat)>, search: SearchApi, minStars: int, maxPerTopic: int)
    requires forall t :: ReplyItems(TopicReply(search, t, minStars, maxPerTopic)) == []
    ensures Candidates(order, search, minStars, maxPerTopic) == []
  {
    if order != [] {
      NoRepliesNoCandidates(order[..|order| - 1], search, minStars, maxPerTopic);
    }
  }

  /** No topics, no rows: a sheet whose `all_tags` cells hold no topic
      gives an empty result. */
  lemma {:induction false} NoTopicsNoRows(rows: seq<SyncRow>, ignored: set<string>, search: SearchApi, minStars: int, maxPerTopic: int)
    requires rows != [] && SheetTopics(rows) == []
    ensures GenerateRecommendations(rows, ignored, search, minStars, maxPerTopic) == Ok([])
  {
    Counting.CounterEmpty(SheetTopics(rows));
  }

  /** `r` is the row of the last accepted result for some id. */
  ghost predicate FromLast(cands: seq<SearchHit>, starred: set<string>, ignored: set<string>, r: RecRow) {
    exists k :: 0 <= k < |cands| && LastFor(cands, starred, ignored, cands[k].id, k) && r == RecOf(cands[k])
  }

  /** The row of the last accepted result with id `id` is among `recs`. */
  ghost predicate LastListed(cands: seq<SearchHit>, starred: set<string>, ignored: set<string>, id: int, recs: seq<RecRow>) {
    exists j :: LastFor(cands, starred, ignored, id, j) && RecOf(cands[j]) in recs
  }

  /** The ranked rows of the dict built from `cands`: each is the row of
      the last accepted result for some id, and every accepted result's id
      contributes the row of its last accepted result. */
  lemma {:induction false} RankedCollect(cands: seq<SearchHit>, starred: set<string>, ignored: set<string>)
    ensures var recs := RankByStars(Collect(cands, starred, ignored));
      && (forall i :: 0 <= i < |recs| ==> FromLast(cands, starred, ignored, recs[i]))
      && (forall k :: 0 <= k < |cands| && Accepted(cands[k], starred, ignored) ==>
            LastListed(cands, starred, ignored, cands[k].id, recs))
  {
    var d := Collect(cands, starred, ignored);
    forall id ensures IdOk(d, cands, starred, ignored, id) {
      CollectLastWins(cands, starred, ignored, id);
    }
    RankedDict(d, cands, starred, ignored);
  }

  lemma {:induction false} RankedDict(d: Recs, cands: seq<SearchHit>, starred: set<string>, ignored: set<string>)
    requires Valid(d) && KeysHaveValues(d)
    requires forall id :: IdOk(d, cands, starred, ignored, id)
    ensures var recs := RankByStars(d);
      && (forall i :: 0 <= i < |recs| ==> FromLast(cands, starred, ignored, recs[i]))
      && (forall k :: 0 <= k < |cands| && Accepted(cands[k], starred, ignored) ==>
            LastListed(cands, starred, ignored, cands[k].id, recs))
  {
    var recs := RankByStars(d);
    PermutedValues(d, recs);
    forall i | 0 <= i < |recs| ensures FromLast(cands, starred, ignored, recs[i]) {
      var id :| id in d.values && recs[i] == d.values[id];
      assert IdOk(d, cands, starred, ignored, id);
    }
    forall k | 0 <= k < |cands| && Accepted(cands[k], starred, ignored)
      ensures LastListed(cands, starred, ignored, cands[k].id, recs)
    {
      assert IdOk(d, cands, starred, ignored, cands[k].id);
    }
  }

  /** The rows: each is the row of the last accepted result for some id,
      so no row names a starred or ignored repository; and every accepted
      result's id contributes the row of its last accepted result. */
  lemma {:induction false} RecommendedRows(rows: seq<SyncRow>, ignored: set<string>, search: SearchApi, minStars: int, maxPerTopic: int)
    requires GenerateRecommendations(rows, ignored, search, minStars, maxPerTopic).Ok?
    ensures var recs := GenerateRecommendations(rows, ignored, search, minStars, maxPerTopic).value;
      var cands := CandidatesOf(rows, search, minStars, maxPerTopic);
      && (forall i :: 0 <= i < |recs| ==>
            && recs[i].name !in SyncedNames(rows) && recs[i].name !in ignored
            && FromLast(cands, SyncedNames(rows), ignored, recs[i]))
      && (forall k :: 0 <= k < |cands| && Accepted(cands[k], SyncedNames(rows), ignored) ==>
            LastListed(cands, SyncedNames(rows), ignored, cands[k].id, recs))
  {
    var recs := GenerateRecommendations(rows, ignored, search, minStars, maxPerTopic).value;
    var cands := CandidatesOf(rows, search, minStars, maxPerTopic);
    var starred := SyncedNames(rows);
    if SheetTopics(rows) != [] {
      GenerateIsRanked(rows, ignored, search, minStars, maxPerTopic);
      RankedCollect(cands, starred, ignored);
      forall i | 0 <= i < |recs| ensures recs[i].name !in starred && recs[i].name !in ignored {
        assert FromLast(cands, starred, ignored, recs[i]);
      }
    } else {
      NoTopicsNoRows(rows, ignored, search, minStars, maxPerTopic);
    }
  }

  lemma {:induction false} GenerateIsRanked(rows: seq<SyncRow>, ignored: set<string>, search: SearchApi, minStars: int, maxPerTopic: int)
    requires rows != [] && SheetTopics(rows) != []
    ensures GenerateRecommendations(rows, ignored, search, minStars, maxPerTopic)
      == Ok(RankByStars(Collect(CandidatesOf(rows, search, minStars, maxPerTopic), SyncedNames(rows), ignored)))
  {
    Counting.CounterEmpty(SheetTopics(rows));
  }

  /** Each topic contributes at most a page of results when every reply
      honours the page size. */
  lemma {:induction false} CandidatesBound(order: seq<(string, nat)>, search: SearchApi, minStars: int, maxPerTopic: int)
    requires forall t :: |ReplyItems(TopicReply(search, t, minStars, maxPerTopic))| <= PageSize(maxPerTopic)
    ensures |Candidates(order, search, minStars, maxPerTopic)| <= |order| * PageSize(maxPerTopic)
  {
    if order != [] {
      var p, ps := order[..|order| - 1], PageSize(maxPerTopic);
      CandidatesBound(p, search, minStars, maxPerTopic);
      var last := |ReplyItems(TopicReply(search, order[|order| - 1].0, minStars, maxPerTopic))|;
      assert last <= ps;
      AddBound(|Candidates(p, search, minStars, maxPerTopic)|, last, |p|, ps);
    }
  }

  /** One more topic adds at most one page to the bound. */
  lemma {:induction false} AddBound(a: int, b: int, n: nat, ps: int)
    requires a <= n * ps && b <= ps
    ensures a + b <= (n + 1) * ps
  {
  }

  /** At most `min(max_per_topic, 100)` rows per distinct topic, when every
      reply honours the page size. */
  lemma {:induction false} RowsBound(rows: seq<SyncRow>, ignored: set<string>, search: SearchApi, minStars: int, maxPerTopic: int)
    requires forall t :: |ReplyItems(TopicReply(search, t, minStars, maxPerTopic))| <= PageSize(maxPerTopic)
    requires GenerateRecommendations(rows, ignored, search, minStars, maxPerTopic).Ok?
    ensures |GenerateRecommendations(rows, ignored, search, minStars, maxPerTopic).value|
      <= |Counting.CounterOf(SheetTopics(rows)).keys| * PageSize(maxPerTopic)
  {
    var c := Counting.CounterOf(SheetTopics(rows));
    CandidatesBound(Counting.MostCommon(c), search, minStars, maxPerTopic);
    if c.keys == [] {
      assert PageSize(maxPerTopic) >= 0 by {
        assert |ReplyItems(TopicReply(search, "", minStars, maxPerTopic))| <= PageSize(maxPerTopic);
      }
    }
  }

  /** The tags of the rows, row after row. */
  function AllTagsOf(rows: seq<SyncRow>): seq<string> {
    if rows == [] then [] else AllTagsOf(rows[..|rows| - 1]) + rows[|rows| - 1].allTags
  }

  /** When every tag the rows were written with is a clean topic, reading
      the `all_tags` cells back gives exactly those tags. */
  lemma {:induction false} SheetTopicsAreTags(rows: seq<SyncRow>)
    requires forall i, j :: 0 <= i < |rows| && 0 <= j < |rows[i].allTags| ==> CleanTopic(rows[i].allTags[j])
    ensures SheetTopics(rows) == AllTagsOf(rows)
  {
    if rows != [] {
      SheetTopicsAreTags(rows[..|rows| - 1]);
      TopicsRoundTrip(rows[|rows| - 1].allTags);
    }
  }
}
