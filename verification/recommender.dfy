/** The topic-frequency recommender of `repo_recommender.py`.

    The starred sheet's rows give a Counter of their topics and the set of
    starred names.  Topics are searched in `most_common()` order; every
    hit whose name is not starred is accumulated per repository id: the
    first record seen for the id, the topics that found it, in processing
    order, and the sum of those topics' frequencies.  The accumulators
    become rows ranked by that sum, then by stars, both descending. */
module Recommender {
  import opened Results
  import opened Text
  import Counting
  import Sorting
  import opened Dicts
  import opened Topics
  import opened TopicSearch

  /** `get_recommendations`' defaults, used by `main`. */
  const DefaultMinStars: int := 1000
  const DefaultMaxPerTopic: int := 50

  /** A row of the starred sheet as the recommender reads it; `None` is an
      empty (NaN) cell or a missing column. */
  datatype SheetRow = SheetRow(name: Option<string>, topics: Option<string>)

  /** The topics one row contributes. */
  function RowTopics(row: SheetRow): (r: seq<string>)
    ensures row.topics.None? ==> r == []
    ensures row.topics.Some? ==> r == CellTopics(row.topics.value)
  {
    match row.topics
    case None => []
    case Some(cell) =>
      if Strip(cell) != "" then CellTopics(cell) else []
  }

  /** `all_topics`: the rows' topics, row after row. */
  function AllTopics(rows: seq<SheetRow>): seq<string> {
    if rows == [] then [] else AllTopics(rows[..|rows| - 1]) + RowTopics(rows[|rows| - 1])
  }

  /** How often `t` occurs among the topics of the rows, row by row. */
  function Occurrences(rows: seq<SheetRow>, t: string): nat {
    if rows == [] then 0 else Occurrences(rows[..|rows| - 1], t) + Counting.Count(RowTopics(rows[|rows| - 1]), t)
  }

  lemma {:induction false} CountAllTopics(rows: seq<SheetRow>, t: string)
    ensures Counting.Count(AllTopics(rows), t) == Occurrences(rows, t)
  {
    if rows != [] {
      var p := rows[..|rows| - 1];
      CountAllTopics(p, t);
      Counting.CountConcat(AllTopics(p), RowTopics(rows[|rows| - 1]), t);
    }
  }

  /** `starred_repo_full_names`: the non-empty `name` cells. */
  function StarredNames(rows: seq<SheetRow>): set<string> {
    set i | 0 <= i < |rows| && rows[i].name.Some? :: rows[i].name.value
  }

  /** `extract_topic_frequencies`: every topic occurring in some row is a
      key, counted once per occurrence over all rows, and the keys are in
      the order the topics first occur (which decides the tie order of
      `most_common()`); the starred names are exactly the filled `name`
      cells. */
  function ExtractTopicFrequencies(rows: seq<SheetRow>): (r: (Counting.Counter, set<string>))
    ensures Counting.Valid(r.0)
    ensures Counting.Tallies(r.0, AllTopics(rows))
    ensures forall t :: t in r.0.counts <==> Occurrences(rows, t) > 0
    ensures forall t :: t in r.0.counts ==> r.0.counts[t] == Occurrences(rows, t)
    ensures forall n :: n in r.1 <==> exists i :: 0 <= i < |rows| && rows[i].name == Some(n)
  {
    var c := Counting.CounterOf(AllTopics(rows));
    assert forall t :: Counting.Count(AllTopics(rows), t) == Occurrences(rows, t) by {
      forall t ensures Counting.Count(AllTopics(rows), t) == Occurrences(rows, t) {
        CountAllTopics(rows, t);
      }
    }
    var names := StarredNames(rows);
    assert forall n :: n in names <==> exists i :: 0 <= i < |rows| && rows[i].name == Some(n) by {
      forall n | (exists i :: 0 <= i < |rows| && rows[i].name == Some(n)) ensures n in names {
        var i :| 0 <= i < |rows| && rows[i].name == Some(n);
        assert rows[i].name.value == n;
      }
    }
    (c, names)
  }

  /** One hit of the search loop: the topic it was found for, that topic's
      frequency, and the repository. */
  datatype Hit = Hit(topic: string, frequency: nat, repo: SearchHit)

  /** The hits in processing order: topic after topic, each topic's results in order. */
  function TopicHits(order: seq<(string, nat)>, results: string -> seq<SearchHit>): seq<Hit> {
    if order == [] then []
    else
      var (topic, freq) := order[|order| - 1];
      var found := results(topic);
      TopicHits(order[..|order| - 1], results) + seq(|found|, i requires 0 <= i < |found| => Hit(topic, freq, found[i]))
  }

  /** Each hit's frequency is its topic's count in `counts`. */
  predicate CarryCounts(hits: seq<Hit>, counts: map<string, nat>) {
    forall k :: 0 <= k < |hits| ==> hits[k].topic in counts && hits[k].frequency == counts[hits[k].topic]
  }

  /** Every hit carries its topic's own count when the topics come with
      their counts. */
  lemma {:induction false} TopicHitsCounts(order: seq<(string, nat)>, results: string -> seq<SearchHit>, counts: map<string, nat>)
    requires forall i :: 0 <= i < |order| ==> order[i].0 in counts && order[i].1 == counts[order[i].0]
    ensures CarryCounts(TopicHits(order, results), counts)
  {
    if order != [] {
      var p := order[..|order| - 1];
      TopicHitsCounts(p, results, counts);
      var last := order[|order| - 1];
      assert last.0 in counts && last.1 == counts[last.0];
      var prev, hits := TopicHits(p, results), TopicHits(order, results);
      var found := results(last.0);
      assert hits == prev + seq(|found|, i requires 0 <= i < |found| => Hit(last.0, last.1, found[i]));
      forall k | 0 <= k < |hits| ensures hits[k].topic in counts && hits[k].frequency == counts[hits[k].topic] {
        if k < |prev| {
          assert hits[k] == prev[k];
        } else {
          assert hits[k] == Hit(last.0, last.1, found[k - |prev|]);
        }
      }
    }
  }

  /** An accumulator: the first record, the matched topics, their total frequency. */
  datatype Recommendation = Recommendation(repo: SearchHit, matches: seq<string>, total: int)

  type Recs = Dict<int, Recommendation>

  /** One pass of the inner loop. */
  function Consider(d: Recs, h: Hit, starred: set<string>): Recs {
    if h.repo.fullName in starred then d
    else
      var e := if h.repo.id in d.values then d.values[h.repo.id] else Recommendation(h.repo, [], 0);
      Put(d, h.repo.id, Recommendation(e.repo, e.matches + [h.topic], e.total + h.frequency))
  }

  /** The accumulators after `hits`: one per repository id with a hit that
      is not starred, holding the first such hit's record, the topics of
      all such hits in order and the sum of their frequencies. */
  function Accumulate(hits: seq<Hit>, starred: set<string>): (d: Recs)
    ensures RecsOk(d, hits, starred)
  {
    if hits == [] then Empty()
    else
      var p, h := hits[..|hits| - 1], hits[|hits| - 1];
      var d := Accumulate(p, starred);
      ConsiderOk(d, p, h, starred);
      assert hits == p + [h];
      Consider(d, h, starred)
  }

  /** `get_recommendations`, the topics listed with their frequencies in
      `order` and each topic's search results given by `results`. */
  function GetRecommendations(order: seq<(string, nat)>, starred: set<string>, results: string -> seq<SearchHit>): (d: Recs)
    ensures Valid(d) && KeysHaveValues(d)
  {
    Accumulate(TopicHits(order, results), starred)
  }

  /** The hit counts towards repository `id`. */
  predicate Counts(h: Hit, starred: set<string>, id: int) {
    h.repo.id == id && h.repo.fullName !in starred
  }

  /** The topics of the hits that count towards `id`, in order. */
  function MatchesFor(hits: seq<Hit>, starred: set<string>, id: int): seq<string> {
    if hits == [] then []
    else
      var h := hits[|hits| - 1];
      MatchesFor(hits[..|hits| - 1], starred, id) + (if Counts(h, starred, id) then [h.topic] else [])
  }

  /** The sum of the frequencies of the hits that count towards `id`. */
  function TotalFor(hits: seq<Hit>, starred: set<string>, id: int): int {
    if hits == [] then 0
    else
      var h := hits[|hits| - 1];
      TotalFor(hits[..|hits| - 1], starred, id) + (if Counts(h, starred, id) then h.frequency else 0)
  }

  /** `hits[k]` is the first hit that counts towards `id`. */
  ghost predicate FirstFor(hits: seq<Hit>, starred: set<string>, id: int, k: int) {
    && 0 <= k < |hits|
    && Counts(hits[k], starred, id)
    && forall j :: 0 <= j < k ==> !Counts(hits[j], starred, id)
  }

  /** What the accumulators hold for `id` after the hits `hits`: an
      accumulator exactly when some hit counts towards `id`, and then the
      topics of all such hits in order, the sum of their frequencies, and
      the record of the first of them. */
  ghost predicate EntryOk(d: Recs, hits: seq<Hit>, starred: set<string>, id: int) {
    && (id in d.values <==> exists k :: 0 <= k < |hits| && Counts(hits[k], starred, id))
    && (id in d.values ==>
          && d.values[id].matches == MatchesFor(hits, starred, id)
          && d.values[id].total == TotalFor(hits, starred, id)
          && exists k :: FirstFor(hits, starred, id, k) && d.values[id].repo == hits[k].repo)
  }

  /** A well-formed dict whose every accumulator is as `EntryOk` says. */
  ghost predicate RecsOk(d: Recs, hits: seq<Hit>, starred: set<string>) {
    Valid(d) && forall id :: EntryOk(d, hits, starred, id)
  }

  lemma {:induction false} NothingCounts(hits: seq<Hit>, starred: set<string>, id: int)
    requires forall k :: 0 <= k < |hits| ==> !Counts(hits[k], starred, id)
    ensures MatchesFor(hits, starred, id) == [] && TotalFor(hits, starred, id) == 0
  {
    if hits != [] {
      NothingCounts(hits[..|hits| - 1], starred, id);
    }
  }

  /** One pass of the inner loop keeps the accumulator of `id` right. */
  lemma {:induction false} EntryStep(d: Recs, p: seq<Hit>, h: Hit, starred: set<string>, id: int)
    requires Valid(d) && EntryOk(d, p, starred, id)
    ensures EntryOk(Consider(d, h, starred), p + [h], starred, id)
  {
    if Counts(h, starred, id) {
      EntryStepCounts(d, p, h, starred, id);
    } else {
      EntryStepOther(d, p, h, starred, id);
    }
  }

  /** A hit for `id` extends its accumulator, or opens one with its own record. */
  lemma {:induction false} EntryStepCounts(d: Recs, p: seq<Hit>, h: Hit, starred: set<string>, id: int)
    requires Valid(d) && EntryOk(d, p, starred, id) && Counts(h, starred, id)
    ensures EntryOk(Consider(d, h, starred), p + [h], starred, id)
  {
    var hits := p + [h];
    assert hits[..|hits| - 1] == p;
    assert hits[|p|] == h;
    var e := if id in d.values then d.values[id] else Recommendation(h.repo, [], 0);
    PutFacts(d, id, Recommendation(e.repo, e.matches + [h.topic], e.total + h.frequency));
    if id in d.values {
      var k :| FirstFor(p, starred, id, k) && d.values[id].repo == p[k].repo;
      assert hits[k] == p[k];
      assert FirstFor(hits, starred, id, k);
    } else {
      NothingCounts(p, starred, id);
      assert FirstFor(hits, starred, id, |p|);
    }
  }

  /** A hit that does not count towards `id` leaves its accumulator alone. */
  lemma {:induction false} EntryStepOther(d: Recs, p: seq<Hit>, h: Hit, starred: set<string>, id: int)
    requires Valid(d) && EntryOk(d, p, starred, id) && !Counts(h, starred, id)
    ensures EntryOk(Consider(d, h, starred), p + [h], starred, id)
  {
    var hits, c := p + [h], Consider(d, h, starred);
    assert hits[..|hits| - 1] == p;
    assert hits[|p|] == h;
    assert (id in c.values <==> id in d.values) && (id in d.values ==> c.values[id] == d.values[id]) by {
      if h.repo.fullName !in starred {
        var e := if h.repo.id in d.values then d.values[h.repo.id] else Recommendation(h.repo, [], 0);
        PutFacts(d, h.repo.id, Recommendation(e.repo, e.matches + [h.topic], e.total + h.frequency));
      }
    }
    if id in d.values {
      var k :| FirstFor(p, starred, id, k) && d.values[id].repo == p[k].repo;
      assert hits[k] == p[k];
      assert FirstFor(hits, starred, id, k);
    }
    if exists k :: 0 <= k < |hits| && Counts(hits[k], starred, id) {
      var k :| 0 <= k < |hits| && Counts(hits[k], starred, id);
      assert hits[k] == p[k];
    }
  }

  lemma {:induction false} ConsiderOk(d: Recs, p: seq<Hit>, h: Hit, starred: set<string>)
    requires RecsOk(d, p, starred)
    ensures RecsOk(Consider(d, h, starred), p + [h], starred)
  {
    forall id ensures EntryOk(Consider(d, h, starred), p + [h], starred, id) {
      EntryStep(d, p, h, starred, id);
    }
    if h.repo.fullName !in starred {
      var e := if h.repo.id in d.values then d.values[h.repo.id] else Recommendation(h.repo, [], 0);
      PutFacts(d, h.repo.id, Recommendation(e.repo, e.matches + [h.topic], e.total + h.frequency));
    }
  }

  /** The accumulators: one per repository id with a hit that is not
      starred; each holds the first such hit's record, the topics of all
      such hits in processing order and the sum of their frequencies
      (`RecsOk`); no accumulated record is a starred repository, and each
      sits under its own id. */
  lemma {:induction false} Recommendations(order: seq<(string, nat)>, starred: set<string>, results: string -> seq<SearchHit>)
    ensures var hits, d := TopicHits(order, results), GetRecommendations(order, starred, results);
      && RecsOk(d, hits, starred)
      && (forall id :: id in d.values ==> d.values[id].repo.fullName !in starred && d.values[id].repo.id == id)
  {
    var hits := TopicHits(order, results);
    var d := Accumulate(hits, starred);
    forall id | id in d.values ensures d.values[id].repo.fullName !in starred && d.values[id].repo.id == id {
      assert EntryOk(d, hits, starred, id);
      var k :| FirstFor(hits, starred, id, k) && d.values[id].repo == hits[k].repo;
    }
  }

  /** The sum of the counts of the listed topics. */
  function Score(counts: map<string, nat>, topics: seq<string>): int {
    if topics == [] then 0
    else
      var t := topics[|topics| - 1];
      Score(counts, topics[..|topics| - 1]) + (if t in counts then counts[t] else 0)
  }

  lemma {:induction false} TotalIsScore(hits: seq<Hit>, starred: set<string>, id: int, counts: map<string, nat>)
    requires CarryCounts(hits, counts)
    ensures TotalFor(hits, starred, id) == Score(counts, MatchesFor(hits, starred, id))
  {
    if hits != [] {
      var p, h := hits[..|hits| - 1], hits[|hits| - 1];
      var m := MatchesFor(p, starred, id);
      assert CarryCounts(p, counts) by {
        forall k | 0 <= k < |p| ensures p[k].topic in counts && p[k].frequency == counts[p[k].topic] {
          assert p[k] == hits[k];
        }
      }
      TotalIsScore(p, starred, id, counts);
      if Counts(h, starred, id) {
        var m' := m + [h.topic];
        assert m'[..|m'| - 1] == m && m'[|m'| - 1] == h.topic;
        assert Score(counts, m') == Score(counts, m) + counts[h.topic];
      } else {
        assert m + [] == m;
      }
    }
  }

  /** With the topics in `most_common()` order, an accumulator's total is
      the sum of the Counter's counts of its matched topics. */
  lemma {:induction false} TotalIsCounterScore(c: Counting.Counter, starred: set<string>, results: string -> seq<SearchHit>, id: int)
    requires Counting.Valid(c)
    ensures var d := GetRecommendations(Counting.MostCommon(c), starred, results);
      id in d.values ==> d.values[id].total == Score(c.counts, d.values[id].matches)
  {
    var order := Counting.MostCommon(c);
    var hits := TopicHits(order, results);
    Counting.MostCommonCounts(c);
    TopicHitsCounts(order, results, c.counts);
    assert EntryOk(Accumulate(hits, starred), hits, starred, id);
    TotalIsScore(hits, starred, id, c.counts);
  }

  /** Two topics of frequency 5 and 3 that both find the same unstarred
      repository give it a score of 8 from 2 matches. */
  lemma {:induction false} TwoTopicsExample(x: SearchHit, starred: set<string>)
    requires x.fullName !in starred
    ensures var d := GetRecommendations([("a", 5), ("b", 3)], starred, t => [x]);
      && d.keys == [x.id]
      && d.values[x.id] == Recommendation(x, ["a", "b"], 8)
  {
    var results := (t: string) => [x];
    ExampleHits(x, results);
    ExampleAccumulate(x, starred);
  }

  lemma {:induction false} ExampleHits(x: SearchHit, results: string -> seq<SearchHit>)
    requires forall t :: results(t) == [x]
    ensures TopicHits([("a", 5), ("b", 3)], results) == [Hit("a", 5, x), Hit("b", 3, x)]
  {
    var order: seq<(string, nat)> := [("a", 5), ("b", 3)];
    assert order[..1][..0] == [];
    assert TopicHits(order[..1], results) == [Hit("a", 5, x)];
  }

  lemma {:induction false} ExampleAccumulate(x: SearchHit, starred: set<string>)
    requires x.fullName !in starred
    ensures var d := Accumulate([Hit("a", 5, x), Hit("b", 3, x)], starred);
      d.keys == [x.id] && d.values[x.id] == Recommendation(x, ["a", "b"], 8)
  {
    var hits := [Hit("a", 5, x), Hit("b", 3, x)];
    assert hits[..1] == [Hit("a", 5, x)];
    assert hits[..1][..0] == [];
    var d0: Recs := Empty();
    assert Accumulate(hits[..1][..0], starred) == d0;
    var d1 := Accumulate(hits[..1], starred);
    assert d1 == Consider(d0, Hit("a", 5, x), starred);
    assert [] + ["a"] == ["a"] && d0.keys + [x.id] == [x.id];
    assert d1 == Dict([x.id], map[x.id := Recommendation(x, ["a"], 5)]);
    assert Accumulate(hits, starred) == Consider(d1, Hit("b", 3, x), starred);
  }

  /** One output row of `format_recommendations`. */
  datatype RankedRow = RankedRow(
    name: string,
    description: Option<string>,
    stars: int,
    forks: int,
    language: Option<string>,
    url: string,
    topics: string,
    matchedTopics: string,
    score: int,
    numMatches: nat)

  /** The row of one accumulator.  `description` and `language` fall back
      to their defaults only when the key is absent; a JSON `null` stays
      empty.  The `matched_topics` cell of clean topics reads back as the
      matches, and `num_topic_matches` is their number. */
  function FormatRow(e: Recommendation): (r: RankedRow)
    ensures r.name == e.repo.fullName && r.score == e.total
    ensures r.stars == e.repo.stars && r.forks == e.repo.forks && r.url == e.repo.htmlUrl
    ensures r.topics == Cell(e.repo.topics.GetOr([]))
    ensures r.description == e.repo.description.Get("") && r.language == e.repo.language.Get("Unknown")
    ensures r.numMatches == |e.matches|
    ensures (forall i :: 0 <= i < |e.matches| ==> CleanTopic(e.matches[i])) ==> CellTopics(r.matchedTopics) == e.matches
  {
    assert (forall i :: 0 <= i < |e.matches| ==> CleanTopic(e.matches[i])) ==> CellTopics(Cell(e.matches)) == e.matches by {
      if forall i :: 0 <= i < |e.matches| ==> CleanTopic(e.matches[i]) {
        TopicsRoundTrip(e.matches);
      }
    }
    RankedRow(
      e.repo.fullName,
      e.repo.description.Get(""),
      e.repo.stars,
      e.repo.forks,
      e.repo.language.Get("Unknown"),
      e.repo.htmlUrl,
      Cell(e.repo.topics.GetOr([])),
      Cell(e.matches),
      e.total,
      |e.matches|)
  }

  /** The rows in accumulator order, before ranking. */
  function FormattedRows(d: Recs): (r: seq<RankedRow>)
    requires KeysHaveValues(d)
    ensures |r| == |d.keys| && forall i :: 0 <= i < |r| ==> r[i] == FormatRow(d.values[d.keys[i]])
  {
    seq(|d.keys|, i requires 0 <= i < |d.keys| => FormatRow(d.values[d.keys[i]]))
  }

  /** `sort_values(['topic_frequency_score', 'stars'], ascending=[False, False])`:
      a higher score first, and for equal scores more stars first. */
  predicate RanksBefore(a: RankedRow, b: RankedRow) {
    a.score > b.score || (a.score == b.score && a.stars > b.stars)
  }

  lemma {:induction false} RanksBeforeIsStrictWeakOrder()
    ensures Sorting.StrictWeakOrder(RanksBefore)
  {
  }

  /** `format_recommendations`: the accumulators' rows, ranked.  The sort
      order among rows with equal score and stars is not part of the
      contract. */
  function FormatRecommendations(d: Recs): (rows: seq<RankedRow>)
    requires KeysHaveValues(d)
    ensures Sorting.Sorted(rows, RanksBefore)
    ensures multiset(rows) == multiset(FormattedRows(d))
    ensures |rows| == |d.keys|
  {
    RanksBeforeIsStrictWeakOrder();
    var raw := FormattedRows(d);
    Sorting.SortSorted(raw, RanksBefore);
    var rows := Sorting.Sort(raw, RanksBefore);
    assert |rows| == |multiset(rows)| == |multiset(raw)| == |raw|;
    rows
  }

  /** One ranked row per accumulator: each row is some accumulator's row,
      and every accumulator has its row. */
  lemma {:induction false} FormatOneRowPerEntry(d: Recs)
    requires Valid(d)
    ensures var rows := FormatRecommendations(d);
      && |rows| == |d.keys|
      && (forall i :: 0 <= i < |rows| ==> exists id :: id in d.values && rows[i] == FormatRow(d.values[id]))
      && (forall id :: id in d.values ==> FormatRow(d.values[id]) in rows)
  {
    PermutedImages(d, FormatRow, FormattedRows(d), FormatRecommendations(d));
  }

  /** How a run of `main` ends. */
  datatype Outcome = NoStarredRows | NoTopics | NoRecommendations | Ranked(rows: seq<RankedRow>)

  /** The results `main` feeds the recommender: each topic searched with
      the default limits. */
  function DefaultResults(search: SearchApi): string -> seq<SearchHit> {
    t => SearchResults(search, t, DefaultMinStars, DefaultMaxPerTopic)
  }

  /** The hits `main` accumulates: the Counter's topics in `most_common()`
      order, each searched with the default limits. */
  function RunHits(counter: Counting.Counter, search: SearchApi): seq<Hit>
    requires Counting.Valid(counter)
  {
    TopicHits(Counting.MostCommon(counter), DefaultResults(search))
  }

  /** Some search result is not a starred repository. */
  predicate AnyUnstarred(hits: seq<Hit>, starred: set<string>) {
    exists k :: 0 <= k < |hits| && hits[k].repo.fullName !in starred
  }

  /** `row` is the row of the accumulator that `hits[j]`, the first hit
      counting towards its repository id, opened: that hit's record, the
      topics of every hit counting towards the id, and their summed
      frequency. */
  ghost predicate RowOfFirstHit(hits: seq<Hit>, starred: set<string>, j: int, row: RankedRow) {
    && 0 <= j < |hits|
    && FirstFor(hits, starred, hits[j].repo.id, j)
    && row == FormatRow(Recommendation(hits[j].repo, MatchesFor(hits, starred, hits[j].repo.id), TotalFor(hits, starred, hits[j].repo.id)))
  }

  /** The search and ranking stage of `main`, once the Counter has topics:
      the run stops at "No recommendations found." exactly when every
      search result is already starred; otherwise the rows come ranked by
      score, then stars (`RankedRows` says which rows they are). */
  function RankStage(counter: Counting.Counter, starred: set<string>, search: SearchApi): (o: Outcome)
    requires Counting.Valid(counter)
    ensures o.NoRecommendations? || o.Ranked?
    ensures o.NoRecommendations? <==> !AnyUnstarred(RunHits(counter, search), starred)
    ensures o.Ranked? ==> o.rows != [] && Sorting.Sorted(o.rows, RanksBefore)
  {
    var order := Counting.MostCommon(counter);
    var d := GetRecommendations(order, starred, DefaultResults(search));
    Recommendations(order, starred, DefaultResults(search));
    NoEntryIffAllStarred(d, RunHits(counter, search), starred);
    if d.keys == [] then NoRecommendations else Ranked(FormatRecommendations(d))
  }

  /** The dict is empty exactly when no hit escapes the starred names. */
  lemma {:induction false} NoEntryIffAllStarred(d: Recs, hits: seq<Hit>, starred: set<string>)
    requires RecsOk(d, hits, starred)
    ensures d.keys == [] <==> !AnyUnstarred(hits, starred)
  {
    if d.keys != [] {
      assert EntryOk(d, hits, starred, d.keys[0]);
    }
    if AnyUnstarred(hits, starred) {
      var k :| 0 <= k < |hits| && hits[k].repo.fullName !in starred;
      assert EntryOk(d, hits, starred, hits[k].repo.id);
      assert hits[k].repo.id in d.keys;
    }
  }

  /** Every search result that is not starred has its repository's row
      among `rows`. */
  ghost predicate HitsCovered(rows: seq<RankedRow>, hits: seq<Hit>, starred: set<string>) {
    forall k :: 0 <= k < |hits| && hits[k].repo.fullName !in starred ==> HasRowFor(rows, hits, starred, hits[k].repo.id)
  }

  /** Some row is the one opened by the first unstarred hit for `id`. */
  ghost predicate HasRowFor(rows: seq<RankedRow>, hits: seq<Hit>, starred: set<string>, id: int) {
    exists j, i :: 0 <= i < |rows| && RowOfFirstHit(hits, starred, j, rows[i]) && hits[j].repo.id == id
  }

  /** Every row is the row opened by the first unstarred hit for its id. */
  ghost predicate RowsFromFirstHits(rows: seq<RankedRow>, hits: seq<Hit>, starred: set<string>) {
    forall i :: 0 <= i < |rows| ==> FromFirstHit(hits, starred, rows[i])
  }

  /** `row` is the row opened by some first unstarred hit. */
  ghost predicate FromFirstHit(hits: seq<Hit>, starred: set<string>, row: RankedRow) {
    exists j :: RowOfFirstHit(hits, starred, j, row)
  }

  /** What a ranking holds: every search result that is not starred has
      its repository's row among the ranked rows, and every ranked row is
      the row opened by the first unstarred hit for its repository id. */
  lemma {:induction false} RankedRows(counter: Counting.Counter, starred: set<string>, search: SearchApi)
    requires Counting.Valid(counter)
    ensures var hits, o := RunHits(counter, search), RankStage(counter, starred, search);
      o.Ranked? ==> HitsCovered(o.rows, hits, starred) && RowsFromFirstHits(o.rows, hits, starred)
  {
    var order := Counting.MostCommon(counter);
    var hits, o := RunHits(counter, search), RankStage(counter, starred, search);
    var d := GetRecommendations(order, starred, DefaultResults(search));
    if o.Ranked? {
      Recommendations(order, starred, DefaultResults(search));
      FormatOneRowPerEntry(d);
      assert o.rows == FormatRecommendations(d);
      CoveredByRecs(d, hits, starred, o.rows);
      RowsOfRecs(d, hits, starred, o.rows);
    }
  }

  lemma {:induction false} CoveredByRecs(d: Recs, hits: seq<Hit>, starred: set<string>, rows: seq<RankedRow>)
    requires RecsOk(d, hits, starred)
    requires forall id :: id in d.values ==> FormatRow(d.values[id]) in rows
    ensures HitsCovered(rows, hits, starred)
  {
    forall k | 0 <= k < |hits| && hits[k].repo.fullName !in starred
      ensures HasRowFor(rows, hits, starred, hits[k].repo.id)
    {
      var id := hits[k].repo.id;
      assert EntryOk(d, hits, starred, id);
      var j := EntryRow(d, hits, starred, id);
      var i :| 0 <= i < |rows| && rows[i] == FormatRow(d.values[id]);
    }
  }

  lemma {:induction false} RowsOfRecs(d: Recs, hits: seq<Hit>, starred: set<string>, rows: seq<RankedRow>)
    requires RecsOk(d, hits, starred)
    requires forall i :: 0 <= i < |rows| ==> exists id :: id in d.values && rows[i] == FormatRow(d.values[id])
    ensures RowsFromFirstHits(rows, hits, starred)
  {
    forall i | 0 <= i < |rows| ensures FromFirstHit(hits, starred, rows[i]) {
      RowOfRecs(d, hits, starred, rows[i]);
    }
  }

  lemma {:induction false} RowOfRecs(d: Recs, hits: seq<Hit>, starred: set<string>, row: RankedRow)
    requires RecsOk(d, hits, starred)
    requires exists id :: id in d.values && row == FormatRow(d.values[id])
    ensures FromFirstHit(hits, starred, row)
  {
    var id :| id in d.values && row == FormatRow(d.values[id]);
    assert EntryOk(d, hits, starred, id);
    var j := EntryRow(d, hits, starred, id);
  }

  /** An accumulator's row is the row its first hit opened. */
  lemma {:induction false} EntryRow(d: Recs, hits: seq<Hit>, starred: set<string>, id: int) returns (j: int)
    requires id in d.values && EntryOk(d, hits, starred, id)
    ensures RowOfFirstHit(hits, starred, j, FormatRow(d.values[id])) && hits[j].repo.id == id
  {
    j :| FirstFor(hits, starred, id, j) && d.values[id].repo == hits[j].repo;
    assert d.values[id] == Recommendation(hits[j].repo, MatchesFor(hits, starred, id), TotalFor(hits, starred, id));
  }

  /** `main`: read the sheet, count topics, search each topic with the
      default limits, and rank the accumulators; each empty stage ends the
      run early without an upload.  It stops at "No recommendations
      found." exactly when the sheet has topics and every search result is
      starred. */
  function Run(rows: seq<SheetRow>, search: SearchApi): (o: Outcome)
    ensures o == NoStarredRows <==> rows == []
    ensures o == NoTopics <==> rows != [] && AllTopics(rows) == []
    ensures o.NoRecommendations? <==>
      rows != [] && AllTopics(rows) != [] && !AnyUnstarred(RunHits(ExtractTopicFrequencies(rows).0, search), StarredNames(rows))
    ensures o.Ranked? ==> o.rows != [] && Sorting.Sorted(o.rows, RanksBefore)
  {
    if rows == [] then NoStarredRows
    else
      var found := ExtractTopicFrequencies(rows);
      Counting.CounterEmpty(AllTopics(rows));
      assert found.1 == StarredNames(rows);
      if found.0.keys == [] then NoTopics else RankStage(found.0, found.1, search)
  }

  /** When `main` ranks, every search result that is not starred has its
      repository's row among the ranked rows, and every ranked row is the
      row opened by the first unstarred hit for its id. */
  lemma {:induction false} RunRankedRows(rows: seq<SheetRow>, search: SearchApi)
    ensures var o := Run(rows, search);
      var hits, starred := RunHits(ExtractTopicFrequencies(rows).0, search), StarredNames(rows);
      o.Ranked? ==> HitsCovered(o.rows, hits, starred) && RowsFromFirstHits(o.rows, hits, starred)
  {
    var o := Run(rows, search);
    if o.Ranked? {
      var found := ExtractTopicFrequencies(rows);
      assert found.1 == StarredNames(rows);
      assert o == RankStage(found.0, found.1, search);
      RankedRows(found.0, found.1, search);
    }
  }

  /** No ranked row names a starred repository. */
  lemma {:induction false} RunExcludesStarred(rows: seq<SheetRow>, search: SearchApi)
    ensures var o := Run(rows, search);
      o.Ranked? ==> forall i :: 0 <= i < |o.rows| ==> o.rows[i].name !in StarredNames(rows)
  {
    var o := Run(rows, search);
    if o.Ranked? {
      var hits, starred := RunHits(ExtractTopicFrequencies(rows).0, search), StarredNames(rows);
      RunRankedRows(rows, search);
      forall i | 0 <= i < |o.rows| ensures o.rows[i].name !in starred {
        assert FromFirstHit(hits, starred, o.rows[i]);
        var j :| RowOfFirstHit(hits, starred, j, o.rows[i]);
      }
    }
  }
}
