/** The GitHub REST API as the scripts see it: the records they read out of
    JSON responses, and the small pure interpretations every script repeats
    (the release label, the topic list, the owner/repo split).

    HTTP requests are replaced by data: a response is a value, and an
    endpoint keyed by owner and repository is a total function. */
module GitHubApi {
  import opened Results
  import opened Text

  /** One element of the starred-repositories listing: the fields the
      scripts read.  `Field` members are the ones read with `.get(key,
      default)`, which tells a missing key from a JSON `null`. */
  datatype StarredRepo = StarredRepo(
    fullName: string,
    description: Field<string>,
    stars: int,
    forks: int,
    language: Field<string>,
    htmlUrl: string,
    createdAt: string,
    updatedAt: string,
    pushedAt: Field<string>,
    openIssues: Field<int>,
    archived: Field<bool>,
    fork: Field<bool>)

  /** The latest-release endpoint's answer; `publishedAt` is None when the
      body has no `published_at`. */
  datatype ReleaseResponse = ReleaseResponse(status: int, publishedAt: Option<string>)

  /** The topics endpoint's answer; `names` is None when the body has no `names`. */
  datatype TopicsResponse = TopicsResponse(status: int, names: Option<seq<string>>)

  /** The two per-repository endpoints, addressed by (owner, repo) as the URLs are. */
  datatype RepoEndpoints = RepoEndpoints(
    release: (string, string) -> ReleaseResponse,
    topics: (string, string) -> TopicsResponse)

  const NoReleases: string := "No releases"
  const ErrorPrefix: string := "Error: "

  /** `get_last_release_date`: the release timestamp on 200 (None when the
      body lacks it), "No releases" on 404, "Error: <status>" otherwise. */
  function LastRelease(r: ReleaseResponse): (v: Option<string>)
    ensures r.status != 200 ==> v.Some?
    ensures r.status == 200 ==> v == r.publishedAt
  {
    if r.status == 200 then r.publishedAt
    else if r.status == 404 then Some(NoReleases)
    else Some(ErrorPrefix + IntToDecimal(r.status))
  }

  /** Reads an "Error: <status>" label back; None for any other text. */
  function StatusOfLabel(text: string): Option<int> {
    if |text| <= |ErrorPrefix| || text[..|ErrorPrefix|] != ErrorPrefix then None
    else
      var d := text[|ErrorPrefix|..];
      if IsDigits(d) then Some(DigitsValue(d))
      else if d[0] == '-' && |d| > 1 && IsDigits(d[1..]) then Some(0 - DigitsValue(d[1..]))
      else None
  }

  /** The label of a failed release request records its status exactly, and
      is never mistaken for the "No releases" sentinel. */
  lemma {:induction false} ReleaseLabelRoundTrip(r: ReleaseResponse)
    requires r.status != 200
    ensures r.status == 404 <==> LastRelease(r) == Some(NoReleases)
    ensures r.status != 404 ==> StatusOfLabel(LastRelease(r).value) == Some(r.status)
    ensures StatusOfLabel(NoReleases) == None
  {
    assert NoReleases[..|ErrorPrefix|] != ErrorPrefix by {
      assert NoReleases[0] != ErrorPrefix[0];
    }
    if r.status != 404 {
      var shown := ErrorPrefix + IntToDecimal(r.status);
      assert shown[..|ErrorPrefix|] == ErrorPrefix;
      assert shown[|ErrorPrefix|..] == IntToDecimal(r.status);
      assert shown != NoReleases by {
        assert shown[0] != NoReleases[0];
      }
      if r.status < 0 {
        assert !IsDigits(IntToDecimal(r.status)) by {
          assert !IsDigit(IntToDecimal(r.status)[0]);
        }
      }
    }
  }

  /** Two failed release requests get the same label only for the same status. */
  lemma {:induction false} ReleaseLabelDeterminesStatus(a: ReleaseResponse, b: ReleaseResponse)
    requires a.status != 200 && b.status != 200
    requires LastRelease(a) == LastRelease(b)
    ensures a.status == b.status
  {
    ReleaseLabelRoundTrip(a);
    ReleaseLabelRoundTrip(b);
  }

  /** `get_repo_topics`: the `names` list (default []) on 200, [] on any other status. */
  function RepoTopics(r: TopicsResponse): (t: seq<string>)
    ensures r.status != 200 ==> t == []
    ensures r.status == 200 ==> t == r.names.GetOr([])
  {
    if r.status == 200 then r.names.GetOr([]) else []
  }

  /** `owner, repo_name = full_name.split('/')`: unpacking fails (the
      script aborts) unless the split has exactly two pieces. */
  function SplitFullName(fullName: string): (r: Option<(string, string)>)
    ensures r.Some? ==> '/' !in r.value.0 && '/' !in r.value.1
  {
    var parts := Split(fullName, '/');
    if |parts| == 2 then Some((parts[0], parts[1])) else None
  }

  /** A name that unpacks is the owner and the repository joined by '/'. */
  lemma {:induction false} SplitFullNameJoins(fullName: string)
    requires SplitFullName(fullName).Some?
    ensures var (owner, repo) := SplitFullName(fullName).value;
      fullName == owner + "/" + repo
  {
    JoinSplit(fullName, '/');
    var parts := Split(fullName, '/');
    assert Join(parts, "/") == parts[0] + "/" + Join(parts[1..], "/");
  }

  /** Conversely, "owner/repo" with no other '/' unpacks into owner and repo. */
  lemma {:induction false} SplitFullNameOfJoin(owner: string, repo: string)
    requires '/' !in owner && '/' !in repo
    ensures SplitFullName(owner + "/" + repo) == Some((owner, repo))
  {
    SplitJoin([owner, repo], '/');
    assert Join([owner, repo], "/") == owner + "/" + repo;
  }

  /** A name without any '/' cannot be unpacked. */
  lemma {:induction false} SplitFullNameNeedsOneSlash(fullName: string)
    requires '/' !in fullName
    ensures SplitFullName(fullName).None?
  {
    SplitWithoutSeparator(fullName, '/');
  }
}
