/** Curated GitHub lists: reading repository names off a list page, and
    turning the lists into a name -> tag-set map.

    Two variants exist.  The unified sync walks its own slug list and treats
    the "ignore" list as an exclusion set instead of a tag; the unified
    starred fetcher walks `TAG_NAMES` and has no exclusion set.  A list page
    is given as data, per slug; HTML parsing is reduced to the blocks'
    name anchors. */
module CuratedLists {
  import opened Results
  import opened Text

  /** The unified sync's lists, in the order it scrapes them. */
  const SyncLists: seq<string> := ["future-ideas", "stack", "nice-to-have", "ignore", "education"]

  /** The slug whose members are excluded rather than tagged. */
  const IgnoreSlug: string := "ignore"

  /** `TAG_NAMES`: the keys of the lists configuration, in order. */
  const TagNames: seq<string> := ["stack", "nice-to-have", "future-ideas"]

  /** The `h3 a` element of a repository block; `href` is None when the
      anchor has no such attribute. */
  datatype Anchor = Anchor(href: Option<string>)

  /** One `div.border-bottom` block of the list; `name` is None when the
      block has no `h3 a` anchor. */
  datatype Block = Block(name: Option<Anchor>)

  /** A list page request: it raised, or it answered with a status and,
      when parsed, the repository blocks. */
  datatype ListPage = ListRaised | ListPage(status: int, blocks: seq<Block>)

  /** Block i has a name anchor without an `href`. */
  predicate HrefMissing(blocks: seq<Block>, i: int) {
    0 <= i < |blocks| && blocks[i].name.Some? && blocks[i].name.value.href.None?
  }

  /** Block i has a name anchor whose `href`, stripped of '/', is `n`. */
  predicate Links(blocks: seq<Block>, i: int, n: string) {
    0 <= i < |blocks| && blocks[i].name.Some? && blocks[i].name.value.href.Some?
    && n == StripSlashes(blocks[i].name.value.href.value)
  }

  /** The names of the anchored blocks, hrefs stripped of '/' at both ends,
      in block order; None exactly when an anchor lacks its href (the
      lookup raises `KeyError`). */
  function AnchoredNames(blocks: seq<Block>): (r: Option<seq<string>>)
    ensures NamesOf(blocks, r)
  {
    if blocks == [] then Some([])
    else
      var rest := AnchoredNames(blocks[1..]);
      AnchoredStep(blocks, rest);
      WithBlock(blocks[0], rest)
  }

  /** What `AnchoredNames` answers for `blocks`: None exactly when some
      anchor lacks its href; otherwise at most one name per block, the
      names being exactly the blocks' stripped hrefs, none with '/' at
      either end. */
  ghost predicate NamesOf(blocks: seq<Block>, r: Option<seq<string>>) {
    && (r.None? <==> exists i :: HrefMissing(blocks, i))
    && NamesAreLinks(blocks, r)
    && (r.Some? ==> |r.value| <= |blocks|)
    && (r.Some? ==> forall n :: n in r.value ==> IsTrimmed(n, IsSlash))
  }

  ghost predicate NamesAreLinks(blocks: seq<Block>, r: Option<seq<string>>) {
    r.Some? ==> forall n :: n in r.value <==> exists i :: Links(blocks, i, n)
  }

  /** One block in front of the names of the blocks after it. */
  function WithBlock(b: Block, rest: Option<seq<string>>): Option<seq<string>> {
    match b.name
    case None => rest
    case Some(a) =>
      if a.href.None? || rest.None? then None
      else Some([StripSlashes(a.href.value)] + rest.value)
  }

  lemma {:induction false} AnchoredStep(blocks: seq<Block>, rest: Option<seq<string>>)
    requires blocks != [] && NamesOf(blocks[1..], rest)
    ensures NamesOf(blocks, WithBlock(blocks[0], rest))
  {
    MissingCons(blocks);
    LinksStep(blocks, rest);
  }

  lemma {:induction false} LinksStep(blocks: seq<Block>, rest: Option<seq<string>>)
    requires blocks != [] && NamesAreLinks(blocks[1..], rest)
    ensures NamesAreLinks(blocks, WithBlock(blocks[0], rest))
  {
    var r := WithBlock(blocks[0], rest);
    if r.Some? {
      forall n ensures n in r.value <==> exists i :: Links(blocks, i, n) {
        LinkStep(blocks, rest, n);
      }
    }
  }

  /** `LinksStep` for one name. */
  lemma {:induction false} LinkStep(blocks: seq<Block>, rest: Option<seq<string>>, n: string)
    requires blocks != [] && rest.Some? && WithBlock(blocks[0], rest).Some?
    requires n in rest.value <==> exists i :: Links(blocks[1..], i, n)
    ensures n in WithBlock(blocks[0], rest).value <==> exists i :: Links(blocks, i, n)
  {
    LinksCons(blocks, n);
    WithBlockHas(blocks, rest, n);
  }

  /** The one block in front adds its own link, if any. */
  lemma {:induction false} WithBlockHas(blocks: seq<Block>, rest: Option<seq<string>>, n: string)
    requires blocks != [] && rest.Some? && WithBlock(blocks[0], rest).Some?
    ensures n in WithBlock(blocks[0], rest).value <==> Links(blocks, 0, n) || n in rest.value
  {
    var r := WithBlock(blocks[0], rest).value;
    if blocks[0].name.None? {
      assert r == rest.value && !Links(blocks, 0, n);
    } else {
      var h := StripSlashes(blocks[0].name.value.href.value);
      assert r == [h] + rest.value;
      assert Links(blocks, 0, n) <==> n == h;
    }
  }

  /** A missing href is in the first block or among the rest. */
  lemma {:induction false} MissingCons(blocks: seq<Block>)
    requires blocks != []
    ensures (exists i :: HrefMissing(blocks, i)) <==> HrefMissing(blocks, 0) || exists i :: HrefMissing(blocks[1..], i)
  {
    if exists i :: HrefMissing(blocks[1..], i) {
      var i :| HrefMissing(blocks[1..], i);
      assert blocks[1..][i] == blocks[i + 1];
      assert HrefMissing(blocks, i + 1);
    }
    if exists i :: HrefMissing(blocks, i) {
      var i :| HrefMissing(blocks, i);
      if i > 0 {
        assert blocks[1..][i - 1] == blocks[i];
        assert HrefMissing(blocks[1..], i - 1);
      }
    }
  }

  /** A link is the first block's or one of the rest's. */
  lemma {:induction false} LinksCons(blocks: seq<Block>, n: string)
    requires blocks != []
    ensures (exists i :: Links(blocks, i, n)) <==> Links(blocks, 0, n) || exists i :: Links(blocks[1..], i, n)
  {
    if exists i :: Links(blocks[1..], i, n) {
      var i :| Links(blocks[1..], i, n);
      assert blocks[1..][i] == blocks[i + 1];
      assert Links(blocks, i + 1, n);
    }
    if exists i :: Links(blocks, i, n) {
      var i :| Links(blocks, i, n);
      if i > 0 {
        assert blocks[1..][i - 1] == blocks[i];
        assert Links(blocks[1..], i - 1, n);
      }
    }
  }

  /** `scrape_github_list` (the names-only variant of both the unified sync
      and the unified fetcher): [] when the request raises or answers other
      than 200, and [] when any name anchor lacks its href, since the
      exception is caught for the whole page. */
  function ScrapeListNames(page: ListPage): (names: seq<string>)
    ensures page.ListRaised? || page.status != 200 ==> names == []
    ensures page.ListPage? ==> |names| <= |page.blocks|
    ensures page.ListPage? && (exists i :: HrefMissing(page.blocks, i)) ==> names == []
    ensures page.ListPage? && page.status == 200 && !(exists i :: HrefMissing(page.blocks, i)) ==>
      forall n :: n in names <==> exists i :: Links(page.blocks, i, n)
    ensures forall n :: n in names ==> IsTrimmed(n, IsSlash)
  {
    if page.ListRaised? || page.status != 200 then []
    else AnchoredNames(page.blocks).GetOr([])
  }

  /** Blocks without a name anchor are skipped: removing one changes nothing. */
  lemma {:induction false} AnchorlessBlockSkipped(before: seq<Block>, after: seq<Block>)
    ensures AnchoredNames(before + [Block(None)] + after) == AnchoredNames(before + after)
  {
    var x, y := before + [Block(None)] + after, before + after;
    if before == [] {
      assert x[1..] == after && y == after;
      AnchorlessHead(x);
    } else {
      assert x[1..] == before[1..] + [Block(None)] + after;
      assert y[1..] == before[1..] + after;
      AnchorlessBlockSkipped(before[1..], after);
      AnchoredNamesSameHead(before[0], x, y);
    }
  }

  lemma {:induction false} AnchoredNamesSameHead(b: Block, x: seq<Block>, y: seq<Block>)
    requires x != [] && y != [] && x[0] == b && y[0] == b
    requires AnchoredNames(x[1..]) == AnchoredNames(y[1..])
    ensures AnchoredNames(x) == AnchoredNames(y)
  {
  }

  lemma {:induction false} AnchorlessHead(x: seq<Block>)
    requires x != [] && x[0] == Block(None)
    ensures AnchoredNames(x) == AnchoredNames(x[1..])
  {
  }

  /** GitHub renders a repository link as "/owner/repo" (sometimes with a
      trailing '/'): the scraped name is "owner/repo". */
  lemma {:induction false} HrefBecomesFullName(owner: string, repo: string, trailing: bool)
    requires owner != [] && repo != [] && '/' !in owner && '/' !in repo
    ensures var href := "/" + owner + "/" + repo + (if trailing then "/" else "");
      AnchoredNames([Block(Some(Anchor(Some(href))))]) == Some([owner + "/" + repo])
  {
    var href := "/" + owner + "/" + repo + (if trailing then "/" else "");
    StrippedHref(owner, repo, trailing);
    SingleAnchor(href);
  }

  /** The blocks GitHub renders for the repositories "owner/repo" of
      `names`, in order. */
  function RepoBlocks(names: seq<(string, string)>): (r: seq<Block>)
    ensures |r| == |names|
    ensures forall k :: 0 <= k < |names| ==> r[k] == Block(Some(Anchor(Some("/" + names[k].0 + "/" + names[k].1))))
  {
    seq(|names|, k requires 0 <= k < |names| => Block(Some(Anchor(Some("/" + names[k].0 + "/" + names[k].1)))))
  }

  function FullNames(names: seq<(string, string)>): (r: seq<string>)
    ensures |r| == |names| && forall k :: 0 <= k < |names| ==> r[k] == names[k].0 + "/" + names[k].1
  {
    seq(|names|, k requires 0 <= k < |names| => names[k].0 + "/" + names[k].1)
  }

  /** A page of repository links reads as their full names, in page order. */
  lemma {:induction false} HrefsBecomeFullNames(names: seq<(string, string)>)
    requires forall k :: 0 <= k < |names| ==>
      names[k].0 != [] && names[k].1 != [] && '/' !in names[k].0 && '/' !in names[k].1
    ensures AnchoredNames(RepoBlocks(names)) == Some(FullNames(names))
    decreases |names|
  {
    if names != [] {
      var blocks := RepoBlocks(names);
      assert blocks[1..] == RepoBlocks(names[1..]);
      HrefsBecomeFullNames(names[1..]);
      assert AnchoredNames(blocks) == WithBlock(blocks[0], Some(FullNames(names[1..])));
      RepoBlockName(names[0].0, names[0].1, FullNames(names[1..]));
      FullNamesCons(names);
    }
  }

  /** One repository block in front of the names after it. */
  lemma {:induction false} RepoBlockName(owner: string, repo: string, rest: seq<string>)
    requires owner != [] && repo != [] && '/' !in owner && '/' !in repo
    ensures WithBlock(Block(Some(Anchor(Some("/" + owner + "/" + repo)))), Some(rest)) == Some([owner + "/" + repo] + rest)
  {
    StrippedHref(owner, repo, false);
    assert "/" + owner + "/" + repo + "" == "/" + owner + "/" + repo;
  }

  lemma {:induction false} FullNamesCons(names: seq<(string, string)>)
    requires names != []
    ensures FullNames(names) == [names[0].0 + "/" + names[0].1] + FullNames(names[1..])
  {
  }

  lemma {:induction false} StrippedHref(owner: string, repo: string, trailing: bool)
    requires owner != [] && repo != [] && '/' !in owner && '/' !in repo
    ensures StripSlashes("/" + owner + "/" + repo + (if trailing then "/" else "")) == owner + "/" + repo
  {
    var core := owner + "/" + repo;
    var post := if trailing then "/" else "";
    assert IsTrimmed(core, IsSlash) by {
      assert core[0] == owner[0];
      assert core[|core| - 1] == repo[|repo| - 1];
    }
    assert "/" + owner + "/" + repo + post == "/" + core + post;
    StripPadded("/", core, post, IsSlash);
  }

  lemma {:induction false} SingleAnchor(href: string)
    ensures AnchoredNames([Block(Some(Anchor(Some(href))))]) == Some([StripSlashes(href)])
  {
    var blocks := [Block(Some(Anchor(Some(href))))];
    assert blocks[1..] == [];
    assert AnchoredNames(blocks) == WithBlock(blocks[0], Some([]));
    assert [StripSlashes(href)] + [] == [StripSlashes(href)];
  }

  /** A name -> tag-set map and the exclusion set built next to it. */
  datatype Curation = Curation(tags: map<string, set<string>>, ignored: set<string>)

  /** The names a slug's page yields. */
  function Members(lists: string -> ListPage, slug: string): seq<string> {
    ScrapeListNames(lists(slug))
  }

  /** `repo_tags[r].add(slug)` for every r of `repos`, on a `defaultdict(set)`. */
  function AddTag(tags: map<string, set<string>>, repos: seq<string>, slug: string): (m: map<string, set<string>>)
    ensures forall r :: r in m <==> r in tags || r in repos
    ensures forall r :: r in m ==> m[r] == (if r in tags then tags[r] else {}) + (if r in repos then {slug} else {})
  {
    if repos == [] then tags
    else
      var m := AddTag(tags, repos[1..], slug);
      var r := repos[0];
      m[r := (if r in m then m[r] else {}) + {slug}]
  }

  /** `t in repo_tags[r]`, without creating the entry. */
  predicate HasTag(m: map<string, set<string>>, r: string, t: string) {
    r in m && t in m[r]
  }

  /** No entry of a tag map is an empty set. */
  predicate NoEmptyEntry(m: map<string, set<string>>) {
    forall r :: r in m ==> m[r] != {}
  }

  /** `get_curated_tags` of the unified sync, over the slugs given, in
      order: members of the "ignore" list, and only they, are excluded;
      every other slug tags exactly its members; "ignore" never becomes a
      tag; every entry holds at least one tag. */
  function SyncCuratedTags(slugs: seq<string>, lists: string -> ListPage): (c: Curation)
    ensures SyncOk(c, slugs, lists)
  {
    if slugs == [] then Curation(map[], {})
    else
      var p, slug := slugs[..|slugs| - 1], slugs[|slugs| - 1];
      var c := SyncCuratedTags(p, lists);
      var repos := Members(lists, slug);
      SyncStep(c, p, slug, lists);
      assert slugs == p + [slug];
      if slug == IgnoreSlug then Curation(c.tags, c.ignored + set r | r in repos)
      else Curation(AddTag(c.tags, repos, slug), c.ignored)
  }

  /** What the sync's curation after `slugs` holds. */
  ghost predicate SyncOk(c: Curation, slugs: seq<string>, lists: string -> ListPage) {
    IgnoredOk(c.ignored, slugs, lists) && TagsOk(c.tags, slugs, lists) && NoEmptyEntry(c.tags)
  }

  ghost predicate IgnoredOk(ignored: set<string>, slugs: seq<string>, lists: string -> ListPage) {
    forall r :: r in ignored <==> IgnoreSlug in slugs && r in Members(lists, IgnoreSlug)
  }

  ghost predicate TagsOk(tags: map<string, set<string>>, slugs: seq<string>, lists: string -> ListPage) {
    forall r, t :: HasTag(tags, r, t) <==> t in slugs && t != IgnoreSlug && r in Members(lists, t)
  }

  /** One slug more keeps `SyncOk`. */
  lemma {:induction false} SyncStep(c: Curation, p: seq<string>, slug: string, lists: string -> ListPage)
    requires SyncOk(c, p, lists)
    ensures var repos := Members(lists, slug);
      SyncOk(if slug == IgnoreSlug then Curation(c.tags, c.ignored + set r | r in repos)
             else Curation(AddTag(c.tags, repos, slug), c.ignored), p + [slug], lists)
  {
    var repos := Members(lists, slug);
    if slug == IgnoreSlug {
      IgnoredStep(c.ignored, p, lists);
      TagsKept(c.tags, p, lists);
    } else {
      TagsStep(c.tags, p, slug, lists);
      IgnoredKept(c.ignored, p, slug, lists);
    }
  }

  /** The "ignore" list adds its members to the exclusion set. */
  lemma {:induction false} IgnoredStep(ignored: set<string>, p: seq<string>, lists: string -> ListPage)
    requires IgnoredOk(ignored, p, lists)
    ensures IgnoredOk(ignored + (set r | r in Members(lists, IgnoreSlug)), p + [IgnoreSlug], lists)
  {
    assert IgnoreSlug in p + [IgnoreSlug];
  }

  /** Any other list leaves the exclusion set alone. */
  lemma {:induction false} IgnoredKept(ignored: set<string>, p: seq<string>, slug: string, lists: string -> ListPage)
    requires IgnoredOk(ignored, p, lists) && slug != IgnoreSlug
    ensures IgnoredOk(ignored, p + [slug], lists)
  {
    assert IgnoreSlug in p + [slug] <==> IgnoreSlug in p;
  }

  /** The "ignore" list adds no tag. */
  lemma {:induction false} TagsKept(tags: map<string, set<string>>, p: seq<string>, lists: string -> ListPage)
    requires TagsOk(tags, p, lists)
    ensures TagsOk(tags, p + [IgnoreSlug], lists)
  {
    forall t ensures t in p + [IgnoreSlug] && t != IgnoreSlug <==> t in p && t != IgnoreSlug {
    }
  }

  /** Any other list tags exactly its members. */
  lemma {:induction false} TagsStep(tags: map<string, set<string>>, p: seq<string>, slug: string, lists: string -> ListPage)
    requires TagsOk(tags, p, lists) && slug != IgnoreSlug
    ensures TagsOk(AddTag(tags, Members(lists, slug), slug), p + [slug], lists)
  {
    var m := AddTag(tags, Members(lists, slug), slug);
    forall r, t ensures HasTag(m, r, t) <==> t in p + [slug] && t != IgnoreSlug && r in Members(lists, t) {
      assert t in p + [slug] <==> t in p || t == slug;
      assert HasTag(tags, r, t) <==> t in p && t != IgnoreSlug && r in Members(lists, t);
    }
  }

  /** `get_curated_tags` of the unified fetcher: no list is special.  A
      repository carries a tag exactly when that tag's page lists it, and
      has an entry only if it carries some tag. */
  function FetcherCuratedTags(tagNames: seq<string>, lists: string -> ListPage): (m: map<string, set<string>>)
    ensures forall r, t :: HasTag(m, r, t) <==> t in tagNames && r in Members(lists, t)
    ensures NoEmptyEntry(m)
  {
    if tagNames == [] then map[]
    else
      var p, tag := tagNames[..|tagNames| - 1], tagNames[|tagNames| - 1];
      var c := FetcherCuratedTags(p, lists);
      FetcherStep(c, p, tag, lists);
      assert tagNames == p + [tag];
      AddTag(c, Members(lists, tag), tag)
  }

  /** One tag more: its members gain it, nothing else changes. */
  lemma {:induction false} FetcherStep(c: map<string, set<string>>, p: seq<string>, tag: string, lists: string -> ListPage)
    requires forall r, t :: HasTag(c, r, t) <==> t in p && r in Members(lists, t)
    requires NoEmptyEntry(c)
    ensures var m := AddTag(c, Members(lists, tag), tag);
      && (forall r, t :: HasTag(m, r, t) <==> t in p + [tag] && r in Members(lists, t))
      && NoEmptyEntry(m)
  {
    var m := AddTag(c, Members(lists, tag), tag);
    forall r, t ensures HasTag(m, r, t) <==> t in p + [tag] && r in Members(lists, t) {
      assert t in p + [tag] <==> t in p || t == tag;
      assert HasTag(c, r, t) <==> t in p && r in Members(lists, t);
    }
  }

  /** Two tag maps without empty entries that agree on every (name, tag)
      pair are the same map. */
  lemma {:induction false} SameTagMaps(a: map<string, set<string>>, b: map<string, set<string>>)
    requires NoEmptyEntry(a) && NoEmptyEntry(b)
    requires forall r, t :: HasTag(a, r, t) <==> HasTag(b, r, t)
    ensures a == b
  {
    forall r | r in a ensures r in b && a[r] == b[r] {
      var t :| t in a[r];
      assert HasTag(a, r, t);
      forall u ensures u in a[r] <==> u in b[r] {
        assert HasTag(a, r, u) <==> HasTag(b, r, u);
      }
    }
    forall r | r in b ensures r in a {
      var t :| t in b[r];
      assert HasTag(b, r, t);
    }
  }

  /** The sync's tag map is the fetcher's map over the slugs other than
      "ignore": the exclusion list never contributes a tag, and membership
      in it never removes one. */
  lemma {:induction false} SyncTagsIgnoreNothingElse(slugs: seq<string>, lists: string -> ListPage)
    ensures SyncCuratedTags(slugs, lists).tags == FetcherCuratedTags(WithoutIgnore(slugs), lists)
  {
    var a, b := SyncCuratedTags(slugs, lists).tags, FetcherCuratedTags(WithoutIgnore(slugs), lists);
    forall r, t ensures HasTag(a, r, t) <==> HasTag(b, r, t) {
      assert t in WithoutIgnore(slugs) <==> t in slugs && t != IgnoreSlug;
    }
    SameTagMaps(a, b);
  }

  /** The slugs other than "ignore", in order. */
  function WithoutIgnore(slugs: seq<string>): (r: seq<string>)
    ensures forall t :: t in r <==> t in slugs && t != IgnoreSlug
  {
    if slugs == [] then []
    else
      var p, slug := slugs[..|slugs| - 1], slugs[|slugs| - 1];
      assert slugs == p + [slug];
      WithoutIgnore(p) + (if slug == IgnoreSlug then [] else [slug])
  }
}
