/**
 * `ReleaseManager`: which repositories of the organisation are applications,
 * how the paged repository listing is collected, and how each application's
 * release list is reduced to the published releases and their `.zip`
 * assets. The HTTP replies (listing pages, release JSON) are parameters.
 */
module ReleaseManager {
  import opened Strings
  import opened Seqs

  datatype Repo = Repo(name: string, htmlUrl: string, archived: bool, description: string, releasesUrl: string)

  /** The configuration the manager is constructed with. */
  datatype AppSelection = AppSelection(appPrefix: string, appSpecialNames: set<string>, appExclusion: set<string>)

  /** `_check_include_repo`: named like an application or specially listed, and not excluded. */
  predicate CheckIncludeRepo(sel: AppSelection, repo: Repo) {
    (StartsWith(repo.name, sel.appPrefix) || repo.name in sel.appSpecialNames) && repo.name !in sel.appExclusion
  }

  /** The comprehension of `fetch_app_repos`. */
  function AppRepos(sel: AppSelection, repos: seq<Repo>): (apps: seq<Repo>)
    ensures forall i :: 0 <= i < |apps| ==> apps[i] in repos && CheckIncludeRepo(sel, apps[i])
    ensures forall i :: 0 <= i < |apps| ==> apps[i].name !in sel.appExclusion
    ensures forall i :: 0 <= i < |repos| && CheckIncludeRepo(sel, repos[i]) ==> repos[i] in apps
  {
    Filter(r => CheckIncludeRepo(sel, r), repos)
  }

  /**
   * The selection is a stable filter: it works on each part of the listing
   * separately and keeps a single repository exactly when the predicate holds.
   */
  lemma AppReposStable(sel: AppSelection, a: seq<Repo>, b: seq<Repo>, r: Repo)
    ensures AppRepos(sel, a + b) == AppRepos(sel, a) + AppRepos(sel, b)
    ensures AppRepos(sel, [r]) == if CheckIncludeRepo(sel, r) then [r] else []
  {
    FilterAppend(r => CheckIncludeRepo(sel, r), a, b);
    assert [r][1..] == [];
  }

  /** Entries per page of the repository listing. */
  const PageSize: nat := 100

  /** The reply for page `n` (numbered from 1); past the last page the API answers with an empty list. */
  function Page(pages: seq<seq<Repo>>, n: nat): seq<Repo> {
    if 1 <= n <= |pages| then pages[n - 1] else []
  }

  /** Pages 1 to `n`, concatenated. */
  function FirstPages(pages: seq<seq<Repo>>, n: nat): seq<Repo> {
    if n == 0 then [] else FirstPages(pages, n - 1) + Page(pages, n)
  }

  /** The first page, from `from` on, that ends the listing: an empty one or one shorter than a full page. */
  function StopPage(pages: seq<seq<Repo>>, from: nat): (n: nat)
    requires from >= 1
    ensures n >= from
    ensures Page(pages, n) == [] || |Page(pages, n)| < PageSize
    ensures forall k :: from <= k < n ==> |Page(pages, k)| >= PageSize
    decreases if from <= |pages| then |pages| + 1 - from else 0
  {
    var p := Page(pages, from);
    if p == [] || |p| < PageSize then from else StopPage(pages, from + 1)
  }

  /**
   * `fetch_all_repos`: pages are requested as 1, 2, 3, ... and concatenated
   * in order, up to and including the first short page; an empty page adds
   * nothing and ends the listing.
   */
  method FetchAllRepos(pages: seq<seq<Repo>>) returns (allRepos: seq<Repo>, requested: seq<nat>)
    ensures |requested| == StopPage(pages, 1)
    ensures forall i :: 0 <= i < |requested| ==> requested[i] == i + 1
    ensures allRepos == FirstPages(pages, |requested|)
  {
    var page := 1;
    allRepos := [];
    requested := [];
    while true
      invariant 1 <= page <= |pages| + 1
      invariant |requested| == page - 1
      invariant forall i :: 0 <= i < |requested| ==> requested[i] == i + 1
      invariant forall k :: 1 <= k < page ==> |Page(pages, k)| >= PageSize
      invariant StopPage(pages, 1) == StopPage(pages, page)
      invariant allRepos == FirstPages(pages, page - 1)
      decreases |pages| + 1 - page
    {
      requested := requested + [page];
      var reposData := Page(pages, page);
      if reposData == [] {
        return;
      }
      allRepos := allRepos + reposData;
      if |reposData| < PageSize {
        return;
      }
      page := page + 1;
    }
  }

  /** `fetch_app_repos`: the whole listing, filtered. */
  method FetchAppRepos(sel: AppSelection, pages: seq<seq<Repo>>) returns (apps: seq<Repo>)
    ensures apps == AppRepos(sel, FirstPages(pages, StopPage(pages, 1)))
  {
    var reposData, _ := FetchAllRepos(pages);
    apps := Filter(r => CheckIncludeRepo(sel, r), reposData);
  }

  datatype Asset = Asset(name: string, updatedAt: string, browserDownloadUrl: string)

  /** One element of a release-list reply: a JSON object, or anything else. */
  datatype ReleaseEntry =
    | NotAnObject
    | ReleaseObject(draft: bool, prerelease: bool, tagName: string, name: string, publishedAt: string,
                    htmlUrl: string, body: string, assets: seq<Asset>)

  datatype Release = Release(prerelease: bool, tagName: string, name: string, publishedAt: string,
                             htmlUrl: string, body: string, assets: seq<Asset>)

  datatype RepoReleases = RepoReleases(repoUrl: string, archived: bool, description: string, releases: seq<Release>)

  predicate IsZip(a: Asset) {
    EndsWith(a.name, ".zip")
  }

  /** `isinstance(release, dict) and not release.get("draft")` */
  predicate IsPublished(e: ReleaseEntry) {
    e.ReleaseObject? && !e.draft
  }

  /** The inner dict of the comprehension: the same fields, `.zip` assets only. */
  function ShapeRelease(e: ReleaseEntry): Release
    requires e.ReleaseObject?
  {
    Release(e.prerelease, e.tagName, e.name, e.publishedAt, e.htmlUrl, e.body, Filter(IsZip, e.assets))
  }

  /** The outer comprehension: published objects only, in their order, each reshaped. */
  function ShapeReleases(entries: seq<ReleaseEntry>): (rs: seq<Release>)
    ensures |rs| <= |entries|
    ensures forall i :: 0 <= i < |rs| ==> forall k :: 0 <= k < |rs[i].assets| ==> IsZip(rs[i].assets[k])
    ensures forall i :: 0 <= i < |entries| && IsPublished(entries[i]) ==> ShapeRelease(entries[i]) in rs
  {
    if entries == [] then []
    else (if IsPublished(entries[0]) then [ShapeRelease(entries[0])] else []) + ShapeReleases(entries[1..])
  }

  /** Nothing is invented: every kept release is the reshaping of a published object of the reply. */
  lemma {:induction false} ShapeReleasesOrigin(entries: seq<ReleaseEntry>, i: nat)
    requires i < |ShapeReleases(entries)|
    ensures exists j :: 0 <= j < |entries| && IsPublished(entries[j]) && ShapeReleases(entries)[i] == ShapeRelease(entries[j])
  {
    var head := if IsPublished(entries[0]) then [ShapeRelease(entries[0])] else [];
    if i < |head| {
      assert ShapeReleases(entries)[i] == ShapeRelease(entries[0]);
    } else {
      ShapeReleasesOrigin(entries[1..], i - |head|);
      var j :| 0 <= j < |entries[1..]| && IsPublished(entries[1..][j])
        && ShapeReleases(entries[1..])[i - |head|] == ShapeRelease(entries[1..][j]);
      assert entries[1..][j] == entries[j + 1];
    }
  }

  /** The releases keep their order: the reshaping works on each part of the reply separately. */
  lemma {:induction false} ShapeReleasesAppend(a: seq<ReleaseEntry>, b: seq<ReleaseEntry>)
    ensures ShapeReleases(a + b) == ShapeReleases(a) + ShapeReleases(b)
  {
    if a == [] {
      assert a + b == b;
    } else {
      assert (a + b)[1..] == a[1..] + b;
      ShapeReleasesAppend(a[1..], b);
    }
  }

  /** `releases_url.replace("{/id}", "")` */
  function ReleasesUrl(repo: Repo): string {
    Replace(repo.releasesUrl, "{/id}", "")
  }

  /** For the usual `.../releases{/id}` template, the URL asked for is the template without its placeholder. */
  lemma ReleasesUrlOfTemplate(repo: Repo, base: string)
    requires repo.releasesUrl == base + "{/id}" && !Contains(base, "{/id}")
    ensures ReleasesUrl(repo) == base
  {
    var t := "{/id}";
    assert t[1..] != t[..4] && t[2..] != t[..3] && t[3..] != t[..2] && t[4..] != t[..1];
    RemoveTrailing(base, t);
  }

  /** The repositories named `n`. */
  function NamedAs(n: string): Repo -> bool {
    (r: Repo) => r.name == n
  }

  /** Index of the last repository named `n`, or -1. */
  function LastNamed(repos: seq<Repo>, n: string): (r: int)
    ensures -1 <= r < |repos|
    ensures r >= 0 ==> repos[r].name == n
    ensures forall j :: r < j < |repos| ==> repos[j].name != n
  {
    LastWhere(NamedAs(n), repos)
  }

  /** The value stored for one repository. */
  function Summary(repo: Repo, entries: seq<ReleaseEntry>): RepoReleases {
    RepoReleases(repo.htmlUrl, repo.archived, repo.description, ShapeReleases(entries))
  }

  /** `releases_data` holds, for every name, the summary of the last repository with that name. */
  ghost predicate Summarised(releasesData: map<string, RepoReleases>, repos: seq<Repo>, responses: seq<seq<ReleaseEntry>>)
    requires |responses| >= |repos|
  {
    && (forall n :: n in releasesData <==> LastNamed(repos, n) >= 0)
    && (forall n :: n in releasesData ==>
          releasesData[n] == Summary(repos[LastNamed(repos, n)], responses[LastNamed(repos, n)]))
  }

  /** Storing one more repository's summary under its name keeps the table exact. */
  lemma SummariseStep(releasesData: map<string, RepoReleases>, repos: seq<Repo>, responses: seq<seq<ReleaseEntry>>, k: nat)
    requires k < |repos| <= |responses|
    requires Summarised(releasesData, repos[..k], responses)
    ensures Summarised(releasesData[repos[k].name := Summary(repos[k], responses[k])], repos[..k + 1], responses)
  {
    assert repos[..k + 1] == repos[..k] + [repos[k]];
    forall n ensures LastNamed(repos[..k + 1], n) == if repos[k].name == n then k else LastNamed(repos[..k], n) {
      LastWhereSnoc(NamedAs(n), repos[..k], repos[k]);
    }
  }

  /**
   * `fetch_apps_releases`: `responses[i]` is the reply to `urls[i]`, the URL
   * asked for repository `i`. There is one entry per name, from the last
   * repository with that name.
   */
  method FetchAppsReleases(repos: seq<Repo>, responses: seq<seq<ReleaseEntry>>)
    returns (releasesData: map<string, RepoReleases>, urls: seq<string>)
    requires |responses| == |repos|
    ensures |urls| == |repos| && forall i :: 0 <= i < |repos| ==> urls[i] == ReleasesUrl(repos[i])
    ensures forall n :: n in releasesData <==> LastNamed(repos, n) >= 0
    ensures forall n :: n in releasesData ==>
      releasesData[n] == Summary(repos[LastNamed(repos, n)], responses[LastNamed(repos, n)])
  {
    releasesData := map[];
    urls := [];
    for k := 0 to |repos|
      invariant |urls| == k && forall i :: 0 <= i < k ==> urls[i] == ReleasesUrl(repos[i])
      invariant Summarised(releasesData, repos[..k], responses)
    {
      var name := repos[k].name;
      var url := Replace(repos[k].releasesUrl, "{/id}", "");
      urls := urls + [url];
      var releases := responses[k];
      SummariseStep(releasesData, repos, responses, k);
      releasesData := releasesData[name := RepoReleases(repos[k].htmlUrl, repos[k].archived, repos[k].description,
                                                        ShapeReleases(releases))];
    }
    assert repos[..|repos|] == repos;
  }
}
