/**
 * The manifest parser of `DependencyManager`: the text of an application's
 * `dependencies.txt` becomes a map from module name to dependency record.
 * The fetch itself is left out; its outcome is the `Option<string>` input
 * (`None` when the file does not exist).
 */
module DependencyManager {
  import opened Wrappers
  import opened Strings
  import opened Seqs

  /** URL prefix of the organisation's own repositories. */
  const OrgUrlPrefix: string := "https://github.com/OpenKNX/"

  /** The one module that is never tracked: it has no function for users. */
  const SuppressedModule: string := "OFM-SmartMF"

  datatype DepRecord = DepRecord(commit: string, branch: string, path: string, url: string, depName: string)

  /** Format detection by field count: the current layout, the older one without a URL, or neither. */
  datatype LineShape =
    | FourField(commit: string, branch: string, path: string, url: string)
    | ThreeField(commit: string, branch: string, path: string)
    | Invalid

  function Shape(parts: seq<string>): LineShape {
    if |parts| == 4 then FourField(parts[0], parts[1], parts[2], parts[3])
    else if |parts| == 3 then ThreeField(parts[0], parts[1], parts[2])
    else Invalid
  }

  /** `_is_openknx_dependency` */
  predicate IsOpenKnxDependency(url: string) {
    StartsWith(url, OrgUrlPrefix)
  }

  /** `_is_module_to_include` */
  predicate IsModuleToInclude(depName: string) {
    if depName == SuppressedModule then false
    else StartsWith(depName, "OFM-") || StartsWith(depName, "OGM-") || depName == "knx"
  }

  /** `url.split('/')[-1].replace('.git', '')`: every `.git` goes, not only a trailing one. */
  function NameFromUrl(url: string): string {
    Replace(LastSegment(url, '/'), ".git", "")
  }

  /** The record a manifest line stores, if it stores one. */
  function LineEntry(line: string): (r: Option<DepRecord>)
    ensures r.Some? ==> IsModuleToInclude(r.value.depName) && '/' !in r.value.depName
    ensures r.Some? ==> var parts := Words(line);
      && (|parts| == 3 || |parts| == 4)
      && r.value.commit == parts[0] && r.value.branch == parts[1] && r.value.path == parts[2]
    ensures r.Some? && |Words(line)| == 4 ==>
      r.value.url == Words(line)[3] && IsOpenKnxDependency(r.value.url)
    ensures r.Some? && |Words(line)| == 3 ==>
      r.value.url == OrgUrlPrefix + r.value.depName + ".git"
  {
    match Shape(Words(line))
    case FourField(commit, branch, path, url) =>
      var depName := NameFromUrl(url);
      if IsOpenKnxDependency(url) && IsModuleToInclude(depName)
      then Some(DepRecord(commit, branch, path, url, depName))
      else None
    case ThreeField(commit, branch, path) =>
      var depName := LastSegment(path, '/');
      if IsModuleToInclude(depName)
      then Some(DepRecord(commit, branch, path, OrgUrlPrefix + depName + ".git", depName))
      else None
    case Invalid => None
  }

  /** The map built so far and the two diagnostic counters. */
  datatype Manifest = Manifest(deps: map<string, DepRecord>, incomplete: nat, invalid: nat)

  const Empty := Manifest(map[], 0, 0)

  /** What one more line does: store its record, if any, and count its shape. */
  function Step(m: Manifest, line: string): Manifest {
    var e := LineEntry(line);
    var deps := if e.Some? then m.deps[e.value.depName := e.value] else m.deps;
    match Shape(Words(line))
    case FourField(_, _, _, _) => m.(deps := deps)
    case ThreeField(_, _, _) => Manifest(deps, m.incomplete + 1, m.invalid)
    case Invalid => m.(invalid := m.invalid + 1)
  }

  /** The parse of the record lines, in order. */
  function ParseLines(lines: seq<string>): Manifest {
    if lines == [] then Empty else Step(ParseLines(lines[..|lines| - 1]), lines[|lines| - 1])
  }

  /** `fetch_dependencies` after the fetch: the first line is a header. */
  function ParseManifest(text: Option<string>): Manifest {
    match text
    case None => Empty
    case Some(t) =>
      var lines := SplitLines(t);
      if lines == [] then Empty else ParseLines(lines[1..])
  }

  predicate IsThreeFieldLine(line: string) {
    Shape(Words(line)).ThreeField?
  }

  predicate IsInvalidLine(line: string) {
    Shape(Words(line)).Invalid?
  }

  /** `line` stores a record under the name `k`. */
  predicate Defines(line: string, k: string) {
    LineEntry(line).Some? && LineEntry(line).value.depName == k
  }

  /** The body of the line loop of `fetch_dependencies`. */
  method ParseLine(deps: map<string, DepRecord>, incomplete: nat, invalid: nat, line: string)
    returns (deps': map<string, DepRecord>, incomplete': nat, invalid': nat)
    ensures Manifest(deps', incomplete', invalid') == Step(Manifest(deps, incomplete, invalid), line)
  {
    deps', incomplete', invalid' := deps, incomplete, invalid;
    var parts := Words(line);
    if |parts| == 4 {
      var commit, branch, path, url := parts[0], parts[1], parts[2], parts[3];
      var depName := Replace(LastSegment(url, '/'), ".git", "");
      if IsOpenKnxDependency(url) && IsModuleToInclude(depName) {
        deps' := deps[depName := DepRecord(commit, branch, path, url, depName)];
      }
    } else if |parts| == 3 {
      var commit, branch, path := parts[0], parts[1], parts[2];
      var depName := LastSegment(path, '/');
      if IsModuleToInclude(depName) {
        deps' := deps[depName := DepRecord(commit, branch, path, OrgUrlPrefix + depName + ".git", depName)];
      }
      incomplete' := incomplete + 1;
    } else {
      invalid' := invalid + 1;
    }
  }

  /**
   * `fetch_dependencies`: the counters and the map are built line by line,
   * skipping the header, exactly as the parse says.
   */
  method FetchDependencies(response: Option<string>) returns (deps: map<string, DepRecord>, incomplete: nat, invalid: nat)
    ensures Manifest(deps, incomplete, invalid) == ParseManifest(response)
  {
    deps := map[];
    incomplete, invalid := 0, 0;
    if response.None? {
      return;
    }
    var lines := SplitLines(response.value);
    if lines != [] {
      var body := lines[1..];
      for i := 0 to |body|
        invariant Manifest(deps, incomplete, invalid) == ParseLines(body[..i])
      {
        deps, incomplete, invalid := ParseLine(deps, incomplete, invalid, body[i]);
        assert body[..i + 1][..i] == body[..i];
      }
      assert body[..|body|] == body;
    }
  }

  /** An absent or empty manifest gives no dependencies and counts nothing. */
  lemma AbsentOrEmptyManifest(text: Option<string>)
    requires text.None? || text == Some("")
    ensures ParseManifest(text) == Manifest(map[], 0, 0)
  {
  }

  /**
   * The counters: one per line of the older three-field layout, accepted or
   * not, and one per line of any other field count except four.
   */
  lemma {:induction false} ParseCounters(lines: seq<string>)
    ensures ParseLines(lines).incomplete == |Filter(IsThreeFieldLine, lines)|
    ensures ParseLines(lines).invalid == |Filter(IsInvalidLine, lines)|
  {
    if lines != [] {
      var init, last := lines[..|lines| - 1], lines[|lines| - 1];
      assert lines == init + [last];
      ParseCounters(init);
      FilterAppend(IsThreeFieldLine, init, [last]);
      FilterAppend(IsInvalidLine, init, [last]);
    }
  }

  /** The lines storing a record under `k`. */
  function DefinesName(k: string): string -> bool {
    (line: string) => Defines(line, k)
  }

  /** Index of the last line that stores a record under `k`, or -1 when none does. */
  function LastDefining(lines: seq<string>, k: string): (r: int)
    ensures -1 <= r < |lines|
    ensures r >= 0 ==> Defines(lines[r], k)
    ensures forall j :: r < j < |lines| ==> !Defines(lines[j], k)
  {
    LastWhere(DefinesName(k), lines)
  }

  /** One more line changes the map only at the name its record carries. */
  lemma ParseLast(init: seq<string>, last: string)
    ensures var e := LineEntry(last);
      ParseLines(init + [last]).deps == if e.Some? then ParseLines(init).deps[e.value.depName := e.value] else ParseLines(init).deps
  {
    assert (init + [last])[..|init|] == init;
  }

  /**
   * The map: a name is a key exactly when some line stores a record under
   * it, and the record kept is the one of the last such line (dict
   * assignment is last-writer-wins).
   */
  lemma {:induction false} ParseKeys(lines: seq<string>)
    ensures forall k :: k in ParseLines(lines).deps <==> LastDefining(lines, k) >= 0
    ensures forall k :: k in ParseLines(lines).deps ==>
      Some(ParseLines(lines).deps[k]) == LineEntry(lines[LastDefining(lines, k)])
  {
    if lines != [] {
      var init, last := lines[..|lines| - 1], lines[|lines| - 1];
      assert lines == init + [last];
      ParseKeys(init);
      ParseLast(init, last);
      forall k ensures LastDefining(lines, k) == (if Defines(last, k) then |lines| - 1 else LastDefining(init, k)) {
        LastWhereSnoc(DefinesName(k), init, last);
      }
      forall k | LastDefining(init, k) >= 0 ensures lines[LastDefining(init, k)] == init[LastDefining(init, k)] {
      }
    }
  }

  /** Every stored record carries its key as `depName`, and every key passes the module filter. */
  lemma StoredRecords(lines: seq<string>)
    ensures forall k :: k in ParseLines(lines).deps ==>
      ParseLines(lines).deps[k].depName == k && IsModuleToInclude(k)
  {
    ParseKeys(lines);
  }

  /** `OFM-SmartMF` is never a key, whatever the manifest says. */
  lemma SuppressedNeverStored(text: Option<string>)
    ensures SuppressedModule !in ParseManifest(text).deps
  {
    if text.Some? {
      var lines := SplitLines(text.value);
      if lines != [] {
        StoredRecords(lines[1..]);
      }
    }
  }

  /**
   * A line written from four fields stores a record exactly when the URL is
   * the organisation's and the derived name passes the module filter; the
   * record copies the fields and is named after the URL.
   */
  lemma FourFieldLine(commit: string, branch: string, path: string, url: string)
    requires forall f | f in [commit, branch, path, url] :: f != [] && NoSpace(f)
    ensures var e := LineEntry(Unwords([commit, branch, path, url]));
      && (e.Some? <==> IsOpenKnxDependency(url) && IsModuleToInclude(NameFromUrl(url)))
      && (e.Some? ==> e.value == DepRecord(commit, branch, path, url, NameFromUrl(url)))
  {
    var fields := [commit, branch, path, url];
    assert forall k :: 0 <= k < |fields| ==> fields[k] in fields;
    WordsUnwords(fields);
  }

  /**
   * A line written from three fields stores a record exactly when the last
   * path segment passes the module filter; its URL is rebuilt from the name.
   */
  lemma ThreeFieldLine(commit: string, branch: string, path: string)
    requires forall f | f in [commit, branch, path] :: f != [] && NoSpace(f)
    ensures var name := LastSegment(path, '/');
      var e := LineEntry(Unwords([commit, branch, path]));
      && (e.Some? <==> IsModuleToInclude(name))
      && (e.Some? ==> e.value == DepRecord(commit, branch, path, OrgUrlPrefix + name + ".git", name))
  {
    var fields := [commit, branch, path];
    assert forall k :: 0 <= k < |fields| ==> fields[k] in fields;
    WordsUnwords(fields);
  }

  /** The last segment of `x + y`, where `x` ends in a slash and `y` has none, is `y`. */
  lemma {:induction false} LastSegmentAfterSlash(x: string, y: string)
    requires x != [] && x[|x| - 1] == '/' && '/' !in y
    ensures LastSegment(x + y, '/') == y
  {
    var s := x + y;
    if y != [] {
      var y' := y[..|y| - 1];
      assert s[..|s| - 1] == x + y';
      LastSegmentAfterSlash(x, y');
      assert y == y' + [y[|y| - 1]];
    } else {
      assert s == x;
    }
  }

  lemma GitUnbordered()
    ensures Unbordered(".git")
  {
    var g := ".git";
    assert g[1..] != g[..3] && g[2..] != g[..2] && g[3..] != g[..1];
  }

  /** For the usual URL `.../OpenKNX/<name>.git` the derived name is `<name>`. */
  lemma NameFromGitUrl(name: string)
    requires '/' !in name && !Contains(name, ".git")
    ensures NameFromUrl(OrgUrlPrefix + name + ".git") == name
  {
    assert OrgUrlPrefix + name + ".git" == OrgUrlPrefix + (name + ".git");
    LastSegmentAfterSlash(OrgUrlPrefix, name + ".git");
    GitUnbordered();
    RemoveTrailing(name, ".git");
  }

  datatype FetchedManifest = FetchedManifest(repoName: string, text: Option<string>)

  /** The repository's manifest parses to at least one dependency. */
  predicate HasDependencies(f: FetchedManifest) {
    ParseManifest(f.text).deps != map[]
  }

  /** The repositories stored under the name `n`. */
  function KeptAs(n: string): FetchedManifest -> bool {
    (f: FetchedManifest) => f.repoName == n && HasDependencies(f)
  }

  /** Index of the last repository named `n` whose map is non-empty, or -1. */
  function LastKept(repos: seq<FetchedManifest>, n: string): (r: int)
    ensures -1 <= r < |repos|
    ensures r >= 0 ==> repos[r].repoName == n && HasDependencies(repos[r])
    ensures forall j :: r < j < |repos| && repos[j].repoName == n ==> !HasDependencies(repos[j])
  {
    LastWhere(KeptAs(n), repos)
  }

  /** `all` holds, for every name, the map of the last repository of that name whose map is non-empty. */
  ghost predicate Collected(all: map<string, map<string, DepRecord>>, repos: seq<FetchedManifest>) {
    && (forall n :: n in all <==> LastKept(repos, n) >= 0)
    && (forall n :: n in all ==> all[n] == ParseManifest(repos[LastKept(repos, n)].text).deps)
  }

  /** Storing one more repository's map, when it is non-empty, keeps the collection exact. */
  lemma CollectStep(all: map<string, map<string, DepRecord>>, repos: seq<FetchedManifest>, f: FetchedManifest)
    requires Collected(all, repos)
    ensures Collected(if HasDependencies(f) then all[f.repoName := ParseManifest(f.text).deps] else all, repos + [f])
  {
    var repos' := repos + [f];
    forall n ensures LastKept(repos', n) == if KeptAs(n)(f) then |repos| else LastKept(repos, n) {
      LastWhereSnoc(KeptAs(n), repos, f);
    }
    forall n | LastKept(repos, n) >= 0 ensures repos'[LastKept(repos, n)] == repos[LastKept(repos, n)] {
    }
  }

  /**
   * `fetch_all_dependencies` without the JSON dump: a repository is kept
   * only if its map is non-empty; a later repository of the same name that
   * is kept replaces an earlier one.
   */
  method FetchAllDependencies(repos: seq<FetchedManifest>) returns (all: map<string, map<string, DepRecord>>)
    ensures forall n :: n in all <==> LastKept(repos, n) >= 0
    ensures forall n :: n in all ==> all[n] != map[] && all[n] == ParseManifest(repos[LastKept(repos, n)].text).deps
  {
    all := map[];
    for k := 0 to |repos|
      invariant Collected(all, repos[..k])
    {
      var dependencies, _, _ := FetchDependencies(repos[k].text);
      CollectStep(all, repos[..k], repos[k]);
      if dependencies != map[] {
        all := all[repos[k].repoName := dependencies];
      }
      assert repos[..k + 1] == repos[..k] + [repos[k]];
    }
    assert repos[..|repos|] == repos;
  }
}
