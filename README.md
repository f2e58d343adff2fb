# OpenKNX metadata aggregation — a verified model of its core

The OpenKNX scripts collect metadata about the organisation's application
repositories (OAMs). They gather:

- the repository listing and each application's releases;
- each application's `dependencies.txt`, which lists the firmware modules (OFMs) it contains;
- the devices each release supports, with their display names;
- the AppIDs that the applications' descriptor files declare.

From that data they derive:

- the overview tables: how many applications use each module and each device;
- the per-module and per-device reverse indexes;
- the latest release and pre-release of each application;
- the file-system paths of the generated pages;
- the table from AppID to the descriptors that declare it.

This project models that core in Dafny and proves what the scripts promise
about it. Modules follow the scripts:

- `DependencyManager` covers `dependency_manager.py`. It parses a manifest line by line, with format detection by field count. It keeps a manifest only when it is non-empty.
- `DeviceHelper` covers `devices_helper.py`. It decides which devices are first-party and maps raw device names to display names, with per-application overrides.
- `ReleaseManager` covers `release_manager.py`:
  - repository selection;
  - the paged listing loop;
  - reshaping the release JSON into published releases with their `.zip` assets.
- `PathManager` covers `path_manager.py`:
  - the device-name sanitiser: umlaut transliteration, then masking;
  - POSIX `os.path.join` path assembly for the OAM, OFM and device pages.

  `html_generator.py` holds an identical copy of the sanitiser. It is modelled once, here.
- `HtmlGenerator` covers the computing part of `html_generator.py`:
  - latest-release selection;
  - the three usage counters;
  - the `(-count, name)` sort;
  - the reverse indexes by module and by device.
- `AppIds` covers `appids.py`:
  - the group and key of each descriptor path;
  - the nested result dict;
  - grouping references by `(OpenKnxId, ApplicationNumber)`;
  - formatting `"0x%04X" % ((id << 8) | number)`;
  - the final AppID table.
- Support modules:
  - `Strings` models Python's `str` methods as the scripts use them: `split()`, `splitlines()`, `replace`, `split('/')[-1]` and `<` on strings;
  - `Seqs` is a stable filter and occurrence counts;
  - `OrderedMaps` models the insertion-ordered `dict` and dicts of dicts;
  - `Wrappers` holds `Option`.

Network replies enter as parameters. These are the listing pages, the
manifest text (or its absence) and the release lists. Loops that change
state are methods. Each method is proved against a specification function,
and the properties the scripts promise are proved about those functions.

## Model

| member | source | states |
|---|---|---|
| DependencyManager.LineEntry | scripts/dependency_manager.py:28-58 | a stored record passes the module filter, has a `/`-free name, and copies commit, branch and path from the line's 3 or 4 fields; a four-field record keeps the line's URL, which is the organisation's; a three-field record gets the rebuilt `https://github.com/OpenKNX/<name>.git` |
| DependencyManager.ParseLine | scripts/dependency_manager.py:28-61 | the loop body updates the map and the two counters exactly as one parse step |
| DependencyManager.FetchDependencies | scripts/dependency_manager.py:16-68 | the map and the two counters are exactly the line-by-line parse of the manifest after its header line; an absent manifest gives an empty map |
| DependencyManager.AbsentOrEmptyManifest | scripts/dependency_manager.py:18-26 | an absent or empty manifest yields no dependencies and zero counters |
| DependencyManager.ParseCounters | scripts/dependency_manager.py:42-61 | `incomplete` is the number of three-field lines, accepted or not; `invalid` is the number of lines whose field count is neither 3 nor 4 |
| DependencyManager.ParseKeys | scripts/dependency_manager.py:27-55 | a name is a key exactly when some line stores a record under it; the record kept is the one of the last such line |
| DependencyManager.StoredRecords | scripts/dependency_manager.py:70-73 | every stored record carries its key as `depName`, and every key passes the module filter |
| DependencyManager.SuppressedNeverStored | scripts/dependency_manager.py:70-72 | `OFM-SmartMF` is never a key, whatever the manifest says |
| DependencyManager.FourFieldLine | scripts/dependency_manager.py:29-41 | a four-field line stores a record iff the URL starts with the organisation prefix and the derived name passes the filter; the record holds the fields and that name |
| DependencyManager.ThreeFieldLine | scripts/dependency_manager.py:42-55 | a three-field line stores a record iff the last path segment passes the filter; the URL is rebuilt from that name |
| DependencyManager.NameFromGitUrl | scripts/dependency_manager.py:32 | the name derived from `https://github.com/OpenKNX/<name>.git` is `<name>` |
| DependencyManager.CollectStep | scripts/dependency_manager.py:75-83 | one more repository keeps the collected map equal to the last non-empty map of each name |
| DependencyManager.FetchAllDependencies | scripts/dependency_manager.py:75-83 | a repository name is a key iff some repository with that name has a non-empty map; the value is the non-empty map of the last such repository |
| DeviceHelper.IsOpenDeviceAt | scripts/devices_helper.py:14-15 | a device is first-party exactly when `OpenKNX` occurs at some position of its name |
| DeviceHelper.OverrideKeysDiffer | scripts/devices_helper.py:17-18 | the override keys `hw@oam` of two different applications differ |
| DeviceHelper.OverrideIsLocal | scripts/devices_helper.py:17-26 | adding an override for one application never changes the name another application gets |
| DeviceHelper.OverridePrecedence | scripts/devices_helper.py:17-26 | an application's own override wins over the general entry; an application without an override gets the general entry |
| DeviceHelper.LookupOrder | scripts/devices_helper.py:17-26 | for every table: an application's override wins; without one, the general entry is used; without either, the result is `(???)-` followed by the raw name |
| DeviceHelper.UnknownKeepsRawName | scripts/devices_helper.py:24-26 | an unknown raw name gives exactly `(???)-` followed by the raw name: it starts with the marker, ends with and contains the raw name, and is first-party exactly when the raw name is |
| ReleaseManager.AppRepos | scripts/release_manager.py:14-16 | every selected repository comes from the listing, satisfies the include rule and is not excluded; every listed repository that satisfies the rule is selected |
| ReleaseManager.AppReposStable | scripts/release_manager.py:46-50 | selection distributes over concatenation, and a single repository is kept exactly when the rule holds |
| ReleaseManager.StopPage | scripts/release_manager.py:26-36 | the page that ends the listing is empty or shorter than 100 entries, and every page before it is full |
| ReleaseManager.FetchAllRepos | scripts/release_manager.py:18-36 | pages 1, 2, … are requested in order up to the first empty or short page; the result is those pages concatenated |
| ReleaseManager.FetchAppRepos | scripts/release_manager.py:38-51 | the result is the selection applied to the whole listing |
| ReleaseManager.ShapeReleases | scripts/release_manager.py:64-82 | every published object is kept, reshaped; every kept asset is a `.zip`; no more releases than objects |
| ReleaseManager.ShapeReleasesOrigin | scripts/release_manager.py:64-82 | every kept release is the reshaping of a published (dict, non-draft) object of the reply |
| ReleaseManager.ShapeReleasesAppend | scripts/release_manager.py:81 | reshaping keeps the reply's order: it distributes over concatenation |
| ReleaseManager.ReleasesUrlOfTemplate | scripts/release_manager.py:57 | for a `…/releases{/id}` template, the URL asked for is the template without the placeholder |
| ReleaseManager.SummariseStep | scripts/release_manager.py:59-83 | one more assignment `releases_data[name] = …` keeps every entry equal to the summary of the last repository with its name |
| ReleaseManager.FetchAppsReleases | scripts/release_manager.py:53-84 | one URL per repository, in order; one entry per repository name, built from the last repository with that name and its reply |
| PathManager.TranslitChar | scripts/path_manager.py:79 | an umlaut becomes two allowed characters; any other character stays itself |
| PathManager.TranslitLength | scripts/path_manager.py:79-81 | transliteration lengthens the name by exactly its number of umlauts |
| PathManager.TranslitConcat | scripts/path_manager.py:79-81 | transliteration works piece by piece: concatenation is preserved |
| PathManager.UmlautEntry | scripts/path_manager.py:79 | each umlaut of the table is rejected by the mask and replaced by its two-letter entry |
| PathManager.TranslitPlain | scripts/path_manager.py:80-81 | a name without umlauts is unchanged by transliteration |
| PathManager.TranslitPasses | scripts/path_manager.py:80-81 | the seven `replace` passes, applied in table order, equal character-wise transliteration |
| PathManager.Sanitized | scripts/path_manager.py:77-84 | the result's length is the name's length plus its umlaut count; every character is in `[A-Za-z0-9_-]`; a name made only of allowed characters is returned unchanged; the copy at `scripts/html_generator.py` lines 14-20 is the same function |
| PathManager.ToDevicePathname | scripts/path_manager.py:77-84 | the replacement loop followed by the mask computes `Sanitized` |
| PathManager.SanitizedConcat | scripts/path_manager.py:77-84 | the name is sanitised piece by piece: concatenation is preserved |
| PathManager.SanitizedChar | scripts/path_manager.py:79-84 | each character becomes its transliteration, itself when allowed, or one `_` |
| PathManager.SanitizedIdempotent | scripts/path_manager.py:84 | sanitising twice is the same as sanitising once |
| PathManager.SanitizedIsComponent | scripts/path_manager.py:63-64 | a non-empty name gives a non-empty path component without `/` |
| PathManager.Present | scripts/path_manager.py:32 | a component is kept exactly when it is present and non-empty; no more components come out than went in |
| PathManager.PresentAppend | scripts/path_manager.py:32 | the comprehension works piece by piece and keeps the order: the components of two lists are those of the first, then those of the second |
| PathManager.PresentOne | scripts/path_manager.py:32 | a single component is kept, as itself, exactly when it is present and non-empty |
| PathManager.JoinPlain | scripts/path_manager.py:35-36 | joining relative components to a base directory (absolute or relative, without a trailing `/`) puts exactly one `/` before each; the result never ends in `/` |
| PathManager.CreatePathDropsEmpty | scripts/path_manager.py:32-36 | a `None` or empty component anywhere is dropped from the path |
| PathManager.CreatePathPlain | scripts/path_manager.py:23-36 | the path is the base, then `/` and each present component, then `/` and the file name when it is non-empty |
| PathManager.NamedPath | scripts/path_manager.py:23-36 | a named page is `base/top/name/file` |
| PathManager.OamOfmPaths | scripts/path_manager.py:38-54 | the page of a named OAM is `base/oam/<name>/<file>`; that of an OFM is `base/ofm/<name>/<file>` |
| PathManager.TopOnly | scripts/path_manager.py:23-36 | with an absent or empty name, the file sits directly under the top directory |
| PathManager.OamOfmOverviewPaths | scripts/path_manager.py:38-54 | without a name, the file sits directly under `oam` or `ofm` |
| PathManager.DevicePath | scripts/path_manager.py:56-64 | a non-empty device name becomes its sanitised form, as one component under `devices` |
| PathManager.DeviceOverviewPath | scripts/path_manager.py:56-64 | a missing or empty device name gives the overview directory `base/devices/<file>` |
| Strings.LessTotal | scripts/html_generator.py:58 | string `<` on publication times is a total order |
| HtmlGenerator.LatestUnique | scripts/html_generator.py:56-62 | at most one release is the latest of its kind, so the selection is determined |
| HtmlGenerator.LatestStep | scripts/html_generator.py:57-62 | one loop step keeps the strictly newest release of the kind seen so far; on ties the first one stays |
| HtmlGenerator.SelectLatest | scripts/html_generator.py:54-62 | the result for a kind is `None` exactly when there is no release of that kind; otherwise it is the release that is strictly newer than all earlier ones of its kind and not older than any later one |
| HtmlGenerator.Counter.Inc | scripts/html_generator.py:92 | `+= 1` on a `defaultdict(int)`: the key gains one and every other key is unchanged; a new key goes to the end |
| HtmlGenerator.IncTotal | scripts/html_generator.py:92 | every increment adds exactly one to the counter's total |
| HtmlGenerator.AppsWithModule | scripts/html_generator.py:90-92 | the count is at most the number of applications, and it is zero exactly when no application has the module |
| HtmlGenerator.Occurrences | scripts/html_generator.py:93-100 | the count is zero exactly when no device list names the device |
| HtmlGenerator.AddModules | scripts/html_generator.py:91-92 | each module of one application gains one; nothing else changes |
| HtmlGenerator.ModulesUsage | scripts/html_generator.py:87-92 | each module's count is the number of applications that contain it |
| HtmlGenerator.AddsInc | scripts/html_generator.py:98-100 | counting an entry the test accepts keeps the counter equal to its base plus the accepted occurrences |
| HtmlGenerator.AddsSkip | scripts/html_generator.py:98-100 | an entry the test rejects leaves that counter's relation to the accepted occurrences intact |
| HtmlGenerator.SplitOpen | scripts/html_generator.py:98-99 | a first-party entry goes to the first counter; both counters and the combined total stay exact |
| HtmlGenerator.SplitOther | scripts/html_generator.py:100-101 | any other entry goes to the second counter; both counters and the combined total stay exact |
| HtmlGenerator.AddDevice | scripts/html_generator.py:97-100 | the loop body sends one entry to the counter the first-party test selects |
| HtmlGenerator.AddDevices | scripts/html_generator.py:96-100 | each device entry goes to exactly one of the two counters, by the first-party test |
| HtmlGenerator.HardwareStep | scripts/html_generator.py:94-100 | one more application's device list keeps both counters equal to the occurrences so far |
| HtmlGenerator.HardwareUsage | scripts/html_generator.py:88-100 | a first-party device counts its occurrences in the first counter and zero in the other, and vice versa; the two totals add up to the total number of device entries |
| HtmlGenerator.BeforeOrder | scripts/html_generator.py:103 | the sort key `(-count, name)` is a strict total order |
| HtmlGenerator.InsertSorted | scripts/html_generator.py:103-105 | inserting into a sorted list keeps it sorted |
| HtmlGenerator.InsertPerm | scripts/html_generator.py:103-105 | inserting adds exactly one occurrence of the entry and nothing else |
| HtmlGenerator.InsertElems | scripts/html_generator.py:103-105 | after insertion the entries are the old ones and the new one |
| HtmlGenerator.SortByUsage | scripts/html_generator.py:103-105 | the result is sorted by descending count and then by name, and it is a permutation of the items |
| HtmlGenerator.SortedUnique | scripts/html_generator.py:103-105 | two sorted permutations of the same items are equal, so the sorted tables are determined by the counters |
| HtmlGenerator.ItemsSpec | scripts/html_generator.py:103 | a counter's items are its keys with their counts, each key once |
| HtmlGenerator.SortedItems | scripts/html_generator.py:178 | any sorted permutation of a counter's items holds exactly its counted keys, each with its count |
| HtmlGenerator.OverviewTables | scripts/html_generator.py:84-105 | the three counters hold the counts above, and the three lists are their sorted permutations |
| HtmlGenerator.ModulesSortedSpec | scripts/html_generator.py:87-103 | the sorted module list holds exactly the modules in use, each paired with the number of applications using it |
| HtmlGenerator.DevicesWithModule | scripts/html_generator.py:148-152 | a device's count within one module never exceeds its overall occurrences |
| HtmlGenerator.CountedInc | scripts/html_generator.py:151-152 | counting one more entry keeps the counter equal to its base plus the occurrences so far |
| HtmlGenerator.CountEntry | scripts/html_generator.py:152 | the loop body `dev_usage_count[hw] += 1` keeps that relation |
| HtmlGenerator.AddEach | scripts/html_generator.py:151-152 | each entry of a list adds one to its counter entry |
| HtmlGenerator.DeviceUsageOfModule | scripts/html_generator.py:144-152 | each device's count is its number of occurrences in the device lists of the applications that contain the module |
| HtmlGenerator.AppsWithBoth | scripts/html_generator.py:173-177 | the count is at most the module's overall count, and it is zero exactly when no application has both the device and the module |
| HtmlGenerator.ModuleUsageOfDevice | scripts/html_generator.py:169-187 | each module's count is the number of applications that list the device and contain the module; the list handed to the page as `ofm_sorted` is sorted by descending count, then name, and holds exactly the modules with a positive count, each with its count |
| HtmlGenerator.OamDataOfDevice | scripts/html_generator.py:190-193 | an application is kept exactly when it lists the device |
| HtmlGenerator.ModulesOfDeviceSpec | scripts/html_generator.py:190-198 | a module belongs to a device exactly when its per-device count is positive |
| HtmlGenerator.ModulesSortedOfDeviceSpec | scripts/html_generator.py:199 | the per-device module list stays sorted and holds exactly the overall entries whose module belongs to the device |
| OrderedMaps.OMap.Put | scripts/appids.py:63 | dict assignment: the key maps to the new value and other keys are unchanged; a new key goes last and an existing key keeps its place |
| OrderedMaps.Put2 | scripts/appids.py:83 | `setdefault(g, {})[k] = v` sets that one entry and leaves every other entry as it was |
| OrderedMaps.FlattenSpec | scripts/appids.py:80-81 | the nested `items()` loops visit exactly the entries of the nested dict |
| AppIds.SplitRelative | scripts/appids.py:50-63 | a file below a sub-directory is grouped under that directory; a file in the root is grouped under `.`; the key contains no backslash |
| AppIds.SplitRelativePlain | scripts/appids.py:53-61 | with components free of backslashes, the key is the rest of the path joined by `/`, or the file name |
| AppIds.ExtractStep | scripts/appids.py:63 | storing one more descriptor under its group and key keeps each entry equal to the last descriptor splitting to it |
| AppIds.StoreEntry | scripts/appids.py:50-63 | the loop body stores one descriptor's attributes under its group and key |
| AppIds.ExtractResults | scripts/appids.py:50-63 | an entry exists for a group and key exactly when some descriptor splits to them; its attributes are those of the last such descriptor |
| AppIds.StripXmlSpec | scripts/appids.py:83 | one trailing `.xml` is removed; a string without one is unchanged |
| AppIds.RefOfDescriptor | scripts/appids.py:82-83 | the reference of `dir/name.xml` in a group is `group / name` |
| AppIds.RefsForSpec | scripts/appids.py:80-83 | a reference is listed under `(id, number)` exactly when a descriptor declaring that pair yields it |
| AppIds.GroupAt | scripts/appids.py:83 | at every single pair, appending one reference keeps the list equal to the references of the descriptors declaring it |
| AppIds.GroupStep | scripts/appids.py:83 | appending one more descriptor's reference keeps the grouping exact |
| AppIds.AddReference | scripts/appids.py:82-83 | the loop body appends one descriptor's reference to the list of its pair |
| AppIds.GroupApp | scripts/appids.py:81-83 | the inner loop appends the references of one group's descriptors, in key order |
| AppIds.GroupReferences | scripts/appids.py:79-83 | each `(id, number)` lists the references of the descriptors declaring it, in visit order; a pair is present exactly when that list is non-empty |
| AppIds.OrShifted | scripts/appids.py:88 | or-ing a value below `2^k` into a multiple of `2^k` is addition |
| AppIds.AppIdValueOfByte | scripts/appids.py:88 | for an application number below 256, `(id << 8) or number` (bitwise) is `id * 256 + number` |
| AppIds.HexRoundTrip | scripts/appids.py:88 | the hex digits of a number denote that number |
| AppIds.Hex | scripts/appids.py:88 | `%X` gives uppercase hex digits: one digit exactly below 16, and never a leading zero when there are more |
| AppIds.ZerosValue | scripts/appids.py:88 | leading zeros do not change the value a string of hex digits denotes |
| AppIds.Pad4 | scripts/appids.py:88 | `%04X` padding: exactly four digits when there were fewer, otherwise the digits unchanged; the added characters are zeros in front, and the value is kept |
| AppIds.AppIdKeySpec | scripts/appids.py:88 | the key is `0x` followed by the uppercase hex digits of the AppID: exactly four when it fits in four, otherwise as many as it needs and no leading zero |
| AppIds.AppIdKeyInjective | scripts/appids.py:88 | for application numbers below 256, different pairs never share a key |
| AppIds.AppIdKeyOverlap | scripts/appids.py:88 | without that bound the shift and the or overlap: `(0, 256)` and `(1, 0)` both give `0x0100` |
| AppIds.CollapseRoundTrip | scripts/appids.py:88 | collapsing a one-element list to its element loses nothing; only other lists are kept as lists |
| AppIds.TableForKeys | scripts/appids.py:85-88 | a key has an entry exactly when some visited pair formats to it |
| AppIds.TableStep | scripts/appids.py:88 | one more assignment keeps the table equal to its specification |
| AppIds.AddKey | scripts/appids.py:88 | the loop body assigns one formatted key and keeps the table equal to its specification |
| AppIds.TableId | scripts/appids.py:87-88 | the inner loop assigns the keys of one id's application numbers, in order |
| AppIds.AppIdTable | scripts/appids.py:85-88 | each key holds the collapsed references of the last pair, in visit order, that formats to it |
| AppIds.TableWithoutOverlap | scripts/appids.py:85-88 | with application numbers below 256 nothing is overwritten: each pair finds its own references under its own key |
| AppIds.AppIdTableComplete | scripts/appids.py:85-88 | for numbers below 256, every `(id, number)` of the grouping appears in the final table with its own references |

Some definitions carry no contract of their own; the lemmas above specify them:

- `DeviceHelper.IsOpenDevice` by `DeviceHelper.IsOpenDeviceAt`;
- `DeviceHelper.HwNameMapping` by `DeviceHelper.LookupOrder`, `DeviceHelper.OverrideIsLocal`, `DeviceHelper.OverridePrecedence` and `DeviceHelper.UnknownKeepsRawName`;
- `ReleaseManager.CheckIncludeRepo` by `ReleaseManager.AppRepos` and `ReleaseManager.AppReposStable`;
- `ReleaseManager.ShapeRelease` by `ReleaseManager.ShapeReleases` and `ReleaseManager.ShapeReleasesOrigin`;
- `DependencyManager.ParseManifest` by `DependencyManager.FetchDependencies`, `DependencyManager.AbsentOrEmptyManifest` and `DependencyManager.SuppressedNeverStored`; the lines after the header are parsed by `DependencyManager.ParseLines`, which `DependencyManager.ParseCounters` and `DependencyManager.ParseKeys` specify;
- `PathManager.Translit` by `PathManager.TranslitLength`, `PathManager.TranslitConcat`, `PathManager.TranslitPlain` and `PathManager.TranslitPasses`;
- `PathManager.CreatePath` by `PathManager.CreatePathDropsEmpty`, `PathManager.CreatePathPlain`, `PathManager.NamedPath` and `PathManager.TopOnly`;
- `PathManager.GetOamPath` and `PathManager.GetOfmPath` by `PathManager.OamOfmPaths` and `PathManager.OamOfmOverviewPaths`;
- `PathManager.GetDevicePath` by `PathManager.DevicePath` and `PathManager.DeviceOverviewPath`;
- `HtmlGenerator.IsLatestAt` by `HtmlGenerator.LatestUnique` and `HtmlGenerator.SelectLatest`;
- `HtmlGenerator.ModulesOfDevice` by `HtmlGenerator.ModulesOfDeviceSpec`;
- `HtmlGenerator.ModulesSortedOfDevice` by `HtmlGenerator.ModulesSortedOfDeviceSpec`;
- `AppIds.StripXml` by `AppIds.StripXmlSpec`;
- `AppIds.TableFor` by `AppIds.TableForKeys`, `AppIds.TableWithoutOverlap` and `AppIds.AppIdTableComplete`;
- `AppIds.AppIdKey` by `AppIds.AppIdKeySpec` and `AppIds.AppIdKeyInjective`.

## Left out

- The GitHub client is not part of this model, and neither is the HTTP traffic it carries. Its replies are parameters:
  - the listing pages;
  - the manifest text, with `None` for a missing file;
  - the release lists.
- Retries, sleeping and `sys.exit` in the client are not modelled.
- `app_sizing_stat.py` is not part of this model. Its `AppSizingStat` class reads statistics out of ETS application XML files with `xml.etree.ElementTree`, which is outside the metadata aggregation.
- `update_releases.py` is not part of this model. It is the driver script that wires the managers together and writes the JSON files.
- Rendering is not modelled: Jinja templates, `_render_template_to_file`, `os.makedirs`, writing files and the JSON dumps. The model computes the values handed to the templates.
- `fetch_all_dependencies` writes `dependencies.json`. That write is left out, and only the returned map is modelled.
- Logging, `print` and the debug messages are left out.
- Loading `devices_mapping.json` is left out. The mapping is a parameter of `DeviceHelper.HwNameMapping`.
- The XML side of `appids.py` is left out: walking the directory tree, parsing, finding the `ETS` element and `int(x, 0)`. Each descriptor that parsed enters as an `AppIds.Entry` with its path components and its two ids. The ids are natural numbers, so negative values written in a descriptor are not modelled. A descriptor that fails to parse produces no entry.
- The final JSON dump of `appids.py` uses `sort_keys=True`. That ordering belongs to the output and is not modelled.
- JSON `null` and missing fields are not modelled:
  - release fields are plain strings and booleans;
  - a release reply that is `None` rather than a list is not modelled, since the comprehension would fail on it.
- `html_generator.py` line 153 computes `devs_sorted` for a module page, but line 163 hands the unsorted `dev_usage_count` to the page. So only the counts of `HtmlGenerator.DeviceUsageOfModule` are modelled; that unused sort is not.
- `HtmlGenerator.DeviceUsageOfModule`, `HtmlGenerator.ModuleUsageOfDevice`: only their counts are stated, not their counters' key order. The counters keep first-occurrence order, as a `defaultdict` does. `html_generator.py` line 163 hands the dict `dev_usage_count` itself to the module page, so the page sees that order, but the model's contracts do not state it.
- `HtmlGenerator.SelectLatest` compares publication times as strings, the way the script does. It does not parse them as dates.
- `DependencyManager.NameFromGitUrl`: `.replace('.git', '')` removes every occurrence of `.git`, not only a trailing one, and the model follows the code. The lemma covers names that contain no `.git`.
- `AppIds.AppIdTableComplete` assumes application numbers below 256. For larger numbers `AppIds.AppIdKeyOverlap` shows that keys can collide, and the table then keeps the last pair's references.
- `path_manager.py` `get_base_path` and `ensure_directory` are not modelled. The first returns the base unchanged; the second creates a directory and returns `create_path`.
