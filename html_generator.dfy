/**
 * `HtmlGenerator`, without the rendering: the latest release and
 * prerelease of an application, the usage counters over all applications,
 * their ordering, and the per-module and per-device reverse indexes that
 * feed the overview pages.
 */
module HtmlGenerator {
  import opened Strings
  import opened Seqs
  import opened Wrappers
  import DeviceHelper
  import ReleaseManager

  type Release = ReleaseManager.Release

  // ---------------------------------------------------------------------
  // Latest release and prerelease

  /**
   * `i` is the release `create_html_for_repo` keeps among those whose
   * prerelease flag is `pre`: every earlier one of that kind was published
   * strictly earlier, and no later one strictly later.
   */
  predicate IsLatestAt(rs: seq<Release>, pre: bool, i: int) {
    0 <= i < |rs| && rs[i].prerelease == pre
    && (forall j :: 0 <= j < i && rs[j].prerelease == pre ==> Less(rs[j].publishedAt, rs[i].publishedAt))
    && (forall j :: i < j < |rs| && rs[j].prerelease == pre ==> !Less(rs[i].publishedAt, rs[j].publishedAt))
  }

  /** At most one position is the latest of its kind, so the selection is determined. */
  lemma LatestUnique(rs: seq<Release>, pre: bool, i: int, j: int)
    requires IsLatestAt(rs, pre, i) && IsLatestAt(rs, pre, j)
    ensures i == j
  {
  }

  predicate NoneOfKind(rs: seq<Release>, pre: bool) {
    forall j :: 0 <= j < |rs| ==> rs[j].prerelease != pre
  }

  /** One step of the selection loop for one kind. */
  lemma {:induction false} LatestStep(rs: seq<Release>, pre: bool, best: Option<Release>, bi: int)
    requires rs != []
    requires best.None? ==> NoneOfKind(rs[..|rs| - 1], pre)
    requires best.Some? ==> IsLatestAt(rs[..|rs| - 1], pre, bi) && best.value == rs[bi]
    ensures var x := rs[|rs| - 1];
      var take := x.prerelease == pre && (best.None? || Less(best.value.publishedAt, x.publishedAt));
      var best' := if take then Some(x) else best;
      var bi' := if take then |rs| - 1 else bi;
      (best'.None? ==> NoneOfKind(rs, pre))
      && (best'.Some? ==> IsLatestAt(rs, pre, bi') && best'.value == rs[bi'])
  {
    var n := |rs| - 1;
    var x := rs[n];
    var init := rs[..n];
    assert forall j :: 0 <= j < n ==> init[j] == rs[j];
    if x.prerelease == pre && best.Some? && Less(best.value.publishedAt, x.publishedAt) {
      forall j | 0 <= j < n && rs[j].prerelease == pre
        ensures Less(rs[j].publishedAt, x.publishedAt)
      {
        if j < bi {
          LessTransitive(rs[j].publishedAt, rs[bi].publishedAt, x.publishedAt);
        } else if j > bi {
          LessTotal(rs[j].publishedAt, rs[bi].publishedAt);
          if Less(rs[j].publishedAt, rs[bi].publishedAt) {
            LessTransitive(rs[j].publishedAt, rs[bi].publishedAt, x.publishedAt);
          }
        }
      }
    }
  }

  /**
   * The selection loop of `create_html_for_repo`: a release replaces the
   * one kept for its kind when none is kept yet or it was published
   * strictly later, so among equal timestamps the first one stays.
   */
  method SelectLatest(releases: seq<Release>) returns (latestRelease: Option<Release>, latestPrerelease: Option<Release>)
    ensures latestRelease.None? <==> NoneOfKind(releases, false)
    ensures latestRelease.Some? ==> exists i :: IsLatestAt(releases, false, i) && latestRelease.value == releases[i]
    ensures latestPrerelease.None? <==> NoneOfKind(releases, true)
    ensures latestPrerelease.Some? ==> exists i :: IsLatestAt(releases, true, i) && latestPrerelease.value == releases[i]
  {
    latestRelease := None;
    latestPrerelease := None;
    ghost var ri := -1;
    ghost var pi := -1;
    for k := 0 to |releases|
      invariant latestRelease.None? ==> NoneOfKind(releases[..k], false)
      invariant latestRelease.Some? ==> IsLatestAt(releases[..k], false, ri) && latestRelease.value == releases[..k][ri]
      invariant latestPrerelease.None? ==> NoneOfKind(releases[..k], true)
      invariant latestPrerelease.Some? ==> IsLatestAt(releases[..k], true, pi) && latestPrerelease.value == releases[..k][pi]
    {
      var release := releases[k];
      assert releases[..k + 1][..k] == releases[..k] && releases[..k + 1][k] == release;
      LatestStep(releases[..k + 1], false, latestRelease, ri);
      LatestStep(releases[..k + 1], true, latestPrerelease, pi);
      if !release.prerelease {
        if latestRelease.None? || Less(latestRelease.value.publishedAt, release.publishedAt) {
          latestRelease := Some(release);
          ri := k;
        }
      } else {
        if latestPrerelease.None? || Less(latestPrerelease.value.publishedAt, release.publishedAt) {
          latestPrerelease := Some(release);
          pi := k;
        }
      }
    }
    assert releases[..|releases|] == releases;
  }

  // ---------------------------------------------------------------------
  // Counters

  /** One application of the overview: its module names (a dict's keys) and its device list. */
  datatype App = App(name: string, modules: seq<string>, devices: seq<string>)

  /** Module names are the keys of a dict, hence distinct. */
  predicate WellFormed(apps: seq<App>) {
    forall i :: 0 <= i < |apps| ==> Distinct(apps[i].modules)
  }

  /** Sum of the counts of `keys`. */
  function SumCounts(keys: seq<string>, count: map<string, nat>): nat {
    if keys == [] then 0
    else SumCounts(keys[..|keys| - 1], count) + (if keys[|keys| - 1] in count then count[keys[|keys| - 1]] else 0)
  }

  /**
   * A `defaultdict(int)` used as a counter: keys in insertion order and
   * their counts. A key is present only once it has been counted.
   */
  datatype Counter = Counter(keys: seq<string>, count: map<string, nat>) {
    ghost predicate Valid() {
      Distinct(keys)
      && (forall k :: k in count <==> k in keys)
      && (forall k :: k in count ==> count[k] >= 1)
    }

    /** Reading a counter: an absent key counts 0. */
    function Get(k: string): nat {
      if k in count then count[k] else 0
    }

    /** `counter[k] += 1` */
    function Inc(k: string): (c: Counter)
      requires Valid()
      ensures c.Valid()
      ensures c.Get(k) == Get(k) + 1
      ensures forall j :: j != k ==> c.Get(j) == Get(j)
      ensures c.keys == if k in count then keys else keys + [k]
    {
      if k in count then Counter(keys, count[k := count[k] + 1]) else Counter(keys + [k], count[k := 1])
    }

    /** `counter.items()` */
    function Items(): (items: seq<(string, nat)>)
      requires Valid()
    {
      seq(|keys|, i requires 0 <= i < |keys| => (keys[i], count[keys[i]]))
    }

    function Total(): nat {
      SumCounts(keys, count)
    }
  }

  const Empty := Counter([], map[])

  lemma {:induction false} SumCountsFrame(keys: seq<string>, count: map<string, nat>, k: string, v: nat)
    requires k !in keys
    ensures SumCounts(keys, count[k := v]) == SumCounts(keys, count)
  {
    if keys != [] {
      SumCountsFrame(keys[..|keys| - 1], count, k, v);
    }
  }

  lemma {:induction false} SumCountsBump(keys: seq<string>, count: map<string, nat>, k: string)
    requires Distinct(keys) && k in keys && k in count
    ensures SumCounts(keys, count[k := count[k] + 1]) == SumCounts(keys, count) + 1
  {
    var init := keys[..|keys| - 1];
    var last := keys[|keys| - 1];
    assert forall i :: 0 <= i < |init| ==> init[i] == keys[i];
    if last == k {
      assert k !in init;
      SumCountsFrame(init, count, k, count[k] + 1);
    } else {
      SumCountsBump(init, count, k);
    }
  }

  /** Every increment adds exactly one to the total. */
  lemma IncTotal(c: Counter, k: string)
    requires c.Valid()
    ensures c.Inc(k).Total() == c.Total() + 1
  {
    if k in c.count {
      SumCountsBump(c.keys, c.count, k);
    } else {
      SumCountsFrame(c.keys, c.count, k, 1);
      assert (c.keys + [k])[..|c.keys|] == c.keys;
    }
  }

  /** Number of applications whose module map contains `m`. */
  function AppsWithModule(apps: seq<App>, m: string): (n: nat)
    ensures n <= |apps|
    ensures n == 0 <==> forall i :: 0 <= i < |apps| ==> m !in apps[i].modules
  {
    if apps == [] then 0
    else AppsWithModule(apps[..|apps| - 1], m) + (if m in apps[|apps| - 1].modules then 1 else 0)
  }

  /** Occurrences of `d` across all device lists. */
  function Occurrences(apps: seq<App>, d: string): (n: nat)
    ensures n == 0 <==> forall i :: 0 <= i < |apps| ==> d !in apps[i].devices
  {
    if apps == [] then 0 else Occurrences(apps[..|apps| - 1], d) + Count(apps[|apps| - 1].devices, d)
  }

  /** Total length of all device lists. */
  function TotalDevices(apps: seq<App>): nat {
    if apps == [] then 0 else TotalDevices(apps[..|apps| - 1]) + |apps[|apps| - 1].devices|
  }

  /** One more entry adds one to its own count only. */
  lemma CountOne(s: seq<string>, x: string, e: string)
    ensures Count(s + [x], e) == Count(s, e) + (if x == e then 1 else 0)
  {
    assert (s + [x])[..|s|] == s;
  }

  /** The entries of `s` that go to the first-party counter, or to the other one. */
  function OpenCount(s: seq<string>, d: string): nat {
    if DeviceHelper.IsOpenDevice(d) then Count(s, d) else 0
  }

  function OtherCount(s: seq<string>, d: string): nat {
    if DeviceHelper.IsOpenDevice(d) then 0 else Count(s, d)
  }

  /** The inner module loop: one more count for each module of one application. */
  method AddModules(c: Counter, modules: seq<string>) returns (c': Counter)
    requires c.Valid() && Distinct(modules)
    ensures c'.Valid()
    ensures forall m :: c'.Get(m) == c.Get(m) + (if m in modules then 1 else 0)
  {
    c' := c;
    for j := 0 to |modules|
      invariant c'.Valid()
      invariant forall m :: c'.Get(m) == c.Get(m) + (if m in modules[..j] then 1 else 0)
    {
      assert modules[..j + 1] == modules[..j] + [modules[j]];
      assert modules[j] !in modules[..j];
      c' := c'.Inc(modules[j]);
    }
    assert modules[..|modules|] == modules;
  }

  /** `modules_usage_count`: each application adds one to each of its modules. */
  method ModulesUsage(apps: seq<App>) returns (modulesUsage: Counter)
    requires WellFormed(apps)
    ensures modulesUsage.Valid()
    ensures forall m :: modulesUsage.Get(m) == AppsWithModule(apps, m)
  {
    modulesUsage := Empty;
    for i := 0 to |apps|
      invariant modulesUsage.Valid()
      invariant forall m :: modulesUsage.Get(m) == AppsWithModule(apps[..i], m)
    {
      modulesUsage := AddModules(modulesUsage, apps[i].modules);
      assert apps[..i + 1][..i] == apps[..i];
    }
    assert apps[..|apps|] == apps;
  }

  /** `c'` is `c` after counting the entries of `s` that `sel` accepts. */
  ghost predicate Adds(c': Counter, c: Counter, s: seq<string>, sel: string -> bool) {
    c'.Valid() && forall d :: c'.Get(d) == c.Get(d) + (if sel(d) then Count(s, d) else 0)
  }

  /** Counting an accepted entry. */
  lemma AddsInc(c': Counter, c: Counter, s: seq<string>, sel: string -> bool, x: string)
    requires Adds(c', c, s, sel) && sel(x)
    ensures Adds(c'.Inc(x), c, s + [x], sel)
  {
    var c'' := c'.Inc(x);
    forall d ensures c''.Get(d) == c.Get(d) + (if sel(d) then Count(s + [x], d) else 0) {
      CountOne(s, x, d);
    }
  }

  /** Skipping a rejected entry. */
  lemma AddsSkip(c': Counter, c: Counter, s: seq<string>, sel: string -> bool, x: string)
    requires Adds(c', c, s, sel) && !sel(x)
    ensures Adds(c', c, s + [x], sel)
  {
    forall d ensures c'.Get(d) == c.Get(d) + (if sel(d) then Count(s + [x], d) else 0) {
      CountOne(s, x, d);
    }
  }

  function Not(p: string -> bool): string -> bool {
    (d: string) => !p(d)
  }

  /**
   * `hw'` and `other'` are `hw` and `other` after the entries of `s`: each
   * entry went to exactly one of them, to the first when `open` holds of it.
   */
  ghost predicate Splits(hw': Counter, other': Counter, hw: Counter, other: Counter, s: seq<string>, open: string -> bool) {
    && Adds(hw', hw, s, open)
    && Adds(other', other, s, Not(open))
    && hw'.Total() + other'.Total() == hw.Total() + other.Total() + |s|
  }

  /** An entry the test accepts goes to the first counter. */
  lemma SplitOpen(hw': Counter, other': Counter, hw: Counter, other: Counter, s: seq<string>, open: string -> bool, x: string)
    requires Splits(hw', other', hw, other, s, open) && open(x)
    ensures Splits(hw'.Inc(x), other', hw, other, s + [x], open)
  {
    AddsInc(hw', hw, s, open, x);
    AddsSkip(other', other, s, Not(open), x);
    IncTotal(hw', x);
  }

  /** Any other entry goes to the second counter. */
  lemma SplitOther(hw': Counter, other': Counter, hw: Counter, other: Counter, s: seq<string>, open: string -> bool, x: string)
    requires Splits(hw', other', hw, other, s, open) && !open(x)
    ensures Splits(hw', other'.Inc(x), hw, other, s + [x], open)
  {
    AddsSkip(hw', hw, s, open, x);
    AddsInc(other', other, s, Not(open), x);
    IncTotal(other', x);
  }

  /** One entry of a device list goes to the counter its name selects. */
  method AddDevice(hw': Counter, other': Counter, ghost hw: Counter, ghost other: Counter, ghost s: seq<string>, d: string)
    returns (hw'': Counter, other'': Counter)
    requires Splits(hw', other', hw, other, s, DeviceHelper.IsOpenDevice)
    ensures Splits(hw'', other'', hw, other, s + [d], DeviceHelper.IsOpenDevice)
  {
    if DeviceHelper.IsOpenDevice(d) {
      SplitOpen(hw', other', hw, other, s, DeviceHelper.IsOpenDevice, d);
      hw'', other'' := hw'.Inc(d), other';
    } else {
      SplitOther(hw', other', hw, other, s, DeviceHelper.IsOpenDevice, d);
      hw'', other'' := hw', other'.Inc(d);
    }
  }

  /** The inner device loop: each entry of one device list goes to exactly one of the two counters. */
  method AddDevices(hw: Counter, other: Counter, hwList: seq<string>) returns (hw': Counter, other': Counter)
    requires hw.Valid() && other.Valid()
    ensures hw'.Valid() && other'.Valid()
    ensures forall d :: hw'.Get(d) == hw.Get(d) + OpenCount(hwList, d)
    ensures forall d :: other'.Get(d) == other.Get(d) + OtherCount(hwList, d)
    ensures hw'.Total() + other'.Total() == hw.Total() + other.Total() + |hwList|
  {
    hw' := hw;
    other' := other;
    for j := 0 to |hwList|
      invariant Splits(hw', other', hw, other, hwList[..j], DeviceHelper.IsOpenDevice)
    {
      hw', other' := AddDevice(hw', other', hw, other, hwList[..j], hwList[j]);
      assert hwList[..j + 1] == hwList[..j] + [hwList[j]];
    }
    assert hwList[..|hwList|] == hwList;
  }

  /** The two hardware counters after the applications `apps`. */
  ghost predicate HardwareCounted(hw: Counter, other: Counter, apps: seq<App>) {
    && hw.Valid() && other.Valid()
    && (forall d :: hw.Get(d) == if DeviceHelper.IsOpenDevice(d) then Occurrences(apps, d) else 0)
    && (forall d :: other.Get(d) == if DeviceHelper.IsOpenDevice(d) then 0 else Occurrences(apps, d))
    && hw.Total() + other.Total() == TotalDevices(apps)
  }

  lemma HardwareStep(hw: Counter, other: Counter, apps: seq<App>, a: App, hw': Counter, other': Counter)
    requires HardwareCounted(hw, other, apps) && hw'.Valid() && other'.Valid()
    requires forall d :: hw'.Get(d) == hw.Get(d) + OpenCount(a.devices, d)
    requires forall d :: other'.Get(d) == other.Get(d) + OtherCount(a.devices, d)
    requires hw'.Total() + other'.Total() == hw.Total() + other.Total() + |a.devices|
    ensures HardwareCounted(hw', other', apps + [a])
  {
    assert (apps + [a])[..|apps|] == apps;
  }

  /**
   * `hardware_usage_count` and `hardware_other_usage_count`: every entry of
   * every device list adds one to exactly one of them, chosen by
   * `is_open_device`, so together they count every entry once.
   */
  method HardwareUsage(apps: seq<App>) returns (hardwareUsage: Counter, hardwareOtherUsage: Counter)
    ensures hardwareUsage.Valid() && hardwareOtherUsage.Valid()
    ensures forall d :: hardwareUsage.Get(d) == if DeviceHelper.IsOpenDevice(d) then Occurrences(apps, d) else 0
    ensures forall d :: hardwareOtherUsage.Get(d) == if DeviceHelper.IsOpenDevice(d) then 0 else Occurrences(apps, d)
    ensures hardwareUsage.Total() + hardwareOtherUsage.Total() == TotalDevices(apps)
  {
    hardwareUsage := Empty;
    hardwareOtherUsage := Empty;
    for i := 0 to |apps|
      invariant HardwareCounted(hardwareUsage, hardwareOtherUsage, apps[..i])
    {
      ghost var hw, other := hardwareUsage, hardwareOtherUsage;
      hardwareUsage, hardwareOtherUsage := AddDevices(hardwareUsage, hardwareOtherUsage, apps[i].devices);
      HardwareStep(hw, other, apps[..i], apps[i], hardwareUsage, hardwareOtherUsage);
      assert apps[..i + 1] == apps[..i] + [apps[i]];
    }
    assert apps[..|apps|] == apps;
  }

  // ---------------------------------------------------------------------
  // Ordering

  /** A counter entry: a name and its count. */
  type Item = (string, nat)

  /** The sort key `(-count, name)`: the higher count first, then the smaller name. */
  predicate Before(a: Item, b: Item) {
    a.1 > b.1 || (a.1 == b.1 && Less(a.0, b.0))
  }

  /** `Before` is a strict total order on entries. */
  lemma BeforeOrder(a: Item, b: Item, c: Item)
    ensures !Before(a, a)
    ensures Before(a, b) && Before(b, c) ==> Before(a, c)
    ensures a == b || Before(a, b) || Before(b, a)
  {
    LessIrreflexive(a.0);
    if Before(a, b) && Before(b, c) && a.1 == b.1 && b.1 == c.1 {
      LessTransitive(a.0, b.0, c.0);
    }
    LessTotal(a.0, b.0);
  }

  /** "Not after" is transitive. */
  lemma NotBeforeTrans(a: Item, b: Item, c: Item)
    requires !Before(b, a) && !Before(c, b)
    ensures !Before(c, a)
  {
    BeforeOrder(a, b, c);
    BeforeOrder(b, a, c);
    BeforeOrder(c, a, b);
    BeforeOrder(a, c, b);
    BeforeOrder(b, c, a);
    BeforeOrder(c, b, a);
  }

  predicate SortedBy(s: seq<Item>) {
    forall i, j :: 0 <= i < j < |s| ==> !Before(s[j], s[i])
  }

  function Insert(x: Item, s: seq<Item>): seq<Item> {
    if s == [] then [x]
    else if !Before(s[0], x) then [x] + s
    else [s[0]] + Insert(x, s[1..])
  }

  /** Inserting adds exactly one occurrence of the entry. */
  lemma {:induction false} InsertPerm(x: Item, s: seq<Item>)
    ensures multiset(Insert(x, s)) == multiset(s) + multiset{x}
  {
    if s != [] {
      assert s == [s[0]] + s[1..];
      if Before(s[0], x) {
        InsertPerm(x, s[1..]);
      }
    }
  }

  /** The entries after insertion are the old ones and the new one. */
  lemma {:induction false} InsertElems(x: Item, s: seq<Item>)
    ensures forall y :: y in Insert(x, s) <==> y == x || y in s
  {
    if s != [] {
      assert s == [s[0]] + s[1..];
      if Before(s[0], x) {
        InsertElems(x, s[1..]);
      }
    }
  }

  /** Inserting into a sorted sequence keeps it sorted. */
  lemma {:induction false} InsertSorted(x: Item, s: seq<Item>)
    requires SortedBy(s)
    ensures SortedBy(Insert(x, s))
  {
    if s == [] {
    } else if !Before(s[0], x) {
      forall j | 0 <= j < |s| ensures !Before(s[j], x) {
        if j > 0 {
          NotBeforeTrans(x, s[0], s[j]);
        }
      }
      assert s == [s[0]] + s[1..];
    } else {
      var t := s[1..];
      SortedTail(s);
      InsertSorted(x, t);
      InsertElems(x, t);
      var r := Insert(x, t);
      BeforeOrder(s[0], x, s[0]);
      forall k | 0 <= k < |r| ensures !Before(r[k], s[0]) {
        assert r[k] in r;
        if r[k] != x {
          var m :| 0 <= m < |t| && t[m] == r[k];
          assert s[m + 1] == r[k];
        }
      }
      assert s == [s[0]] + t;
    }
  }

  /** `sorted(counter.items(), key=lambda item: (-item[1], item[0]))` */
  function SortByUsage(items: seq<Item>): (r: seq<Item>)
    ensures SortedBy(r)
    ensures multiset(r) == multiset(items)
  {
    if items == [] then []
    else
      var t := SortByUsage(items[1..]);
      InsertSorted(items[0], t);
      InsertPerm(items[0], t);
      assert items == [items[0]] + items[1..];
      Insert(items[0], t)
  }

  lemma SortedTail(a: seq<Item>)
    requires SortedBy(a) && a != []
    ensures SortedBy(a[1..])
  {
    var t := a[1..];
    forall i, j | 0 <= i < j < |t| ensures !Before(t[j], t[i]) {
      assert t[i] == a[i + 1] && t[j] == a[j + 1];
    }
  }

  /** Two sorted permutations start with the same entry. */
  lemma SortedHeads(a: seq<Item>, b: seq<Item>)
    requires SortedBy(a) && SortedBy(b) && multiset(a) == multiset(b) && a != [] && b != []
    ensures a[0] == b[0]
  {
    assert a[0] in multiset(b) && b[0] in multiset(a);
    var k :| 0 <= k < |b| && b[k] == a[0];
    var l :| 0 <= l < |a| && a[l] == b[0];
    BeforeOrder(a[0], b[0], a[0]);
    assert !Before(a[0], b[0]) by {
      if k > 0 { assert !Before(b[k], b[0]); }
    }
    assert !Before(b[0], a[0]) by {
      if l > 0 { assert !Before(a[l], a[0]); }
    }
  }

  lemma MultisetTails(a: seq<Item>, b: seq<Item>)
    requires a != [] && b != [] && a[0] == b[0] && multiset(a) == multiset(b)
    ensures multiset(a[1..]) == multiset(b[1..])
  {
    assert a == [a[0]] + a[1..] && b == [b[0]] + b[1..];
    forall x ensures multiset(a[1..])[x] == multiset(b[1..])[x] {
      assert multiset(a)[x] == multiset{a[0]}[x] + multiset(a[1..])[x];
      assert multiset(b)[x] == multiset{a[0]}[x] + multiset(b[1..])[x];
    }
  }

  /** The order is total, so a sorted permutation is unique: the sorted lists are determined by the counters. */
  lemma {:induction false} SortedUnique(a: seq<Item>, b: seq<Item>)
    requires SortedBy(a) && SortedBy(b) && multiset(a) == multiset(b)
    ensures a == b
    decreases |a|
  {
    assert |a| == |multiset(a)| == |multiset(b)| == |b|;
    if a != [] {
      SortedHeads(a, b);
      MultisetTails(a, b);
      SortedTail(a);
      SortedTail(b);
      SortedUnique(a[1..], b[1..]);
      assert a == [a[0]] + a[1..] && b == [b[0]] + b[1..];
    }
  }

  /** The items of a counter are its keys with their counts, each key once. */
  lemma ItemsSpec(c: Counter)
    requires c.Valid()
    ensures forall p: Item :: p in c.Items() <==> p.0 in c.count && p.1 == c.count[p.0]
    ensures Distinct(c.Items())
  {
    var items := c.Items();
    forall p: Item | p.0 in c.count && p.1 == c.count[p.0] ensures p in items {
      var i :| 0 <= i < |c.keys| && c.keys[i] == p.0;
      assert items[i] == p;
    }
  }

  /**
   * The overview lists of `update_overview_tables`: each counter's items,
   * ordered by count (descending) and then name.
   */
  method OverviewTables(apps: seq<App>)
    returns (modulesUsage: Counter, hardwareUsage: Counter, hardwareOtherUsage: Counter,
             modulesSorted: seq<Item>, devicesSorted: seq<Item>, devicesOtherSorted: seq<Item>)
    requires WellFormed(apps)
    ensures modulesUsage.Valid() && hardwareUsage.Valid() && hardwareOtherUsage.Valid()
    ensures forall m :: modulesUsage.Get(m) == AppsWithModule(apps, m)
    ensures forall d :: hardwareUsage.Get(d) == if DeviceHelper.IsOpenDevice(d) then Occurrences(apps, d) else 0
    ensures forall d :: hardwareOtherUsage.Get(d) == if DeviceHelper.IsOpenDevice(d) then 0 else Occurrences(apps, d)
    ensures SortedBy(modulesSorted) && multiset(modulesSorted) == multiset(modulesUsage.Items())
    ensures SortedBy(devicesSorted) && multiset(devicesSorted) == multiset(hardwareUsage.Items())
    ensures SortedBy(devicesOtherSorted) && multiset(devicesOtherSorted) == multiset(hardwareOtherUsage.Items())
  {
    modulesUsage := ModulesUsage(apps);
    hardwareUsage, hardwareOtherUsage := HardwareUsage(apps);
    modulesSorted := SortByUsage(modulesUsage.Items());
    devicesSorted := SortByUsage(hardwareUsage.Items());
    devicesOtherSorted := SortByUsage(hardwareOtherUsage.Items());
  }

  /** A sorted module list holds exactly the modules in use, each with the number of applications using it. */
  lemma ModulesSortedSpec(apps: seq<App>, modulesUsage: Counter, modulesSorted: seq<Item>)
    requires modulesUsage.Valid() && forall m :: modulesUsage.Get(m) == AppsWithModule(apps, m)
    requires multiset(modulesSorted) == multiset(modulesUsage.Items())
    ensures forall p: Item :: p in modulesSorted <==> p.1 > 0 && p.1 == AppsWithModule(apps, p.0)
  {
    ItemsSpec(modulesUsage);
    forall p: Item ensures p in modulesSorted <==> p in modulesUsage.Items() {
      assert p in modulesSorted <==> p in multiset(modulesSorted);
    }
    forall p: Item | p.1 > 0 && p.1 == AppsWithModule(apps, p.0) ensures p.0 in modulesUsage.count {
      assert modulesUsage.Get(p.0) > 0;
    }
  }

  // ---------------------------------------------------------------------
  // Reverse indexes

  /** Occurrences of device `d` in the device lists of the applications that contain module `m`. */
  function DevicesWithModule(apps: seq<App>, m: string, d: string): (n: nat)
    ensures n <= Occurrences(apps, d)
  {
    if apps == [] then 0
    else
      var last := apps[|apps| - 1];
      DevicesWithModule(apps[..|apps| - 1], m, d) + (if m in last.modules then Count(last.devices, d) else 0)
  }

  /** Number of applications that list device `d` and contain module `m`. */
  function AppsWithBoth(apps: seq<App>, d: string, m: string): (n: nat)
    ensures n <= AppsWithModule(apps, m)
    ensures n == 0 <==> forall i :: 0 <= i < |apps| ==> !(d in apps[i].devices && m in apps[i].modules)
  {
    if apps == [] then 0
    else
      var last := apps[|apps| - 1];
      AppsWithBoth(apps[..|apps| - 1], d, m) + (if d in last.devices && m in last.modules then 1 else 0)
  }

  /** `c'` is `c` after counting every entry of `s`. */
  ghost predicate Counted(c': Counter, c: Counter, s: seq<string>) {
    c'.Valid() && forall d :: c'.Get(d) == c.Get(d) + Count(s, d)
  }

  /** Counting one more entry. */
  lemma CountedInc(c': Counter, c: Counter, s: seq<string>, x: string)
    requires Counted(c', c, s)
    ensures Counted(c'.Inc(x), c, s + [x])
  {
    forall d ensures c'.Inc(x).Get(d) == c.Get(d) + Count(s + [x], d) {
      CountOne(s, x, d);
    }
  }

  /** `counter[x] += 1` */
  method CountEntry(c': Counter, ghost c: Counter, ghost s: seq<string>, x: string) returns (c'': Counter)
    requires Counted(c', c, s)
    ensures Counted(c'', c, s + [x])
  {
    CountedInc(c', c, s, x);
    c'' := c'.Inc(x);
  }

  /** Each entry of `s` adds one to its counter entry. */
  method AddEach(c: Counter, s: seq<string>) returns (c': Counter)
    requires c.Valid()
    ensures c'.Valid()
    ensures forall d :: c'.Get(d) == c.Get(d) + Count(s, d)
  {
    c' := c;
    for j := 0 to |s|
      invariant Counted(c', c, s[..j])
    {
      c' := CountEntry(c', c, s[..j], s[j]);
      assert s[..j + 1] == s[..j] + [s[j]];
    }
    assert s[..|s|] == s;
  }

  /** `dev_usage_count` for one module: the device entries of every application containing it. */
  method DeviceUsageOfModule(apps: seq<App>, ofmName: string) returns (devUsageCount: Counter)
    ensures devUsageCount.Valid()
    ensures forall d :: devUsageCount.Get(d) == DevicesWithModule(apps, ofmName, d)
  {
    devUsageCount := Empty;
    for i := 0 to |apps|
      invariant devUsageCount.Valid()
      invariant forall d :: devUsageCount.Get(d) == DevicesWithModule(apps[..i], ofmName, d)
    {
      if ofmName in apps[i].modules {
        devUsageCount := AddEach(devUsageCount, apps[i].devices);
      }
      assert apps[..i + 1][..i] == apps[..i];
    }
    assert apps[..|apps|] == apps;
  }

  /** A sorted list of a counter's items holds exactly its counted keys, each with its count. */
  lemma SortedItems(c: Counter, sorted: seq<Item>)
    requires c.Valid() && multiset(sorted) == multiset(c.Items())
    ensures forall p: Item :: p in sorted <==> p.1 > 0 && p.1 == c.Get(p.0)
  {
    ItemsSpec(c);
    forall p: Item ensures p in sorted <==> p in c.Items() {
      assert p in sorted <==> p in multiset(sorted);
    }
  }

  /**
   * `ofm_usage_count` for one device: the modules of every application
   * listing it; and `devs_sorted`, its items by descending count and then
   * name, which the device page receives as `ofm_sorted`.
   */
  method ModuleUsageOfDevice(apps: seq<App>, deviceName: string) returns (ofmUsageCount: Counter, ofmSorted: seq<Item>)
    requires WellFormed(apps)
    ensures ofmUsageCount.Valid()
    ensures forall m :: ofmUsageCount.Get(m) == AppsWithBoth(apps, deviceName, m)
    ensures SortedBy(ofmSorted) && multiset(ofmSorted) == multiset(ofmUsageCount.Items())
    ensures forall p: Item :: p in ofmSorted <==> p.1 > 0 && p.1 == AppsWithBoth(apps, deviceName, p.0)
  {
    ofmUsageCount := Empty;
    for i := 0 to |apps|
      invariant ofmUsageCount.Valid()
      invariant forall m :: ofmUsageCount.Get(m) == AppsWithBoth(apps[..i], deviceName, m)
    {
      if deviceName in apps[i].devices {
        ofmUsageCount := AddModules(ofmUsageCount, apps[i].modules);
      }
      assert apps[..i + 1][..i] == apps[..i];
    }
    assert apps[..|apps|] == apps;
    ofmSorted := SortByUsage(ofmUsageCount.Items());
    SortedItems(ofmUsageCount, ofmSorted);
  }

  /** `oam_data_of_device`: the applications listing the device, in their order. */
  function OamDataOfDevice(apps: seq<App>, deviceName: string): (r: seq<App>)
    ensures forall a :: a in r <==> a in apps && deviceName in a.devices
  {
    Filter((a: App) => deviceName in a.devices, apps)
  }

  /** `modules_of_device`: every module of those applications. */
  function ModulesOfDevice(apps: seq<App>, deviceName: string): set<string> {
    var of := OamDataOfDevice(apps, deviceName);
    set i, m | 0 <= i < |of| && m in of[i].modules :: m
  }

  /** A module belongs to a device exactly when some application has both, i.e. when its per-device count is positive. */
  lemma ModulesOfDeviceSpec(apps: seq<App>, deviceName: string, m: string)
    ensures m in ModulesOfDevice(apps, deviceName) <==> AppsWithBoth(apps, deviceName, m) > 0
  {
    if AppsWithBoth(apps, deviceName, m) > 0 {
      var i :| 0 <= i < |apps| && deviceName in apps[i].devices && m in apps[i].modules;
      ModuleOfListedApp(apps, deviceName, i, m);
    }
    if m in ModulesOfDevice(apps, deviceName) {
      ListedAppOfModule(apps, deviceName, m);
    }
  }

  /** A module of an application that lists the device is one of the device's modules. */
  lemma ModuleOfListedApp(apps: seq<App>, deviceName: string, i: int, m: string)
    requires 0 <= i < |apps| && deviceName in apps[i].devices && m in apps[i].modules
    ensures m in ModulesOfDevice(apps, deviceName)
  {
    var of := OamDataOfDevice(apps, deviceName);
    assert apps[i] in of;
    var k :| 0 <= k < |of| && of[k] == apps[i];
  }

  /** Each of the device's modules comes from an application that lists the device. */
  lemma ListedAppOfModule(apps: seq<App>, deviceName: string, m: string)
    requires m in ModulesOfDevice(apps, deviceName)
    ensures exists i :: 0 <= i < |apps| && deviceName in apps[i].devices && m in apps[i].modules
  {
    var of := OamDataOfDevice(apps, deviceName);
    var k :| 0 <= k < |of| && m in of[k].modules;
    assert of[k] in apps;
  }

  /** `modules_sorted_of_device`: the overall module list, restricted to the device's modules. */
  function ModulesSortedOfDevice(modulesSorted: seq<Item>, apps: seq<App>, deviceName: string): seq<Item> {
    var mods := ModulesOfDevice(apps, deviceName);
    Filter((p: Item) => p.0 in mods, modulesSorted)
  }

  /**
   * The per-device module list keeps exactly the entries of the device's
   * modules, in the overall order, so it is still sorted.
   */
  lemma ModulesSortedOfDeviceSpec(modulesSorted: seq<Item>, apps: seq<App>, deviceName: string)
    requires SortedBy(modulesSorted)
    ensures var r := ModulesSortedOfDevice(modulesSorted, apps, deviceName);
      SortedBy(r)
      && forall p: Item :: p in r <==> p in modulesSorted && p.0 in ModulesOfDevice(apps, deviceName)
  {
    var mods := ModulesOfDevice(apps, deviceName);
    var keep := (p: Item) => p.0 in mods;
    FilterKeepsOrder(keep, modulesSorted, (x: Item, y: Item) => !Before(y, x));
  }
}
