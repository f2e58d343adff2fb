/**
 * `AppIds`: where each application descriptor was found (a group and a key
 * taken from its path), and the table from AppID (`0x` and four or more hex
 * digits of `(OpenKnxId << 8) | ApplicationNumber`) to the descriptors that
 * declare it. The file walk and the XML parsing are outside the model: each
 * descriptor that parsed enters as an `Entry`.
 */
module AppIds {
  import opened Wrappers
  import opened Strings
  import opened Seqs
  import opened OrderedMaps

  /** A parsed descriptor: its path relative to the root, as components, and its two ids. */
  datatype Entry = Entry(parts: seq<string>, openKnxId: nat, applicationNumber: nat)

  datatype Attributes = Attributes(openKnxId: nat, applicationNumber: nat)

  function AttributesOf(e: Entry): Attributes {
    Attributes(e.openKnxId, e.applicationNumber)
  }

  /** `sep.join(parts)` */
  function JoinWith(parts: seq<string>, sep: string): string {
    if parts == [] then ""
    else if |parts| == 1 then parts[0]
    else JoinWith(parts[..|parts| - 1], sep) + sep + parts[|parts| - 1]
  }

  /**
   * The group and the key of a descriptor: a file below a sub-directory is
   * grouped under that directory and keyed by the rest of its path; a file
   * directly in the root is grouped under `.`. Backslashes become `/`.
   */
  function SplitRelative(parts: seq<string>): (r: (string, string))
    ensures '\\' !in r.1
    ensures |parts| > 1 ==> r.0 == parts[0]
    ensures |parts| <= 1 ==> r.0 == "."
  {
    var second := if |parts| > 1 then JoinWith(parts[1..], "/") else if parts == [] then "." else parts[0];
    ReplaceRemovesChar(second, '\\', "/");
    (if |parts| > 1 then parts[0] else ".", Replace(second, "\\", "/"))
  }

  /** For components free of backslashes, the key is the rest of the path joined by `/`, or the file name itself. */
  lemma SplitRelativePlain(parts: seq<string>)
    requires forall i :: 0 <= i < |parts| ==> '\\' !in parts[i]
    ensures |parts| > 1 ==> SplitRelative(parts) == (parts[0], JoinWith(parts[1..], "/"))
    ensures |parts| == 1 ==> SplitRelative(parts) == (".", parts[0])
  {
    if |parts| > 1 {
      JoinWithoutChar(parts[1..], "/", '\\');
      ReplaceCharAbsent(JoinWith(parts[1..], "/"), '\\', "/");
    } else if |parts| == 1 {
      ReplaceCharAbsent(parts[0], '\\', "/");
    }
  }

  lemma {:induction false} JoinWithoutChar(parts: seq<string>, sep: string, c: char)
    requires c !in sep && forall i :: 0 <= i < |parts| ==> c !in parts[i]
    ensures c !in JoinWith(parts, sep)
  {
    if |parts| > 1 {
      JoinWithoutChar(parts[..|parts| - 1], sep, c);
    }
  }

  /** The entries that split to group `g` and key `k`. */
  function SplitsTo(g: string, k: string): Entry -> bool {
    (e: Entry) => SplitRelative(e.parts) == (g, k)
  }

  /** Index of the last entry with group `g` and key `k`, or -1. */
  function LastAt(entries: seq<Entry>, g: string, k: string): (r: int)
    ensures -1 <= r < |entries|
    ensures r >= 0 ==> SplitRelative(entries[r].parts) == (g, k)
    ensures forall j :: r < j < |entries| ==> SplitRelative(entries[j].parts) != (g, k)
  {
    LastWhere(SplitsTo(g, k), entries)
  }

  /** `result` holds, for every group and key, the attributes of the last entry splitting to them. */
  ghost predicate Extracted(result: OMap2<string, string, Attributes>, entries: seq<Entry>) {
    && Valid2(result)
    && forall g, k :: Lookup2(result, g, k) ==
                      if LastAt(entries, g, k) < 0 then None else Some(AttributesOf(entries[LastAt(entries, g, k)]))
  }

  /** Storing one more entry under its group and key keeps the result exact. */
  lemma ExtractStep(result: OMap2<string, string, Attributes>, entries: seq<Entry>, e: Entry)
    requires Extracted(result, entries)
    ensures Extracted(Put2(result, SplitRelative(e.parts).0, SplitRelative(e.parts).1, AttributesOf(e)), entries + [e])
  {
    var entries' := entries + [e];
    forall g, k ensures LastAt(entries', g, k) == if SplitRelative(e.parts) == (g, k) then |entries| else LastAt(entries, g, k) {
      LastWhereSnoc(SplitsTo(g, k), entries, e);
    }
    forall g, k | LastAt(entries, g, k) >= 0 ensures entries'[LastAt(entries, g, k)] == entries[LastAt(entries, g, k)] {
    }
  }

  /** The body of the extraction loop: `result.setdefault(group, {})[key] = attributes`. */
  method StoreEntry(result: OMap2<string, string, Attributes>, ghost entries: seq<Entry>, e: Entry)
    returns (result': OMap2<string, string, Attributes>)
    requires Extracted(result, entries)
    ensures Extracted(result', entries + [e])
  {
    var split := SplitRelative(e.parts);
    var attributes := Attributes(e.openKnxId, e.applicationNumber);
    ExtractStep(result, entries, e);
    result' := Put2(result, split.0, split.1, attributes);
  }

  /**
   * `extract_attributes_from_xml_tree`, after parsing: `result[group][key] =
   * attributes` for every entry, so the last entry with a group and key
   * decides its attributes.
   */
  method ExtractResults(entries: seq<Entry>) returns (result: OMap2<string, string, Attributes>)
    ensures Valid2(result)
    ensures forall g, k :: Lookup2(result, g, k) ==
                          if LastAt(entries, g, k) < 0 then None else Some(AttributesOf(entries[LastAt(entries, g, k)]))
  {
    result := Empty();
    for i := 0 to |entries|
      invariant Extracted(result, entries[..i])
    {
      result := StoreEntry(result, entries[..i], entries[i]);
      assert entries[..i + 1] == entries[..i] + [entries[i]];
    }
    assert entries[..|entries|] == entries;
  }

  /** `re.sub("\.xml$", "", s)`: `$` also matches just before a final newline. */
  function StripXml(s: string): string {
    if EndsWith(s, ".xml") then s[..|s| - 4]
    else if EndsWith(s, ".xml\n") then s[..|s| - 5] + "\n"
    else s
  }

  /** One trailing `.xml` is removed, and a string without one is kept. */
  lemma StripXmlSpec(x: string, s: string)
    ensures StripXml(x + ".xml") == x
    ensures !EndsWith(s, ".xml") && !EndsWith(s, ".xml\n") ==> StripXml(s) == s
  {
    assert (x + ".xml")[|x|..] == ".xml";
    assert (x + ".xml")[..|x|] == x;
  }

  /** The reference recorded for a descriptor: its group, ` / `, and its file name without `.xml`. */
  function Ref(app: string, file: string): string {
    StripXml(app + " / " + LastSegment(file, '/'))
  }

  /** For a descriptor `name.xml` in directory `dir/` the reference is `group / name`. */
  lemma RefOfDescriptor(app: string, dir: string, name: string)
    requires '/' !in name && (dir == [] || dir[|dir| - 1] == '/')
    ensures Ref(app, dir + name + ".xml") == app + " / " + name
  {
    var file := dir + name + ".xml";
    assert '/' !in ".xml";
    assert '/' !in name + ".xml";
    LastSegmentOf(dir, name + ".xml");
    assert file == dir + (name + ".xml");
    assert app + " / " + (name + ".xml") == (app + " / " + name) + ".xml";
    StripXmlSpec(app + " / " + name, "");
  }

  /** The last `/`-segment of `dir + x` is `x` when `x` has no `/` and `dir` is empty or ends in `/`. */
  lemma {:induction false} LastSegmentOf(dir: string, x: string)
    requires '/' !in x && (dir == [] || dir[|dir| - 1] == '/')
    ensures LastSegment(dir + x, '/') == x
  {
    if x != [] {
      var init := x[..|x| - 1];
      LastSegmentOf(dir, init);
      assert (dir + x)[..|dir + x| - 1] == dir + init;
      assert x == init + [x[|x| - 1]];
    } else {
      assert dir + x == dir;
    }
  }

  /** The references of `(id, num)` collected so far (none when absent). */
  function RefsOf(m: OMap2<nat, nat, seq<string>>, id: nat, num: nat): seq<string> {
    Lookup2(m, id, num).GetOr([])
  }

  /** The references of the visited descriptors declaring `(id, num)`, in visit order, duplicates kept. */
  function RefsFor(visits: seq<(string, string, Attributes)>, id: nat, num: nat): seq<string> {
    if visits == [] then []
    else
      var t := visits[|visits| - 1];
      RefsFor(visits[..|visits| - 1], id, num) + (if t.2 == Attributes(id, num) then [Ref(t.0, t.1)] else [])
  }

  lemma RefsForSnoc(visits: seq<(string, string, Attributes)>, t: (string, string, Attributes))
    ensures forall id, num :: RefsFor(visits + [t], id, num) ==
                              RefsFor(visits, id, num) + (if t.2 == Attributes(id, num) then [Ref(t.0, t.1)] else [])
  {
    assert (visits + [t])[..|visits|] == visits;
  }

  lemma RowsSnoc<K1(!new), K2(!new), V>(m: OMap2<K1, K2, V>, i: nat)
    requires Valid2(m) && i < |m.keys|
    ensures Rows(m, m.keys[..i + 1]) == Rows(m, m.keys[..i]) + Row(m.keys[i], m.values[m.keys[i]], m.values[m.keys[i]].keys)
  {
    assert m.keys[..i + 1][..i] == m.keys[..i];
  }

  lemma RowSnoc<K1(!new), K2(!new), V>(g: K1, inner: OMap<K2, V>, j: nat)
    requires inner.Valid() && j < |inner.keys|
    ensures Row(g, inner, inner.keys[..j + 1]) == Row(g, inner, inner.keys[..j]) + [(g, inner.keys[j], inner.values[inner.keys[j]])]
  {
    assert inner.keys[..j + 1][..j] == inner.keys[..j];
  }

  /** A reference is listed under `(id, number)` exactly when a visited descriptor declaring that pair yields it. */
  lemma {:induction false} RefsForSpec(visits: seq<(string, string, Attributes)>, id: nat, num: nat, r: string)
    ensures r in RefsFor(visits, id, num) <==>
            exists i :: 0 <= i < |visits| && visits[i].2 == Attributes(id, num) && Ref(visits[i].0, visits[i].1) == r
  {
    if visits != [] {
      var init := visits[..|visits| - 1];
      RefsForSpec(init, id, num, r);
      assert forall i :: 0 <= i < |init| ==> init[i] == visits[i];
    }
  }

  /** `m` holds, for every `(id, number)`, the references of the visited descriptors declaring it, and only those pairs. */
  ghost predicate Grouped(m: OMap2<nat, nat, seq<string>>, visits: seq<(string, string, Attributes)>) {
    Valid2(m)
    && forall id, num :: RefsOf(m, id, num) == RefsFor(visits, id, num)
                         && (Lookup2(m, id, num).Some? <==> RefsFor(visits, id, num) != [])
  }

  /** The grouping invariant at one pair `(id', num')`, across the append of `t`'s reference. */
  lemma GroupAt(m: OMap2<nat, nat, seq<string>>, visits: seq<(string, string, Attributes)>, t: (string, string, Attributes),
                id': nat, num': nat)
    requires Valid2(m)
    requires RefsOf(m, id', num') == RefsFor(visits, id', num')
    requires Lookup2(m, id', num').Some? <==> RefsFor(visits, id', num') != []
    requires RefsOf(m, t.2.openKnxId, t.2.applicationNumber) == RefsFor(visits, t.2.openKnxId, t.2.applicationNumber)
    ensures var m' := Put2(m, t.2.openKnxId, t.2.applicationNumber, RefsOf(m, t.2.openKnxId, t.2.applicationNumber) + [Ref(t.0, t.1)]);
      && RefsOf(m', id', num') == RefsFor(visits + [t], id', num')
      && (Lookup2(m', id', num').Some? <==> RefsFor(visits + [t], id', num') != [])
  {
    var id, num := t.2.openKnxId, t.2.applicationNumber;
    var m' := Put2(m, id, num, RefsOf(m, id, num) + [Ref(t.0, t.1)]);
    assert (visits + [t])[..|visits|] == visits;
    if id' == id && num' == num {
      assert Lookup2(m', id', num') == Some(RefsOf(m, id, num) + [Ref(t.0, t.1)]);
      assert RefsFor(visits + [t], id', num') == RefsFor(visits, id', num') + [Ref(t.0, t.1)];
    } else {
      assert Lookup2(m', id', num') == Lookup2(m, id', num');
      assert t.2 != Attributes(id', num');
      assert RefsFor(visits + [t], id', num') == RefsFor(visits, id', num');
    }
  }

  /** Appending the reference of one more descriptor keeps the grouping exact. */
  lemma GroupStep(m: OMap2<nat, nat, seq<string>>, visits: seq<(string, string, Attributes)>, t: (string, string, Attributes))
    requires Grouped(m, visits)
    ensures Grouped(Put2(m, t.2.openKnxId, t.2.applicationNumber,
                         RefsOf(m, t.2.openKnxId, t.2.applicationNumber) + [Ref(t.0, t.1)]), visits + [t])
  {
    var id, num := t.2.openKnxId, t.2.applicationNumber;
    var m' := Put2(m, id, num, RefsOf(m, id, num) + [Ref(t.0, t.1)]);
    forall id': nat, num': nat
      ensures RefsOf(m', id', num') == RefsFor(visits + [t], id', num')
      ensures Lookup2(m', id', num').Some? <==> RefsFor(visits + [t], id', num') != []
    {
      GroupAt(m, visits, t, id', num');
    }
  }

  /** The body of the grouping: `id_app_to_repo.setdefault(id, {}).setdefault(number, []).append(ref)`. */
  method AddReference(m: OMap2<nat, nat, seq<string>>, ghost visits: seq<(string, string, Attributes)>,
                      app: string, file: string, info2: Attributes)
    returns (idAppToRepo: OMap2<nat, nat, seq<string>>)
    requires Grouped(m, visits)
    ensures Grouped(idAppToRepo, visits + [(app, file, info2)])
  {
    var appref := app + " / " + LastSegment(file, '/');
    var refs := Lookup2(m, info2.openKnxId, info2.applicationNumber).GetOr([]);
    GroupStep(m, visits, (app, file, info2));
    idAppToRepo := Put2(m, info2.openKnxId, info2.applicationNumber, refs + [StripXml(appref)]);
  }

  /** The inner loop of the grouping: the descriptors of one group, in key order. */
  method GroupApp(m: OMap2<nat, nat, seq<string>>, ghost visits: seq<(string, string, Attributes)>,
                  app: string, info: OMap<string, Attributes>)
    returns (idAppToRepo: OMap2<nat, nat, seq<string>>)
    requires Grouped(m, visits) && info.Valid()
    ensures Grouped(idAppToRepo, visits + Row(app, info, info.keys))
  {
    idAppToRepo := m;
    assert visits + Row(app, info, info.keys[..0]) == visits;
    for j := 0 to |info.keys|
      invariant Grouped(idAppToRepo, visits + Row(app, info, info.keys[..j]))
    {
      var file := info.keys[j];
      idAppToRepo := AddReference(idAppToRepo, visits + Row(app, info, info.keys[..j]), app, file, info.values[file]);
      RowSnoc(app, info, j);
      assert visits + Row(app, info, info.keys[..j]) + [(app, file, info.values[file])] == visits + Row(app, info, info.keys[..j + 1]);
    }
    assert info.keys[..|info.keys|] == info.keys;
  }

  /**
   * The grouping loop of the main block: every descriptor, visited group by
   * group and key by key, appends its reference to the list of its
   * `(OpenKnxId, ApplicationNumber)`.
   */
  method GroupReferences(results: OMap2<string, string, Attributes>) returns (idAppToRepo: OMap2<nat, nat, seq<string>>)
    requires Valid2(results)
    ensures Valid2(idAppToRepo)
    ensures forall id, num :: RefsOf(idAppToRepo, id, num) == RefsFor(Flatten(results), id, num)
    ensures forall id, num :: Lookup2(idAppToRepo, id, num).Some? <==> RefsFor(Flatten(results), id, num) != []
  {
    idAppToRepo := Empty();
    ghost var visited: seq<(string, string, Attributes)> := [];
    for i := 0 to |results.keys|
      invariant Grouped(idAppToRepo, visited)
      invariant visited == Rows(results, results.keys[..i])
    {
      var app := results.keys[i];
      RowsSnoc(results, i);
      idAppToRepo := GroupApp(idAppToRepo, visited, app, results.values[app]);
      visited := visited + Row(app, results.values[app], results.values[app].keys);
    }
    assert results.keys[..|results.keys|] == results.keys;
  }

  // ---------------------------------------------------------------------
  // AppID keys

  /** `a | b` on non-negative integers. */
  function BitOr(a: nat, b: nat): nat
    decreases a + b
  {
    if a == 0 then b
    else if b == 0 then a
    else 2 * BitOr(a / 2, b / 2) + (if a % 2 == 1 || b % 2 == 1 then 1 else 0)
  }

  function Pow2(k: nat): (p: nat)
    ensures p >= 1
  {
    if k == 0 then 1 else 2 * Pow2(k - 1)
  }

  /** Or-ing a value below `2^k` into a multiple of `2^k` is addition. */
  lemma {:induction false} OrShifted(a: nat, b: nat, k: nat)
    requires b < Pow2(k)
    ensures BitOr(a * Pow2(k), b) == a * Pow2(k) + b
  {
    if k == 0 || a == 0 || b == 0 {
    } else {
      var x := a * Pow2(k);
      assert x == 2 * (a * Pow2(k - 1));
      assert x / 2 == a * Pow2(k - 1) && x % 2 == 0;
      assert b / 2 < Pow2(k - 1);
      OrShifted(a, b / 2, k - 1);
    }
  }

  /** `(id << 8) | number` */
  function AppIdValue(id: nat, num: nat): nat {
    BitOr(id * 256, num)
  }

  /** With an application number below 256 the AppID is `id * 256 + number`. */
  lemma AppIdValueOfByte(id: nat, num: nat)
    requires num < 256
    ensures AppIdValue(id, num) == id * 256 + num
  {
    assert Pow2(8) == 256;
    OrShifted(id, num, 8);
  }

  predicate IsHexDigit(c: char) {
    ('0' <= c <= '9') || ('A' <= c <= 'F')
  }

  function HexDigit(d: nat): (c: char)
    requires d < 16
    ensures IsHexDigit(c)
  {
    if d < 10 then ('0' as int + d) as char else ('A' as int + d - 10) as char
  }

  function DigitValue(c: char): nat
    requires IsHexDigit(c)
  {
    if c <= '9' then c as int - '0' as int else c as int - 'A' as int + 10
  }

  /** `"%X" % n`: uppercase hex digits, without leading zeros. */
  function Hex(n: nat): (s: string)
    ensures s != [] && forall i :: 0 <= i < |s| ==> IsHexDigit(s[i])
    ensures |s| == 1 <==> n < 16
    ensures n > 0 ==> s[0] != '0'
    ensures |s| > 1 ==> s[0] != '0'
  {
    if n < 16 then [HexDigit(n)] else Hex(n / 16) + [HexDigit(n % 16)]
  }

  /** The number a string of hex digits denotes. */
  function HexValue(s: string): nat
    requires forall i :: 0 <= i < |s| ==> IsHexDigit(s[i])
  {
    if s == [] then 0 else HexValue(s[..|s| - 1]) * 16 + DigitValue(s[|s| - 1])
  }

  lemma {:induction false} HexRoundTrip(n: nat)
    ensures HexValue(Hex(n)) == n
  {
    if n >= 16 {
      HexRoundTrip(n / 16);
      var s := Hex(n);
      assert s[..|s| - 1] == Hex(n / 16);
    }
  }

  /** Leading zeros do not change the value. */
  lemma {:induction false} HexLeadingZero(s: string)
    requires forall i :: 0 <= i < |s| ==> IsHexDigit(s[i])
    ensures HexValue("0" + s) == HexValue(s)
  {
    if s != [] {
      var init := s[..|s| - 1];
      HexLeadingZero(init);
      assert ("0" + s)[..|"0" + s| - 1] == "0" + init;
    }
  }

  /** `k` zero digits. */
  function Zeros(k: nat): (z: string)
    ensures |z| == k && forall i :: 0 <= i < k ==> z[i] == '0'
  {
    if k == 0 then [] else "0" + Zeros(k - 1)
  }

  /** Any number of leading zeros leaves the value unchanged. */
  lemma {:induction false} ZerosValue(k: nat, s: string)
    requires forall i :: 0 <= i < |s| ==> IsHexDigit(s[i])
    ensures HexValue(Zeros(k) + s) == HexValue(s)
  {
    if k > 0 {
      var t := Zeros(k - 1) + s;
      assert Zeros(k) + s == "0" + t;
      assert forall i :: 0 <= i < |t| ==> IsHexDigit(t[i]) by {
        forall i | 0 <= i < |t| ensures IsHexDigit(t[i]) {
          if i < k - 1 {
            assert t[i] == '0';
          } else {
            assert t[i] == s[i - (k - 1)];
          }
        }
      }
      ZerosValue(k - 1, s);
      HexLeadingZero(t);
    } else {
      assert Zeros(k) + s == s;
    }
  }

  /** `"%04X"`: zero-padded on the left to exactly four digits when shorter, unchanged otherwise. */
  function Pad4(s: string): (r: string)
    requires forall i :: 0 <= i < |s| ==> IsHexDigit(s[i])
    ensures |r| == if |s| >= 4 then |s| else 4
    ensures forall i :: 0 <= i < |r| ==> IsHexDigit(r[i])
    ensures r[|r| - |s|..] == s && forall i :: 0 <= i < |r| - |s| ==> r[i] == '0'
    ensures HexValue(r) == HexValue(s)
  {
    if |s| >= 4 then s
    else
      ZerosValue(4 - |s|, s);
      Zeros(4 - |s|) + s
  }

  /** `"0x%04X" % ((id << 8) | num)` */
  function AppIdKey(id: nat, num: nat): string {
    "0x" + Pad4(Hex(AppIdValue(id, num)))
  }

  /**
   * The key is `0x` and uppercase hex digits denoting the AppID: exactly
   * four when the AppID fits in four, otherwise as many as it needs, so a
   * key longer than six characters never has a leading zero digit.
   */
  lemma AppIdKeySpec(id: nat, num: nat)
    ensures var key := AppIdKey(id, num);
      var digits := Hex(AppIdValue(id, num));
      && |key| == 2 + (if |digits| >= 4 then |digits| else 4)
      && key[..2] == "0x"
      && (forall i :: 2 <= i < |key| ==> IsHexDigit(key[i]))
      && (|key| > 6 ==> key[2] != '0')
      && HexValue(key[2..]) == AppIdValue(id, num)
  {
    var key := AppIdKey(id, num);
    HexRoundTrip(AppIdValue(id, num));
    assert key[2..] == Pad4(Hex(AppIdValue(id, num)));
  }

  /** With application numbers below 256, different id pairs never share a key. */
  lemma AppIdKeyInjective(id1: nat, num1: nat, id2: nat, num2: nat)
    requires num1 < 256 && num2 < 256
    requires AppIdKey(id1, num1) == AppIdKey(id2, num2)
    ensures id1 == id2 && num1 == num2
  {
    assert AppIdValue(id1, num1) == AppIdValue(id2, num2) by {
      AppIdKeySpec(id1, num1);
      AppIdKeySpec(id2, num2);
    }
    AppIdValueOfByte(id1, num1);
    AppIdValueOfByte(id2, num2);
    var v := id1 * 256 + num1;
    assert v == id2 * 256 + num2;
    assert v / 256 == id1 && v % 256 == num1;
    assert v / 256 == id2 && v % 256 == num2;
  }

  /** Without that bound the shift and the or overlap: `(0, 256)` and `(1, 0)` share `0x0100`. */
  lemma AppIdKeyOverlap()
    ensures AppIdKey(0, 256) == AppIdKey(1, 0) == "0x0100"
  {
    assert Pow2(8) == 256;
    OrShifted(1, 0, 8);
    assert AppIdValue(0, 256) == 256 && AppIdValue(1, 0) == 256;
    assert Hex(1) == "1";
    assert Hex(16) == "10";
    assert Hex(256) == "100";
  }

  // ---------------------------------------------------------------------
  // The AppID table

  /** A single reference is stored as that string; otherwise the whole list is stored. */
  datatype RepoRef = Single(ref: string) | Several(refs: seq<string>)

  function Collapse(refs: seq<string>): RepoRef {
    if |refs| == 1 then Single(refs[0]) else Several(refs)
  }

  function Expand(r: RepoRef): seq<string> {
    match r
    case Single(ref) => [ref]
    case Several(refs) => refs
  }

  /** Collapsing loses nothing, and a list is only kept when it does not hold exactly one reference. */
  lemma CollapseRoundTrip(refs: seq<string>)
    ensures Expand(Collapse(refs)) == refs
    ensures Collapse(refs).Several? ==> |refs| != 1
  {
  }

  /** The value of the last element of `s` whose key is `k`, if any. */
  function LastKeyed<T, V>(key: T -> string, val: T -> V, s: seq<T>, k: string): Option<V> {
    if s == [] then None
    else if key(s[|s| - 1]) == k then Some(val(s[|s| - 1]))
    else LastKeyed(key, val, s[..|s| - 1], k)
  }

  /** Some element carries the key exactly when a last one does. */
  lemma {:induction false} LastKeyedSome<T, V>(key: T -> string, val: T -> V, s: seq<T>, k: string)
    ensures LastKeyed(key, val, s, k).Some? <==> exists i :: 0 <= i < |s| && key(s[i]) == k
  {
    if s != [] && key(s[|s| - 1]) != k {
      var init := s[..|s| - 1];
      LastKeyedSome(key, val, init, k);
      assert forall i :: 0 <= i < |init| ==> init[i] == s[i];
    }
  }

  function VisitKey(t: (nat, nat, seq<string>)): string {
    AppIdKey(t.0, t.1)
  }

  function VisitRefs(t: (nat, nat, seq<string>)): RepoRef {
    Collapse(t.2)
  }

  /** The value the table holds for `key` after the pairs in `visits`: the last pair with that key wins. */
  function TableFor(visits: seq<(nat, nat, seq<string>)>, key: string): Option<RepoRef> {
    LastKeyed(VisitKey, VisitRefs, visits, key)
  }

  /** A key has an entry exactly when some visited pair formats to it. */
  lemma TableForKeys(visits: seq<(nat, nat, seq<string>)>, key: string)
    ensures TableFor(visits, key).Some? <==> exists i :: 0 <= i < |visits| && AppIdKey(visits[i].0, visits[i].1) == key
  {
    LastKeyedSome(VisitKey, VisitRefs, visits, key);
  }

  lemma TableForSnoc(visits: seq<(nat, nat, seq<string>)>, t: (nat, nat, seq<string>))
    ensures forall key :: TableFor(visits + [t], key) ==
                          if AppIdKey(t.0, t.1) == key then Some(Collapse(t.2)) else TableFor(visits, key)
  {
    assert (visits + [t])[..|visits|] == visits;
  }

  /** `t` holds, for every key, the collapsed references of the last visited pair with that key. */
  ghost predicate Tabled(t: OMap<string, RepoRef>, visits: seq<(nat, nat, seq<string>)>) {
    t.Valid() && forall key :: t.Get(key) == TableFor(visits, key)
  }

  lemma TableStep(t: OMap<string, RepoRef>, visits: seq<(nat, nat, seq<string>)>, p: (nat, nat, seq<string>))
    requires Tabled(t, visits)
    ensures Tabled(t.Put(AppIdKey(p.0, p.1), Collapse(p.2)), visits + [p])
  {
    TableForSnoc(visits, p);
  }

  /** The body of the table loop: one assignment under the formatted key. */
  method AddKey(t: OMap<string, RepoRef>, ghost visits: seq<(nat, nat, seq<string>)>,
                appId: nat, appNumber: nat, info2: seq<string>)
    returns (appidToRepo: OMap<string, RepoRef>)
    requires Tabled(t, visits)
    ensures Tabled(appidToRepo, visits + [(appId, appNumber, info2)])
  {
    var key := "0x" + Pad4(Hex(BitOr(appId * 256, appNumber)));
    TableStep(t, visits, (appId, appNumber, info2));
    appidToRepo := t.Put(key, if |info2| == 1 then Single(info2[0]) else Several(info2));
  }

  /** The inner loop of the table: the application numbers of one OpenKnxId. */
  method TableId(t: OMap<string, RepoRef>, ghost visits: seq<(nat, nat, seq<string>)>,
                 appId: nat, info: OMap<nat, seq<string>>)
    returns (appidToRepo: OMap<string, RepoRef>)
    requires Tabled(t, visits) && info.Valid()
    ensures Tabled(appidToRepo, visits + Row(appId, info, info.keys))
  {
    appidToRepo := t;
    assert visits + Row(appId, info, info.keys[..0]) == visits;
    for j := 0 to |info.keys|
      invariant Tabled(appidToRepo, visits + Row(appId, info, info.keys[..j]))
    {
      var appNumber := info.keys[j];
      appidToRepo := AddKey(appidToRepo, visits + Row(appId, info, info.keys[..j]), appId, appNumber, info.values[appNumber]);
      RowSnoc(appId, info, j);
      assert visits + Row(appId, info, info.keys[..j]) + [(appId, appNumber, info.values[appNumber])]
          == visits + Row(appId, info, info.keys[..j + 1]);
    }
    assert info.keys[..|info.keys|] == info.keys;
  }

  /**
   * The table loop of the main block: `appid_to_repo[key] = collapsed
   * references` for every `(id, number)` in order.
   */
  method AppIdTable(idAppToRepo: OMap2<nat, nat, seq<string>>) returns (appidToRepo: OMap<string, RepoRef>)
    requires Valid2(idAppToRepo)
    ensures appidToRepo.Valid()
    ensures forall key :: appidToRepo.Get(key) == TableFor(Flatten(idAppToRepo), key)
  {
    appidToRepo := Empty();
    ghost var visited: seq<(nat, nat, seq<string>)> := [];
    for i := 0 to |idAppToRepo.keys|
      invariant Tabled(appidToRepo, visited)
      invariant visited == Rows(idAppToRepo, idAppToRepo.keys[..i])
    {
      var appId := idAppToRepo.keys[i];
      RowsSnoc(idAppToRepo, i);
      appidToRepo := TableId(appidToRepo, visited, appId, idAppToRepo.values[appId]);
      visited := visited + Row(appId, idAppToRepo.values[appId], idAppToRepo.values[appId].keys);
    }
    assert idAppToRepo.keys[..|idAppToRepo.keys|] == idAppToRepo.keys;
  }

  /**
   * With application numbers below 256 nothing is overwritten: every pair
   * finds its own references under its own key.
   */
  lemma {:induction false} TableWithoutOverlap(visits: seq<(nat, nat, seq<string>)>, t: (nat, nat, seq<string>))
    requires forall i :: 0 <= i < |visits| ==> visits[i].1 < 256
    requires forall i, j :: 0 <= i < |visits| && 0 <= j < |visits| && visits[i].0 == visits[j].0 && visits[i].1 == visits[j].1
                            ==> visits[i].2 == visits[j].2
    requires t in visits
    ensures TableFor(visits, AppIdKey(t.0, t.1)) == Some(Collapse(t.2))
  {
    var n := |visits| - 1;
    var last := visits[n];
    var init := visits[..n];
    if AppIdKey(last.0, last.1) == AppIdKey(t.0, t.1) {
      var k :| 0 <= k < |visits| && visits[k] == t;
      AppIdKeyInjective(last.0, last.1, t.0, t.1);
    } else {
      assert t in init;
      assert forall i :: 0 <= i < |init| ==> init[i] == visits[i];
      TableWithoutOverlap(init, t);
    }
  }

  /** The pairs of a nested dict are functional: one list per `(id, number)`. */
  lemma FlattenFunctional(m: OMap2<nat, nat, seq<string>>)
    requires Valid2(m)
    ensures var v := Flatten(m);
      forall i, j :: 0 <= i < |v| && 0 <= j < |v| && v[i].0 == v[j].0 && v[i].1 == v[j].1 ==> v[i].2 == v[j].2
  {
    var v := Flatten(m);
    FlattenSpec(m);
    forall i, j | 0 <= i < |v| && 0 <= j < |v| && v[i].0 == v[j].0 && v[i].1 == v[j].1
      ensures v[i].2 == v[j].2
    {
      assert v[i] in v && v[j] in v;
    }
  }

  /**
   * The finished table: with application numbers below 256, every
   * `(id, number)` of the grouping finds its own references, collapsed,
   * under its own key.
   */
  lemma AppIdTableComplete(m: OMap2<nat, nat, seq<string>>, id: nat, num: nat, refs: seq<string>)
    requires Valid2(m)
    requires forall t :: t in Flatten(m) ==> t.1 < 256
    requires Lookup2(m, id, num) == Some(refs)
    ensures TableFor(Flatten(m), AppIdKey(id, num)) == Some(Collapse(refs))
  {
    var v := Flatten(m);
    FlattenSpec(m);
    FlattenFunctional(m);
    assert (id, num, refs) in v;
    forall i | 0 <= i < |v| ensures v[i].1 < 256 {
      assert v[i] in v;
    }
    TableWithoutOverlap(v, (id, num, refs));
  }
}
