/**
 * `PathManager`: the file-system-safe form of a device name and the
 * assembly of output paths below a base directory. Creating the
 * directories is not part of the model; the paths are.
 */
module PathManager {
  import opened Wrappers
  import opened Strings
  import opened Seqs

  /** The umlaut table, in the order its entries are applied. */
  const Umlauts: seq<char> := ['ä', 'ö', 'ü', 'ß', 'Ä', 'Ö', 'Ü']
  const Replacements: seq<string> := ["ae", "oe", "ue", "ss", "Ae", "Oe", "Ue"]

  /** The characters the final pass keeps: `[A-Za-z0-9_-]`. */
  predicate IsAllowed(c: char) {
    ('A' <= c <= 'Z') || ('a' <= c <= 'z') || ('0' <= c <= '9') || c == '_' || c == '-'
  }

  /** Reference transliteration of one character. */
  function TranslitChar(c: char): (r: string)
    ensures c in Umlauts ==> |r| == 2 && IsAllowed(r[0]) && IsAllowed(r[1])
    ensures c !in Umlauts ==> r == [c]
  {
    match c
    case 'ä' => "ae"
    case 'ö' => "oe"
    case 'ü' => "ue"
    case 'ß' => "ss"
    case 'Ä' => "Ae"
    case 'Ö' => "Oe"
    case 'Ü' => "Ue"
    case _ => [c]
  }

  /** Number of characters of `s` that are in the umlaut table. */
  function UmlautCount(s: string): nat {
    if s == [] then 0 else (if s[0] in Umlauts then 1 else 0) + UmlautCount(s[1..])
  }

  /** Reference transliteration of a string, character by character. */
  function Translit(s: string): string {
    FlatMap(TranslitChar, s)
  }

  /** Transliteration lengthens a string by exactly its number of umlauts. */
  lemma {:induction false} TranslitLength(s: string)
    ensures |Translit(s)| == |s| + UmlautCount(s)
  {
    if s != [] {
      TranslitLength(s[1..]);
    }
  }

  /** A string free of umlauts is its own transliteration. */
  lemma {:induction false} TranslitPlain(s: string)
    requires forall i :: 0 <= i < |s| ==> s[i] !in Umlauts
    ensures Translit(s) == s
  {
    if s != [] {
      var t := s[1..];
      assert forall i :: 0 <= i < |t| ==> t[i] == s[i + 1];
      TranslitPlain(t);
      assert s == [s[0]] + t;
    }
  }

  /** `re.sub(r'[^A-Za-z0-9_-]', '_', s)` */
  function MaskDisallowed(s: string): string {
    seq(|s|, i requires 0 <= i < |s| => if IsAllowed(s[i]) then s[i] else '_')
  }

  /** `to_device_pathname`, stated per character. */
  function Sanitized(deviceName: string): (r: string)
    ensures |r| == |deviceName| + UmlautCount(deviceName)
    ensures forall i :: 0 <= i < |r| ==> IsAllowed(r[i])
    ensures (forall i :: 0 <= i < |deviceName| ==> IsAllowed(deviceName[i])) ==> r == deviceName
  {
    assert forall k :: 0 <= k < |Umlauts| ==> !IsAllowed(Umlauts[k]);
    TranslitLength(deviceName);
    if forall i :: 0 <= i < |deviceName| ==> IsAllowed(deviceName[i]) then
      TranslitPlain(deviceName);
      MaskDisallowed(Translit(deviceName))
    else
      MaskDisallowed(Translit(deviceName))
  }

  /** The first `k` replacement passes of the loop, in table order. */
  function TranslitUpTo(s: string, k: nat): string
    requires k <= |Umlauts|
  {
    if k == 0 then s else Replace(TranslitUpTo(s, k - 1), [Umlauts[k - 1]], Replacements[k - 1])
  }

  lemma {:induction false} TranslitUpToConcat(a: string, b: string, k: nat)
    requires k <= |Umlauts|
    ensures TranslitUpTo(a + b, k) == TranslitUpTo(a, k) + TranslitUpTo(b, k)
  {
    if k > 0 {
      TranslitUpToConcat(a, b, k - 1);
      ReplaceCharConcat(TranslitUpTo(a, k - 1), TranslitUpTo(b, k - 1), Umlauts[k - 1], Replacements[k - 1]);
    }
  }

  /** Entry `i` of the table: a character the mask rejects, replaced by two it keeps. */
  lemma UmlautEntry(i: nat)
    requires i < |Umlauts|
    ensures !IsAllowed(Umlauts[i])
    ensures TranslitChar(Umlauts[i]) == Replacements[i]
  {
    if i == 0 {
    } else if i == 1 {
    } else if i == 2 {
    } else if i == 3 {
    } else if i == 4 {
    } else if i == 5 {
    } else {
    }
  }

  lemma {:induction false} TranslitUpToChar(x: char, k: nat)
    requires k <= |Umlauts|
    ensures TranslitUpTo([x], k) == if x in Umlauts[..k] then TranslitChar(x) else [x]
  {
    if k > 0 {
      TranslitUpToChar(x, k - 1);
      var u := Umlauts[k - 1];
      var t := TranslitUpTo([x], k - 1);
      assert Umlauts[..k] == Umlauts[..k - 1] + [u];
      UmlautEntry(k - 1);
      if x in Umlauts[..k - 1] {
        assert t == TranslitChar(x);
        assert u !in t;
        ReplaceCharAbsent(t, u, Replacements[k - 1]);
      } else {
        assert t == [x];
        ReplaceOneChar(x, u, Replacements[k - 1]);
      }
    }
  }

  lemma {:induction false} TranslitUpToEmpty(k: nat)
    requires k <= |Umlauts|
    ensures TranslitUpTo([], k) == []
  {
    if k > 0 {
      TranslitUpToEmpty(k - 1);
    }
  }

  /** The seven replacement passes together transliterate character by character. */
  lemma {:induction false} TranslitPasses(s: string)
    ensures TranslitUpTo(s, |Umlauts|) == Translit(s)
  {
    if s == [] {
      TranslitUpToEmpty(|Umlauts|);
    } else {
      var a := s[..|s| - 1];
      var x := s[|s| - 1];
      assert s == a + [x];
      TranslitPasses(a);
      TranslitUpToConcat(a, [x], |Umlauts|);
      TranslitUpToChar(x, |Umlauts|);
      assert Umlauts[..|Umlauts|] == Umlauts;
      TranslitSnoc(a, x);
    }
  }

  /**
   * `to_device_pathname`: the umlaut passes in table order, then the mask.
   * The result is the per-character reference `Sanitized`.
   */
  method ToDevicePathname(deviceName: string) returns (r: string)
    ensures r == Sanitized(deviceName)
  {
    var name := deviceName;
    for k := 0 to |Umlauts|
      invariant name == TranslitUpTo(deviceName, k)
    {
      name := Replace(name, [Umlauts[k]], Replacements[k]);
    }
    TranslitPasses(deviceName);
    r := MaskDisallowed(name);
  }

  lemma TranslitSnoc(s: string, c: char)
    ensures Translit(s + [c]) == Translit(s) + TranslitChar(c)
  {
    FlatMapAppend(TranslitChar, s, [c]);
    assert [c][1..] == [];
    assert FlatMap(TranslitChar, [c]) == TranslitChar(c) + [];
  }

  lemma TranslitConcat(a: string, b: string)
    ensures Translit(a + b) == Translit(a) + Translit(b)
  {
    FlatMapAppend(TranslitChar, a, b);
  }

  lemma MaskConcat(x: string, y: string)
    ensures MaskDisallowed(x + y) == MaskDisallowed(x) + MaskDisallowed(y)
  {
    var l := MaskDisallowed(x + y);
    var r := MaskDisallowed(x) + MaskDisallowed(y);
    assert |l| == |r|;
    forall i | 0 <= i < |l| ensures l[i] == r[i] {
      if i < |x| {
        assert (x + y)[i] == x[i];
      } else {
        assert (x + y)[i] == y[i - |x|];
      }
    }
  }

  /** The name is sanitised piece by piece. */
  lemma SanitizedConcat(a: string, b: string)
    ensures Sanitized(a + b) == Sanitized(a) + Sanitized(b)
  {
    TranslitConcat(a, b);
    MaskConcat(Translit(a), Translit(b));
  }

  /** Each character becomes its transliteration, itself when allowed, or exactly one `_`. */
  lemma SanitizedChar(c: char)
    ensures Sanitized([c]) == if c in Umlauts then TranslitChar(c) else if IsAllowed(c) then [c] else "_"
  {
    TranslitSnoc([], c);
    assert [] + [c] == [c];
    assert forall k :: 0 <= k < |Umlauts| ==> !IsAllowed(Umlauts[k]);
  }

  /** Sanitising twice is sanitising once. */
  lemma SanitizedIdempotent(deviceName: string)
    ensures Sanitized(Sanitized(deviceName)) == Sanitized(deviceName)
  {
  }

  /** A non-empty name gives a non-empty, `/`-free path component. */
  lemma SanitizedIsComponent(deviceName: string)
    requires deviceName != []
    ensures Sanitized(deviceName) != [] && '/' !in Sanitized(deviceName)
  {
    assert !IsAllowed('/');
  }

  /** `os.path.join(path, b)` with POSIX rules. */
  function Join(path: string, b: string): string {
    if StartsWith(b, "/") then b
    else if path == [] || EndsWith(path, "/") then path + b
    else path + "/" + b
  }

  /** `os.path.join(base, *parts)` */
  function JoinAll(base: string, parts: seq<string>): string {
    if parts == [] then base else Join(JoinAll(base, parts[..|parts| - 1]), parts[|parts| - 1])
  }

  /** `filter(None, subdirs)`: drops `None` and empty components, keeping the order. */
  function Present(subdirs: seq<Option<string>>): (r: seq<string>)
    ensures forall i :: 0 <= i < |r| ==> r[i] != []
    ensures |r| <= |subdirs|
    ensures forall d :: d in r <==> d != [] && Some(d) in subdirs
  {
    if subdirs == [] then []
    else
      var rest := Present(subdirs[1..]);
      assert forall x :: x in subdirs <==> x == subdirs[0] || x in subdirs[1..];
      match subdirs[0]
      case Some(d) => if d != [] then [d] + rest else rest
      case None => rest
  }

  /** The filter works piece by piece, so the kept components keep their order. */
  lemma {:induction false} PresentAppend(a: seq<Option<string>>, b: seq<Option<string>>)
    ensures Present(a + b) == Present(a) + Present(b)
  {
    if a == [] {
      assert a + b == b;
    } else {
      assert (a + b)[0] == a[0];
      assert (a + b)[1..] == a[1..] + b;
      PresentAppend(a[1..], b);
    }
  }

  /** A single component is kept exactly when it is present and non-empty. */
  lemma PresentOne(x: Option<string>)
    ensures Present([x]) == if x.Some? && x.value != [] then [x.value] else []
  {
    assert [x][1..] == [];
  }

  /** `create_path`: the base, the present components, then the file name when it is not empty. */
  function CreatePath(baseDir: string, subdirs: seq<Option<string>>, filename: string): string {
    var parts := Present(subdirs);
    if filename != [] then JoinAll(baseDir, parts + [filename]) else JoinAll(baseDir, parts)
  }

  function GetOamPath(baseDir: string, oamName: Option<string>, filename: string): string {
    CreatePath(baseDir, [Some("oam"), oamName], filename)
  }

  function GetOfmPath(baseDir: string, ofmName: Option<string>, filename: string): string {
    CreatePath(baseDir, [Some("ofm"), ofmName], filename)
  }

  /** `get_device_path`: a present, non-empty name is sanitised; otherwise the component is left out. */
  function GetDevicePath(baseDir: string, deviceName: Option<string>, filename: string): string {
    var deviceFilename := if deviceName.Some? && deviceName.value != [] then Some(Sanitized(deviceName.value)) else None;
    CreatePath(baseDir, [Some("devices"), deviceFilename], filename)
  }

  /** A relative component that neither starts nor ends with `/`. */
  predicate Plain(p: string) {
    p != [] && p[0] != '/' && p[|p| - 1] != '/'
  }

  /** A base directory, absolute or relative, without a trailing `/`. */
  predicate BaseDir(p: string) {
    p != [] && p[|p| - 1] != '/'
  }

  /** The base followed by each part, each preceded by one `/`. */
  function Slashed(base: string, parts: seq<string>): string {
    if parts == [] then base else Slashed(base, parts[..|parts| - 1]) + "/" + parts[|parts| - 1]
  }

  /** With a base directory and plain parts, joining puts exactly one `/` before each part. */
  lemma {:induction false} JoinPlain(base: string, parts: seq<string>)
    requires BaseDir(base) && forall i :: 0 <= i < |parts| ==> Plain(parts[i])
    ensures JoinAll(base, parts) == Slashed(base, parts)
    ensures Slashed(base, parts) != [] && Slashed(base, parts)[|Slashed(base, parts)| - 1] != '/'
  {
    if parts != [] {
      var init := parts[..|parts| - 1];
      var last := parts[|parts| - 1];
      JoinPlain(base, init);
      var p := Slashed(base, init);
      assert !EndsWith(p, "/");
      assert !StartsWith(last, "/");
      assert Slashed(base, parts) == (p + "/") + last;
    }
  }

  /** `create_path` drops an absent or empty component wherever it appears. */
  lemma {:induction false} CreatePathDropsEmpty(baseDir: string, a: seq<Option<string>>, b: seq<Option<string>>, filename: string)
    ensures CreatePath(baseDir, a + [None] + b, filename) == CreatePath(baseDir, a + b, filename)
    ensures CreatePath(baseDir, a + [Some("")] + b, filename) == CreatePath(baseDir, a + b, filename)
  {
    PresentSkips(a, b, None);
    PresentSkips(a, b, Some(""));
  }

  lemma {:induction false} PresentSkips(a: seq<Option<string>>, b: seq<Option<string>>, x: Option<string>)
    requires x == None || x == Some("")
    ensures Present(a + [x] + b) == Present(a + b)
  {
    if a == [] {
      assert a + [x] + b == [x] + b;
      assert ([x] + b)[1..] == b;
      assert a + b == b;
    } else {
      assert (a + [x] + b)[1..] == a[1..] + [x] + b;
      assert (a + b)[1..] == a[1..] + b;
      assert (a + [x] + b)[0] == a[0] && (a + b)[0] == a[0];
      PresentSkips(a[1..], b, x);
    }
  }

  lemma PresentPair(top: string, name: Option<string>)
    requires top != []
    ensures Present([Some(top), name]) == [top] + (if name.Some? && name.value != [] then [name.value] else [])
  {
    assert [Some(top), name][1..] == [name];
    assert [name][1..] == [];
  }

  /** The file name, as the list of what `create_path` appends after the components. */
  function FilePart(filename: string): seq<string> {
    if filename != [] then [filename] else []
  }

  /**
   * Below a base directory, plain components and a plain (or empty) file name
   * are joined with exactly one `/` before each.
   */
  lemma CreatePathPlain(baseDir: string, subdirs: seq<Option<string>>, filename: string)
    requires BaseDir(baseDir) && (filename == [] || Plain(filename))
    requires forall i :: 0 <= i < |Present(subdirs)| ==> Plain(Present(subdirs)[i])
    ensures CreatePath(baseDir, subdirs, filename) == Slashed(baseDir, Present(subdirs) + FilePart(filename))
  {
    var parts := Present(subdirs);
    assert parts + [] == parts;
    JoinPlain(baseDir, parts + FilePart(filename));
  }

  lemma SlashedPair(b: string, p: string, q: string)
    ensures Slashed(b, [p, q]) == b + "/" + p + "/" + q
  {
    assert [p, q][..1] == [p];
    assert [p][..0] == [];
    assert Slashed(b, [p]) == b + "/" + p;
    assert Slashed(b, [p, q]) == Slashed(b, [p]) + "/" + q;
  }

  lemma SlashedTriple(b: string, p: string, q: string, r: string)
    ensures Slashed(b, [p, q, r]) == b + "/" + p + "/" + q + "/" + r
  {
    assert [p, q, r][..2] == [p, q];
    SlashedPair(b, p, q);
  }

  /** A named page: the name is one component below `top`, and the file name one below that. */
  lemma NamedPath(baseDir: string, top: string, name: string, filename: string)
    requires BaseDir(baseDir) && Plain(top) && Plain(name) && Plain(filename)
    ensures CreatePath(baseDir, [Some(top), Some(name)], filename) == baseDir + "/" + top + "/" + name + "/" + filename
  {
    PresentPair(top, Some(name));
    assert Present([Some(top), Some(name)]) == [top, name];
    CreatePathPlain(baseDir, [Some(top), Some(name)], filename);
    assert [top, name] + FilePart(filename) == [top, name, filename];
    SlashedTriple(baseDir, top, name, filename);
  }

  /**
   * Application and module pages: below a base directory, the name sits directly
   * under `oam` (or `ofm`), and the file name under that.
   */
  lemma OamOfmPaths(baseDir: string, name: string, filename: string)
    requires BaseDir(baseDir) && Plain(name) && Plain(filename)
    ensures GetOamPath(baseDir, Some(name), filename) == baseDir + "/oam/" + name + "/" + filename
    ensures GetOfmPath(baseDir, Some(name), filename) == baseDir + "/ofm/" + name + "/" + filename
  {
    assert GetOamPath(baseDir, Some(name), filename) == baseDir + "/oam/" + name + "/" + filename by {
      NamedPath(baseDir, "oam", name, filename);
      assert baseDir + "/" + "oam" + "/" == baseDir + "/oam/";
    }
    assert GetOfmPath(baseDir, Some(name), filename) == baseDir + "/ofm/" + name + "/" + filename by {
      NamedPath(baseDir, "ofm", name, filename);
      assert baseDir + "/" + "ofm" + "/" == baseDir + "/ofm/";
    }
  }

  /** The overview pages: without a name, the file sits directly under `oam` (or `ofm`). */
  lemma OamOfmOverviewPaths(baseDir: string, filename: string)
    requires BaseDir(baseDir) && Plain(filename)
    ensures GetOamPath(baseDir, None, filename) == baseDir + "/oam/" + filename
    ensures GetOfmPath(baseDir, None, filename) == baseDir + "/ofm/" + filename
  {
    TopOnly(baseDir, "oam", None, filename);
    TopOnly(baseDir, "ofm", None, filename);
    assert baseDir + "/" + "oam" + "/" == baseDir + "/oam/";
    assert baseDir + "/" + "ofm" + "/" == baseDir + "/ofm/";
  }

  /** Without a usable name, the file sits directly under `top`. */
  lemma TopOnly(baseDir: string, top: string, name: Option<string>, filename: string)
    requires BaseDir(baseDir) && Plain(top) && Plain(filename)
    requires name == None || name == Some("")
    ensures CreatePath(baseDir, [Some(top), name], filename) == baseDir + "/" + top + "/" + filename
  {
    PresentPair(top, name);
    CreatePathPlain(baseDir, [Some(top), name], filename);
    assert [top] + FilePart(filename) == [top, filename];
    SlashedPair(baseDir, top, filename);
  }

  lemma ComponentPlain(s: string)
    requires s != [] && '/' !in s
    ensures Plain(s)
  {
    assert s[0] in s && s[|s| - 1] in s;
  }

  /** Device pages: a non-empty name becomes its sanitised form as one component under `devices`. */
  lemma DevicePath(baseDir: string, deviceName: string, filename: string)
    requires BaseDir(baseDir) && Plain(filename) && deviceName != []
    ensures GetDevicePath(baseDir, Some(deviceName), filename) == baseDir + "/devices/" + Sanitized(deviceName) + "/" + filename
  {
    var s := Sanitized(deviceName);
    SanitizedIsComponent(deviceName);
    ComponentPlain(s);
    NamedPath(baseDir, "devices", s, filename);
    assert baseDir + "/" + "devices" + "/" == baseDir + "/devices/";
  }

  /** A missing or empty device name gives the overview directory. */
  lemma DeviceOverviewPath(baseDir: string, filename: string)
    requires BaseDir(baseDir) && Plain(filename)
    ensures GetDevicePath(baseDir, None, filename) == baseDir + "/devices/" + filename
    ensures GetDevicePath(baseDir, Some(""), filename) == baseDir + "/devices/" + filename
  {
    TopOnly(baseDir, "devices", None, filename);
    TopOnly(baseDir, "devices", Some(""), filename);
    assert baseDir + "/" + "devices" + "/" == baseDir + "/devices/";
  }
}
