/**
 * `DeviceHelper`: raw device names from release descriptors become display
 * names through a curated table, with per-application overrides. The table
 * is loaded from a JSON file in the source; here it is a parameter, which
 * the lookup only reads.
 */
module DeviceHelper {
  import opened Strings

  /** The brand token that marks a first-party device. */
  const OpenMarker: string := "OpenKNX"

  /** Prefix of the placeholder returned for an unknown raw name. */
  const UnknownPrefix: string := "(???)-"

  /** `is_open_device`: the brand token occurs somewhere in the name. */
  predicate IsOpenDevice(deviceName: string) {
    Contains(deviceName, OpenMarker)
  }

  /** The table key of an application-specific override: `hw@oam`. */
  function OverrideKey(hwText: string, oam: string): string {
    hwText + "@" + oam
  }

  /** `hw_name_mapping`: the override first, then the general entry, then a placeholder. */
  function HwNameMapping(deviceNameMap: map<string, string>, oam: string, hwText: string): string {
    var key := OverrideKey(hwText, oam);
    if key in deviceNameMap then deviceNameMap[key]
    else if hwText in deviceNameMap then deviceNameMap[hwText]
    else UnknownPrefix + hwText
  }

  /** `is_open_device` holds exactly when `OpenKNX` starts at some position of the name. */
  lemma IsOpenDeviceAt(deviceName: string)
    ensures IsOpenDevice(deviceName) <==> exists i :: OccursAt(deviceName, OpenMarker, i)
  {
    ContainsAt(deviceName, OpenMarker);
  }

  /** Override keys of different applications differ. */
  lemma OverrideKeysDiffer(hwText: string, a: string, b: string)
    requires a != b
    ensures OverrideKey(hwText, a) != OverrideKey(hwText, b)
  {
    var n := |hwText| + 1;
    assert OverrideKey(hwText, a)[n..] == a;
    assert OverrideKey(hwText, b)[n..] == b;
  }

  /**
   * An override for application `a` never changes what another application
   * `b` gets for the same raw name.
   */
  lemma OverrideIsLocal(m: map<string, string>, hwText: string, a: string, b: string, v: string)
    requires a != b
    ensures HwNameMapping(m[OverrideKey(hwText, a) := v], b, hwText) == HwNameMapping(m, b, hwText)
  {
    OverrideKeysDiffer(hwText, a, b);
  }

  /**
   * Override precedence: with `X -> A` and `X@App1 -> B` in the table, `X`
   * under `App1` gives `B`, and under any other application without its own
   * override gives `A`.
   */
  lemma OverridePrecedence(m: map<string, string>, hwText: string, app1: string, app2: string)
    requires hwText in m && OverrideKey(hwText, app1) in m
    requires app2 != app1 && OverrideKey(hwText, app2) !in m
    ensures HwNameMapping(m, app1, hwText) == m[OverrideKey(hwText, app1)]
    ensures HwNameMapping(m, app2, hwText) == m[hwText]
  {
    OverrideKeysDiffer(hwText, app1, app2);
  }

  /**
   * The lookup order for every table: the application's override if there is
   * one, otherwise the general entry if there is one, otherwise the marked
   * placeholder.
   */
  lemma LookupOrder(m: map<string, string>, oam: string, hwText: string)
    ensures OverrideKey(hwText, oam) in m ==> HwNameMapping(m, oam, hwText) == m[OverrideKey(hwText, oam)]
    ensures OverrideKey(hwText, oam) !in m && hwText in m ==> HwNameMapping(m, oam, hwText) == m[hwText]
    ensures OverrideKey(hwText, oam) !in m && hwText !in m ==> HwNameMapping(m, oam, hwText) == UnknownPrefix + hwText
  {
  }

  /**
   * An unknown raw name stays visible: the result is the raw name marked with
   * the `(???)-` prefix, so it starts with the marker, ends with and contains
   * the raw name, and is never a first-party device unless the raw name
   * already was.
   */
  lemma UnknownKeepsRawName(m: map<string, string>, oam: string, hwText: string)
    requires OverrideKey(hwText, oam) !in m && hwText !in m
    ensures HwNameMapping(m, oam, hwText) == UnknownPrefix + hwText
    ensures StartsWith(HwNameMapping(m, oam, hwText), "(???)-")
    ensures EndsWith(HwNameMapping(m, oam, hwText), hwText)
    ensures Contains(HwNameMapping(m, oam, hwText), hwText)
    ensures IsOpenDevice(HwNameMapping(m, oam, hwText)) <==> IsOpenDevice(hwText)
  {
    var r := UnknownPrefix + hwText;
    assert r[|r| - |hwText|..] == hwText;
    ContainsSuffix(UnknownPrefix, hwText);
    assert OpenMarker[0] !in UnknownPrefix;
    ContainsSkipsPrefix(UnknownPrefix, hwText, OpenMarker);
  }
}
