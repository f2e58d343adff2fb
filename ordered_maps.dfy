/** Python's insertion-ordered `dict`: keys in first-insertion order and their values. */
module OrderedMaps {
  import opened Wrappers
  import opened Seqs

  datatype OMap<K(==,!new), V> = OMap(keys: seq<K>, values: map<K, V>) {
    ghost predicate Valid() {
      Distinct(keys) && forall k :: k in values <==> k in keys
    }

    function Get(k: K): Option<V> {
      if k in values then Some(values[k]) else None
    }

    /** `d[k] = v`: a new key goes to the end, an existing key keeps its place. */
    function Put(k: K, v: V): (r: OMap<K, V>)
      requires Valid()
      ensures r.Valid()
      ensures r.Get(k) == Some(v)
      ensures forall j :: j != k ==> r.Get(j) == Get(j)
      ensures r.keys == if k in values then keys else keys + [k]
    {
      if k in values then OMap(keys, values[k := v]) else OMap(keys + [k], values[k := v])
    }
  }

  function Empty<K(==,!new), V>(): (r: OMap<K, V>)
    ensures r.Valid() && r.keys == []
  {
    OMap([], map[])
  }

  /** A dict of dicts. */
  type OMap2<K1(==,!new), K2(==,!new), V> = OMap<K1, OMap<K2, V>>

  ghost predicate Valid2<K1(!new), K2(!new), V>(m: OMap2<K1, K2, V>) {
    m.Valid() && forall g :: g in m.values ==> m.values[g].Valid()
  }

  /** `m[g][k]`, when both keys are present. */
  function Lookup2<K1(==,!new), K2(==,!new), V>(m: OMap2<K1, K2, V>, g: K1, k: K2): Option<V> {
    if g in m.values then m.values[g].Get(k) else None
  }

  /** `m.setdefault(g, {})[k] = v` */
  function Put2<K1(==,!new), K2(==,!new), V>(m: OMap2<K1, K2, V>, g: K1, k: K2, v: V): (r: OMap2<K1, K2, V>)
    requires Valid2(m)
    ensures Valid2(r)
    ensures Lookup2(r, g, k) == Some(v)
    ensures forall g', k' :: g' != g || k' != k ==> Lookup2(r, g', k') == Lookup2(m, g', k')
    ensures forall g' :: g' in r.values <==> g' in m.values || g' == g
    ensures g in m.values ==> r.keys == m.keys
  {
    var inner := if g in m.values then m.values[g] else Empty();
    m.Put(g, inner.Put(k, v))
  }

  /** The entries of one inner dict under `g`, for the keys `ks`, in order. */
  function Row<K1(==,!new), K2(==,!new), V>(g: K1, inner: OMap<K2, V>, ks: seq<K2>): (r: seq<(K1, K2, V)>)
    requires forall i :: 0 <= i < |ks| ==> ks[i] in inner.values
    ensures |r| == |ks|
  {
    if ks == [] then [] else Row(g, inner, ks[..|ks| - 1]) + [(g, ks[|ks| - 1], inner.values[ks[|ks| - 1]])]
  }

  /** The entries under the outer keys `gs`, in order. */
  function Rows<K1(==,!new), K2(==,!new), V>(m: OMap2<K1, K2, V>, gs: seq<K1>): seq<(K1, K2, V)>
    requires Valid2(m) && forall i :: 0 <= i < |gs| ==> gs[i] in m.values
  {
    if gs == [] then []
    else
      var g := gs[|gs| - 1];
      Rows(m, gs[..|gs| - 1]) + Row(g, m.values[g], m.values[g].keys)
  }

  /** `for g, inner in m.items(): for k, v in inner.items(): ...` visits these, in this order. */
  function Flatten<K1(==,!new), K2(==,!new), V>(m: OMap2<K1, K2, V>): seq<(K1, K2, V)>
    requires Valid2(m)
  {
    Rows(m, m.keys)
  }

  /** Every visited entry is an entry of the nested dict, and every entry is visited. */
  lemma FlattenSpec<K1(!new), K2(!new), V>(m: OMap2<K1, K2, V>)
    requires Valid2(m)
    ensures forall t :: t in Flatten(m) <==> Lookup2(m, t.0, t.1) == Some(t.2)
  {
    RowsSpec(m, m.keys);
  }

  lemma {:induction false} RowSpec<K1(!new), K2(!new), V>(g: K1, inner: OMap<K2, V>, ks: seq<K2>)
    requires forall i :: 0 <= i < |ks| ==> ks[i] in inner.values
    ensures forall t :: t in Row(g, inner, ks) <==> t.0 == g && t.1 in ks && t.1 in inner.values && inner.values[t.1] == t.2
  {
    if ks != [] {
      var init := ks[..|ks| - 1];
      RowSpec(g, inner, init);
      assert ks == init + [ks[|ks| - 1]];
    }
  }

  lemma {:induction false} RowsSpec<K1(!new), K2(!new), V>(m: OMap2<K1, K2, V>, gs: seq<K1>)
    requires Valid2(m) && forall i :: 0 <= i < |gs| ==> gs[i] in m.values
    ensures forall t :: t in Rows(m, gs) <==> t.0 in gs && Lookup2(m, t.0, t.1) == Some(t.2)
  {
    if gs != [] {
      var init := gs[..|gs| - 1];
      var g := gs[|gs| - 1];
      RowsSpec(m, init);
      RowSpec(g, m.values[g], m.values[g].keys);
      assert gs == init + [g];
    }
  }
}
