/**
 * A Python `dict` keyed by strings, as the repositories use it: iteration
 * follows insertion order, assigning to a present key keeps its place, and
 * `pop` removes the key from the order.
 */
module OrderedDicts {

  /** Index of the first occurrence of `k` in `s`. */
  function IndexOf(s: seq<string>, k: string): (i: nat)
    requires k in s
    ensures i < |s| && s[i] == k
    ensures forall j :: 0 <= j < i ==> s[j] != k
  {
    if s[0] == k then 0 else 1 + IndexOf(s[1..], k)
  }

  /** No string occurs twice in `s`. */
  predicate Distinct(s: seq<string>)
  {
    forall i, j :: 0 <= i < j < |s| ==> s[i] != s[j]
  }

  /** `s` without any occurrence of `k`. */
  function Without(s: seq<string>, k: string): (r: seq<string>)
    ensures forall x :: x in r <==> x in s && x != k
  {
    if |s| == 0 then []
    else (if s[0] == k then [] else [s[0]]) + Without(s[1..], k)
  }

  /** Removing the single occurrence of a key from a list without repeats cuts it out. */
  lemma {:induction false} WithoutDistinct(s: seq<string>, k: string)
    requires k in s && Distinct(s)
    ensures Without(s, k) == s[..IndexOf(s, k)] + s[IndexOf(s, k) + 1..]
  {
    if s[0] == k {
      assert k !in s[1..];
      WithoutAbsent(s[1..], k);
    } else {
      WithoutDistinct(s[1..], k);
      assert s[..IndexOf(s, k)] == [s[0]] + s[1..][..IndexOf(s[1..], k)];
    }
  }

  /** Dropping a string keeps a list without repeats without repeats. */
  lemma {:induction false} WithoutKeepsDistinct(s: seq<string>, k: string)
    requires Distinct(s)
    ensures Distinct(Without(s, k))
  {
    if |s| > 0 {
      var w := Without(s[1..], k);
      WithoutKeepsDistinct(s[1..], k);
      if s[0] != k {
        assert s[0] !in s[1..];
        assert s[0] !in w;
        var r := [s[0]] + w;
        forall i, j | 0 <= i < j < |r| ensures r[i] != r[j] {
          if i == 0 {
            assert r[j] == w[j - 1];
          } else {
            assert r[i] == w[i - 1] && r[j] == w[j - 1];
          }
        }
      } else {
        assert [] + w == w;
      }
    }
  }

  lemma {:induction false} WithoutAbsent(s: seq<string>, k: string)
    requires k !in s
    ensures Without(s, k) == s
  {
    if |s| > 0 {
      WithoutAbsent(s[1..], k);
    }
  }

  /** Element `j` of `s` with element `i` cut out. */
  lemma CutAt<T>(s: seq<T>, i: nat, j: nat)
    requires i < |s| && j < |s| - 1
    ensures (s[..i] + s[i + 1..])[j] == if j < i then s[j] else s[j + 1]
  {
    if j >= i {
      assert (s[..i] + s[i + 1..])[j] == s[i + 1..][j - i];
    }
  }

  /** A Python dict: its keys in insertion order and what each key holds. */
  datatype Dict<V> = Dict(keys: seq<string>, entries: map<string, V>) {

    /** No key twice in the order, and the order lists exactly the keys present. */
    ghost predicate Valid()
    {
      Distinct(keys) && forall k :: k in entries <==> k in keys
    }

    /** `d[k] = v`: a present key keeps its place, a new key goes last. */
    function Set(k: string, v: V): (d: Dict<V>)
      ensures Valid() ==> d.Valid()
      ensures d.entries.Keys == entries.Keys + {k} && d.entries[k] == v
      ensures forall x :: x in entries && x != k ==> d.entries[x] == entries[x]
    {
      if k in entries then Dict(keys, entries[k := v]) else Dict(keys + [k], entries[k := v])
    }

    /** `d.pop(k)` on a present key (an absent one raises KeyError before any change). */
    function Pop(k: string): (d: Dict<V>)
      requires Valid() && k in entries
      ensures d.Valid()
      ensures d.entries.Keys == entries.Keys - {k}
      ensures forall x :: x in d.entries ==> d.entries[x] == entries[x]
    {
      WithoutKeepsDistinct(keys, k);
      Dict(Without(keys, k), entries - {k})
    }

    /** `d.values()`, in insertion order. */
    function Values(): (vs: seq<V>)
      requires Valid()
      ensures |vs| == |keys|
      ensures forall i :: 0 <= i < |keys| ==> vs[i] == entries[keys[i]]
    {
      seq(|keys|, i requires 0 <= i < |keys| => entries[keys[i]])
    }
  }

  /** Every entry is filed under the key its own record carries. */
  ghost predicate KeyedBy<R>(keyOf: R -> string, d: Dict<R>)
  {
    forall k :: k in d.entries ==> keyOf(d.entries[k]) == k
  }

  /**
   * `{keyOf(r): r for r in rs}`: keys in order of first occurrence, each
   * holding the LAST record that carries it.
   */
  function FromList<R>(keyOf: R -> string, rs: seq<R>): (d: Dict<R>)
    ensures d.Valid() && KeyedBy(keyOf, d)
    decreases |rs|
  {
    if |rs| == 0 then Dict([], map[])
    else FromList(keyOf, rs[..|rs| - 1]).Set(keyOf(rs[|rs| - 1]), rs[|rs| - 1])
  }

  /** Indexing one more row is one more `d[keyOf(r)] = r`. */
  lemma FromListSnoc<R>(keyOf: R -> string, rs: seq<R>, i: nat)
    requires i < |rs|
    ensures FromList(keyOf, rs[..i + 1]) == FromList(keyOf, rs[..i]).Set(keyOf(rs[i]), rs[i])
  {
    assert rs[..i + 1][..i] == rs[..i];
  }

  /** Row `i` is the last of `rs` that carries its key. */
  ghost predicate LastCarrier<R>(keyOf: R -> string, rs: seq<R>, i: nat)
    requires i < |rs|
  {
    forall j :: i < j < |rs| ==> keyOf(rs[j]) != keyOf(rs[i])
  }

  /** The comprehension indexes every row's key. */
  lemma {:induction false} FromListCovers<R>(keyOf: R -> string, rs: seq<R>)
    ensures forall i :: 0 <= i < |rs| ==> keyOf(rs[i]) in FromList(keyOf, rs).entries
    decreases |rs|
  {
    if |rs| > 0 {
      var p, r := rs[..|rs| - 1], rs[|rs| - 1];
      var d := FromList(keyOf, p);
      assert forall i :: 0 <= i < |p| ==> keyOf(p[i]) in d.entries by {
        FromListCovers(keyOf, p);
      }
      assert FromList(keyOf, rs).entries.Keys == d.entries.Keys + {keyOf(r)};
      forall i | 0 <= i < |rs| ensures keyOf(rs[i]) in FromList(keyOf, rs).entries {
        if i < |p| {
          assert rs[i] == p[i];
        }
      }
    }
  }

  /** Under each key the comprehension holds the last row carrying that key. */
  lemma {:induction false} FromListLast<R>(keyOf: R -> string, rs: seq<R>)
    ensures forall k :: k in FromList(keyOf, rs).entries ==>
      exists i :: 0 <= i < |rs| && LastCarrier(keyOf, rs, i) && FromList(keyOf, rs).entries[k] == rs[i]
    decreases |rs|
  {
    if |rs| > 0 {
      var p, r := rs[..|rs| - 1], rs[|rs| - 1];
      FromListLast(keyOf, p);
      var d, d' := FromList(keyOf, p), FromList(keyOf, rs);
      forall k | k in d'.entries
        ensures exists i :: 0 <= i < |rs| && LastCarrier(keyOf, rs, i) && d'.entries[k] == rs[i]
      {
        if k == keyOf(r) {
          assert LastCarrier(keyOf, rs, |rs| - 1);
        } else {
          var i :| 0 <= i < |p| && LastCarrier(keyOf, p, i) && d.entries[k] == p[i];
          assert keyOf(p[i]) == k;
          assert LastCarrier(keyOf, rs, i) by {
            forall j | i < j < |rs| ensures keyOf(rs[j]) != keyOf(rs[i]) {
              if j < |p| {
                assert rs[j] == p[j];
              }
            }
          }
        }
      }
    }
  }

  /** The key of each row, in row order. */
  function KeysOf<R>(keyOf: R -> string, rs: seq<R>): (ks: seq<string>)
    ensures |ks| == |rs| && forall i :: 0 <= i < |rs| ==> ks[i] == keyOf(rs[i])
  {
    seq(|rs|, i requires 0 <= i < |rs| => keyOf(rs[i]))
  }

  lemma KeysOfSnoc<R>(keyOf: R -> string, rs: seq<R>)
    requires |rs| > 0
    ensures KeysOf(keyOf, rs) == KeysOf(keyOf, rs[..|rs| - 1]) + [keyOf(rs[|rs| - 1])]
  {
    assert forall i :: 0 <= i < |rs| - 1 ==> rs[..|rs| - 1][i] == rs[i];
  }

  /** `keys` lists strings of `ks`, ordered by where each first occurs in `ks`. */
  ghost predicate FirstOccurrenceOrder(keys: seq<string>, ks: seq<string>)
  {
    && (forall k :: k in keys ==> k in ks)
    && forall a, b :: 0 <= a < b < |keys| ==> IndexOf(ks, keys[a]) < IndexOf(ks, keys[b])
  }

  lemma {:induction false} IndexOfSnoc(s: seq<string>, y: string, x: string)
    requires x in s
    ensures IndexOf(s + [y], x) == IndexOf(s, x)
  {
    if s[0] != x {
      assert (s + [y])[1..] == s[1..] + [y];
      IndexOfSnoc(s[1..], y, x);
    }
  }

  lemma {:induction false} IndexOfNew(s: seq<string>, x: string)
    requires x !in s
    ensures IndexOf(s + [x], x) == |s|
  {
    if |s| > 0 {
      assert (s + [x])[1..] == s[1..] + [x];
      IndexOfNew(s[1..], x);
    }
  }

  /** A later occurrence does not move where the earlier keys first occur. */
  lemma OrderSnoc(keys: seq<string>, ks: seq<string>, k: string)
    requires FirstOccurrenceOrder(keys, ks)
    ensures FirstOccurrenceOrder(keys, ks + [k])
  {
    forall a, b | 0 <= a < b < |keys|
      ensures IndexOf(ks + [k], keys[a]) < IndexOf(ks + [k], keys[b])
    {
      IndexOfSnoc(ks, k, keys[a]);
      IndexOfSnoc(ks, k, keys[b]);
    }
  }

  /** A key occurring for the first time goes after all earlier keys. */
  lemma OrderSnocNew(keys: seq<string>, ks: seq<string>, k: string)
    requires FirstOccurrenceOrder(keys, ks) && k !in ks
    ensures FirstOccurrenceOrder(keys + [k], ks + [k])
  {
    var keys' := keys + [k];
    IndexOfNew(ks, k);
    forall a, b | 0 <= a < b < |keys'|
      ensures IndexOf(ks + [k], keys'[a]) < IndexOf(ks + [k], keys'[b])
    {
      assert keys'[a] == keys[a];
      IndexOfSnoc(ks, k, keys[a]);
      if b < |keys| {
        assert keys'[b] == keys[b];
        IndexOfSnoc(ks, k, keys[b]);
      }
    }
  }

  /** Every key the rows carry is indexed. */
  lemma FromListCoversKeys<R>(keyOf: R -> string, rs: seq<R>)
    ensures forall x :: x in KeysOf(keyOf, rs) ==> x in FromList(keyOf, rs).entries
  {
    var ks := KeysOf(keyOf, rs);
    FromListCovers(keyOf, rs);
    forall x | x in ks ensures x in FromList(keyOf, rs).entries {
      var i :| 0 <= i < |ks| && ks[i] == x;
      assert x == keyOf(rs[i]);
    }
  }

  /** Assigning the next key of `ks` keeps the keys in first-occurrence order. */
  lemma SetFirstOccurrenceOrder<V>(d: Dict<V>, ks: seq<string>, k: string, v: V)
    requires d.Valid() && FirstOccurrenceOrder(d.keys, ks)
    requires forall x :: x in ks ==> x in d.entries
    ensures FirstOccurrenceOrder(d.Set(k, v).keys, ks + [k])
  {
    if k in d.entries {
      OrderSnoc(d.keys, ks, k);
    } else {
      OrderSnocNew(d.keys, ks, k);
    }
  }

  /** The comprehension's keys come in the order the rows first carry them. */
  lemma {:induction false} FromListOrder<R>(keyOf: R -> string, rs: seq<R>)
    ensures FirstOccurrenceOrder(FromList(keyOf, rs).keys, KeysOf(keyOf, rs))
    decreases |rs|
  {
    if |rs| > 0 {
      var p, r := rs[..|rs| - 1], rs[|rs| - 1];
      var d, ks := FromList(keyOf, p), KeysOf(keyOf, p);
      assert FirstOccurrenceOrder(d.keys, ks) by {
        FromListOrder(keyOf, p);
      }
      FromListCoversKeys(keyOf, p);
      SetFirstOccurrenceOrder(d, ks, keyOf(r), r);
      assert FromList(keyOf, rs) == d.Set(keyOf(r), r);
      KeysOfSnoc(keyOf, rs);
    }
  }

  /** Re-assigning a present key keeps its place in `values()` and holds the new value. */
  lemma SetPresentValues<V>(d: Dict<V>, k: string, v: V)
    requires d.Valid() && k in d.entries
    ensures d.Set(k, v).Values() == d.Values()[IndexOf(d.keys, k) := v]
  {
    var i := IndexOf(d.keys, k);
    var a, b := d.Set(k, v).Values(), d.Values()[i := v];
    assert |a| == |b|;
    forall j | 0 <= j < |a| ensures a[j] == b[j] {
      if j != i {
        assert d.keys[j] != k;
      }
    }
  }

  /** Assigning a new key appends its value to `values()`. */
  lemma SetAbsentValues<V>(d: Dict<V>, k: string, v: V)
    requires d.Valid() && k !in d.entries
    ensures d.Set(k, v).Values() == d.Values() + [v]
  {
    var a, b := d.Set(k, v).Values(), d.Values() + [v];
    assert |a| == |b|;
    forall j | 0 <= j < |a| ensures a[j] == b[j] {
      if j < |d.keys| {
        assert d.keys[j] != k;
      }
    }
  }

  /** `pop` cuts the key out of the insertion order, the keys before and after it keeping their order. */
  lemma PopKeys<V>(d: Dict<V>, k: string)
    requires d.Valid() && k in d.entries
    ensures d.Pop(k).keys == d.keys[..IndexOf(d.keys, k)] + d.keys[IndexOf(d.keys, k) + 1..]
  {
    WithoutDistinct(d.keys, k);
  }

  /** `pop` cuts the key's value out of `values()`. */
  lemma PopValues<V>(d: Dict<V>, k: string)
    requires d.Valid() && k in d.entries
    ensures d.Pop(k).Values() ==
      d.Values()[..IndexOf(d.keys, k)] + d.Values()[IndexOf(d.keys, k) + 1..]
  {
    PopValuesPointwise(d, k);
  }

  lemma PopValuesPointwise<V>(d: Dict<V>, k: string)
    requires d.Valid() && k in d.entries
    ensures var a, b := d.Pop(k).Values(), d.Values()[..IndexOf(d.keys, k)] + d.Values()[IndexOf(d.keys, k) + 1..];
      |a| == |b| && forall j :: 0 <= j < |a| ==> a[j] == b[j]
  {
    var i := IndexOf(d.keys, k);
    var a, b := d.Pop(k).Values(), d.Values()[..i] + d.Values()[i + 1..];
    assert |a| == |b| == |d.keys| - 1 by {
      PopKeys(d, k);
    }
    forall j | 0 <= j < |a| ensures a[j] == b[j] {
      PopValuesAt(d, k, j);
    }
  }

  lemma PopValuesAt<V>(d: Dict<V>, k: string, j: nat)
    requires d.Valid() && k in d.entries && j < |d.keys| - 1
    ensures |d.Pop(k).keys| == |d.keys| - 1
    ensures d.Pop(k).Values()[j] ==
      (d.Values()[..IndexOf(d.keys, k)] + d.Values()[IndexOf(d.keys, k) + 1..])[j]
  {
    var i := IndexOf(d.keys, k);
    var e := d.Pop(k);
    PopKeys(d, k);
    CutAt(d.keys, i, j);
    CutAt(d.Values(), i, j);
    var x := e.keys[j];
    assert x in e.entries;
    assert e.Values()[j] == e.entries[x] == d.entries[x];
  }

  /** `pop` then re-assign moves the key's value to the end of `values()`. */
  lemma PopSetMovesLast<V>(d: Dict<V>, k: string, v: V)
    requires d.Valid() && k in d.entries
    ensures d.Pop(k).Set(k, v).Values() ==
      d.Values()[..IndexOf(d.keys, k)] + d.Values()[IndexOf(d.keys, k) + 1..] + [v]
  {
    PopValues(d, k);
    SetAbsentValues(d.Pop(k), k, v);
  }

  /** The records of `values()` carry pairwise different keys. */
  lemma ValuesKeysDistinct<R>(keyOf: R -> string, d: Dict<R>)
    requires d.Valid() && KeyedBy(keyOf, d)
    ensures forall i, j :: 0 <= i < j < |d.keys| ==> keyOf(d.Values()[i]) != keyOf(d.Values()[j])
  {
  }

  /** The first `n` keys of `d` with their entries. */
  function Prefix<V>(d: Dict<V>, n: nat): Dict<V>
    requires d.Valid() && n <= |d.keys|
  {
    Dict(d.keys[..n], map k | k in d.keys[..n] :: d.entries[k])
  }

  /** The first `n` keys are the first `n - 1` with the `n`-th assigned after them. */
  lemma PrefixSnoc<V>(d: Dict<V>, n: nat)
    requires d.Valid() && 0 < n <= |d.keys|
    ensures Prefix(d, n) == Prefix(d, n - 1).Set(d.keys[n - 1], d.entries[d.keys[n - 1]])
  {
    var k := d.keys[n - 1];
    var p := Prefix(d, n - 1);
    assert d.keys[..n] == d.keys[..n - 1] + [k];
    assert k !in d.keys[..n - 1];
    assert p.Set(k, d.entries[k]).entries == Prefix(d, n).entries;
  }

  /** Rebuilding from the first `n` saved values gives the first `n` keys with their entries. */
  lemma {:induction false} FromListPrefix<R>(keyOf: R -> string, d: Dict<R>, n: nat)
    requires d.Valid() && KeyedBy(keyOf, d) && n <= |d.keys|
    ensures FromList(keyOf, d.Values()[..n]) == Prefix(d, n)
  {
    var vs := d.Values();
    if n == 0 {
      assert vs[..0] == [];
      assert Prefix(d, 0).entries == map[];
    } else {
      var v := vs[n - 1];
      assert FromList(keyOf, vs[..n]) == FromList(keyOf, vs[..n - 1]).Set(keyOf(v), v) by {
        assert vs[..n][..n - 1] == vs[..n - 1];
      }
      assert FromList(keyOf, vs[..n - 1]) == Prefix(d, n - 1) by {
        FromListPrefix(keyOf, d, n - 1);
      }
      assert keyOf(v) == d.keys[n - 1] && v == d.entries[d.keys[n - 1]];
      PrefixSnoc(d, n);
    }
  }

  /**
   * Rebuilding the index from the saved `values()` gives back the same dict:
   * the same keys in the same order, each with the same record.
   */
  lemma FromListValues<R>(keyOf: R -> string, d: Dict<R>)
    requires d.Valid() && KeyedBy(keyOf, d)
    ensures FromList(keyOf, d.Values()) == d
  {
    assert d.Values()[..|d.keys|] == d.Values();
    FromListPrefix(keyOf, d, |d.keys|);
    PrefixAll(d);
  }

  lemma PrefixAll<V>(d: Dict<V>)
    requires d.Valid()
    ensures Prefix(d, |d.keys|) == d
  {
    assert d.keys[..|d.keys|] == d.keys;
    assert Prefix(d, |d.keys|).entries == d.entries;
  }
}
