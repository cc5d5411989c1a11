/** Item properties: parsing, merging and encoding (artifactory/services/utils/properties.go). */
module ItemProperties {
  import opened Sequences
  import opened Wrappers
  import opened Text
  import opened StringOrder
  import opened EscapedSplit
  import opened UrlEscape

  type Props = map<string, seq<string>>

  // ----- Parsing -----

  /** The key and the value of `key=value`, neither of them empty. */
  function SplitPropToKeyAndValue(str: string): Option<(string, string)> {
    var index := Index(str, '=');
    if index == -1 || index - 1 < 0 || index + 1 >= |str| then None
    else Some((str[..index], str[index + 1..]))
  }

  /** Without an error, or with the malformed property at which the parser stopped. */
  datatype Parsed = Parsed(props: Props, err: Option<string>)

  function ValuesOf(m: Props, key: string): seq<string> {
    if key in m then m[key] else []
  }

  function AddAll(m: Props, propList: seq<string>): Parsed {
    if propList == [] then Parsed(m, None)
    else
      var r, prop := AddAll(m, propList[..|propList| - 1]), propList[|propList| - 1];
      if r.err.Some? || prop == "" then r
      else match SplitPropToKeyAndValue(prop)
           case None => r.(err := Some(prop))
           case Some((key, value)) => r.(props := r.props[key := ValuesOf(r.props, key) + Parts(value, ',')])
  }

  /** removeDuplicates: the first occurrence of each value stays. */
  function Distinct(values: seq<string>): (r: seq<string>)
    ensures forall v :: v in r <==> v in values
    ensures forall i, j :: 0 <= i < j < |r| ==> r[i] != r[j]
  {
    if values == [] then []
    else
      var front, last := values[..|values| - 1], values[|values| - 1];
      assert values == front + [last];
      Distinct(front) + if last in front then [] else [last]
  }

  function DistinctAll(m: Props): Props {
    map k | k in m :: Distinct(m[k])
  }

  function ParsedInto(m: Props, propStr: string): Parsed {
    var r := AddAll(m, Parts(propStr, ';'));
    if r.err.Some? then r else r.(props := DistinctAll(r.props))
  }

  method RemoveDuplicates(stringSlice: seq<string>) returns (list: seq<string>)
    ensures list == Distinct(stringSlice)
  {
    var keys: set<string> := {};
    list := [];
    for i := 0 to |stringSlice|
      invariant list == Distinct(stringSlice[..i]) && forall v :: v in keys <==> v in stringSlice[..i]
    {
      assert stringSlice[..i + 1] == stringSlice[..i] + [stringSlice[i]];
      assert stringSlice[..i + 1][..i] == stringSlice[..i];
      if stringSlice[i] !in keys {
        keys := keys + {stringSlice[i]};
        list := list + [stringSlice[i]];
      }
    }
    assert stringSlice[..|stringSlice|] == stringSlice;
  }

  // ----- Adding and merging -----

  function Added(m: Props, key: string, value: string): Props {
    if value in ValuesOf(m, key) then m else m[key := ValuesOf(m, key) + [value]]
  }

  function Appended(m: Props, p: Props): Props {
    map k | k in m.Keys + p.Keys :: ValuesOf(m, k) + ValuesOf(p, k)
  }

  function AppendAll(list: seq<Props>): Props {
    if list == [] then map[] else Appended(AppendAll(list[..|list| - 1]), list[|list| - 1])
  }

  /** Removing duplicates early changes nothing. */
  lemma DistinctStep(values: seq<string>)
    requires values != []
    ensures var front, last := values[..|values| - 1], values[|values| - 1];
            Distinct(values) == Distinct(front) + if last in front then [] else [last]
  {
  }

  lemma {:induction false} DistinctAbsorbs(a: seq<string>, b: seq<string>)
    ensures Distinct(Distinct(a) + b) == Distinct(a + b)
  {
    hide Distinct;
    if b == [] {
      assert a + b == a && Distinct(a) + b == Distinct(a);
      DistinctIdempotent(Distinct(a));
    } else {
      var n := |b| - 1;
      DistinctAbsorbs(a, b[..n]);
      assert (a + b)[..|a + b| - 1] == a + b[..n];
      assert (Distinct(a) + b)[..|Distinct(a) + b| - 1] == Distinct(a) + b[..n];
      DistinctStep(a + b);
      DistinctStep(Distinct(a) + b);
      assert b[n] in a + b[..n] <==> b[n] in Distinct(a) + b[..n];
    }
  }

  /** Of each value the first occurrence stays, right after those that stay before it. */
  lemma {:induction false} DistinctKeepsFirst(values: seq<string>, k: nat)
    requires k < |values|
    ensures Distinct(values[..k]) <= Distinct(values)
    ensures values[k] !in values[..k] ==> Distinct(values[..k]) + [values[k]] <= Distinct(values)
  {
    hide Distinct;
    var n := |values| - 1;
    DistinctStep(values);
    if k < n {
      DistinctKeepsFirst(values[..n], k);
      assert values[..n][..k] == values[..k];
    }
  }

  lemma {:induction false} DistinctIdempotent(a: seq<string>)
    requires forall i, j :: 0 <= i < j < |a| ==> a[i] != a[j]
    ensures Distinct(a) == a
  {
    hide Distinct;
    if a == [] {
      DistinctEmpty();
    } else {
      DistinctStep(a);
      DistinctIdempotent(a[..|a| - 1]);
      assert a == a[..|a| - 1] + [a[|a| - 1]];
      assert a[|a| - 1] !in a[..|a| - 1];
    }
  }

  lemma DistinctEmpty()
    ensures Distinct([]) == []
  {
  }

  // ----- Encoding -----

  /** The escaped key and values, the values in one list. */
  function EncodedValues(vs: seq<string>): string
    requires forall v :: v in vs ==> IsBytes(v)
  {
    if vs == [] then ""
    else
      var n := |vs| - 1;
      EscapeKeepsBytes(vs[n], ',');
      (if n == 0 then "" else EncodedValues(vs[..n]) + "%2C") + QueryEscape(Escape(vs[n], ','))
  }

  lemma {:induction false} EscapeKeepsBytes(v: string, sep: char)
    requires IsBytes(v)
    ensures IsBytes(Escape(v, sep))
  {
    if v != "" {
      EscapeKeepsBytes(v[..|v| - 1], sep);
    }
  }

  /** The property once for each value. */
  function RepeatedKey(key: string, vs: seq<string>): string
    requires IsBytes(key) && forall v :: v in vs ==> IsBytes(v)
  {
    if vs == [] then ""
    else
      var n := |vs| - 1;
      (if n == 0 then "" else RepeatedKey(key, vs[..n]) + ";") + QueryEscape(key) + "=" + QueryEscape(vs[n])
  }

  function EncodedProp(key: string, vs: seq<string>, concatValues: bool): string
    requires IsBytes(key) && forall v :: v in vs ==> IsBytes(v)
  {
    if concatValues then QueryEscape(key) + "=" + EncodedValues(vs) else RepeatedKey(key, vs)
  }

  /** All strings are strings of bytes, as in Go. */
  ghost predicate AllBytes(m: Props) {
    forall k :: k in m ==> IsBytes(k) && forall v :: v in m[k] ==> IsBytes(v)
  }

  function Encoded(m: Props, keys: seq<string>, concatValues: bool): string
    requires AllBytes(m) && forall k :: k in keys ==> k in m
  {
    if keys == [] then ""
    else
      var n := |keys| - 1;
      (if n == 0 then "" else Encoded(m, keys[..n], concatValues) + ";")
        + EncodedProp(keys[n], m[keys[n]], concatValues)
  }

  /** The keys in increasing order. */
  ghost predicate SortedKeysOf(keys: seq<string>, m: Props) {
    (forall i, j :: 0 <= i < j < |keys| ==> Less(keys[i], keys[j])) && forall k :: k in keys <==> k in m
  }

  lemma AppendedAt(m: Props, p: Props, k: string)
    ensures k in Appended(m, p) <==> k in m || k in p
    ensures ValuesOf(Appended(m, p), k) == ValuesOf(m, k) + ValuesOf(p, k)
  {
  }

  lemma AppendNothing(m: Props, p: Props)
    ensures Appended(m, p - p.Keys) == m
  {
    var a := Appended(m, p - p.Keys);
    assert a.Keys == m.Keys;
    assert forall k :: k in m ==> a[k] == m[k] + [] == m[k];
  }

  lemma AppendKey(m: Props, p: Props, rest: set<string>, key: string)
    requires key in rest && rest <= p.Keys
    ensures var a := Appended(m, p - rest);
            Appended(m, p - (rest - {key})) == a[key := ValuesOf(a, key) + p[key]]
  {
    hide Appended;
    var a, b := Appended(m, p - rest), Appended(m, p - (rest - {key}));
    var c := a[key := ValuesOf(a, key) + p[key]];
    forall k
      ensures k in b <==> k in c
      ensures k in b ==> b[k] == c[k]
    {
      AppendedAt(m, p - rest, k);
      AppendedAt(m, p - (rest - {key}), k);
      assert ValuesOf(m, key) + [] == ValuesOf(m, key);
    }
    assert b.Keys == c.Keys;
  }

  class Properties {
    var properties: Props

    constructor ()
      ensures properties == map[]
    {
      properties := map[];
    }

    method ParseAndAddProperties(propStr: string) returns (err: Option<string>)
      modifies this
      ensures Parsed(properties, err) == ParsedInto(old(properties), propStr)
    {
      hide Parts, DistinctAll, Index;
      var propList := SplitWhileIgnoringBackslashPrefixSeparators(propStr, ';');
      for i := 0 to |propList|
        invariant Parsed(properties, None) == AddAll(old(properties), propList[..i])
      {
        assert propList[..i + 1][..i] == propList[..i];
        var prop := propList[i];
        if prop == "" {
          continue;
        }
        var keyAndValue := SplitPropToKeyAndValue(prop);
        if keyAndValue.None? {
          Stopped(old(properties), propList, i);
          return Some(prop);
        }
        var (key, value) := keyAndValue.value;
        var splitValues := SplitWhileIgnoringBackslashPrefixSeparators(value, ',');
        properties := properties[key := ValuesOf(properties, key) + splitValues];
      }
      assert propList[..|propList|] == propList;
      RemoveDuplicateValues();
      return None;
    }

    method RemoveDuplicateValues()
      modifies this
      ensures properties == DistinctAll(old(properties))
    {
      hide Distinct;
      var rest := properties.Keys;
      while rest != {}
        invariant rest <= properties.Keys == old(properties).Keys
        invariant forall k :: k in properties ==>
          properties[k] == if k in rest then old(properties)[k] else Distinct(old(properties)[k])
        decreases |rest|
      {
        var key :| key in rest;
        var list := RemoveDuplicates(properties[key]);
        properties := properties[key := list];
        rest := rest - {key};
      }
    }

    /** The inner loop of MergeProperties. */
    method AppendFrom(other: Props)
      modifies this
      ensures properties == Appended(old(properties), other)
    {
      hide Appended;
      AppendNothing(properties, other);
      var rest := other.Keys;
      while rest != {}
        invariant rest <= other.Keys && properties == Appended(old(properties), other - rest)
        decreases |rest|
      {
        var key :| key in rest;
        AppendKey(old(properties), other, rest, key);
        properties := properties[key := ValuesOf(properties, key) + other[key]];
        rest := rest - {key};
      }
      assert other - {} == other;
    }

    method AddProperty(key: string, value: string)
      modifies this
      ensures properties == Added(old(properties), key, value)
    {
      if key in properties {
        for i := 0 to |properties[key]|
          invariant value !in properties[key][..i]
        {
          if properties[key][i] == value {
            return;
          }
        }
      }
      properties := properties[key := ValuesOf(properties, key) + [value]];
    }

    method GetSortedKeys() returns (keys: seq<string>)
      ensures SortedKeysOf(keys, properties)
    {
      keys := [];
      var rest := properties.Keys;
      while rest != {}
        invariant forall k :: k in properties <==> k in keys || k in rest
        invariant forall i, j :: 0 <= i < j < |keys| ==> keys[i] != keys[j]
        invariant forall k :: k in keys ==> k !in rest
        decreases |rest|
      {
        var key :| key in rest;
        keys := keys + [key];
        rest := rest - {key};
      }
      SortedIsSortedKeys(keys, properties);
      keys := SortKeys(keys, true);
    }

    /** The keys are unique by SortedKeysUnique, so that the string is. */
    method ToEncodedString(concatValues: bool) returns (encoded: string)
      requires AllBytes(properties)
      ensures exists keys :: SortedKeysOf(keys, properties) && encoded == Encoded(properties, keys, concatValues)
    {
      hide Encoded, EncodedProp, Less;
      var keys := GetSortedKeys();
      var encodedProps := "";
      for i := 0 to |keys|
        invariant encodedProps == if i == 0 then "" else ";" + Encoded(properties, keys[..i], concatValues)
      {
        assert keys[i] in keys;
        EncodedMore(properties, keys, i, concatValues);
        var jointProp := EncodeProp(keys[i], properties[keys[i]], concatValues);
        encodedProps := encodedProps + ";" + jointProp;
      }
      assert keys[..|keys|] == keys;
      encoded := TrimPrefix(encodedProps, ";");
      EncodedNothing(properties, concatValues);
      assert encoded == Encoded(properties, keys, concatValues);
    }
  }

  lemma EncodedNothing(m: Props, concatValues: bool)
    requires AllBytes(m)
    ensures Encoded(m, [], concatValues) == ""
  {
  }

  lemma EncodedMore(m: Props, keys: seq<string>, i: nat, concatValues: bool)
    requires AllBytes(m) && i < |keys| && forall k :: k in keys ==> k in m
    ensures Encoded(m, keys[..i + 1], concatValues)
         == (if i == 0 then "" else Encoded(m, keys[..i], concatValues) + ";")
            + EncodedProp(keys[i], m[keys[i]], concatValues)
  {
    assert keys[..i + 1][..i] == keys[..i];
  }

  lemma {:induction false} Stopped(m: Props, propList: seq<string>, i: nat)
    requires i < |propList| && AddAll(m, propList[..i + 1]).err.Some?
    ensures AddAll(m, propList) == AddAll(m, propList[..i + 1])
    decreases |propList|
  {
    hide SplitPropToKeyAndValue, Parts;
    if i + 1 < |propList| {
      var front := propList[..|propList| - 1];
      assert front[..i + 1] == propList[..i + 1];
      Stopped(m, front, i);
    } else {
      assert propList[..i + 1] == propList;
    }
  }

  lemma SortedIsSortedKeys(keys: seq<string>, m: Props)
    requires forall k :: k in keys <==> k in m
    requires forall i, j :: 0 <= i < j < |keys| ==> keys[i] != keys[j]
    ensures SortedKeysOf(SortKeys(keys, true), m)
  {
    hide SortKeys, Less;
    SortKeysSorts(keys, true);
    var sorted := SortKeys(keys, true);
    forall k
      ensures k in sorted <==> k in keys
    {
      assert k in sorted <==> k in multiset(sorted);
      assert k in keys <==> k in multiset(keys);
    }
    DistinctSame(keys, sorted);
    forall i, j | 0 <= i < j < |sorted|
      ensures Less(sorted[i], sorted[j])
    {
      LessTotal(sorted[i], sorted[j]);
      assert !Before(sorted[j], sorted[i], true);
    }
  }

  lemma {:induction false} SortedKeysUnique(a: seq<string>, b: seq<string>, m: Props)
    requires SortedKeysOf(a, m) && SortedKeysOf(b, m)
    ensures a == b
  {
    assert a != [] ==> a[0] in a;
    assert b != [] ==> b[0] in b;
    if a != [] {
      var n, k := |a| - 1, |b| - 1;
      LastIsGreatest(a, m, b[k]);
      LastIsGreatest(b, m, a[n]);
      LessTotal(a[n], b[k]);
      WithoutLast(a, m);
      WithoutLast(b, m);
      SortedKeysUnique(a[..n], b[..k], m - {a[n]});
    }
  }

  lemma LastIsGreatest(a: seq<string>, m: Props, x: string)
    requires SortedKeysOf(a, m) && a != [] && x in m
    ensures x == a[|a| - 1] || Less(x, a[|a| - 1])
  {
    hide Less;
    assert x in a;
  }

  lemma WithoutLast(a: seq<string>, m: Props)
    requires SortedKeysOf(a, m) && a != []
    ensures SortedKeysOf(a[..|a| - 1], m - {a[|a| - 1]}) && a == a[..|a| - 1] + [a[|a| - 1]]
  {
    hide Less;
    var n := |a| - 1;
    assert a == a[..n] + [a[n]];
    forall k | k in a[..n]
      ensures k != a[n]
    {
      var i :| 0 <= i < n && a[i] == k;
      LessTotal(a[i], a[n]);
    }
  }

  /** One turn of the loop of ToEncodedString. */
  method EncodeProp(key: string, values: seq<string>, concatValues: bool) returns (jointProp: string)
    requires IsBytes(key) && forall v :: v in values ==> IsBytes(v)
    ensures jointProp == EncodedProp(key, values, concatValues)
  {
    hide QueryEscape, Escape, EncodedValues, RepeatedKey, TrimSuffix, IsBytes;
    if concatValues {
      var start := QueryEscape(key) + "=";
      jointProp := start;
      for i := 0 to |values|
        invariant jointProp == start + if i == 0 then "" else EncodedValues(values[..i]) + "%2C"
      {
        EncodedValuesStep(values, i);
        jointProp := jointProp + QueryEscape(Escape(values[i], ',')) + "%2C";
      }
      assert values[..|values|] == values;
      NothingEncodedFor(key);
      NoCommaAfterEquals(QueryEscape(key));
      TrimLast(start + EncodedValues(values), "%2C");
      assert start + EncodedValues(values) + "%2C" == start + (EncodedValues(values) + "%2C") && start + "" == start;
      jointProp := TrimSuffix(jointProp, "%2C");
    } else {
      jointProp := "";
      for i := 0 to |values|
        invariant jointProp == if i == 0 then "" else RepeatedKey(key, values[..i]) + ";"
      {
        NextRepeated(key, values, i);
        jointProp := jointProp + QueryEscape(key) + "=" + QueryEscape(values[i]) + ";";
      }
      assert values[..|values|] == values;
      NothingEncodedFor(key);
      TrimLast(RepeatedKey(key, values), ";");
      TrimNothing(";");
      jointProp := TrimSuffix(jointProp, ";");
    }
  }

  lemma EncodedValuesStep(vs: seq<string>, i: nat)
    requires i < |vs| && forall v :: v in vs ==> IsBytes(v)
    ensures IsBytes(Escape(vs[i], ','))
    ensures EncodedValues(vs[..i + 1])
         == (if i == 0 then "" else EncodedValues(vs[..i]) + "%2C") + QueryEscape(Escape(vs[i], ','))
  {
    hide QueryEscape, Escape, IsBytes;
    assert vs[..i + 1][..i] == vs[..i];
    EscapeKeepsBytes(vs[i], ',');
  }

  lemma NextRepeated(key: string, vs: seq<string>, i: nat)
    requires IsBytes(key) && i < |vs| && forall v :: v in vs ==> IsBytes(v)
    ensures RepeatedKey(key, vs[..i + 1])
         == (if i == 0 then "" else RepeatedKey(key, vs[..i]) + ";") + QueryEscape(key) + "=" + QueryEscape(vs[i])
  {
    hide QueryEscape, IsBytes;
    assert vs[..i + 1][..i] == vs[..i];
  }

  lemma NothingEncodedFor(key: string)
    requires IsBytes(key)
    ensures EncodedValues([]) == "" && RepeatedKey(key, []) == ""
  {
  }

  lemma TrimLast(s: string, t: string)
    ensures TrimSuffix(s + t, t) == s
  {
    assert (s + t)[|s|..] == t && (s + t)[..|s|] == s;
  }

  lemma NoCommaAfterEquals(s: string)
    ensures TrimSuffix(s + "=", "%2C") == s + "="
  {
    assert (s + "=")[|s|] == '=';
  }

  lemma TrimNothing(t: string)
    requires t != ""
    ensures TrimSuffix("", t) == ""
  {
  }

  function Contents(list: seq<Properties?>): (r: seq<Props>)
    reads list
  {
    if list == [] then []
    else
      var last := list[|list| - 1];
      Contents(list[..|list| - 1]) + if last == null then [] else [last.properties]
  }

  lemma ContentsMore(list: seq<Properties?>, p: Properties?)
    ensures Contents(list + [p]) == Contents(list) + if p == null then [] else [p.properties]
  {
    assert (list + [p])[..|list|] == list;
  }

  lemma AppendMore(list: seq<Props>, p: Props)
    ensures AppendAll(list + [p]) == Appended(AppendAll(list), p)
  {
    assert (list + [p])[..|list|] == list;
  }

  /** The values of every struct in turn, without duplicates. */
  method MergeProperties(properties: seq<Properties?>) returns (mergedProps: Properties)
    ensures fresh(mergedProps)
    ensures mergedProps.properties == DistinctAll(AppendAll(Contents(properties)))
  {
    hide Appended, DistinctAll, Contents, AppendAll;
    mergedProps := new Properties();
    NothingMerged();
    for i := 0 to |properties|
      invariant fresh(mergedProps) && mergedProps.properties == AppendAll(Contents(properties[..i]))
      invariant i == 0 ==> properties[..i] == []
    {
      assert properties[..i + 1] == properties[..i] + [properties[i]];
      ContentsMore(properties[..i], properties[i]);
      var propsStruct := properties[i];
      if propsStruct != null {
        AppendMore(Contents(properties[..i]), propsStruct.properties);
        mergedProps.AppendFrom(propsStruct.properties);
      }
      assert Contents(properties[..i]) + [] == Contents(properties[..i]);
    }
    assert properties[..|properties|] == properties;
    mergedProps.RemoveDuplicateValues();
  }

  lemma NothingMerged()
    ensures AppendAll(Contents([])) == map[]
  {
  }

  ghost predicate SomeHasKey(list: seq<Props>, k: string) {
    exists i :: 0 <= i < |list| && k in list[i]
  }

  ghost predicate SomeHasValue(list: seq<Props>, k: string, v: string) {
    exists i :: 0 <= i < |list| && v in ValuesOf(list[i], k)
  }

  /** Merging keeps every value of every struct, under its key, and nothing else; by Distinct's contract each of them
      once. */
  lemma MergedValues(list: seq<Props>, k: string, v: string)
    ensures k in DistinctAll(AppendAll(list)) <==> SomeHasKey(list, k)
    ensures v in ValuesOf(DistinctAll(AppendAll(list)), k) <==> SomeHasValue(list, k, v)
  {
    hide SomeHasKey, SomeHasValue, AppendAll;
    AppendedValues(list, k, v);
  }

  lemma AppendAllStep(list: seq<Props>)
    ensures AppendAll(list) == if list == [] then map[] else Appended(AppendAll(list[..|list| - 1]), list[|list| - 1])
  {
    hide Appended;
  }

  lemma {:induction false} AppendedValues(list: seq<Props>, k: string, v: string)
    ensures k in AppendAll(list) <==> SomeHasKey(list, k)
    ensures v in ValuesOf(AppendAll(list), k) <==> SomeHasValue(list, k, v)
  {
    hide AppendAll, Appended;
    AppendAllStep(list);
    if list == [] {
      NoneHas(k, v);
    } else {
      hide SomeHasKey, SomeHasValue;
      var n := |list| - 1;
      AppendedValues(list[..n], k, v);
      assert list == list[..n] + [list[n]];
      SomeHasMore(list[..n], list[n], k, v);
      AppendedAt(AppendAll(list[..n]), list[n], k);
      hide ValuesOf;
    }
  }

  lemma NoneHas(k: string, v: string)
    ensures !SomeHasKey([], k) && !SomeHasValue([], k, v) && ValuesOf(map[], k) == []
  {
  }

  lemma SomeHasMore(list: seq<Props>, p: Props, k: string, v: string)
    ensures SomeHasKey(list + [p], k) <==> SomeHasKey(list, k) || k in p
    ensures SomeHasValue(list + [p], k, v) <==> SomeHasValue(list, k, v) || v in ValuesOf(p, k)
  {
    var more := list + [p];
    assert more[|list|] == p;
    assert forall i :: 0 <= i < |list| ==> more[i] == list[i];
  }

  /** Adding one property is merging with that property. */
  lemma AddIsMerge(m: Props, key: string, value: string)
    requires forall k :: k in m ==> Distinct(m[k]) == m[k]
    ensures Added(m, key, value) == DistinctAll(Appended(m, map[key := [value]]))
  {
    hide Distinct;
    var both, added := Appended(m, map[key := [value]]), Added(m, key, value);
    DistinctOneMore(ValuesOf(m, key), value);
    assert both.Keys == added.Keys;
    forall k | k in both
      ensures Distinct(both[k]) == added[k]
    {
      assert k != key ==> m[k] + [] == m[k];
      assert ValuesOf(m, key) + [] == ValuesOf(m, key);
    }
  }

  lemma DistinctOneMore(values: seq<string>, value: string)
    ensures Distinct(values + [value]) == Distinct(values) + if value in values then [] else [value]
    ensures Distinct([]) == []
  {
    assert (values + [value])[..|values|] == values;
  }
}
