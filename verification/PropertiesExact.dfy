/** Exactly which properties survive encoding and parsing (artifactory/services/utils/properties.go). The proof counts
    characters: parsing never gains any, so that a round trip can lose none. */
module PropertiesExact {
  import opened Wrappers
  import opened Sequences
  import opened Text
  import opened StringOrder
  import opened EscapedSplit
  import opened UrlEscape
  import opened ItemProperties
  import opened PropertiesRoundTrip

  // ----- Weights -----

  /** The characters of the escaped values, with one separator for each. */
  function ValuesWeight(vs: seq<string>): nat {
    if vs == [] then 0 else ValuesWeight(vs[..|vs| - 1]) + |Escape(vs[|vs| - 1], ',')| + 1
  }

  /** The characters of the properties with these keys. */
  function Weight(m: Props, keys: seq<string>): nat {
    if keys == [] then 0
    else
      var k := keys[|keys| - 1];
      Weight(m, keys[..|keys| - 1]) + if k in m then |k| + 1 + ValuesWeight(m[k]) else 0
  }

  /** The characters of the parts, with one separator for each. */
  function PartsWeight(list: seq<string>): nat {
    if list == [] then 0 else PartsWeight(list[..|list| - 1]) + |list[|list| - 1]| + 1
  }

  lemma {:induction false} ValuesWeightConcat(a: seq<string>, b: seq<string>)
    ensures ValuesWeight(a + b) == ValuesWeight(a) + ValuesWeight(b)
  {
    hide Escape;
    if b == [] {
      assert a + b == a;
    } else {
      var n := |b| - 1;
      assert (a + b)[..|a + b| - 1] == a + b[..n];
      ValuesWeightConcat(a, b[..n]);
    }
  }

  lemma {:induction false} JoinedWeight(vs: seq<string>)
    requires vs != []
    ensures ValuesWeight(vs) == |JoinEscaped(vs, ',')| + 1
  {
    hide Escape;
    if |vs| > 1 {
      JoinedWeight(vs[..|vs| - 1]);
    }
  }

  /** Splitting at semicolons loses the backslashes before protected ones. */
  lemma {:induction false} SplitWeight(list: seq<string>)
    requires list != []
    ensures PartsWeight(list) <= |JoinEscaped(list, ';')| + 1
    ensures PartsWeight(list) == |JoinEscaped(list, ';')| + 1 ==> forall i :: 0 <= i < |list| ==> ';' !in list[i]
  {
    hide Escape;
    var n := |list| - 1;
    EscapeLength(list[n], ';');
    if n > 0 {
      SplitWeight(list[..n]);
    }
  }

  /** A property weighs what its key and values weigh. */
  lemma PropWeight(p: string, key: string, value: string)
    requires SplitPropToKeyAndValue(p) == Some((key, value))
    ensures |p| + 1 == |key| + 1 + ValuesWeight(Parts(value, ',')) && key != "" && p == key + "=" + value && '=' !in key
  {
    hide Index, Parts, JoinEscaped;
    IndexIsFirst(p, '=');
    JoinUndoesSplit(value, ',');
    JoinedWeight(Parts(value, ','));
    assert p == p[..Index(p, '=')] + "=" + p[Index(p, '=') + 1..];
  }

  // ----- Parsing gains nothing -----

  lemma {:induction false} WeightSame(m: Props, r: Props, keys: seq<string>)
    requires forall k :: k in keys ==> (k in m <==> k in r) && (k in m ==> m[k] == r[k])
    ensures Weight(m, keys) == Weight(r, keys)
  {
    hide ValuesWeight;
    if keys != [] {
      WeightSame(m, r, keys[..|keys| - 1]);
    }
  }

  /** Changing one key's values changes the weight by theirs. */
  lemma {:induction false} WeightUpdate(m: Props, keys: seq<string>, key: string, vs: seq<string>)
    requires key in keys && forall i, j :: 0 <= i < j < |keys| ==> keys[i] != keys[j]
    ensures Weight(m[key := vs], keys) + (if key in m then |key| + 1 + ValuesWeight(m[key]) else 0)
         == Weight(m, keys) + |key| + 1 + ValuesWeight(vs)
  {
    hide ValuesWeight;
    var n := |keys| - 1;
    assert keys == keys[..n] + [keys[n]];
    if keys[n] == key {
      WeightSame(m, m[key := vs], keys[..n]);
    } else {
      WeightUpdate(m, keys[..n], key, vs);
    }
  }

  /** Every part is a property of its own key, and its values are the values of the key. */
  ghost predicate OneEach(list: seq<string>, m: Props) {
    && |m| == |list|
    && (forall i :: 0 <= i < |list| ==> SplitPropToKeyAndValue(list[i]).Some?)
    && (forall i :: 0 <= i < |list| ==> Holds(m, SplitPropToKeyAndValue(list[i])))
    && (forall i, j :: 0 <= i < j < |list| ==> KeyOf(list[i]) != KeyOf(list[j]))
  }

  predicate Holds(m: Props, kv: Option<(string, string)>) {
    kv.Some? && kv.value.0 in m && m[kv.value.0] == Parts(kv.value.1, ',')
  }

  function KeyOf(p: string): string {
    var kv := SplitPropToKeyAndValue(p);
    if kv.Some? then kv.value.0 else ""
  }

  /** What the parser collects weighs at most as much as the parts, and as much only when each part has its own key. */
  lemma {:induction false} CollectedWeight(list: seq<string>, keys: seq<string>)
    requires AddAll(map[], list).err.None? && forall k :: k in AddAll(map[], list).props ==> k in keys
    requires forall i, j :: 0 <= i < j < |keys| ==> keys[i] != keys[j]
    ensures Weight(AddAll(map[], list).props, keys) <= PartsWeight(list)
    ensures Weight(AddAll(map[], list).props, keys) == PartsWeight(list) ==> OneEach(list, AddAll(map[], list).props)
    ensures forall k :: k in AddAll(map[], list).props ==> AddAll(map[], list).props[k] != []
  {
    hide OneEach, Parts, SplitPropToKeyAndValue, Weight, PartsWeight;
    if list == [] {
      NothingCollected(keys);
    } else {
      var n := |list| - 1;
      var before := AddAll(map[], list[..n]);
      CollectedStep(list);
      CollectedWeight(list[..n], keys);
      PartsWeightStep(list);
      if list[n] != "" {
        var (key, value) := SplitPropToKeyAndValue(list[n]).value;
        AddedWeight(before.props, keys, list[n], key, value);
        if key !in before.props {
          OneMoreEach(list, before.props, key, value);
        }
      }
    }
  }

  lemma NothingCollected(keys: seq<string>)
    ensures AddAll(map[], []) == Parsed(map[], None) && Weight(map[], keys) == 0 && PartsWeight([]) == 0
            && OneEach([], map[])
  {
    WeightNothing(keys);
  }

  lemma {:induction false} WeightNothing(keys: seq<string>)
    ensures Weight(map[], keys) == 0
  {
    if keys != [] {
      WeightNothing(keys[..|keys| - 1]);
    }
  }

  lemma PartsWeightStep(list: seq<string>)
    requires list != []
    ensures PartsWeight(list) == PartsWeight(list[..|list| - 1]) + |list[|list| - 1]| + 1
  {
  }

  lemma CollectedStep(list: seq<string>)
    requires list != [] && AddAll(map[], list).err.None?
    ensures var before, p, all := AddAll(map[], list[..|list| - 1]), list[|list| - 1], AddAll(map[], list);
            && before.err.None?
            && (p == "" ==> all.props == before.props)
            && (p != "" ==> SplitPropToKeyAndValue(p).Some?
                            && var (key, value) := SplitPropToKeyAndValue(p).value;
                            all.props == before.props[key := ValuesOf(before.props, key) + Parts(value, ',')])
  {
    hide Parts, SplitPropToKeyAndValue;
  }

  lemma AddedWeight(m: Props, keys: seq<string>, p: string, key: string, value: string)
    requires SplitPropToKeyAndValue(p) == Some((key, value)) && key in keys
    requires forall i, j :: 0 <= i < j < |keys| ==> keys[i] != keys[j]
    ensures var r := m[key := ValuesOf(m, key) + Parts(value, ',')];
            if key in m then Weight(r, keys) < Weight(m, keys) + |p| + 1
            else Weight(r, keys) == Weight(m, keys) + |p| + 1
  {
    hide Parts, SplitPropToKeyAndValue, Weight, ValuesWeight;
    var vs := Parts(value, ',');
    PropWeight(p, key, value);
    WeightUpdate(m, keys, key, ValuesOf(m, key) + vs);
    ValuesWeightConcat(ValuesOf(m, key), vs);
    assert [] + vs == vs;
  }

  lemma OneMoreEach(list: seq<string>, m: Props, key: string, value: string)
    requires list != [] && SplitPropToKeyAndValue(list[|list| - 1]) == Some((key, value)) && key !in m
    ensures OneEach(list[..|list| - 1], m) ==> OneEach(list, m[key := ValuesOf(m, key) + Parts(value, ',')])
  {
    hide Parts, SplitPropToKeyAndValue, Holds, KeyOf;
    var n := |list| - 1;
    var front, r := list[..n], m[key := ValuesOf(m, key) + Parts(value, ',')];
    if OneEach(front, m) {
      NewHolds(m, list[n], key, value);
      forall i | 0 <= i < n
        ensures SplitPropToKeyAndValue(list[i]).Some? && Holds(r, SplitPropToKeyAndValue(list[i]))
                && KeyOf(list[i]) != key
      {
        assert front[i] == list[i];
        OldHolds(m, list[i], key, ValuesOf(m, key) + Parts(value, ','));
      }
      assert forall i, j :: 0 <= i < j < n ==> front[i] == list[i] && front[j] == list[j];
    }
  }

  lemma NewHolds(m: Props, p: string, key: string, value: string)
    requires SplitPropToKeyAndValue(p) == Some((key, value)) && key !in m
    ensures var r := m[key := ValuesOf(m, key) + Parts(value, ',')];
            Holds(r, SplitPropToKeyAndValue(p)) && KeyOf(p) == key && |r| == |m| + 1
  {
    hide Parts, SplitPropToKeyAndValue;
    assert [] + Parts(value, ',') == Parts(value, ',');
    OneMoreKey(m, key, Parts(value, ','));
  }

  lemma OldHolds(m: Props, p: string, key: string, vs: seq<string>)
    requires Holds(m, SplitPropToKeyAndValue(p)) && key !in m
    ensures Holds(m[key := vs], SplitPropToKeyAndValue(p)) && KeyOf(p) != key
  {
    hide Parts, SplitPropToKeyAndValue;
  }

  // ----- Removing duplicates gains nothing -----

  lemma {:induction false} DistinctWeight(vs: seq<string>)
    ensures ValuesWeight(Distinct(vs)) <= ValuesWeight(vs)
    ensures ValuesWeight(Distinct(vs)) == ValuesWeight(vs) ==> Distinct(vs) == vs
    ensures vs != [] ==> Distinct(vs) != []
  {
    hide ValuesWeight, Distinct;
    if vs == [] {
      DistinctNothing();
    } else {
      var n := |vs| - 1;
      var front, last := vs[..n], vs[n];
      DistinctWeight(front);
      assert vs == front + [last];
      DistinctOneMore(front, last);
      ValuesWeightConcat(Distinct(front), [last]);
      ValuesWeightConcat(front, [last]);
      OneWeight(last);
      assert last in front ==> front != [];
      assert Distinct(front) + [] == Distinct(front);
    }
  }

  lemma DistinctNothing()
    ensures Distinct([]) == []
  {
  }

  lemma OneWeight(v: string)
    ensures ValuesWeight([v]) > 0
  {
  }

  lemma {:induction false} DistinctAllWeight(m: Props, keys: seq<string>)
    ensures Weight(DistinctAll(m), keys) <= Weight(m, keys)
    ensures Weight(DistinctAll(m), keys) == Weight(m, keys) ==>
            forall k :: k in keys && k in m ==> DistinctAll(m)[k] == m[k]
  {
    hide ValuesWeight, Distinct;
    if keys != [] {
      var n := |keys| - 1;
      DistinctAllWeight(m, keys[..n]);
      assert keys == keys[..n] + [keys[n]];
      if keys[n] in m {
        DistinctWeight(m[keys[n]]);
      }
    }
  }

  // ----- The weight of an encoding -----

  lemma {:induction false} PlainWeight(m: Props, keys: seq<string>)
    requires keys != [] && forall k :: k in keys ==> k in m && m[k] != []
    ensures Weight(m, keys) == |Plain(m, keys)| + 1
  {
    hide ValuesWeight, JoinEscaped, Join;
    var n := |keys| - 1;
    var p := PlainProp(keys[n], m[keys[n]]);
    JoinedWeight(m[keys[n]]);
    assert PropList(m, keys) == PropList(m, keys[..n]) + [p];
    JoinLast(PropList(m, keys[..n]), p, ';');
    assert Weight(m, keys) == Weight(m, keys[..n]) + |p| + 1;
    if n > 0 {
      PlainWeight(m, keys[..n]);
    } else {
      assert Weight(m, keys[..0]) == 0;
    }
  }

  // ----- What a round trip tells -----

  /** If the plain encoding parses to the properties, nothing was lost on the way. */
  lemma NothingLost(m: Props, keys: seq<string>)
    requires keys != [] && (forall k :: k in keys <==> k in m)
             && forall i, j :: 0 <= i < j < |keys| ==> keys[i] != keys[j]
    requires ParsedInto(map[], Plain(m, keys)) == Parsed(m, None)
    ensures var list := Parts(Plain(m, keys), ';');
            && (forall i :: 0 <= i < |list| ==> ';' !in list[i])
            && AddAll(map[], list) == Parsed(m, None)
            && OneEach(list, m)
            && DistinctAll(m) == m
    ensures forall k :: k in m ==> m[k] != []
  {
    hide Parts, Plain, OneEach, AddAll, Weight, PartsWeight, Distinct, JoinEscaped;
    var t := Plain(m, keys);
    var list := Parts(t, ';');
    var r := AddAll(map[], list);
    assert r.err.None? && m == DistinctAll(r.props) && r.props.Keys == m.Keys;
    CollectedWeight(list, keys);
    forall k | k in m
      ensures m[k] != []
    {
      DistinctWeight(r.props[k]);
    }
    JoinUndoesSplit(t, ';');
    SplitWeight(list);
    DistinctAllWeight(r.props, keys);
    PlainWeight(m, keys);
    assert r.props == m;
  }

  lemma {:induction false} JoinCount(parts: seq<string>, c: char)
    requires parts != []
    ensures Count(Join(parts, c), c) >= |parts| - 1
    ensures Count(Join(parts, c), c) == |parts| - 1 ==> forall i :: 0 <= i < |parts| ==> c !in parts[i]
  {
    hide Join, Count;
    var n := |parts| - 1;
    assert parts == parts[..n] + [parts[n]];
    JoinLast(parts[..n], parts[n], c);
    if n > 0 {
      JoinCount(parts[..n], c);
      CountConcat(Join(parts[..n], c) + [c], parts[n], c);
      CountConcat(Join(parts[..n], c), [c], c);
      OneOf(c);
    } else {
      assert "" + parts[0] == parts[0];
    }
    NoneOf(parts[n], c);
  }

  lemma OneOf(c: char)
    ensures Count([c], c) == 1
  {
    assert [c][1..] == "";
  }

  lemma NoneOf(s: string, c: char)
    ensures Count(s, c) == 0 <==> c !in s
  {
  }

  /** Then the parts are the properties themselves, and no semicolon lies in them. */
  lemma PartsAreProps(m: Props, keys: seq<string>)
    requires keys != [] && (forall k :: k in keys <==> k in m)
             && forall i, j :: 0 <= i < j < |keys| ==> keys[i] != keys[j]
    requires ParsedInto(map[], Plain(m, keys)) == Parsed(m, None)
    ensures Parts(Plain(m, keys), ';') == PropList(m, keys) && !Glued(PropList(m, keys))
    ensures forall i :: 0 <= i < |keys| ==> ';' !in PropList(m, keys)[i]
  {
    hide Parts, PlainProp, OneEach, AddAll, Join, JoinEscaped, Count, Split, DistinctAll, Glued;
    var t, props := Plain(m, keys), PropList(m, keys);
    var list := Parts(t, ';');
    NothingLost(m, keys);
    JoinUndoesSplit(t, ';');
    NothingToEscape(list, ';');
    SplitJoin(list, ';');
    SameSize(list, m, keys);
    JoinCount(props, ';');
    SplitJoin(props, ';');
    SplitUndoesPlainJoin(props, ';');
  }

  lemma SameSize(list: seq<string>, m: Props, keys: seq<string>)
    requires OneEach(list, m) && (forall k :: k in keys <==> k in m)
             && forall i, j :: 0 <= i < j < |keys| ==> keys[i] != keys[j]
    ensures |list| == |keys|
  {
    hide Holds, SplitPropToKeyAndValue;
    SizeOfDistinct(keys);
    assert (set k | k in keys) == m.Keys;
  }

  lemma {:induction false} SizeOfDistinct(keys: seq<string>)
    requires forall i, j :: 0 <= i < j < |keys| ==> keys[i] != keys[j]
    ensures |set k | k in keys| == |keys|
  {
    if keys != [] {
      var n := |keys| - 1;
      SizeOfDistinct(keys[..n]);
      assert keys == keys[..n] + [keys[n]];
      assert (set k | k in keys) == (set k | k in keys[..n]) + {keys[n]};
    }
  }

  /** The key that the parser reads starts the key that was written, and as all keys come back, in order, it is that
      key. */
  lemma {:induction false} KeysComeBack(m: Props, keys: seq<string>, i: nat)
    requires SortedKeysOf(keys, m) && i < |keys| && OneEach(PropList(m, keys), m)
    ensures KeyOf(PropList(m, keys)[i]) == keys[i]
    decreases i
  {
    hide PlainProp, Less, SplitPropToKeyAndValue;
    var props := PropList(m, keys);
    forall j | 0 <= j < i
      ensures KeyOf(props[j]) == keys[j]
    {
      KeysComeBack(m, keys, j);
    }
    assert Holds(m, SplitPropToKeyAndValue(props[i]));
    KeyStarts(keys[i], m[keys[i]]);
    assert forall j :: 0 <= j < i ==> KeyOf(props[j]) != KeyOf(props[i]);
    OnlyItself(m, keys, i, KeyOf(props[i]));
  }

  /** The only key at or before the `i`-th that is none of the earlier ones is the `i`-th. */
  lemma OnlyItself(m: Props, keys: seq<string>, i: nat, key: string)
    requires SortedKeysOf(keys, m) && i < |keys| && key in m && HasPrefix(keys[i], key)
    requires forall j :: 0 <= j < i ==> keys[j] != key
    ensures key == keys[i]
  {
    hide Less, HasPrefix;
    PrefixFirst(key, keys[i]);
    var j :| 0 <= j < |keys| && keys[j] == key;
  }

  lemma KeyStarts(key: string, vs: seq<string>)
    requires SplitPropToKeyAndValue(PlainProp(key, vs)).Some?
    ensures HasPrefix(key, KeyOf(PlainProp(key, vs)))
  {
    hide Index, JoinEscaped;
    var p := PlainProp(key, vs);
    IndexAtMost(p, '=', |key|);
    var i := Index(p, '=');
    assert p[..i] == key[..i];
  }

  lemma ComesBackClean(m: Props, keys: seq<string>, i: nat)
    requires SortedKeysOf(keys, m) && i < |keys| && OneEach(PropList(m, keys), m)
    requires ';' !in PropList(m, keys)[i] && m[keys[i]] != [] && Distinct(m[keys[i]]) == m[keys[i]]
    ensures Clean(keys[i], m[keys[i]])
  {
    hide Parts, JoinEscaped, Distinct, SplitPropToKeyAndValue, Less, Glued;
    var key, vs := keys[i], m[keys[i]];
    var p := PropList(m, keys)[i];
    KeysComeBack(m, keys, i);
    assert Holds(m, SplitPropToKeyAndValue(p));
    var value := SplitPropToKeyAndValue(p).value.1;
    PropWeight(p, key, value);
    AfterKey(key, value, JoinEscaped(vs, ','));
    assert Parts(JoinEscaped(vs, ','), ',') == vs;
    SplitUndoesJoin(vs, ',');
    JoinedValues(vs, ';');
    ValueNotEmpty(p);
    assert forall j :: 0 <= j < |key| ==> p[j] == key[j];
    assert p[|key| + 1..] == JoinEscaped(vs, ',');
    assert forall v :: v in vs ==> ';' !in v;
  }

  lemma AfterKey(key: string, a: string, b: string)
    requires key + "=" + a == key + "=" + b
    ensures a == b
  {
    assert (key + "=" + a)[|key| + 1..] == a && (key + "=" + b)[|key| + 1..] == b;
  }

  lemma ValueNotEmpty(p: string)
    requires SplitPropToKeyAndValue(p).Some?
    ensures SplitPropToKeyAndValue(p).value.1 != ""
  {
    hide Index;
  }

  /** The exact condition, for all properties: parsing the unescaped encoding gives the properties back if and only if
      the format can express them. By its contract ToEncodedString returns such an encoding. */
  lemma ParseUndoesEncodeIff(m: Props, keys: seq<string>)
    requires SortedKeysOf(keys, m) && AllBytes(m)
    ensures ParsedInto(map[], QueryUnescape(Encoded(m, keys, true))) == Parsed(m, None) <==> Expressible(m, keys)
  {
    hide QueryUnescape, Encoded, Plain, PropList, ParsedInto, Expressible, AllBytes, Clean;
    SortedKeysDiffer(keys, m);
    UnescapeAll(m, keys);
    if Expressible(m, keys) {
      ParseUndoesPlain(m, keys);
    }
    if ParsedInto(map[], Plain(m, keys)) == Parsed(m, None) {
      ParsedIsExpressible(m, keys);
    }
  }

  lemma ParsedIsExpressible(m: Props, keys: seq<string>)
    requires SortedKeysOf(keys, m) && ParsedInto(map[], Plain(m, keys)) == Parsed(m, None)
    ensures Expressible(m, keys)
  {
    hide Plain, ParsedInto, Clean, PlainProp, Glued, OneEach, Parts, Distinct;
    SortedKeysDiffer(keys, m);
    if keys == [] {
      OneNotGlued(PropList(m, keys));
    } else {
      NothingLost(m, keys);
      PartsAreProps(m, keys);
      forall i | 0 <= i < |keys|
        ensures Clean(keys[i], m[keys[i]])
      {
        assert DistinctAll(m)[keys[i]] == Distinct(m[keys[i]]);
        ComesBackClean(m, keys, i);
      }
    }
  }

  lemma OneNotGlued(vs: seq<string>)
    requires |vs| <= 1
    ensures !Glued(vs)
  {
  }
}
