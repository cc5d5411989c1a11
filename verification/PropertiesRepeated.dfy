/** The round trip of the encoding that repeats a key for each of its values
    (artifactory/services/utils/properties.go). */
module PropertiesRepeated {
  import opened Wrappers
  import opened Text
  import opened EscapedSplit
  import opened UrlEscape
  import opened ItemProperties
  import opened PropertiesRoundTrip

  function Repeated(key: string, vs: seq<string>): (r: seq<string>)
    ensures |r| == |vs| && forall i :: 0 <= i < |vs| ==> r[i] == key + "=" + vs[i]
  {
    seq(|vs|, i requires 0 <= i < |vs| => key + "=" + vs[i])
  }

  function AllRepeated(m: Props, keys: seq<string>): seq<string>
    requires forall k :: k in keys ==> k in m
  {
    if keys == [] then []
    else
      var k := keys[|keys| - 1];
      AllRepeated(m, keys[..|keys| - 1]) + Repeated(k, m[k])
  }

  /** A key without separators, and distinct values, none of them empty, without separators. */
  ghost predicate CleanEach(key: string, vs: seq<string>) {
    && key != "" && '=' !in key && ';' !in key && vs != []
    && (forall i :: 0 <= i < |vs| ==> vs[i] != "" && ';' !in vs[i] && ',' !in vs[i])
    && (forall i, j :: 0 <= i < j < |vs| ==> vs[i] != vs[j])
  }

  // ----- Without the URL escapes -----

  lemma RepeatedStep(key: string, vs: seq<string>)
    requires vs != []
    ensures Repeated(key, vs) == Repeated(key, vs[..|vs| - 1]) + [key + "=" + vs[|vs| - 1]]
  {
  }

  lemma RepeatedKeyStep(key: string, vs: seq<string>)
    requires IsBytes(key) && vs != [] && forall v :: v in vs ==> IsBytes(v)
    ensures RepeatedKey(key, vs) == (if |vs| == 1 then "" else RepeatedKey(key, vs[..|vs| - 1]) + ";")
                                    + QueryEscape(key) + "=" + QueryEscape(vs[|vs| - 1])
  {
    hide QueryEscape, IsBytes;
  }

  lemma {:induction false} UnescapeRepeated(key: string, vs: seq<string>, rest: string)
    requires IsBytes(key) && vs != [] && forall v :: v in vs ==> IsBytes(v)
    ensures QueryUnescape(RepeatedKey(key, vs) + rest) == Join(Repeated(key, vs), ';') + QueryUnescape(rest)
  {
    hide QueryEscape, QueryUnescape, IsBytes, Join, Repeated, RepeatedKey;
    var n := |vs| - 1;
    var front, item := Repeated(key, vs[..n]), key + "=" + vs[n];
    UnescapeItem(key, vs[n], rest);
    RepeatedStep(key, vs);
    RepeatedKeyStep(key, vs);
    JoinLast(front, item, ';');
    var prop := QueryEscape(key) + "=" + QueryEscape(vs[n]);
    if n > 0 {
      assert RepeatedKey(key, vs) + rest == RepeatedKey(key, vs[..n]) + (";" + (prop + rest));
      UnescapeRepeated(key, vs[..n], ";" + (prop + rest));
      UnescapePlain(';', prop + rest);
    } else {
      assert RepeatedKey(key, vs) == prop;
    }
  }

  lemma UnescapeItem(key: string, v: string, rest: string)
    requires IsBytes(key) && IsBytes(v)
    ensures QueryUnescape(QueryEscape(key) + "=" + QueryEscape(v) + rest) == key + "=" + v + QueryUnescape(rest)
  {
    hide QueryEscape, QueryUnescape, IsBytes;
    var tail := QueryEscape(v) + rest;
    UnescapeUndoesEscape(key, "=" + tail);
    UnescapePlain('=', tail);
    UnescapeUndoesEscape(v, rest);
    assert QueryEscape(key) + "=" + QueryEscape(v) + rest == QueryEscape(key) + ("=" + tail);
  }

  lemma {:induction false} UnescapeAllRepeated(m: Props, keys: seq<string>, rest: string)
    requires AllBytes(m) && keys != [] && forall k :: k in keys ==> k in m && m[k] != []
    ensures AllRepeated(m, keys) != []
    ensures QueryUnescape(Encoded(m, keys, false) + rest) == Join(AllRepeated(m, keys), ';') + QueryUnescape(rest)
  {
    hide QueryUnescape, RepeatedKey, Join, Repeated;
    var n := |keys| - 1;
    var key := keys[n];
    assert key in m && IsBytes(key);
    UnescapeRepeated(key, m[key], rest);
    var prop := RepeatedKey(key, m[key]);
    if n > 0 {
      assert Encoded(m, keys, false) + rest == Encoded(m, keys[..n], false) + (";" + (prop + rest));
      UnescapeAllRepeated(m, keys[..n], ";" + (prop + rest));
      UnescapePlain(';', prop + rest);
      JoinConcat(AllRepeated(m, keys[..n]), Repeated(key, m[key]), ';');
    } else {
      assert Encoded(m, keys, false) == prop;
      assert AllRepeated(m, keys) == [] + Repeated(key, m[key]) == Repeated(key, m[key]);
    }
  }

  // ----- Collecting -----

  lemma CleanItem(key: string, v: string)
    requires key != "" && '=' !in key && v != "" && ',' !in v
    ensures SplitPropToKeyAndValue(key + "=" + v) == Some((key, v)) && Parts(v, ',') == [v]
  {
    hide Index, Read;
    var p := key + "=" + v;
    IndexAfter(key, '=', v);
    assert p[..|key|] == key && p[|key| + 1..] == v;
    ReadNothing(',');
    ReadText("", v, ',');
    assert "" + v == v;
  }

  /** The items of one key collect its values. */
  lemma {:induction false} AddsValues(m: Props, key: string, vs: seq<string>)
    requires CleanEach(key, vs) && key !in m
    ensures AddAll(m, Repeated(key, vs)) == Parsed(m[key := vs], None)
  {
    hide Parts, SplitPropToKeyAndValue, AddAll, CleanEach;
    AddsFirstValues(m, key, vs, |vs|);
    assert vs[..|vs|] == vs && Repeated(key, vs)[..|vs|] == Repeated(key, vs);
    NotEmpty(key, vs);
  }

  lemma NotEmpty(key: string, vs: seq<string>)
    requires CleanEach(key, vs)
    ensures vs != []
  {
  }

  lemma {:induction false} AddsFirstValues(m: Props, key: string, vs: seq<string>, n: nat)
    requires CleanEach(key, vs) && key !in m && n <= |vs|
    ensures AddAll(m, Repeated(key, vs)[..n]) == Parsed(if n == 0 then m else m[key := vs[..n]], None)
  {
    hide Parts, SplitPropToKeyAndValue;
    if n > 0 {
      var list := Repeated(key, vs)[..n];
      AddsFirstValues(m, key, vs, n - 1);
      assert list[..n - 1] == Repeated(key, vs)[..n - 1];
      CleanItem(key, vs[n - 1]);
      assert vs[..n] == vs[..n - 1] + [vs[n - 1]];
      assert [] + [vs[n - 1]] == [vs[n - 1]] && vs[..0] == [];
    }
  }

  lemma {:induction false} AddsAllRepeated(m: Props, keys: seq<string>)
    requires forall i :: 0 <= i < |keys| ==> keys[i] in m && CleanEach(keys[i], m[keys[i]])
    requires forall i, j :: 0 <= i < j < |keys| ==> keys[i] != keys[j]
    ensures Restricts(m, keys, AddAll(map[], AllRepeated(m, keys)))
  {
    hide AddAll, CleanEach, Repeated;
    if keys == [] {
      AddsNothing(m);
    } else {
      var n := |keys| - 1;
      var key := keys[n];
      AddsAllRepeated(m, keys[..n]);
      AddAllConcat(map[], AllRepeated(m, keys[..n]), Repeated(key, m[key]));
      assert keys == keys[..n] + [key];
      AddsValues(AddAll(map[], AllRepeated(m, keys[..n])).props, key, m[key]);
    }
  }

  lemma {:induction false} NoSemicolons(m: Props, keys: seq<string>)
    requires forall i :: 0 <= i < |keys| ==> keys[i] in m && CleanEach(keys[i], m[keys[i]])
    ensures forall i :: 0 <= i < |AllRepeated(m, keys)| ==> ';' !in AllRepeated(m, keys)[i]
  {
    if keys != [] {
      NoSemicolons(m, keys[..|keys| - 1]);
    }
  }

  /** Parsing the unescaped encoding that repeats the keys gives the properties back, for properties without
      separators of which only the last one may end in a backslash. By its contract ToEncodedString returns such an
      encoding. */
  lemma ParseUndoesRepeated(m: Props, keys: seq<string>)
    requires SortedKeysOf(keys, m) && AllBytes(m)
    requires (forall i :: 0 <= i < |keys| ==> CleanEach(keys[i], m[keys[i]])) && !Glued(AllRepeated(m, keys))
    ensures ParsedInto(map[], QueryUnescape(Encoded(m, keys, false))) == Parsed(m, None)
  {
    hide Parts, QueryUnescape, Encoded, SortedKeysOf, AllBytes, DistinctAll, AddAll, Restricts, AllRepeated, Join,
         Glued, CleanEach;
    SortedKeysDiffer(keys, m);
    UnescapeNothing();
    if keys == [] {
      NothingEncoded(m);
      assert m == map[];
      NothingParsed();
    } else {
      EachDistinct(m, keys);
      UnescapeAllRepeated(m, keys, "");
      assert Encoded(m, keys, false) + "" == Encoded(m, keys, false);
      assert Join(AllRepeated(m, keys), ';') + "" == Join(AllRepeated(m, keys), ';');
      NoSemicolons(m, keys);
      SplitUndoesPlainJoin(AllRepeated(m, keys), ';');
      AddsAllRepeated(m, keys);
      RestrictsAll(m, keys, AddAll(map[], AllRepeated(m, keys)));
      DistinctAlready(m);
    }
  }

  lemma NothingEncoded(m: Props)
    requires AllBytes(m)
    ensures Encoded(m, [], false) == ""
  {
  }

  lemma EachDistinct(m: Props, keys: seq<string>)
    requires forall k :: k in keys <==> k in m
    requires forall i :: 0 <= i < |keys| ==> CleanEach(keys[i], m[keys[i]])
    ensures forall k :: k in m ==> m[k] != [] && forall i, j :: 0 <= i < j < |m[k]| ==> m[k][i] != m[k][j]
  {
    forall k | k in m
      ensures m[k] != [] && forall i, j :: 0 <= i < j < |m[k]| ==> m[k][i] != m[k][j]
    {
      var i :| 0 <= i < |keys| && keys[i] == k;
      assert CleanEach(keys[i], m[keys[i]]);
    }
  }
}
