/** Parsing undoes encoding, up to the URL escapes (artifactory/services/utils/properties.go). */
module PropertiesRoundTrip {
  import opened Wrappers
  import opened Text
  import opened EscapedSplit
  import opened UrlEscape
  import opened ItemProperties

  // ----- Without the URL escapes -----

  function PlainProp(key: string, vs: seq<string>): string {
    key + "=" + JoinEscaped(vs, ',')
  }

  function PropList(m: Props, keys: seq<string>): (r: seq<string>)
    requires forall k :: k in keys ==> k in m
    ensures |r| == |keys|
    ensures forall i :: 0 <= i < |keys| ==> r[i] == PlainProp(keys[i], m[keys[i]])
  {
    seq(|keys|, i requires 0 <= i < |keys| => PlainProp(keys[i], m[keys[i]]))
  }

  /** The encoding of the properties without its URL escapes. */
  function Plain(m: Props, keys: seq<string>): string
    requires forall k :: k in keys ==> k in m
  {
    Join(PropList(m, keys), ';')
  }

  lemma {:induction false} UnescapeValues(vs: seq<string>, rest: string)
    requires forall v :: v in vs ==> IsBytes(v)
    ensures QueryUnescape(EncodedValues(vs) + rest) == JoinEscaped(vs, ',') + QueryUnescape(rest)
  {
    hide QueryEscape, QueryUnescape, Escape, IsBytes, EncodedValues, JoinEscaped;
    if vs == [] {
      NoValues();
      assert "" + rest == rest && "" + QueryUnescape(rest) == QueryUnescape(rest);
    } else {
      var n := |vs| - 1;
      var v := Escape(vs[n], ',');
      assert vs[..n + 1] == vs == vs[..n] + [vs[n]];
      EncodedValuesStep(vs, n);
      JoinEscapedStep(vs[..n], vs[n], ',');
      UnescapeUndoesEscape(v, rest);
      var tail := QueryEscape(v) + rest;
      assert "" + QueryEscape(v) + rest == tail && "" + v == v;
      if n > 0 {
        assert EncodedValues(vs) + rest == EncodedValues(vs[..n]) + ("%2C" + tail);
        UnescapeValues(vs[..n], "%2C" + tail);
        UnescapeComma(tail);
        assert JoinEscaped(vs, ',') == JoinEscaped(vs[..n], ',') + [','] + v;
      }
    }
  }

  lemma NoValues()
    ensures EncodedValues([]) == "" && JoinEscaped([], ',') == ""
  {
  }

  lemma UnescapeComma(rest: string)
    ensures QueryUnescape("%2C" + rest) == "," + QueryUnescape(rest)
  {
    assert ("%2C" + rest)[3..] == rest;
  }

  lemma UnescapeProp(key: string, vs: seq<string>, rest: string)
    requires IsBytes(key) && forall v :: v in vs ==> IsBytes(v)
    ensures QueryUnescape(EncodedProp(key, vs, true) + rest) == PlainProp(key, vs) + QueryUnescape(rest)
  {
    hide QueryEscape, QueryUnescape, IsBytes, EncodedValues, JoinEscaped;
    var tail := EncodedValues(vs) + rest;
    UnescapeUndoesEscape(key, "=" + tail);
    UnescapePlain('=', tail);
    UnescapeValues(vs, rest);
    assert EncodedProp(key, vs, true) + rest == QueryEscape(key) + ("=" + tail);
  }

  lemma {:induction false} UnescapeEncoded(m: Props, keys: seq<string>, rest: string)
    requires AllBytes(m) && forall k :: k in keys ==> k in m
    ensures QueryUnescape(Encoded(m, keys, true) + rest) == Plain(m, keys) + QueryUnescape(rest)
  {
    hide QueryUnescape, EncodedProp, PlainProp, Join;
    if keys == [] {
      NothingJoined(';');
      assert Encoded(m, keys, true) + rest == rest;
    } else {
      var n := |keys| - 1;
      var front, prop := Encoded(m, keys[..n], true), EncodedProp(keys[n], m[keys[n]], true);
      UnescapeProp(keys[n], m[keys[n]], rest);
      assert PropList(m, keys) == PropList(m, keys[..n]) + [PlainProp(keys[n], m[keys[n]])];
      JoinLast(PropList(m, keys[..n]), PlainProp(keys[n], m[keys[n]]), ';');
      if n > 0 {
        assert Encoded(m, keys, true) + rest == front + (";" + (prop + rest));
        UnescapeEncoded(m, keys[..n], ";" + (prop + rest));
        UnescapePlain(';', prop + rest);
      } else {
        assert Encoded(m, keys, true) == prop;
      }
    }
  }

  lemma UnescapeAll(m: Props, keys: seq<string>)
    requires AllBytes(m) && forall k :: k in keys ==> k in m
    ensures QueryUnescape(Encoded(m, keys, true)) == Plain(m, keys)
  {
    hide QueryUnescape, Encoded, Plain;
    UnescapeEncoded(m, keys, "");
    UnescapeNothing();
    assert Encoded(m, keys, true) + "" == Encoded(m, keys, true) && Plain(m, keys) + "" == Plain(m, keys);
  }

  lemma UnescapeNothing()
    ensures QueryUnescape("") == ""
  {
  }

  // ----- What the format can express -----

  /** A key without separators, and distinct values without semicolons: not none, not just an empty one, and only the
      last of them may end in a backslash. */
  ghost predicate Clean(key: string, vs: seq<string>) {
    && key != "" && '=' !in key && ';' !in key
    && vs != [] && vs != [""] && !Glued(vs)
    && (forall v :: v in vs ==> ';' !in v)
    && (forall i, j :: 0 <= i < j < |vs| ==> vs[i] != vs[j])
  }

  /** All properties are clean, and only the last value of the last key may end in a backslash. */
  ghost predicate Expressible(m: Props, keys: seq<string>)
    requires forall k :: k in keys ==> k in m
  {
    (forall i :: 0 <= i < |keys| ==> Clean(keys[i], m[keys[i]])) && !Glued(PropList(m, keys))
  }

  lemma {:induction false} EscapeHas(v: string, c: char)
    requires c != ',' && c != BACKSLASH
    ensures c in Escape(v, ',') <==> c in v
  {
    if v != "" {
      EscapeHas(v[..|v| - 1], c);
      assert v == v[..|v| - 1] + [v[|v| - 1]];
    }
  }

  lemma EscapeEnd(v: string)
    ensures Protects(Escape(v, ',')) == Protects(v) && (Escape(v, ',') == "" <==> v == "")
  {
  }

  lemma JoinedValues(vs: seq<string>, c: char)
    requires vs != [] && c != ',' && c != BACKSLASH
    ensures c in JoinEscaped(vs, ',') <==> exists v :: v in vs && c in v
    ensures Protects(JoinEscaped(vs, ',')) <==> Protects(vs[|vs| - 1])
    ensures JoinEscaped(vs, ',') == "" <==> vs == [""]
  {
    hide JoinEscaped, Protects;
    JoinedHas(vs, c);
    JoinedEnd(vs);
  }

  lemma {:induction false} JoinedHas(vs: seq<string>, c: char)
    requires c != ',' && c != BACKSLASH
    ensures c in JoinEscaped(vs, ',') <==> exists v :: v in vs && c in v
  {
    hide Escape;
    if vs != [] {
      var n := |vs| - 1;
      EscapeHas(vs[n], c);
      assert vs == vs[..n] + [vs[n]];
      JoinedHas(vs[..n], c);
    }
  }

  lemma JoinedEnd(vs: seq<string>)
    requires vs != []
    ensures Protects(JoinEscaped(vs, ',')) <==> Protects(vs[|vs| - 1])
    ensures JoinEscaped(vs, ',') == "" <==> vs == [""]
  {
    hide Escape, JoinEscaped;
    var n := |vs| - 1;
    assert vs == vs[..n] + [vs[n]];
    JoinEscapedStep(vs[..n], vs[n], ',');
    EscapeEnd(vs[n]);
  }

  /** A property in the encoding ends in a backslash if its last value does. */
  lemma PropEnd(key: string, vs: seq<string>)
    requires vs != []
    ensures Protects(PlainProp(key, vs)) <==> Protects(vs[|vs| - 1])
  {
    hide JoinEscaped;
    JoinedValues(vs, ';');
  }

  /** In terms of the values: only the greatest key may have a last value that ends in a backslash. */
  lemma ExpressibleIff(m: Props, keys: seq<string>)
    requires forall k :: k in keys ==> k in m
    ensures Expressible(m, keys) <==>
            (forall i :: 0 <= i < |keys| ==> Clean(keys[i], m[keys[i]]))
            && forall i :: 0 <= i < |keys| - 1 ==> var vs := m[keys[i]]; vs != [] && !Protects(vs[|vs| - 1])
  {
    hide PlainProp, Protects;
    if forall i :: 0 <= i < |keys| ==> Clean(keys[i], m[keys[i]]) {
      forall i | 0 <= i < |keys|
        ensures m[keys[i]] != []
        ensures Protects(PropList(m, keys)[i]) <==> Protects(m[keys[i]][|m[keys[i]]| - 1])
      {
        assert Clean(keys[i], m[keys[i]]);
        PropEnd(keys[i], m[keys[i]]);
      }
    }
  }

  lemma CleanProp(key: string, vs: seq<string>)
    requires Clean(key, vs)
    ensures var p := PlainProp(key, vs);
            p != "" && ';' !in p && SplitPropToKeyAndValue(p) == Some((key, JoinEscaped(vs, ',')))
  {
    hide JoinEscaped, Index;
    JoinedValues(vs, ';');
    var p := PlainProp(key, vs);
    IndexAfter(key, '=', JoinEscaped(vs, ','));
    assert p[..|key|] == key && p[|key| + 1..] == JoinEscaped(vs, ',');
  }

  // ----- Collecting -----

  ghost predicate Restricts(m: Props, keys: seq<string>, r: Parsed) {
    r.err.None? && (forall k :: k in r.props <==> k in keys) && forall k :: k in keys ==> k in m && r.props[k] == m[k]
  }

  lemma {:induction false} AddsAll(m: Props, keys: seq<string>)
    requires forall i :: 0 <= i < |keys| ==> keys[i] in m && Clean(keys[i], m[keys[i]])
    requires forall i, j :: 0 <= i < j < |keys| ==> keys[i] != keys[j]
    ensures Restricts(m, keys, AddAll(map[], PropList(m, keys)))
  {
    hide Restricts, AddAll, Clean;
    if keys == [] {
      AddsNothing(m);
      assert PropList(m, keys) == [];
    } else {
      var n := |keys| - 1;
      AddsAll(m, keys[..n]);
      assert PropList(m, keys)[..n] == PropList(m, keys[..n]);
      AddsOne(PropList(m, keys), m, keys);
    }
  }

  lemma AddsNothing(m: Props)
    ensures Restricts(m, [], AddAll(map[], []))
  {
  }

  /** One more clean property. */
  lemma AddsOne(list: seq<string>, m: Props, keys: seq<string>)
    requires keys != [] && keys[|keys| - 1] !in keys[..|keys| - 1] && keys[|keys| - 1] in m
    requires Clean(keys[|keys| - 1], m[keys[|keys| - 1]])
    requires |list| == |keys| && list[|keys| - 1] == PlainProp(keys[|keys| - 1], m[keys[|keys| - 1]])
    requires Restricts(m, keys[..|keys| - 1], AddAll(map[], list[..|keys| - 1]))
    ensures Restricts(m, keys, AddAll(map[], list))
  {
    hide PlainProp, Parts, JoinEscaped, SplitPropToKeyAndValue, Clean, Glued;
    var n := |keys| - 1;
    var key := keys[n];
    CleanProp(key, m[key]);
    CleanNotGlued(key, m[key]);
    SplitUndoesJoin(m[key], ',');
    assert keys == keys[..n] + [key];
    assert [] + m[key] == m[key];
  }

  lemma CleanNotGlued(key: string, vs: seq<string>)
    requires Clean(key, vs)
    ensures vs != [] && !Glued(vs)
  {
  }

  lemma NothingParsed()
    ensures ParsedInto(map[], "") == Parsed(map[], None)
  {
    assert Parts("", ';') == [""];
    assert AddAll(map[], [""]) == AddAll(map[], []);
    assert DistinctAll(map[]) == map[];
  }

  lemma DistinctAlready(m: Props)
    requires forall k :: k in m ==> forall i, j :: 0 <= i < j < |m[k]| ==> m[k][i] != m[k][j]
    ensures DistinctAll(m) == m
  {
    forall k | k in m
      ensures Distinct(m[k]) == m[k]
    {
      DistinctIdempotent(m[k]);
    }
  }

  /** The plain encoding of expressible properties parses to them. */
  lemma ParseUndoesPlain(m: Props, keys: seq<string>)
    requires SortedKeysOf(keys, m) && Expressible(m, keys)
    ensures ParsedInto(map[], Plain(m, keys)) == Parsed(m, None)
  {
    hide Parts, SortedKeysOf, DistinctAll, AddAll, Restricts, PlainProp, Join, Glued;
    SortedKeysDiffer(keys, m);
    if keys == [] {
      NothingJoined(';');
      assert PropList(m, keys) == [] && m == map[];
      NothingParsed();
    } else {
      forall i | 0 <= i < |keys|
        ensures ';' !in PropList(m, keys)[i]
      {
        CleanProp(keys[i], m[keys[i]]);
      }
      SplitUndoesPlainJoin(PropList(m, keys), ';');
      AddsAll(m, keys);
      RestrictsAll(m, keys, AddAll(map[], PropList(m, keys)));
      CleanDistinct(m, keys);
      DistinctAlready(m);
    }
  }

  lemma CleanDistinct(m: Props, keys: seq<string>)
    requires forall k :: k in keys <==> k in m
    requires forall i :: 0 <= i < |keys| ==> Clean(keys[i], m[keys[i]])
    ensures forall k :: k in m ==> forall i, j :: 0 <= i < j < |m[k]| ==> m[k][i] != m[k][j]
  {
    hide Glued;
    forall k | k in m
      ensures forall i, j :: 0 <= i < j < |m[k]| ==> m[k][i] != m[k][j]
    {
      var i :| 0 <= i < |keys| && keys[i] == k;
      assert Clean(keys[i], m[keys[i]]);
    }
  }

  lemma SortedKeysDiffer(keys: seq<string>, m: Props)
    requires SortedKeysOf(keys, m)
    ensures forall i, j :: 0 <= i < j < |keys| ==> keys[i] != keys[j]
    ensures forall k :: k in keys <==> k in m
  {
    forall i, j | 0 <= i < j < |keys|
      ensures keys[i] != keys[j]
    {
      StringOrder.LessTotal(keys[i], keys[j]);
    }
  }

  lemma RestrictsAll(m: Props, keys: seq<string>, r: Parsed)
    requires Restricts(m, keys, r) && forall k :: k in keys <==> k in m
    ensures r == Parsed(m, None)
  {
    assert r.props.Keys == m.Keys;
    assert r.props == m;
  }

  // ----- Parsing in two steps -----

  lemma {:induction false} AddAllConcat(m: Props, a: seq<string>, b: seq<string>)
    ensures AddAll(m, a + b) == var r := AddAll(m, a); if r.err.Some? then r else AddAll(r.props, b)
  {
    hide SplitPropToKeyAndValue, Parts;
    if b == [] {
      assert a + b == a;
    } else {
      var n := |b| - 1;
      assert (a + b)[..|a + b| - 1] == a + b[..n];
      AddAllConcat(m, a, b[..n]);
    }
  }

  /** A separator after a string that does not end in a backslash always splits. */
  lemma {:induction false} ReadConcat(s: string, t: string, sep: char)
    requires !Protects(Read(s, sep).cur)
    ensures Read(s + [sep] + t, sep) == Reading(Parts(s, sep) + Read(t, sep).done, Read(t, sep).cur)
  {
    hide Protects;
    var u := s + [sep] + t;
    if t == "" {
      assert u == s + [sep];
      ReadSep(s, sep);
      assert Parts(s, sep) + [] == Parts(s, sep);
    } else {
      var n := |t| - 1;
      ReadConcat(s, t[..n], sep);
      assert u[..|u| - 1] == s + [sep] + t[..n];
    }
  }

  lemma ReadEnd(s: string, sep: char)
    requires sep != BACKSLASH
    ensures Protects(Read(s, sep).cur) <==> Protects(s)
  {
  }

  ghost predicate SameDistinct(m: Props, p: Props) {
    m.Keys == p.Keys && forall k :: k in m ==> Distinct(m[k]) == Distinct(p[k])
  }

  lemma {:induction false} AddAllSame(m: Props, p: Props, list: seq<string>)
    requires SameDistinct(m, p)
    ensures AddAll(m, list).err == AddAll(p, list).err && SameDistinct(AddAll(m, list).props, AddAll(p, list).props)
  {
    hide SplitPropToKeyAndValue, Parts, Distinct;
    if list != [] {
      AddAllSame(m, p, list[..|list| - 1]);
      var r, q, prop := AddAll(m, list[..|list| - 1]), AddAll(p, list[..|list| - 1]), list[|list| - 1];
      match SplitPropToKeyAndValue(prop)
      case None =>
      case Some((key, value)) =>
        DistinctAbsorbs(ValuesOf(r.props, key), Parts(value, ','));
        DistinctAbsorbs(ValuesOf(q.props, key), Parts(value, ','));
    }
  }

  lemma DistinctAllSame(m: Props)
    ensures SameDistinct(DistinctAll(m), m)
  {
    hide Distinct;
    forall k | k in m
      ensures Distinct(DistinctAll(m)[k]) == Distinct(m[k])
    {
      DistinctAbsorbs(m[k], []);
      assert m[k] + [] == m[k] && Distinct(m[k]) + [] == Distinct(m[k]);
    }
  }

  lemma SameDistinctAll(m: Props, p: Props)
    requires SameDistinct(m, p)
    ensures DistinctAll(m) == DistinctAll(p)
  {
    hide Distinct;
  }

  /** Parsing one string after another adds what parsing both in one string adds, with the same error. */
  lemma ParseInTwoSteps(m: Props, s: string, t: string)
    requires !Protects(s) && ParsedInto(m, s).err.None?
    ensures var both, second := ParsedInto(m, s + ";" + t), ParsedInto(ParsedInto(m, s).props, t);
            both.err == second.err && (both.err.None? ==> both == second)
  {
    hide Read, AddAll, DistinctAll, SameDistinct, Protects;
    ReadEnd(s, ';');
    ReadConcat(s, t, ';');
    AddAllConcat(m, Parts(s, ';'), Parts(t, ';'));
    assert Parts(s + ";" + t, ';') == Parts(s, ';') + Parts(t, ';');
    var r := AddAll(m, Parts(s, ';')).props;
    DistinctAllSame(r);
    AddAllSame(DistinctAll(r), r, Parts(t, ';'));
    SameDistinctAll(AddAll(DistinctAll(r), Parts(t, ';')).props, AddAll(r, Parts(t, ';')).props);
  }
}
