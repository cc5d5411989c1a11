/** Exactly which properties survive the encoding that repeats a key for each of its values
    (artifactory/services/utils/properties.go). Whatever is not clean must come from something longer that is not
    clean. */
module PropertiesRepeatedExact {
  import opened Wrappers
  import opened Text
  import opened EscapedSplit
  import opened UrlEscape
  import opened ItemProperties
  import opened PropertiesRoundTrip
  import opened PropertiesRepeated

  // ----- Parts of a string -----

  /** Only the last part of a string can end in a backslash. */
  lemma {:induction false} PartsNotGlued(s: string, sep: char)
    requires sep != BACKSLASH
    ensures forall i :: 0 <= i < |Read(s, sep).done| ==> !Protects(Read(s, sep).done[i])
  {
    if s != "" {
      PartsNotGlued(s[..|s| - 1], sep);
    }
  }

  /** A character other than the separator and the backslash is in a part only if it is in the string. */
  lemma {:induction false} PartHas(s: string, sep: char, c: char)
    requires c != BACKSLASH && c != sep
    ensures forall i :: 0 <= i < |Parts(s, sep)| && c in Parts(s, sep)[i] ==> c in s
  {
    if s != "" {
      var n := |s| - 1;
      PartHas(s[..n], sep, c);
      var r := Read(s[..n], sep);
      assert forall i :: 0 <= i < |r.done| ==> Parts(s[..n], sep)[i] == r.done[i];
      assert Parts(s[..n], sep)[|r.done|] == r.cur;
      assert s == s[..n] + [s[n]];
    }
  }

  lemma {:induction false} JoinedLength(list: seq<string>, sep: char, i: nat)
    requires i < |list|
    ensures |Escape(list[i], sep)| <= |JoinEscaped(list, sep)|
  {
    hide Escape;
    if i < |list| - 1 {
      JoinedLength(list[..|list| - 1], sep, i);
    }
  }

  /** A part is not longer than the string, and shorter if it has a separator, which was protected. */
  lemma PartLength(s: string, sep: char, i: nat)
    requires sep != BACKSLASH && i < |Parts(s, sep)|
    ensures |Parts(s, sep)[i]| <= |s|
    ensures sep in Parts(s, sep)[i] ==> |Parts(s, sep)[i]| < |s|
  {
    hide Read, Escape, JoinEscaped;
    JoinUndoesSplit(s, sep);
    JoinedLength(Parts(s, sep), sep, i);
    EscapeLength(Parts(s, sep)[i], sep);
  }

  /** A part with a separator comes from a string with one. */
  lemma {:induction false} PartSeparator(s: string, sep: char)
    requires sep != BACKSLASH
    ensures sep !in s ==> Parts(s, sep) == [s]
  {
    hide Read;
    if sep !in s {
      ReadNothing(sep);
      ReadText("", s, sep);
      assert "" + s == s;
    }
  }

  // ----- Where the collected keys and values come from -----

  /** The part is a property with this key, and the value is one of its values. */
  predicate Yields(part: string, key: string, v: string) {
    var kv := SplitPropToKeyAndValue(part);
    kv.Some? && kv.value.0 == key && v in Parts(kv.value.1, ',')
  }

  lemma {:induction false} CollectedFrom(list: seq<string>, key: string, v: string)
    requires AddAll(map[], list).err.None? && v in ValuesOf(AddAll(map[], list).props, key)
    ensures exists i :: 0 <= i < |list| && Yields(list[i], key, v)
  {
    hide SplitPropToKeyAndValue, Parts;
    if list != [] {
      var n := |list| - 1;
      var before := AddAll(map[], list[..n]);
      if v in ValuesOf(before.props, key) {
        CollectedFrom(list[..n], key, v);
        var i :| 0 <= i < n && Yields(list[..n][i], key, v);
        assert Yields(list[i], key, v);
      } else {
        assert Yields(list[n], key, v);
      }
    }
  }

  lemma {:induction false} PartsAreProperties(list: seq<string>, i: nat)
    requires AddAll(map[], list).err.None? && i < |list|
    ensures list[i] == "" || SplitPropToKeyAndValue(list[i]).Some?
  {
    hide SplitPropToKeyAndValue, Parts;
    if i < |list| - 1 {
      PartsAreProperties(list[..|list| - 1], i);
    }
  }

  lemma {:induction false} CollectedNonEmpty(list: seq<string>)
    requires AddAll(map[], list).err.None?
    ensures forall k :: k in AddAll(map[], list).props ==> AddAll(map[], list).props[k] != []
  {
    hide SplitPropToKeyAndValue, Parts;
    if list != [] {
      CollectedNonEmpty(list[..|list| - 1]);
    }
  }

  /** The key and the value of a property, and where they stand in it. */
  lemma PropertyIs(p: string, key: string, value: string)
    requires SplitPropToKeyAndValue(p) == Some((key, value))
    ensures p == key + "=" + value && key != "" && value != "" && '=' !in key
  {
    hide Index;
    IndexIsFirst(p, '=');
    assert p == p[..Index(p, '=')] + "=" + p[Index(p, '=') + 1..];
  }

  // ----- A round trip -----

  /** The properties come back, and each of their values from some part. */
  ghost predicate ComesBack(m: Props, list: seq<string>) {
    && AddAll(map[], list).err.None?
    && (forall k :: k in m ==> m[k] != [] && Distinct(m[k]) == m[k])
    && (forall k, v :: k in m && v in m[k] ==> exists i :: 0 <= i < |list| && Yields(list[i], k, v))
  }

  lemma RoundTripComesBack(m: Props, t: string)
    requires ParsedInto(map[], t) == Parsed(m, None)
    ensures ComesBack(m, Parts(t, ';'))
  {
    hide Parts, AddAll, Distinct, Yields;
    var list := Parts(t, ';');
    var r := AddAll(map[], list).props;
    CollectedNonEmpty(list);
    forall k | k in m
      ensures m[k] != [] && Distinct(m[k]) == m[k]
    {
      DistinctTwice(r[k]);
      assert r[k][0] in r[k];
    }
    forall k, v | k in m && v in m[k]
      ensures exists i :: 0 <= i < |list| && Yields(list[i], k, v)
    {
      CollectedFrom(list, k, v);
    }
  }

  lemma DistinctTwice(vs: seq<string>)
    ensures Distinct(Distinct(vs)) == Distinct(vs)
  {
    DistinctIdempotent(Distinct(vs));
  }

  // ----- Backslashes at the end -----

  /** The value ends in a backslash, and so only the last part can yield it, as its last value. */
  lemma LastYields(t: string, i: nat, key: string, v: string)
    requires var list := Parts(t, ';'); i < |list| && Yields(list[i], key, v)
    requires Protects(v)
    ensures i == |Parts(t, ';')| - 1 && Protects(t)
    ensures var values := Parts(SplitPropToKeyAndValue(Parts(t, ';')[i]).value.1, ','); v == values[|values| - 1]
  {
    hide SplitPropToKeyAndValue;
    var part := Parts(t, ';')[i];
    var value := SplitPropToKeyAndValue(part).value.1;
    PropertyIs(part, key, value);
    PartsNotGlued(value, ',');
    var j :| 0 <= j < |Parts(value, ',')| && Parts(value, ',')[j] == v;
    assert j == |Read(value, ',').done|;
    ReadEnd(value, ',');
    assert part[|part| - 1] == value[|value| - 1];
    PartsNotGlued(t, ';');
    ReadEnd(t, ';');
  }

  /** Two values that end in a backslash are one, under one key. */
  lemma OneProtects(m: Props, t: string, k: string, v: string, l: string, w: string)
    requires ComesBack(m, Parts(t, ';')) && k in m && v in m[k] && l in m && w in m[l] && Protects(v) && Protects(w)
    ensures k == l && v == w
  {
    hide Parts, AddAll, Distinct, SplitPropToKeyAndValue, Protects;
    var list := Parts(t, ';');
    var i :| 0 <= i < |list| && Yields(list[i], k, v);
    var j :| 0 <= j < |list| && Yields(list[j], l, w);
    LastYields(t, i, k, v);
    LastYields(t, j, l, w);
  }

  // ----- The items -----

  /** The position of a value's item: the items of the earlier keys come first. */
  lemma {:induction false} ItemsAre(m: Props, keys: seq<string>, i: nat)
    requires (forall k :: k in keys ==> k in m) && i < |AllRepeated(m, keys)|
    ensures exists k, j :: k in keys && 0 <= j < |m[k]| && AllRepeated(m, keys)[i] == k + "=" + m[k][j]
  {
    var n := |keys| - 1;
    var front := AllRepeated(m, keys[..n]);
    assert keys == keys[..n] + [keys[n]];
    if i < |front| {
      ItemsAre(m, keys[..n], i);
      assert AllRepeated(m, keys)[i] == front[i];
    } else {
      var j := i - |front|;
      assert keys[n] in keys && AllRepeated(m, keys)[i] == keys[n] + "=" + m[keys[n]][j];
    }
  }

  /** Two items are values of different keys, or different values of one key. */
  ghost predicate Apart(m: Props, x: string, y: string) {
    exists k, v, l, w :: k in m && v in m[k] && l in m && w in m[l] && (k != l || v != w)
                         && x == k + "=" + v && y == l + "=" + w
  }

  lemma ApartWitness(m: Props, k: string, v: string, l: string, w: string)
    requires k in m && v in m[k] && l in m && w in m[l] && (k != l || v != w)
    ensures Apart(m, k + "=" + v, l + "=" + w)
  {
  }

  ghost predicate NoneTwice(m: Props) {
    forall k :: k in m ==> forall a, b :: 0 <= a < b < |m[k]| ==> m[k][a] != m[k][b]
  }

  lemma ValuesApart(m: Props, k: string, a: nat, b: nat)
    requires NoneTwice(m) && k in m && a < b < |m[k]|
    ensures m[k][a] != m[k][b]
  {
  }

  lemma ItemAt(m: Props, keys: seq<string>, i: nat)
    requires (forall k :: k in keys ==> k in m) && i < |AllRepeated(m, keys)|
    ensures keys != []
    ensures var key, front := keys[|keys| - 1], AllRepeated(m, keys[..|keys| - 1]);
            if i < |front| then AllRepeated(m, keys)[i] == front[i]
            else i - |front| < |m[key]| && AllRepeated(m, keys)[i] == key + "=" + m[key][i - |front|]
  {
  }

  lemma {:induction false} ItemsApart(m: Props, keys: seq<string>, i: nat, j: nat)
    requires (forall k :: k in keys ==> k in m) && (forall a, b :: 0 <= a < b < |keys| ==> keys[a] != keys[b])
    requires NoneTwice(m)
    requires i < j < |AllRepeated(m, keys)|
    ensures Apart(m, AllRepeated(m, keys)[i], AllRepeated(m, keys)[j])
  {
    hide Apart, NoneTwice, AllRepeated;
    ItemAt(m, keys, i);
    ItemAt(m, keys, j);
    var n := |keys| - 1;
    var key, front := keys[n], AllRepeated(m, keys[..n]);
    assert keys == keys[..n] + [key];
    if j < |front| {
      ItemsApart(m, keys[..n], i, j);
    } else if i >= |front| {
      ValuesApart(m, key, i - |front|, j - |front|);
      ApartWitness(m, key, m[key][i - |front|], key, m[key][j - |front|]);
    } else {
      ItemsAre(m, keys[..n], i);
      var k, a :| k in keys[..n] && 0 <= a < |m[k]| && front[i] == k + "=" + m[k][a];
      ApartWitness(m, k, m[k][a], key, m[key][j - |front|]);
    }
  }

  lemma ItemEnd(key: string, v: string)
    ensures Protects(key + "=" + v) <==> Protects(v)
  {
  }

  /** Only the last item may end in a backslash. */
  lemma ItemsNotGlued(m: Props, keys: seq<string>, t: string)
    requires (forall k :: k in keys <==> k in m) && (forall a, b :: 0 <= a < b < |keys| ==> keys[a] != keys[b])
    requires ComesBack(m, Parts(t, ';')) && AllRepeated(m, keys) != [] && t == Join(AllRepeated(m, keys), ';')
    ensures !Glued(AllRepeated(m, keys))
  {
    hide Parts, AddAll, Distinct, Protects, Join, Yields;
    var items := AllRepeated(m, keys);
    var n := |items| - 1;
    DistinctValues(m, Parts(t, ';'));
    forall i | 0 <= i < n
      ensures !Protects(items[i])
    {
      ItemsApart(m, keys, i, n);
      if Protects(items[i]) {
        EndsInLast(m, t, items, i);
      }
    }
    NotGluedIf(items);
  }

  lemma NotGluedIf(vs: seq<string>)
    requires forall i :: 0 <= i < |vs| - 1 ==> !Protects(vs[i])
    ensures !Glued(vs)
  {
  }

  lemma DistinctValues(m: Props, list: seq<string>)
    requires ComesBack(m, list)
    ensures NoneTwice(m)
  {
    hide AddAll, Yields;
    forall k | k in m
      ensures forall a, b :: 0 <= a < b < |m[k]| ==> m[k][a] != m[k][b]
    {
      assert Distinct(m[k]) == m[k];
    }
  }

  /** If an earlier item ends in a backslash, so does the string, and so the last item, which is another one. */
  lemma EndsInLast(m: Props, t: string, items: seq<string>, i: nat)
    requires ComesBack(m, Parts(t, ';')) && i < |items| - 1 && t == Join(items, ';')
    requires Apart(m, items[i], items[|items| - 1])
    ensures !Protects(items[i])
  {
    hide Parts, AddAll, Distinct, Join, SplitPropToKeyAndValue;
    var n := |items| - 1;
    var k, v, l, w :| k in m && v in m[k] && l in m && w in m[l] && (k != l || v != w)
                      && items[i] == k + "=" + v && items[n] == l + "=" + w;
    ItemEnd(k, v);
    ItemEnd(l, w);
    if Protects(v) {
      var j :| 0 <= j < |Parts(t, ';')| && Yields(Parts(t, ';')[j], k, v);
      LastYields(t, j, k, v);
      JoinEnds(items);
      OneProtects(m, t, k, v, l, w);
    }
  }

  lemma JoinEnds(items: seq<string>)
    requires items != [] && items[|items| - 1] != ""
    ensures Protects(Join(items, ';')) <==> Protects(items[|items| - 1])
  {
    var n := |items| - 1;
    assert items == items[..n] + [items[n]];
    JoinLast(items[..n], items[n], ';');
  }

  // ----- Parts of the items -----

  /** The parts of a key, an equals sign and a value: the sign joins the last part of the one and the first part of
      the other. */
  lemma {:induction false} ReadItem(k: string, w: string)
    ensures var rk, rw, r := Read(k, ';'), Read(w, ';'), Read(k + "=" + w, ';');
            if rw.done == [] then r == Reading(rk.done, rk.cur + "=" + rw.cur)
            else r == Reading(rk.done + [rk.cur + "=" + rw.done[0]] + rw.done[1..], rw.cur)
  {
    hide Read;
    if w == "" {
      ReadNothing(';');
      ReadText(k, "=", ';');
      assert k + "=" + w == k + "=" && Read(k, ';').cur + "=" + "" == Read(k, ';').cur + "=";
    } else {
      var n := |w| - 1;
      ReadItem(k, w[..n]);
      assert w == w[..n] + [w[n]];
      assert k + "=" + w == (k + "=" + w[..n]) + [w[n]];
      ReadChar(w[..n], w[n]);
      ReadChar(k + "=" + w[..n], w[n]);
      ReadItemStep(Read(k, ';'), Read(w[..n], ';'), Read(k + "=" + w[..n], ';'), w[n]);
    }
  }

  /** Reading one character. */
  function Next(r: Reading, c: char): Reading {
    if c != ';' then r.(cur := r.cur + [c])
    else if Protects(r.cur) then r.(cur := r.cur[..|r.cur| - 1] + [';'])
    else Reading(r.done + [r.cur], "")
  }

  lemma ReadChar(s: string, c: char)
    ensures Read(s + [c], ';') == Next(Read(s, ';'), c)
  {
    assert (s + [c])[..|s|] == s;
  }

  lemma ReadItemStep(rk: Reading, rw: Reading, r: Reading, c: char)
    requires if rw.done == [] then r == Reading(rk.done, rk.cur + "=" + rw.cur)
             else r == Reading(rk.done + [rk.cur + "=" + rw.done[0]] + rw.done[1..], rw.cur)
    ensures var x, y := Next(rw, c), Next(r, c);
            if x.done == [] then y == Reading(rk.done, rk.cur + "=" + x.cur)
            else y == Reading(rk.done + [rk.cur + "=" + x.done[0]] + x.done[1..], x.cur)
  {
    var all := rk.cur + "=" + rw.cur;
    assert rw.cur != "" ==> all[|all| - 1] == rw.cur[|rw.cur| - 1];
    assert rw.cur != "" ==> all[..|all| - 1] == rk.cur + "=" + rw.cur[..|rw.cur| - 1];
    if rw.done != [] && c == ';' {
      assert (rw.done + [rw.cur])[1..] == rw.done[1..] + [rw.cur];
    }
  }

  /** What a part of an item is. */
  predicate ItemPart(k: string, w: string, p: string) {
    var ks, ws := Parts(k, ';'), Parts(w, ';');
    p in ks || p in ws || p == ks[|ks| - 1] + "=" + ws[0]
  }

  lemma ItemParts(k: string, w: string, p: string)
    requires p in Parts(k + "=" + w, ';')
    ensures ItemPart(k, w, p)
  {
    hide Read;
    ReadItem(k, w);
    var rk, rw := Read(k, ';'), Read(w, ';');
    assert forall x :: x in rk.done ==> x in Parts(k, ';');
    assert forall x :: x in rw.done[if rw.done == [] then 0 else 1..] ==> x in Parts(w, ';');
    assert rw.cur in Parts(w, ';');
  }

  lemma {:induction false} PartsOfItems(items: seq<string>, p: string)
    requires items != [] && !Glued(items) && (forall i :: 0 <= i < |items| ==> items[i] != "")
    requires p in Parts(Join(items, ';'), ';')
    ensures exists i :: 0 <= i < |items| && p in Parts(items[i], ';')
  {
    hide Read, Join, Protects;
    var n := |items| - 1;
    var front := items[..n];
    assert items == front + [items[n]];
    JoinLast(front, items[n], ';');
    if n == 0 {
      assert "" + items[0] == items[0];
    } else {
      JoinEnds(front);
      ReadEnd(Join(front, ';'), ';');
      FrontNotGlued(items);
      ReadConcat(Join(front, ';'), items[n], ';');
      if p in Parts(Join(front, ';'), ';') {
        PartsOfItems(front, p);
        var i :| 0 <= i < n && p in Parts(front[i], ';');
        assert p in Parts(items[i], ';');
      } else {
        assert p in Parts(items[n], ';');
      }
    }
  }

  lemma FrontNotGlued(items: seq<string>)
    requires |items| > 1 && !Glued(items)
    ensures !Glued(items[..|items| - 1]) && !Protects(items[|items| - 2])
  {
    hide Protects;
    var front := items[..|items| - 1];
    assert forall k :: 0 <= k < |front| ==> front[k] == items[k];
  }

  lemma SplitUnique(k: string, a: string, l: string, b: string)
    requires k + "=" + a == l + "=" + b && '=' !in k && '=' !in l
    ensures k == l && a == b
  {
    IndexAfter(k, '=', a);
    IndexAfter(l, '=', b);
    var s := k + "=" + a;
    assert s[..|k|] == k && s[|k| + 1..] == a && s[..|l|] == l && s[|l| + 1..] == b;
  }

  // ----- No semicolons -----

  ghost predicate Token(m: Props, t: string) {
    t in m || exists k :: k in m && t in m[k]
  }

  /** The string is the encoding of properties that come back, with its items' parts. */
  ghost predicate Returns(m: Props, keys: seq<string>, t: string) {
    && (forall k :: k in keys <==> k in m) && (forall a, b :: 0 <= a < b < |keys| ==> keys[a] != keys[b])
    && ComesBack(m, Parts(t, ';')) && AllRepeated(m, keys) != [] && t == Join(AllRepeated(m, keys), ';')
    && !Glued(AllRepeated(m, keys))
  }

  /** A key or value comes from a part of some item. */
  lemma TokenSource(m: Props, keys: seq<string>, t: string, x: string)
    returns (k: string, v: string, l: string, w: string, p: string)
    requires Returns(m, keys, t) && Token(m, x)
    ensures (x == k || x == v) && Yields(p, k, v) && l in m && w in m[l] && p in Parts(l + "=" + w, ';')
  {
    hide Parts, AddAll, Distinct, Join, Yields, Glued;
    if x in m {
      k, v := x, m[x][0];
    } else {
      k :| k in m && x in m[k];
      v := x;
    }
    assert v in m[k];
    var list, items := Parts(t, ';'), AllRepeated(m, keys);
    var i :| 0 <= i < |list| && Yields(list[i], k, v);
    p := list[i];
    forall j | 0 <= j < |items|
      ensures items[j] != ""
    {
      ItemsAre(m, keys, j);
    }
    PartsOfItems(items, p);
    var j :| 0 <= j < |items| && p in Parts(items[j], ';');
    ItemsAre(m, keys, j);
    var b: int;
    l, b :| l in keys && 0 <= b < |m[l]| && items[j] == l + "=" + m[l][b];
    w := m[l][b];
  }

  lemma KeyHasNoEquals(m: Props, keys: seq<string>, t: string, k: string)
    requires Returns(m, keys, t) && k in m
    ensures '=' !in k && k != ""
  {
    hide Parts, AddAll, Distinct, Join, SplitPropToKeyAndValue, Glued;
    var list := Parts(t, ';');
    var v := m[k][0];
    assert v in m[k];
    var i :| 0 <= i < |list| && Yields(list[i], k, v);
    PropertyIs(list[i], k, SplitPropToKeyAndValue(list[i]).value.1);
  }

  lemma PartOf(s: string, sep: char, p: string)
    requires sep != BACKSLASH && p in Parts(s, sep)
    ensures |p| <= |s|
    ensures sep in p ==> |p| < |s| && sep in s
  {
    hide Read;
    var i :| 0 <= i < |Parts(s, sep)| && Parts(s, sep)[i] == p;
    PartLength(s, sep, i);
    PartSeparator(s, sep);
  }

  lemma PartOfHas(s: string, sep: char, p: string, c: char)
    requires c != BACKSLASH && c != sep && p in Parts(s, sep) && c in p
    ensures c in s
  {
    hide Read;
    PartHas(s, sep, c);
  }

  /** A key or value with a semicolon comes from a longer one. */
  lemma LongerToken(m: Props, keys: seq<string>, t: string, x: string) returns (y: string)
    requires Returns(m, keys, t) && Token(m, x) && ';' in x
    ensures Token(m, y) && ';' in y && |y| > |x|
  {
    hide Returns, Parts, SplitPropToKeyAndValue;
    var k, v, l, w, p := TokenSource(m, keys, t, x);
    KeyHasNoEquals(m, keys, t, l);
    ItemParts(l, w, p);
    var value := SplitPropToKeyAndValue(p).value.1;
    PropertyIs(p, k, value);
    PartOf(value, ',', v);
    if ';' in v {
      PartOfHas(value, ',', v, ';');
    }
    assert p[|k|] == '=';
    if p in Parts(w, ';') {
      PartOf(w, ';', p);
      y := w;
    } else if p in Parts(l, ';') {
      PartOfHas(l, ';', p, '=');
      y := l;
    } else {
      y := JoinedToken(l, w, p, k, value, x == k);
    }
    assert l in m && w in m[l];
  }

  lemma JoinedToken(l: string, w: string, p: string, k: string, value: string, isKey: bool) returns (y: string)
    requires p == k + "=" + value && '=' !in k && '=' !in l
    requires p == Parts(l, ';')[|Parts(l, ';')| - 1] + "=" + Parts(w, ';')[0]
    requires ';' in (if isKey then k else value)
    ensures (y == l || y == w) && ';' in y && |y| > |if isKey then k else value|
  {
    hide Parts;
    var a, b := Parts(l, ';')[|Parts(l, ';')| - 1], Parts(w, ';')[0];
    if '=' in a {
      PartOfHas(l, ';', a, '=');
    }
    SplitUnique(k, value, a, b);
    PartOf(l, ';', a);
    PartOf(w, ';', b);
    y := if isKey then l else w;
  }

  lemma TokenLength(m: Props, keys: seq<string>, t: string, x: string)
    requires Returns(m, keys, t) && Token(m, x)
    ensures |x| <= |t|
  {
    hide Parts, AddAll, Distinct, Join, SplitPropToKeyAndValue, Glued;
    var k, v;
    if x in m {
      k, v := x, m[x][0];
    } else {
      k :| k in m && x in m[k];
      v := x;
    }
    assert v in m[k];
    var list := Parts(t, ';');
    var i :| 0 <= i < |list| && Yields(list[i], k, v);
    var value := SplitPropToKeyAndValue(list[i]).value.1;
    PropertyIs(list[i], k, value);
    PartOf(t, ';', list[i]);
    PartOf(value, ',', v);
  }

  lemma {:induction false} NoSemicolon(m: Props, keys: seq<string>, t: string, x: string)
    requires Returns(m, keys, t) && Token(m, x)
    ensures ';' !in x
    decreases |t| - |x|
  {
    hide Returns, Token;
    TokenLength(m, keys, t, x);
    if ';' in x {
      var y := LongerToken(m, keys, t, x);
      NoSemicolon(m, keys, t, y);
    }
  }

  // ----- No commas -----

  /** Without semicolons the parts are the items. */
  lemma PartsAreItems(m: Props, keys: seq<string>, t: string)
    requires Returns(m, keys, t)
    ensures Parts(t, ';') == AllRepeated(m, keys)
  {
    hide Parts, ComesBack, Join, Glued;
    var items := AllRepeated(m, keys);
    forall i | 0 <= i < |items|
      ensures ';' !in items[i]
    {
      ItemsAre(m, keys, i);
      var k, j :| k in keys && 0 <= j < |m[k]| && items[i] == k + "=" + m[k][j];
      assert m[k][j] in m[k] && Token(m, k) && Token(m, m[k][j]);
      NoSemicolon(m, keys, t, k);
      NoSemicolon(m, keys, t, m[k][j]);
    }
    SplitUndoesPlainJoin(items, ';');
  }

  /** A value with a comma comes from a longer one of the same key. */
  lemma LongerValue(m: Props, keys: seq<string>, t: string, k: string, v: string) returns (w: string)
    requires Returns(m, keys, t) && k in m && v in m[k] && ',' in v
    ensures w in m[k] && ',' in w && |w| > |v|
  {
    hide Parts, AddAll, Distinct, Join, SplitPropToKeyAndValue, Glued;
    PartsAreItems(m, keys, t);
    var list := AllRepeated(m, keys);
    var i :| 0 <= i < |list| && Yields(list[i], k, v);
    var value := SplitPropToKeyAndValue(list[i]).value.1;
    PropertyIs(list[i], k, value);
    ItemsAre(m, keys, i);
    var l, b :| l in keys && 0 <= b < |m[l]| && list[i] == l + "=" + m[l][b];
    KeyHasNoEquals(m, keys, t, l);
    SplitUnique(k, value, l, m[l][b]);
    w := m[l][b];
    PartOf(w, ',', v);
  }

  lemma {:induction false} NoComma(m: Props, keys: seq<string>, t: string, k: string, v: string)
    requires Returns(m, keys, t) && k in m && v in m[k]
    ensures ',' !in v
    decreases |t| - |v|
  {
    hide Returns;
    TokenLength(m, keys, t, v);
    if ',' in v {
      var w := LongerValue(m, keys, t, k, v);
      NoComma(m, keys, t, k, w);
    }
  }

  // ----- No empty values -----

  lemma {:induction false} ItemListed(m: Props, keys: seq<string>, k: string, v: string)
    requires (forall l :: l in keys ==> l in m) && k in keys && v in m[k]
    ensures k + "=" + v in AllRepeated(m, keys)
  {
    var n := |keys| - 1;
    assert keys == keys[..n] + [keys[n]];
    if k == keys[n] {
      var j :| 0 <= j < |m[k]| && m[k][j] == v;
      assert Repeated(k, m[k])[j] == k + "=" + v;
    } else {
      ItemListed(m, keys[..n], k, v);
    }
  }

  lemma NoEmptyValue(m: Props, keys: seq<string>, t: string, k: string, v: string)
    requires Returns(m, keys, t) && k in m && v in m[k]
    ensures v != ""
  {
    hide Parts, Join, Glued, SplitPropToKeyAndValue, Yields, AddAll, AllRepeated;
    var list := AllRepeated(m, keys);
    PartsAreItems(m, keys, t);
    KeyHasNoEquals(m, keys, t, k);
    ItemListed(m, keys, k, v);
    var i :| 0 <= i < |list| && list[i] == k + "=" + v;
    PartsAreProperties(list, i);
    var (l, value) := SplitPropToKeyAndValue(list[i]).value;
    PropertyIs(list[i], l, value);
    SplitUnique(k, v, l, value);
  }

  // ----- The exact condition -----

  lemma ReturnsClean(m: Props, keys: seq<string>, t: string, k: string)
    requires Returns(m, keys, t) && k in m
    ensures CleanEach(k, m[k])
  {
    hide Parts, AddAll, Distinct, Join, Glued, Yields;
    KeyHasNoEquals(m, keys, t, k);
    NoSemicolon(m, keys, t, k);
    DistinctValues(m, Parts(t, ';'));
    forall j | 0 <= j < |m[k]|
      ensures m[k][j] != "" && ';' !in m[k][j] && ',' !in m[k][j]
    {
      var v := m[k][j];
      assert v in m[k];
      NoSemicolon(m, keys, t, v);
      NoComma(m, keys, t, k, v);
      NoEmptyValue(m, keys, t, k, v);
    }
  }

  /** Properties that come back are clean. */
  lemma RoundTripClean(m: Props, keys: seq<string>)
    requires SortedKeysOf(keys, m) && AllBytes(m)
    requires ParsedInto(map[], QueryUnescape(Encoded(m, keys, false))) == Parsed(m, None)
    ensures (forall i :: 0 <= i < |keys| ==> CleanEach(keys[i], m[keys[i]])) && !Glued(AllRepeated(m, keys))
  {
    hide Parts, QueryUnescape, Encoded, AllBytes, AddAll, AllRepeated, Join, Glued, CleanEach, Distinct, ParsedInto,
         Yields;
    SortedKeysDiffer(keys, m);
    if keys == [] {
      NothingGlued(m);
    } else {
      var t := Join(AllRepeated(m, keys), ';');
      var sent := QueryUnescape(Encoded(m, keys, false));
      RoundTripComesBack(m, sent);
      UnescapeNothing();
      UnescapeAllRepeated(m, keys, "");
      assert Encoded(m, keys, false) + "" == Encoded(m, keys, false) && t + "" == t;
      ItemsNotGlued(m, keys, t);
      forall i | 0 <= i < |keys|
        ensures CleanEach(keys[i], m[keys[i]])
      {
        ReturnsClean(m, keys, t, keys[i]);
      }
    }
  }

  lemma NothingGlued(m: Props)
    ensures !Glued(AllRepeated(m, []))
  {
  }

  /** Parsing the unescaped encoding that repeats the keys gives the properties back if and only if the keys and
      values have no separators, no value is empty or repeated, every key has a value, and no value but the last of
      the last key ends in a backslash. */
  lemma ParseUndoesRepeatedIff(m: Props, keys: seq<string>)
    requires SortedKeysOf(keys, m) && AllBytes(m)
    ensures ParsedInto(map[], QueryUnescape(Encoded(m, keys, false))) == Parsed(m, None)
       <==> (forall i :: 0 <= i < |keys| ==> CleanEach(keys[i], m[keys[i]])) && !Glued(AllRepeated(m, keys))
  {
    hide QueryUnescape, Encoded, SortedKeysOf, AllBytes, AllRepeated, Glued, CleanEach, ParsedInto;
    SortedKeysDiffer(keys, m);
    if ParsedInto(map[], QueryUnescape(Encoded(m, keys, false))) == Parsed(m, None) {
      RoundTripClean(m, keys);
    } else if (forall i :: 0 <= i < |keys| ==> CleanEach(keys[i], m[keys[i]])) && !Glued(AllRepeated(m, keys)) {
      ParseUndoesRepeated(m, keys);
    }
  }
}
