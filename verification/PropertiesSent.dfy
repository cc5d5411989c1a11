/** Reading the encoded properties as they are sent: the escapes keep every separator that the encoding writes apart
    from those in keys and values (ToEncodedString in artifactory/services/utils/properties.go). */
module PropertiesSent {
  import opened Text
  import opened EscapedSplit
  import opened UrlEscape
  import opened ItemProperties
  import opened PropertiesRoundTrip

  /** What a receiver reads in one part: what stands before the first `=`, and what stands after it. */
  function ReadPart(part: string): (string, string) {
    var i := Index(part, '=');
    if i < 0 then (QueryUnescape(part), "") else (QueryUnescape(part[..i]), QueryUnescape(part[i + 1..]))
  }

  function ReadParts(parts: seq<string>): seq<(string, string)> {
    if parts == [] then []
    else
      var last := parts[|parts| - 1];
      ReadParts(parts[..|parts| - 1]) + if last == "" then [] else [ReadPart(last)]
  }

  /** The parts between semicolons are read before anything is unescaped. */
  function SentPairs(sent: string): seq<(string, string)> {
    ReadParts(Split(sent, ';'))
  }

  /** Each key with its values in one text. */
  function JoinedPairs(m: Props, keys: seq<string>): seq<(string, string)>
    requires forall k :: k in keys ==> k in m
  {
    seq(|keys|, i requires 0 <= i < |keys| => (keys[i], JoinEscaped(m[keys[i]], ',')))
  }

  function KeyPairs(key: string, vs: seq<string>): seq<(string, string)> {
    seq(|vs|, i requires 0 <= i < |vs| => (key, vs[i]))
  }

  /** Each key with each of its values. */
  function ValuePairs(m: Props, keys: seq<string>): seq<(string, string)>
    requires forall k :: k in keys ==> k in m
  {
    if keys == [] then []
    else
      var k := keys[|keys| - 1];
      ValuePairs(m, keys[..|keys| - 1]) + KeyPairs(k, m[k])
  }

  // ----- Reading -----

  lemma {:induction false} ReadPartsConcat(a: seq<string>, b: seq<string>)
    ensures ReadParts(a + b) == ReadParts(a) + ReadParts(b)
  {
    hide ReadPart;
    if b == [] {
      assert a + b == a;
    } else {
      assert (a + b)[..|a + b| - 1] == a + b[..|b| - 1];
      ReadPartsConcat(a, b[..|b| - 1]);
    }
  }

  lemma PairsConcat(a: string, b: string)
    ensures SentPairs(a + ";" + b) == SentPairs(a) + SentPairs(b)
  {
    hide Split, ReadParts;
    SplitConcat(a, b, ';');
    ReadPartsConcat(Split(a, ';'), Split(b, ';'));
  }

  lemma NoPairs()
    ensures SentPairs("") == []
  {
    SplitNoSep("", ';');
    assert [""][..0] == [];
  }

  lemma {:induction false} NotInEscaped(s: string, c: char)
    requires IsBytes(s) && !Sent(c)
    ensures c !in QueryEscape(s)
  {
    hide Sent, QueryEscape;
    EscapedIsSent(s);
  }

  /** One part, whose only unescaped separator is the `=`. */
  lemma OnePair(key: string, text: string)
    requires IsBytes(key) && ';' !in text
    ensures SentPairs(QueryEscape(key) + "=" + text) == [(key, QueryUnescape(text))]
  {
    hide QueryEscape, QueryUnescape, IsBytes, Index, Split;
    var name := QueryEscape(key);
    var part := name + "=" + text;
    NotInEscaped(key, ';');
    NotInEscaped(key, '=');
    SplitNoSep(part, ';');
    IndexAfter(name, '=', text);
    assert part[..|name|] == name && part[|name| + 1..] == text;
    UnescapeUndoesEscape(key, "");
    UnescapeNothing();
    assert name + "" == name && key + "" == key;
    OnePart(part);
  }

  lemma OnePart(part: string)
    requires part != ""
    ensures ReadParts([part]) == [ReadPart(part)]
  {
    hide ReadPart;
    assert [part][..0] == [];
  }

  // ----- The form that joins the values -----

  lemma {:induction false} ValuesHaveNoSemicolon(vs: seq<string>)
    requires forall v :: v in vs ==> IsBytes(v)
    ensures ';' !in EncodedValues(vs)
  {
    hide QueryEscape, Escape, IsBytes;
    if vs != [] {
      var n := |vs| - 1;
      ValuesHaveNoSemicolon(vs[..n]);
      EscapeKeepsBytes(vs[n], ',');
      NotInEscaped(Escape(vs[n], ','), ';');
    }
  }

  lemma JoinedPair(key: string, vs: seq<string>)
    requires IsBytes(key) && forall v :: v in vs ==> IsBytes(v)
    ensures SentPairs(EncodedProp(key, vs, true)) == [(key, JoinEscaped(vs, ','))]
  {
    hide QueryEscape, QueryUnescape, IsBytes, EncodedValues, JoinEscaped, SentPairs;
    ValuesHaveNoSemicolon(vs);
    OnePair(key, EncodedValues(vs));
    UnescapeValues(vs, "");
    UnescapeNothing();
    assert EncodedValues(vs) + "" == EncodedValues(vs) && JoinEscaped(vs, ',') + "" == JoinEscaped(vs, ',');
  }

  /** For all properties: reading the sent text gives each key, in order, and its values joined by commas, whatever
      separators they hold. */
  lemma {:induction false} SentJoined(m: Props, keys: seq<string>)
    requires AllBytes(m) && forall k :: k in keys ==> k in m
    ensures SentPairs(Encoded(m, keys, true)) == JoinedPairs(m, keys)
  {
    hide SentPairs, EncodedProp, JoinEscaped;
    NoPairs();
    if keys != [] {
      var n := |keys| - 1;
      var key := keys[n];
      assert key in m;
      SentJoined(m, keys[..n]);
      JoinedPair(key, m[key]);
      PairsConcat(Encoded(m, keys[..n], true), EncodedProp(key, m[key], true));
      assert JoinedPairs(m, keys) == JoinedPairs(m, keys[..n]) + [(key, JoinEscaped(m[key], ','))];
      assert "" + EncodedProp(key, m[key], true) == EncodedProp(key, m[key], true);
    }
  }

  // ----- The form that repeats the key -----

  lemma {:induction false} RepeatedPairs(key: string, vs: seq<string>)
    requires IsBytes(key) && forall v :: v in vs ==> IsBytes(v)
    ensures SentPairs(RepeatedKey(key, vs)) == KeyPairs(key, vs)
  {
    hide SentPairs, QueryEscape, QueryUnescape, IsBytes;
    NoPairs();
    if vs != [] {
      var n := |vs| - 1;
      var v := vs[n];
      RepeatedPairs(key, vs[..n]);
      NotInEscaped(v, ';');
      OnePair(key, QueryEscape(v));
      UnescapeUndoesEscape(v, "");
      UnescapeNothing();
      assert QueryEscape(v) + "" == QueryEscape(v) && v + "" == v;
      PairsConcat(RepeatedKey(key, vs[..n]), QueryEscape(key) + "=" + QueryEscape(v));
      assert KeyPairs(key, vs) == KeyPairs(key, vs[..n]) + [(key, v)];
      LastRepeated(key, vs);
    }
  }

  lemma LastRepeated(key: string, vs: seq<string>)
    requires IsBytes(key) && vs != [] && forall v :: v in vs ==> IsBytes(v)
    ensures var n := |vs| - 1;
            var item := QueryEscape(key) + "=" + QueryEscape(vs[n]);
            RepeatedKey(key, vs) == if n == 0 then item else RepeatedKey(key, vs[..n]) + ";" + item
  {
    hide QueryEscape, IsBytes, RepeatedKey;
    var n := |vs| - 1;
    assert vs[..n + 1] == vs;
    NextRepeated(key, vs, n);
    ItemAfter(if n == 0 then "" else RepeatedKey(key, vs[..n]) + ";", QueryEscape(key), QueryEscape(vs[n]));
  }

  lemma ItemAfter(front: string, name: string, value: string)
    ensures front + name + "=" + value == front + (name + "=" + value)
    ensures front == "" ==> front + (name + "=" + value) == name + "=" + value
  {
  }

  /** For all properties: reading the sent text gives each key, in order, with each of its values, in order, whatever
      separators they hold. */
  lemma {:induction false} SentRepeated(m: Props, keys: seq<string>)
    requires AllBytes(m) && forall k :: k in keys ==> k in m
    ensures SentPairs(Encoded(m, keys, false)) == ValuePairs(m, keys)
  {
    hide SentPairs, RepeatedKey, KeyPairs;
    NoPairs();
    if keys != [] {
      var n := |keys| - 1;
      var key := keys[n];
      assert key in m;
      SentRepeated(m, keys[..n]);
      RepeatedPairs(key, m[key]);
      PairsConcat(Encoded(m, keys[..n], false), RepeatedKey(key, m[key]));
      assert "" + RepeatedKey(key, m[key]) == RepeatedKey(key, m[key]);
    }
  }
}
