/** Go's order on strings, and why the strings that start with a given prefix form an interval of it.
    Go compares bytes; on UTF-8 text this is the order of the characters. */
module StringOrder {
  import opened Text

  predicate Less(a: string, b: string) {
    if b == "" then false
    else if a == "" then true
    else if a[0] != b[0] then a[0] < b[0]
    else Less(a[1..], b[1..])
  }

  predicate AtMost(a: string, b: string) {
    !Less(b, a)
  }

  /** The order a sort asks for: ascending or descending. */
  predicate Before(a: string, b: string, ascending: bool) {
    if ascending then Less(a, b) else Less(b, a)
  }

  /** compareStrings in utils/io/content/contentreader.go: the source must come after the other. */
  predicate CompareStrings(src: string, against: string, ascending: bool) {
    if ascending then Less(against, src) else Less(src, against)
  }

  lemma {:induction false} LessTransitive(a: string, b: string, c: string)
    requires Less(a, b) && Less(b, c)
    ensures Less(a, c)
  {
    if a != "" && a[0] == b[0] == c[0] {
      LessTransitive(a[1..], b[1..], c[1..]);
    }
  }

  lemma {:induction false} LessTotal(a: string, b: string)
    ensures Less(a, b) || Less(b, a) || a == b
    ensures !(Less(a, b) && Less(b, a))
    ensures a == b ==> !Less(a, b)
  {
    if a != "" && b != "" {
      LessTotal(a[1..], b[1..]);
      assert a == [a[0]] + a[1..] && b == [b[0]] + b[1..];
    }
  }

  /** The first character in which two strings differ decides; a proper prefix comes first. */
  lemma {:induction false} LessAtDifference(p: string, a: char, x: string, b: char, y: string)
    requires a != b
    ensures Less(p + [a] + x, p + [b] + y) <==> a < b
    ensures Less(p, p + [a] + x)
  {
    var s, t := p + [a] + x, p + [b] + y;
    if p == "" {
      assert s[0] == a && t[0] == b;
    } else {
      assert s[0] == t[0] == p[0] && s[1..] == p[1..] + [a] + x && t[1..] == p[1..] + [b] + y;
      LessAtDifference(p[1..], a, x, b, y);
    }
  }

  lemma AtMostTransitive(a: string, b: string, c: string)
    requires AtMost(a, b) && AtMost(b, c)
    ensures AtMost(a, c)
  {
    LessTotal(a, b);
    LessTotal(b, c);
    LessTotal(a, c);
    if Less(a, b) && Less(b, c) {
      LessTransitive(a, b, c);
    }
  }

  /** `Before` is a strict total order in either direction. */
  lemma BeforeOrder(ascending: bool)
    ensures forall a, b, c :: Before(a, b, ascending) && Before(b, c, ascending) ==> Before(a, c, ascending)
    ensures forall a, b :: Before(a, b, ascending) || Before(b, a, ascending) || a == b
    ensures forall a, b :: !(Before(a, b, ascending) && Before(b, a, ascending))
    ensures forall a :: !Before(a, a, ascending)
  {
    forall a, b, c | Before(a, b, ascending) && Before(b, c, ascending)
      ensures Before(a, c, ascending)
    {
      if ascending {
        LessTransitive(a, b, c);
      } else {
        LessTransitive(c, b, a);
      }
    }
    forall a, b
      ensures Before(a, b, ascending) || Before(b, a, ascending) || a == b
      ensures !(Before(a, b, ascending) && Before(b, a, ascending))
      ensures !Before(a, a, ascending)
    {
      LessTotal(a, b);
      LessTotal(a, a);
    }
  }

  lemma {:induction false} PrefixFirst(d: string, s: string)
    requires HasPrefix(s, d)
    ensures AtMost(d, s)
  {
    if d != "" {
      assert s[..|d|][0] == s[0] && s[..|d|][1..] == s[1..][..|d| - 1];
      PrefixFirst(d[1..], s[1..]);
    }
  }

  /** Between a prefix and a string that starts with it, every string starts with it. */
  lemma {:induction false} PrefixInterval(d: string, x: string, y: string)
    requires AtMost(d, x) && AtMost(x, y) && HasPrefix(y, d)
    ensures HasPrefix(x, d)
  {
    if d != "" {
      assert y[..|d|][0] == y[0] && y[..|d|][1..] == y[1..][..|d| - 1];
      assert x != "" && x[0] == d[0];
      PrefixInterval(d[1..], x[1..], y[1..]);
      assert x[..|d|] == [x[0]] + x[1..][..|d| - 1];
      assert d == [d[0]] + d[1..];
    }
  }

  lemma PrefixTransitive(a: string, b: string, c: string)
    requires HasPrefix(b, a) && HasPrefix(c, b)
    ensures HasPrefix(c, a)
  {
    assert c[..|b|][..|a|] == c[..|a|];
  }

  /** sort.Strings, or its reverse. */
  function SortKeys(keys: seq<string>, ascending: bool): (sorted: seq<string>)
    ensures |sorted| == |keys|
  {
    if keys == [] then [] else InsertKey(keys[0], SortKeys(keys[1..], ascending), ascending)
  }

  function InsertKey(k: string, sorted: seq<string>, ascending: bool): (r: seq<string>)
    ensures |r| == |sorted| + 1
  {
    if sorted == [] then [k]
    else if Before(sorted[0], k, ascending) then [sorted[0]] + InsertKey(k, sorted[1..], ascending)
    else [k] + sorted
  }

  predicate KeysSorted(keys: seq<string>, ascending: bool) {
    forall i, j :: 0 <= i < j < |keys| ==> !Before(keys[j], keys[i], ascending)
  }

  lemma {:induction false} InsertKeyPermutes(k: string, sorted: seq<string>, ascending: bool)
    ensures multiset(InsertKey(k, sorted, ascending)) == multiset{k} + multiset(sorted)
  {
    if sorted != [] {
      assert sorted == [sorted[0]] + sorted[1..];
      InsertKeyPermutes(k, sorted[1..], ascending);
    }
  }

  lemma NotBeforeTransitive(a: string, b: string, c: string, ascending: bool)
    requires !Before(b, a, ascending) && !Before(c, b, ascending)
    ensures !Before(c, a, ascending)
  {
    if ascending {
      AtMostTransitive(a, b, c);
    } else {
      AtMostTransitive(c, b, a);
    }
  }

  lemma InsertKeyMember(k: string, sorted: seq<string>, ascending: bool, i: nat)
    requires i < |InsertKey(k, sorted, ascending)|
    ensures InsertKey(k, sorted, ascending)[i] == k || InsertKey(k, sorted, ascending)[i] in sorted
  {
    hide InsertKey;
    InsertKeyPermutes(k, sorted, ascending);
    assert InsertKey(k, sorted, ascending)[i] in multiset(InsertKey(k, sorted, ascending));
  }

  lemma NotBoth(a: string, b: string, ascending: bool)
    ensures !(Before(a, b, ascending) && Before(b, a, ascending))
  {
    LessTotal(a, b);
  }

  lemma {:induction false} InsertKeySorted(k: string, sorted: seq<string>, ascending: bool)
    requires KeysSorted(sorted, ascending)
    ensures KeysSorted(InsertKey(k, sorted, ascending), ascending)
  {
    hide Before;
    if sorted != [] {
      var rest := sorted[1..];
      if Before(sorted[0], k, ascending) {
        InsertKeySorted(k, rest, ascending);
        var r := InsertKey(k, rest, ascending);
        forall i | 0 <= i < |r|
          ensures !Before(r[i], sorted[0], ascending)
        {
          InsertKeyMember(k, rest, ascending, i);
          NotBoth(sorted[0], k, ascending);
        }
      } else {
        forall j | 0 <= j < |sorted|
          ensures !Before(sorted[j], k, ascending)
        {
          if j > 0 {
            NotBeforeTransitive(k, sorted[0], sorted[j], ascending);
          }
        }
      }
    }
  }

  lemma {:induction false} SortKeysSorts(keys: seq<string>, ascending: bool)
    ensures KeysSorted(SortKeys(keys, ascending), ascending)
    ensures multiset(SortKeys(keys, ascending)) == multiset(keys)
  {
    if keys != [] {
      SortKeysSorts(keys[1..], ascending);
      InsertKeySorted(keys[0], SortKeys(keys[1..], ascending), ascending);
      InsertKeyPermutes(keys[0], SortKeys(keys[1..], ascending), ascending);
      assert keys == [keys[0]] + keys[1..];
    }
  }

  /** Ascending means that no key is followed by a lesser one, descending that none is followed by a greater one. */
  lemma SortKeysDirection(keys: seq<string>, i: nat, j: nat)
    requires i < j < |keys|
    ensures AtMost(SortKeys(keys, true)[i], SortKeys(keys, true)[j])
    ensures AtMost(SortKeys(keys, false)[j], SortKeys(keys, false)[i])
  {
    hide Less, SortKeys;
    SortKeysSorts(keys, true);
    SortKeysSorts(keys, false);
  }
}
