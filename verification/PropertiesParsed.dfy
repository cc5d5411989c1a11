/** What the parser of properties reads, and where it stops (artifactory/services/utils/properties.go). */
module PropertiesParsed {
  import opened Wrappers
  import opened Text
  import opened EscapedSplit
  import opened ItemProperties

  /** A key that is not empty, the first equals sign, and a value that is not empty. */
  predicate IsProperty(part: string) {
    exists k :: 0 < k < |part| - 1 && part[k] == '=' && '=' !in part[..k]
  }

  lemma NotBefore(part: string, j: nat, k: nat)
    requires j < |part| && k < |part| && part[j] == '='
    ensures '=' !in part[..k] ==> k <= j
  {
    if j < k {
      assert part[..k][j] == part[j];
    }
  }

  lemma SplitPropIff(part: string)
    ensures SplitPropToKeyAndValue(part).Some? <==> IsProperty(part)
    ensures forall k :: 0 < k < |part| - 1 && part[k] == '=' && '=' !in part[..k] ==>
              SplitPropToKeyAndValue(part) == Some((part[..k], part[k + 1..]))
  {
    hide Index;
    IndexIsFirst(part, '=');
    forall k | 0 < k < |part| - 1 && part[k] == '=' && '=' !in part[..k]
      ensures Index(part, '=') == k
    {
      IndexAtMost(part, '=', k);
      NotBefore(part, Index(part, '='), k);
    }
  }

  /** Empty parts are skipped. */
  predicate Readable(part: string) {
    part == "" || IsProperty(part)
  }

  lemma AddStep(m: Props, list: seq<string>, n: nat)
    requires n < |list|
    ensures var r, part := AddAll(m, list[..n]), list[n];
            AddAll(m, list[..n + 1])
            == if r.err.Some? || part == "" then r
               else match SplitPropToKeyAndValue(part)
                    case None => r.(err := Some(part))
                    case Some((key, value)) =>
                      r.(props := r.props[key := ValuesOf(r.props, key) + Parts(value, ',')])
  {
    hide SplitPropToKeyAndValue, Parts;
    assert list[..n + 1][..n] == list[..n];
  }

  lemma {:induction false} ReadsAll(m: Props, list: seq<string>, n: nat)
    requires n <= |list| && forall i :: 0 <= i < n ==> Readable(list[i])
    ensures AddAll(m, list[..n]).err.None?
  {
    hide SplitPropToKeyAndValue, Parts, IsProperty, AddAll;
    if n == 0 {
      NothingAdded(m);
      assert list[..0] == [];
    } else {
      ReadsAll(m, list, n - 1);
      AddStep(m, list, n - 1);
      SplitPropIff(list[n - 1]);
    }
  }

  lemma NothingAdded(m: Props)
    ensures AddAll(m, []) == Parsed(m, None)
  {
  }

  /** The parser stops with an error at the first part that is neither empty nor a property, and keeps what it read
      before, duplicates included; without such a part there is no error. */
  lemma ParseStopsAt(m: Props, s: string, n: nat)
    requires n <= |Parts(s, ';')| && forall i :: 0 <= i < n ==> Readable(Parts(s, ';')[i])
    ensures n == |Parts(s, ';')| ==> ParsedInto(m, s).err.None?
    ensures n < |Parts(s, ';')| && !Readable(Parts(s, ';')[n]) ==>
              ParsedInto(m, s) == Parsed(AddAll(m, Parts(s, ';')[..n]).props, Some(Parts(s, ';')[n]))
  {
    hide SplitPropToKeyAndValue, Parts, IsProperty, AddAll, DistinctAll;
    var list := Parts(s, ';');
    ReadsAll(m, list, n);
    assert list[..|list|] == list;
    if n < |list| && !Readable(list[n]) {
      AddStep(m, list, n);
      SplitPropIff(list[n]);
      Stopped(m, list, n);
    }
  }

  // ----- What is collected -----

  /** The values that the parts give a key, in order. */
  function ValuesRead(list: seq<string>, key: string): seq<string> {
    if list == [] then []
    else
      var part := list[|list| - 1];
      ValuesRead(list[..|list| - 1], key) + ValuesIn(part, key)
  }

  /** The values of a part that starts with the key and an equals sign. */
  function ValuesIn(part: string, key: string): seq<string> {
    if IsProperty(part) && HasPrefix(part, key + "=") && '=' !in key then Parts(part[|key| + 1..], ',') else []
  }

  lemma KeyEnds(part: string, key: string, k: nat)
    requires k < |part| && part[k] == '=' && '=' !in part[..k] && HasPrefix(part, key + "=") && '=' !in key
    ensures part[..k] == key
  {
    PrefixParts(part, key);
    NotBefore(part, |key|, k);
    NotBefore(part, k, |key|);
  }

  lemma KeyPlace(part: string, key: string, k: nat)
    requires k < |part| && part[k] == '=' && '=' !in part[..k]
    ensures HasPrefix(part, key + "=") && '=' !in key <==> part[..k] == key
  {
    if part[..k] == key {
      assert part[..k + 1] == key + "=";
    }
    if HasPrefix(part, key + "=") && '=' !in key {
      KeyEnds(part, key, k);
    }
  }

  lemma PrefixParts(part: string, key: string)
    requires HasPrefix(part, key + "=")
    ensures |key| < |part| && part[..|key|] == key && part[|key|] == '='
  {
    assert (key + "=")[|key|] == '=' && (key + "=")[..|key|] == key;
    assert part[..|key|] == part[..|key| + 1][..|key|];
  }

  lemma PartGives(part: string, key: string)
    requires IsProperty(part)
    ensures var kv := SplitPropToKeyAndValue(part);
            kv.Some? && ValuesIn(part, key) == if kv.value.0 == key then Parts(kv.value.1, ',') else []
  {
    hide Parts, Index, HasPrefix, SplitPropToKeyAndValue;
    SplitPropIff(part);
    var k :| 0 < k < |part| - 1 && part[k] == '=' && '=' !in part[..k];
    KeyPlace(part, key, k);
  }

  /** Without an error every key ends with its old values and then those of its parts, in order; and only keys with
      values or parts are there. */
  lemma {:induction false} CollectedValues(m: Props, list: seq<string>, key: string)
    requires forall i :: 0 <= i < |list| ==> Readable(list[i])
    ensures AddAll(m, list).err.None?
    ensures ValuesOf(AddAll(m, list).props, key) == ValuesOf(m, key) + ValuesRead(list, key)
    ensures key in AddAll(m, list).props <==> key in m || ValuesRead(list, key) != []
  {
    hide SplitPropToKeyAndValue, Parts, IsProperty, ValuesIn, AddAll, ValuesRead, ValuesOf;
    if list == [] {
      NothingAdded(m);
      NothingRead(key);
      assert ValuesOf(m, key) + [] == ValuesOf(m, key);
    } else {
      var n := |list| - 1;
      assert list[..n + 1] == list;
      CollectedValues(m, list[..n], key);
      AddStep(m, list, n);
      SplitPropIff(list[n]);
      ReadStep(list, key);
      CollectsPart(AddAll(m, list[..n]).props, AddAll(m, list).props, list[n], key);
      ThreeParts(ValuesOf(m, key), ValuesRead(list[..n], key), ValuesIn(list[n], key));
    }
  }

  lemma ThreeParts(a: seq<string>, b: seq<string>, c: seq<string>)
    ensures a + (b + c) == a + b + c
  {
  }

  lemma ReadStep(list: seq<string>, key: string)
    requires list != []
    ensures ValuesRead(list, key) == ValuesRead(list[..|list| - 1], key) + ValuesIn(list[|list| - 1], key)
  {
    hide ValuesIn;
  }

  lemma NothingRead(key: string)
    ensures ValuesRead([], key) == []
  {
  }

  /** One part adds its values to its key. */
  lemma CollectsPart(before: Props, after: Props, part: string, key: string)
    requires Readable(part)
    requires part == "" ==> after == before
    requires part != "" ==>
               SplitPropToKeyAndValue(part).Some? ==>
               var (k, value) := SplitPropToKeyAndValue(part).value;
               after == before[k := ValuesOf(before, k) + Parts(value, ',')]
    ensures ValuesOf(after, key) == ValuesOf(before, key) + ValuesIn(part, key)
    ensures key in after <==> key in before || ValuesIn(part, key) != []
  {
    hide SplitPropToKeyAndValue, Parts, IsProperty, ValuesIn;
    NotAProperty(key);
    if part != "" {
      PartGives(part, key);
    }
  }

  lemma NotAProperty(key: string)
    ensures ValuesIn("", key) == []
  {
  }
}
