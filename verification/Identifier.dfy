/** Identifiers of builds, release bundles and modules: a name and a version with a slash between them, where a
    backslash protects a slash (ParseNameAndVersion in artifactory/services/utils/artifactoryutils.go). */
module Identifier {
  import opened Text
  import opened EscapedSplit

  const LATEST_BUILD_NUMBER_KEY: string := "LATEST"

  datatype Identified = Identified(name: string, version: string) | NoDelimiter

  /** Position of the last slash that no backslash precedes, or -1. */
  function LastDelimiter(s: string): (k: int)
    ensures -1 <= k < |s|
  {
    if s == "" then -1
    else
      var n := |s| - 1;
      if s[n] == '/' && (n == 0 || s[n - 1] != BACKSLASH) then n else LastDelimiter(s[..n])
  }

  /** strings.ReplaceAll of an escaped slash by a slash. */
  function Unescape(s: string): string {
    if s == "" then ""
    else
      var n := |s| - 1;
      if s[n] == '/' && n > 0 && s[n - 1] == BACKSLASH then Unescape(s[..n - 1]) + "/" else Unescape(s[..n]) + [s[n]]
  }

  function Parsed(identifier: string, useLatestPolicy: bool): Identified {
    if identifier == "" then Identified("", "")
    else if '/' !in identifier then
      if useLatestPolicy then Identified(identifier, LATEST_BUILD_NUMBER_KEY) else NoDelimiter
    else
      var k := LastDelimiter(identifier);
      if k > 0 then Identified(Unescape(identifier[..k]), Unescape(identifier[k + 1..]))
      else if useLatestPolicy then Identified(Unescape(identifier), LATEST_BUILD_NUMBER_KEY)
      else NoDelimiter
  }

  /** Goes back over the parts between slashes, as long as the slash before a part is protected. */
  method ParseNameAndVersion(identifier: string, useLatestPolicy: bool) returns (r: Identified)
    ensures r == Parsed(identifier, useLatestPolicy)
  {
    hide LastDelimiter, Unescape, Split, Join, Count;
    if identifier == "" {
      return Identified("", "");
    }
    if '/' !in identifier {
      return if useLatestPolicy then Identified(identifier, LATEST_BUILD_NUMBER_KEY) else NoDelimiter;
    }
    var name, version := "", "";
    var versionsArray: seq<string> := [];
    var identifiers := Split(identifier, '/');
    JoinSplit(identifier, '/');
    assert identifiers[..|identifiers|] == identifiers;
    var i := |identifiers| - 1;
    while i >= 1
      invariant 0 <= i < |identifiers| && name == "" && versionsArray == identifiers[i + 1..]
      invariant LastDelimiter(identifier) == LastDelimiter(Join(identifiers[..i + 1], '/'))
    {
      versionsArray := [identifiers[i]] + versionsArray;
      assert versionsArray == identifiers[i..];
      DelimiterBefore(identifiers, i);
      SuffixProtects(identifiers[i - 1]);
      if !HasSuffix(identifiers[i - 1], [BACKSLASH]) {
        name := Join(identifiers[..i], '/');
        version := Join(versionsArray, '/');
        assert identifier == name + "/" + version && LastDelimiter(identifier) == |name|;
        break;
      }
      i := i - 1;
    }
    if i == 0 {
      NoneInFirst(identifiers);
    } else {
      assert identifier[..|name|] == name && identifier[|name| + 1..] == version;
    }
    if name == "" {
      if !useLatestPolicy {
        return NoDelimiter;
      }
      name, version := identifier, LATEST_BUILD_NUMBER_KEY;
    }
    UnescapeNothing(LATEST_BUILD_NUMBER_KEY);
    return Identified(Unescape(name), Unescape(version));
  }

  // ----- The position of the delimiter -----

  lemma DelimiterSlash(s: string)
    ensures LastDelimiter(s + "/") == if Protects(s) then LastDelimiter(s) else |s|
  {
    assert (s + "/")[..|s|] == s;
  }

  lemma {:induction false} DelimiterText(s: string, t: string)
    requires '/' !in t
    ensures LastDelimiter(s + t) == LastDelimiter(s)
  {
    if t == "" {
      assert s + t == s;
    } else {
      var n := |t| - 1;
      assert (s + t)[..|s + t| - 1] == s + t[..n];
      assert (s + t)[|s + t| - 1] == t[n];
      DelimiterText(s, t[..n]);
    }
  }

  lemma {:induction false} JoinEnd(parts: seq<string>)
    requires parts != []
    ensures Protects(Join(parts, '/')) <==> Protects(parts[|parts| - 1])
  {
    if |parts| > 1 {
      JoinEnd(parts[1..]);
    }
  }

  lemma DelimiterBefore(parts: seq<string>, i: nat)
    requires 1 <= i < |parts| && '/' !in parts[i]
    ensures Join(parts, '/') == Join(parts[..i], '/') + "/" + Join(parts[i..], '/')
    ensures LastDelimiter(Join(parts[..i + 1], '/'))
         == if Protects(parts[i - 1]) then LastDelimiter(Join(parts[..i], '/')) else |Join(parts[..i], '/')|
  {
    hide LastDelimiter, Join, Protects;
    assert parts == parts[..i] + parts[i..];
    JoinConcat(parts[..i], parts[i..], '/');
    assert parts[..i + 1] == parts[..i] + [parts[i]];
    JoinConcat(parts[..i], [parts[i]], '/');
    JoinOne(parts[i], '/');
    var s := Join(parts[..i], '/');
    JoinEnd(parts[..i]);
    DelimiterSlash(s);
    DelimiterText(s + "/", parts[i]);
  }

  lemma NoneInFirst(parts: seq<string>)
    requires parts != [] && '/' !in parts[0]
    ensures LastDelimiter(Join(parts[..1], '/')) == -1
  {
    DelimiterText("", parts[0]);
    assert "" + parts[0] == parts[0];
    assert parts[..1] == [parts[0]];
    JoinOne(parts[0], '/');
  }

  lemma {:induction false} UnescapeNothing(s: string)
    requires '/' !in s
    ensures Unescape(s) == s
  {
    if s != "" {
      UnescapeNothing(s[..|s| - 1]);
      assert s == s[..|s| - 1] + [s[|s| - 1]];
    }
  }

  /** The delimiter is a slash that no backslash precedes, and every later slash is preceded by one. */
  lemma {:induction false} LastDelimiterIsLast(s: string)
    ensures var k := LastDelimiter(s);
            (k >= 0 ==> s[k] == '/' && !Protects(s[..k]))
            && forall j :: k < j < |s| && s[j] == '/' ==> Protects(s[..j])
  {
    if s != "" {
      LastDelimiterIsLast(s[..|s| - 1]);
      assert forall j :: 0 <= j < |s| ==> s[..|s| - 1][..j] == s[..j];
    }
  }

  // ----- Round trip -----

  /** Unescaping an escaped text restores it. */
  lemma {:induction false} UnescapeEscape(s: string, v: string)
    ensures Unescape(s + Escape(v, '/')) == Unescape(s) + v
  {
    hide Unescape;
    if v == "" {
      assert s + Escape(v, '/') == s && Unescape(s) + v == Unescape(s);
    } else {
      var n := |v| - 1;
      var e := Escape(v[..n], '/');
      UnescapeEscape(s, v[..n]);
      assert Unescape(s) + v == Unescape(s) + v[..n] + [v[n]];
      if v[n] == '/' {
        assert s + Escape(v, '/') == s + e + [BACKSLASH, '/'];
        UnescapeStep(s + e, '/');
      } else {
        assert s + Escape(v, '/') == s + e + [v[n]];
        UnescapeStep(s + e, v[n]);
      }
    }
  }

  lemma UnescapeStep(s: string, c: char)
    ensures c != '/' || !Protects(s) ==> Unescape(s + [c]) == Unescape(s) + [c]
    ensures Unescape(s + [BACKSLASH, '/']) == Unescape(s) + "/"
  {
    assert (s + [c])[..|s|] == s;
    assert (s + [BACKSLASH, '/'])[..|s|] == s;
  }

  /** No slash of an escaped text is a delimiter. */
  lemma {:induction false} NoDelimiterInEscaped(s: string, v: string)
    ensures LastDelimiter(s + Escape(v, '/')) == LastDelimiter(s)
  {
    hide LastDelimiter, Escape;
    if v == "" {
      NothingEscaped('/');
      assert s + Escape(v, '/') == s;
    } else {
      var n := |v| - 1;
      var e := Escape(v[..n], '/');
      NoDelimiterInEscaped(s, v[..n]);
      assert v == v[..n] + [v[n]];
      EscapeStep(v[..n], v[n], '/');
      if v[n] == '/' {
        assert s + Escape(v, '/') == s + e + [BACKSLASH] + "/";
        DelimiterSlash(s + e + [BACKSLASH]);
        DelimiterText(s + e, [BACKSLASH]);
      } else {
        assert s + Escape(v, '/') == s + e + [v[n]];
        DelimiterText(s + e, [v[n]]);
      }
    }
  }

  lemma EscapeKeepsEnd(v: string)
    ensures Protects(Escape(v, '/')) == Protects(v) && (Escape(v, '/') == "" <==> v == "")
  {
  }

  function Join2(name: string, version: string): string {
    Escape(name, '/') + "/" + Escape(version, '/')
  }

  lemma SplitJoined(name: string, version: string)
    ensures '/' in Join2(name, version)
    ensures LastDelimiter(Join2(name, version)) == if Protects(name) then -1 else |Escape(name, '/')|
    ensures Unescape(Escape(name, '/')) == name && Unescape(Escape(version, '/')) == version
  {
    hide Escape, Unescape, LastDelimiter, Protects;
    var e := Escape(name, '/');
    NoDelimiterInEscaped(e + "/", version);
    DelimiterSlash(e);
    EscapeKeepsEnd(name);
    NoDelimiterInEscaped("", name);
    assert "" + e == e && "" + Escape(version, '/') == Escape(version, '/');
    NothingUnescaped();
    UnescapeEscape("", name);
    UnescapeEscape("", version);
    assert "" + name == name && "" + version == version;
    assert Join2(name, version)[|e|] == '/';
  }

  lemma NothingUnescaped()
    ensures Unescape("") == "" && LastDelimiter("") == -1 && Escape("", '/') == ""
  {
  }

  /** Without a delimiter in the way of the code, the name it reports is not the name. */
  lemma WrongName(name: string, version: string)
    requires name == "" || Protects(name)
    ensures Unescape(Join2(name, version)) != name
  {
    hide Escape, Unescape;
    var e := Escape(name, '/');
    UnescapeEscape(e + "/", version);
    NothingUnescaped();
    if name == "" {
      assert e + "/" == "/";
      UnescapeStep("", '/');
      assert "" + "/" == "/";
    } else {
      var n := |name| - 1;
      EscapeBackslash(name);
      UnescapeStep(Escape(name[..n], '/'), '/');
      assert e + "/" == Escape(name[..n], '/') + [BACKSLASH, '/'];
      assert Escape(name[..n], '/') == "" + Escape(name[..n], '/');
      UnescapeEscape("", name[..n]);
      assert "" + name[..n] == name[..n];
      assert (name[..n] + "/" + version)[n] == '/';
    }
  }

  lemma EscapeBackslash(name: string)
    requires Protects(name)
    ensures Escape(name, '/') == Escape(name[..|name| - 1], '/') + [BACKSLASH]
  {
  }

  /** With either policy: the parser recovers the name and the version from the identifier that escapes their slashes
      if and only if the name is not empty and does not end in a backslash. */
  lemma IdentifierRoundTrip(name: string, version: string, useLatestPolicy: bool)
    ensures Parsed(Join2(name, version), useLatestPolicy) == Identified(name, version)
            <==> name != "" && !Protects(name)
  {
    hide Escape, Unescape, LastDelimiter, Protects;
    var s, e := Join2(name, version), Escape(name, '/');
    SplitJoined(name, version);
    EscapeKeepsEnd(name);
    if name == "" || Protects(name) {
      WrongName(name, version);
    } else {
      assert s[..|e|] == e && s[|e| + 1..] == Escape(version, '/');
    }
  }

  /** An escaped name alone, without a version: the latest policy adds the version LATEST, and without it there is an
      error. */
  lemma NameAlone(name: string)
    requires name != ""
    ensures Parsed(Escape(name, '/'), true) == Identified(name, "LATEST")
    ensures Parsed(Escape(name, '/'), false) == NoDelimiter
  {
    hide Escape, Unescape, LastDelimiter;
    var e := Escape(name, '/');
    EscapeKeepsEnd(name);
    NoDelimiterInEscaped("", name);
    UnescapeEscape("", name);
    NothingUnescaped();
    assert "" + e == e && "" + name == name;
    if '/' !in e {
      UnescapeNothing(e);
    }
  }
}
