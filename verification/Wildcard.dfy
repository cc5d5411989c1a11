/** What a wildcard pattern means: `*` stands for any string, slashes included,
    and every other character stands for itself. */
module Wildcard {

  predicate Match(p: string, s: string)
    decreases |p| + |s|
  {
    if p == "" then s == ""
    else if p[0] == '*' then Match(p[1..], s) || (s != "" && Match(p, s[1..]))
    else s != "" && s[0] == p[0] && Match(p[1..], s[1..])
  }

  lemma {:induction false} MatchAll(s: string)
    ensures Match("*", s)
  {
    if s != "" {
      MatchAll(s[1..]);
    }
  }

  /** Without a star a pattern stands for itself only. */
  lemma {:induction false} MatchLiteral(p: string, s: string)
    requires '*' !in p
    ensures Match(p, s) <==> p == s
  {
    if p != "" {
      assert p == [p[0]] + p[1..];
      if s != "" {
        assert s == [s[0]] + s[1..];
        MatchLiteral(p[1..], s[1..]);
      }
    }
  }

  lemma {:induction false} MatchConcat(p: string, s: string, q: string, t: string)
    requires Match(p, s) && Match(q, t)
    ensures Match(p + q, s + t)
    decreases |p| + |s|
  {
    if p == "" {
      assert p + q == q && s + t == t;
    } else {
      assert (p + q)[1..] == p[1..] + q;
      if s != "" {
        assert (s + t)[1..] == s[1..] + t;
      }
      if p[0] == '*' && Match(p[1..], s) {
        MatchConcat(p[1..], s, q, t);
      } else if p[0] == '*' {
        MatchConcat(p, s[1..], q, t);
      } else {
        MatchConcat(p[1..], s[1..], q, t);
      }
    }
  }

  lemma {:induction false} MatchSplit(p: string, q: string, s: string) returns (i: nat)
    requires Match(p + q, s)
    ensures i <= |s| && Match(p, s[..i]) && Match(q, s[i..])
    decreases |p| + |s|
  {
    if p == "" {
      assert p + q == q && s[0..] == s;
      return 0;
    }
    assert (p + q)[1..] == p[1..] + q;
    if p[0] == '*' && Match(p[1..] + q, s) {
      i := MatchSplit(p[1..], q, s);
    } else {
      if p[0] == '*' {
        i := MatchSplit(p, q, s[1..]);
      } else {
        i := MatchSplit(p[1..], q, s[1..]);
      }
      assert s[..i + 1][1..] == s[1..][..i];
      i := i + 1;
    }
  }

  /** A star shared by two patterns swallows anything between the two matched strings. */
  lemma StarBridge(p: string, x: string, q: string, y: string, gap: string)
    requires Match(p + "*", x) && Match("*" + q, y)
    ensures Match(p + "*" + q, x + gap + y)
  {
    var i := MatchSplit(p, "*", x);
    var j := MatchSplit("*", q, y);
    var swallowed := x[i..] + gap + y[..j];
    MatchAll(swallowed);
    MatchConcat(p, x[..i], "*", swallowed);
    MatchConcat(p + "*", x[..i] + swallowed, q, y[j..]);
    assert x[..i] + swallowed + y[j..] == x + gap + y;
  }

  /** How pattern position `k` accounts for the slash between `x` and `y`: literally, or inside a star. */
  predicate SlashAt(p: string, k: nat, x: string, y: string) {
    k < |p| &&
    ((p[k] == '/' && Match(p[..k], x) && Match(p[k + 1..], y)) ||
     (p[k] == '*' && Match(p[..k + 1], x) && Match(p[k..], y)))
  }

  lemma {:induction false} FindSlash(p: string, x: string, y: string) returns (k: nat)
    requires Match(p, x + "/" + y)
    ensures SlashAt(p, k, x, y)
    decreases |p| + |x|
  {
    var s := x + "/" + y;
    if x != "" {
      assert s[1..] == x[1..] + "/" + y;
    } else {
      assert s[1..] == y;
    }
    if p[0] == '*' && Match(p[1..], s) {
      var j := FindSlash(p[1..], x, y);
      k := j + 1;
      assert p[..k][1..] == p[1..][..j] && p[..k + 1][1..] == p[1..][..j + 1];
      assert p[k..] == p[1..][j..] && p[k + 1..] == p[1..][j + 1..];
    } else if p[0] == '*' {
      if x == "" {
        k := 0;
        MatchAll("");
        assert p[..1] == "*";
      } else {
        k := FindSlash(p, x[1..], y);
        assert p[k] == '/' ==> p[..k][0] == '*';
        assert p[..k + 1][0] == '*';
      }
    } else if x == "" {
      k := 0;
    } else {
      var j := FindSlash(p[1..], x[1..], y);
      k := j + 1;
      assert p[..k][1..] == p[1..][..j] && p[..k + 1][1..] == p[1..][..j + 1];
      assert p[k..] == p[1..][j..] && p[k + 1..] == p[1..][j + 1..];
    }
  }

  /** A pattern matches two strings joined by a slash exactly when one of its positions,
      a literal slash or a star, accounts for that slash. */
  lemma MatchAcrossSlash(p: string, x: string, y: string)
    ensures Match(p, x + "/" + y) <==> exists k: nat :: SlashAt(p, k, x, y)
  {
    hide Match, SlashAt;
    if Match(p, x + "/" + y) {
      var k := FindSlash(p, x, y);
    }
    forall k: nat | SlashAt(p, k, x, y)
      ensures Match(p, x + "/" + y)
    {
      SlashMatches(p, k, x, y);
    }
  }

  lemma SlashMatches(p: string, k: nat, x: string, y: string)
    requires SlashAt(p, k, x, y)
    ensures Match(p, x + "/" + y)
  {
    hide Match;
    if p[k] == '/' {
      MatchLiteral("/", "/");
      MatchConcat(p[..k], x, "/", "/");
      MatchConcat(p[..k] + "/", x + "/", p[k + 1..], y);
      assert p == p[..k] + "/" + p[k + 1..];
    } else {
      assert p[..k + 1] == p[..k] + "*" && p[k..] == "*" + p[k + 1..];
      StarBridge(p[..k], x, p[k + 1..], y, "/");
      assert p == p[..k] + "*" + p[k + 1..];
    }
  }

  /** Every literal character of a pattern occurs in what it matches. */
  lemma {:induction false} MatchKeepsChar(p: string, s: string, c: char)
    requires Match(p, s) && c in p && c != '*'
    ensures c in s
    decreases |p| + |s|
  {
    if p[0] == '*' && !Match(p[1..], s) {
      MatchKeepsChar(p, s[1..], c);
    } else if p[0] == '*' {
      MatchKeepsChar(p[1..], s, c);
    } else if p[0] != c {
      MatchKeepsChar(p[1..], s[1..], c);
    }
  }
}
