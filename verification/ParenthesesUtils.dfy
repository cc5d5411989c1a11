/** Parentheses of a pattern and the placeholders that refer to them (utils/parenthesesutils.go). */
module ParenthesesUtils {

  datatype Parentheses = Parentheses(openIndex: int, closeIndex: int)

  // ----- Reference: matching with a stack -----

  /** The positions of the parentheses that are still open at the end of `s`, the innermost last. */
  function Stack(s: string): (st: seq<nat>)
    ensures forall k :: 0 <= k < |st| ==> st[k] < |s| && s[st[k]] == '('
    ensures forall j, k :: 0 <= j < k < |st| ==> st[j] < st[k]
  {
    if s == "" then []
    else
      var n := |s| - 1;
      var st := Stack(s[..n]);
      if s[n] == '(' then st + [n]
      else if s[n] == ')' && st != [] then st[..|st| - 1]
      else st
  }

  /** The parenthesis at `c` closes the one at `o`. */
  predicate Pair(s: string, o: int, c: int) {
    0 <= o < c < |s| && s[c] == ')' && var st := Stack(s[..c]); st != [] && st[|st| - 1] == o
  }

  // ----- Reference: balanced interiors -----

  function Depth(s: string): int {
    if s == "" then 0
    else Depth(s[..|s| - 1]) + match s[|s| - 1] case '(' => 1 case ')' => -1 case _ => 0
  }

  ghost predicate NeverBelow(s: string) {
    forall k :: 0 <= k <= |s| ==> Depth(s[..k]) >= 0
  }

  ghost predicate Balanced(s: string) {
    Depth(s) == 0 && NeverBelow(s)
  }

  ghost predicate BalancedPair(s: string, o: int, c: int) {
    0 <= o < c < |s| && s[o] == '(' && s[c] == ')' && Balanced(s[o + 1..c])
  }

  /** Between an open parenthesis and the end, the depth counts the open parentheses after it, and was never
      negative. */
  lemma {:induction false} OpenDepth(s: string, k: nat)
    requires k < |Stack(s)|
    ensures Depth(s[Stack(s)[k] + 1..]) == |Stack(s)| - 1 - k && NeverBelow(s[Stack(s)[k] + 1..])
  {
    hide Stack, Depth;
    StackStep(s);
    var n := |s| - 1;
    var o := Stack(s)[k];
    if o == n {
      assert s[n + 1..] == "";
      DepthEmpty();
    } else {
      OpenDepth(s[..n], k);
      assert s[o + 1..] == s[..n][o + 1..] + [s[n]];
      NeverBelowStep(s[..n][o + 1..], s[n]);
    }
  }

  lemma DepthEmpty()
    ensures Depth("") == 0 && NeverBelow("")
  {
  }

  lemma StackStep(s: string)
    ensures s == "" ==> Stack(s) == []
    ensures s != "" ==>
              var st, c := Stack(s[..|s| - 1]), s[|s| - 1];
              Stack(s) == if c == '(' then st + [|s| - 1] else if c == ')' && st != [] then st[..|st| - 1] else st
  {
  }

  lemma NeverBelowStep(t: string, c: char)
    requires NeverBelow(t)
    ensures Depth(t + [c]) == Depth(t) + match c case '(' => 1 case ')' => -1 case _ => 0
    ensures Depth(t + [c]) >= 0 ==> NeverBelow(t + [c])
  {
    assert (t + [c])[..|t|] == t;
    assert (t + [c])[..|t| + 1] == t + [c];
    assert forall k :: 0 <= k <= |t| ==> (t + [c])[..k] == t[..k];
  }

  lemma NoDepthBelow(t: string, k: nat)
    requires NeverBelow(t) && k < |t| && t[k] == ')'
    ensures Depth(t[..k]) > 0
  {
    assert t[..k + 1][..k] == t[..k];
    assert Depth(t[..k + 1]) >= 0;
  }

  /** An open parenthesis has no closing one in the string. */
  lemma OpenHasNoPair(s: string, k: nat, c: int)
    requires k < |Stack(s)|
    ensures !BalancedPair(s, Stack(s)[k], c)
  {
    OpenDepth(s, k);
    var o := Stack(s)[k];
    if o < c < |s| && s[c] == ')' {
      NoDepthBelow(s[o + 1..], c - o - 1);
      assert s[o + 1..][..c - o - 1] == s[o + 1..c];
    }
  }

  /** At most one parenthesis closes a given one with a balanced interior. */
  lemma BalancedPairUnique(s: string, o: int, c: int, d: int)
    requires BalancedPair(s, o, c) && BalancedPair(s, o, d)
    ensures c == d
  {
    if c < d {
      DepthBeforeClose(s, o, c, d);
    } else if d < c {
      DepthBeforeClose(s, o, d, c);
    }
  }

  lemma DepthBeforeClose(s: string, o: int, c: int, d: int)
    requires BalancedPair(s, o, d) && o < c < d && s[c] == ')'
    ensures Depth(s[o + 1..c]) > 0
  {
    NoDepthBelow(s[o + 1..d], c - o - 1);
    assert s[o + 1..d][..c - o - 1] == s[o + 1..c];
  }

  lemma PairIsBalanced(s: string, o: int, c: int)
    requires Pair(s, o, c)
    ensures BalancedPair(s, o, c)
  {
    OpenDepth(s[..c], |Stack(s[..c])| - 1);
    assert s[..c][o + 1..] == s[o + 1..c];
  }

  /** An opening parenthesis is still open or was closed. */
  lemma {:induction false} OpenOrClosed(s: string, o: nat)
    requires o < |s| && s[o] == '('
    ensures o in Stack(s) || exists c :: Pair(s, o, c)
  {
    hide Stack;
    StackStep(s);
    var n := |s| - 1;
    if o < n {
      var r := s[..n];
      OpenOrClosed(r, o);
      if c :| Pair(r, o, c) {
        assert s[..c] == r[..c];
        assert Pair(s, o, c);
      } else if o !in Stack(s) {
        assert Pair(s, o, n);
      }
    }
  }

  /** The stack matches exactly the parentheses with a balanced interior. */
  lemma PairIffBalanced(s: string, o: int, c: int)
    ensures Pair(s, o, c) <==> BalancedPair(s, o, c)
  {
    hide Pair, Stack, Balanced;
    if Pair(s, o, c) {
      PairIsBalanced(s, o, c);
    }
    if BalancedPair(s, o, c) {
      OpenOrClosed(s, o);
      if d :| Pair(s, o, d) {
        PairIsBalanced(s, o, d);
        BalancedPairUnique(s, o, c, d);
      } else {
        var k :| 0 <= k < |Stack(s)| && Stack(s)[k] == o;
        OpenHasNoPair(s, k, c);
      }
    }
  }

  /** Two pairs are equal, disjoint or nested. */
  lemma PairsNest(s: string, o: int, c: int, p: int, d: int)
    requires Pair(s, o, c) && Pair(s, p, d) && o <= p
    ensures (o == p && c == d) || c < p || (o < p && d < c)
  {
    hide Pair, Stack, Balanced;
    PairIffBalanced(s, o, c);
    PairIffBalanced(s, p, d);
    if o == p {
      BalancedPairUnique(s, o, c, d);
    } else if p < c {
      assert c != p;
      PairInside(s, o, c, p, d);
    }
  }

  /** A parenthesis that opens inside a balanced interior is closed there. */
  lemma PairInside(s: string, o: int, c: int, p: int, d: int)
    requires BalancedPair(s, o, c) && BalancedPair(s, p, d) && o < p < c
    ensures d < c
  {
    DepthAfterOpen(s, o, c, p);
    if d >= c {
      DepthUpTo(s, p, d, c);
    }
  }

  lemma DepthUpTo(s: string, p: int, d: int, c: int)
    requires BalancedPair(s, p, d) && p < c <= d
    ensures Depth(s[p + 1..c]) >= 0
  {
    assert s[p + 1..d][..c - p - 1] == s[p + 1..c];
  }

  lemma DepthAfterOpen(s: string, o: int, c: int, p: int)
    requires BalancedPair(s, o, c) && o < p < c && s[p] == '('
    ensures Depth(s[p + 1..c]) < 0
  {
    var t := s[o + 1..c];
    var before := t[..p - o - 1];
    assert t == (before + ['(']) + s[p + 1..c];
    DepthConcat(before + ['('], s[p + 1..c]);
    assert Depth(before) >= 0;
    assert (before + ['('])[..|before|] == before;
  }

  lemma {:induction false} DepthConcat(a: string, b: string)
    ensures Depth(a + b) == Depth(a) + Depth(b)
  {
    if b == "" {
      assert a + b == a;
    } else {
      var n := |b| - 1;
      assert (a + b)[..|a + b| - 1] == a + b[..n];
      DepthConcat(a, b[..n]);
    }
  }

  // ----- The scan of the code -----

  ghost predicate Ascending(list: seq<Parentheses>) {
    forall i, j :: 0 <= i < j < |list| ==> list[i].openIndex < list[j].openIndex
  }

  /** The positions of the entries that are not closed. */
  function Unclosed(list: seq<Parentheses>): seq<int> {
    if list == [] then []
    else
      var last := list[|list| - 1];
      Unclosed(list[..|list| - 1]) + if last.closeIndex == 0 then [last.openIndex] else []
  }

  /** The list after the characters of `s`: its open entries are the stack, its closed ones the pairs. */
  ghost predicate Scanned(s: string, list: seq<Parentheses>) {
    && Ascending(list)
    && (forall k :: 0 <= k < |list| ==> 0 <= list[k].openIndex < |s|)
    && Unclosed(list) == Stack(s)
    && (forall p: Parentheses :: p in list && p.closeIndex != 0 ==> Pair(s, p.openIndex, p.closeIndex))
    && (forall o, c :: Pair(s, o, c) ==> Parentheses(o, c) in list)
  }

  lemma {:induction false} UnclosedConcat(a: seq<Parentheses>, b: seq<Parentheses>)
    ensures Unclosed(a + b) == Unclosed(a) + Unclosed(b)
  {
    if b == [] {
      assert a + b == a;
    } else {
      var n := |b| - 1;
      assert (a + b)[..|a + b| - 1] == a + b[..n];
      UnclosedConcat(a, b[..n]);
    }
  }

  lemma {:induction false} AllClosed(list: seq<Parentheses>)
    requires forall k :: 0 <= k < |list| ==> list[k].closeIndex != 0
    ensures Unclosed(list) == []
  {
    if list != [] {
      AllClosed(list[..|list| - 1]);
    }
  }

  lemma PairGrows(s: string, ch: char, o: int, c: int)
    ensures Pair(s, o, c) ==> Pair(s + [ch], o, c)
    ensures Pair(s + [ch], o, c) && c < |s| ==> Pair(s, o, c)
  {
    if 0 <= c < |s| {
      assert (s + [ch])[..c] == s[..c];
    }
  }

  lemma ScanOpen(s: string, list: seq<Parentheses>)
    requires Scanned(s, list)
    ensures Scanned(s + ['('], list + [Parentheses(|s|, 0)])
  {
    hide Stack, Unclosed, Pair;
    StackAfterOpen(s, list);
    forall o, c
      ensures Pair(s + ['('], o, c) <==> Pair(s, o, c)
    {
      PairGrows(s, '(', o, c);
      NoPairEndsAtOpen(s, o, c);
    }
  }

  lemma StackAfterOpen(s: string, list: seq<Parentheses>)
    requires Unclosed(list) == Stack(s)
    ensures Unclosed(list + [Parentheses(|s|, 0)]) == Stack(s + ['('])
  {
    hide Stack, Unclosed;
    StackStep(s + ['(']);
    assert (s + ['('])[..|s|] == s;
    UnclosedConcat(list, [Parentheses(|s|, 0)]);
    UnclosedOne(Parentheses(|s|, 0));
  }

  lemma NoPairEndsAtOpen(s: string, o: int, c: int)
    ensures Pair(s + ['('], o, c) ==> c < |s|
    ensures Pair(s, o, c) ==> c < |s|
  {
    hide Stack;
  }

  lemma UnclosedOne(p: Parentheses)
    ensures Unclosed([p]) == if p.closeIndex == 0 then [p.openIndex] else []
  {
    assert [p][..0] == [];
  }

  lemma ScanOther(s: string, ch: char, list: seq<Parentheses>)
    requires Scanned(s, list) && ch != '('
    requires ch == ')' ==> forall k :: 0 <= k < |list| ==> list[k].closeIndex != 0
    ensures Scanned(s + [ch], list)
  {
    hide Stack, Unclosed;
    var t := s + [ch];
    StackStep(t);
    assert t[..|s|] == s;
    if ch == ')' {
      AllClosed(list);
    }
    forall o, c
      ensures Pair(t, o, c) <==> Pair(s, o, c)
    {
      PairGrows(s, ch, o, c);
    }
  }

  /** Closing the last open entry. */
  lemma ScanClose(s: string, list: seq<Parentheses>, j: nat)
    requires Scanned(s, list) && j < |list| && list[j].closeIndex == 0
    requires forall k :: j < k < |list| ==> list[k].closeIndex != 0
    requires s != ""
    ensures Scanned(s + [')'], list[j := list[j].(closeIndex := |s|)])
  {
    hide Stack, Unclosed, Pair;
    StackAfterClose(s, list, j);
    PairsAfterClose(s, list, j);
    ListKeepsPairs(s, s + [')'], list, j);
    SameOpens(list, j, |s|);
  }

  lemma StackAfterClose(s: string, list: seq<Parentheses>, j: nat)
    requires Unclosed(list) == Stack(s) && j < |list| && list[j].closeIndex == 0 && s != ""
    requires forall k :: j < k < |list| ==> list[k].closeIndex != 0
    ensures Unclosed(list[j := list[j].(closeIndex := |s|)]) == Stack(s + [')'])
    ensures Stack(s) != [] && Stack(s)[|Stack(s)| - 1] == list[j].openIndex
  {
    hide Stack, Unclosed;
    UnclosedClose(list, j, |s|);
    StackStep(s + [')']);
    assert (s + [')'])[..|s|] == s;
  }

  lemma PairsAfterClose(s: string, list: seq<Parentheses>, j: nat)
    requires Unclosed(list) == Stack(s) && j < |list| && list[j].closeIndex == 0 && s != ""
    requires forall k :: j < k < |list| ==> list[k].closeIndex != 0
    ensures forall p, c :: Pair(s + [')'], p, c) <==> Pair(s, p, c) || (p == list[j].openIndex && c == |s|)
  {
    hide Stack, Unclosed, Pair;
    StackAfterClose(s, list, j);
    forall p, c
      ensures Pair(s + [')'], p, c) <==> Pair(s, p, c) || (p == list[j].openIndex && c == |s|)
    {
      PairGrows(s, ')', p, c);
      TopPair(s, p, c);
    }
  }

  lemma SameOpens(list: seq<Parentheses>, j: nat, c: int)
    requires Ascending(list) && j < |list|
    ensures var closed := list[j := list[j].(closeIndex := c)];
            Ascending(closed) && forall k :: 0 <= k < |closed| ==> closed[k].openIndex == list[k].openIndex
  {
  }

  lemma TopPair(s: string, o: int, c: int)
    requires Stack(s) != []
    ensures c >= |s| ==> (Pair(s + [')'], o, c) <==> c == |s| && o == Stack(s)[|Stack(s)| - 1])
    ensures Pair(s, o, c) ==> c < |s|
  {
    assert (s + [')'])[..|s|] == s;
  }

  /** Closing the last open entry drops it from the open positions. */
  lemma UnclosedClose(list: seq<Parentheses>, j: nat, c: int)
    requires j < |list| && list[j].closeIndex == 0 && c != 0
    requires forall k :: j < k < |list| ==> list[k].closeIndex != 0
    ensures Unclosed(list) == Unclosed(list[j := list[j].(closeIndex := c)]) + [list[j].openIndex]
  {
    hide Unclosed;
    var a, p, b := list[..j], list[j], list[j + 1..];
    var p' := p.(closeIndex := c);
    assert list == a + [p] + b;
    assert list[j := p'] == a + [p'] + b;
    AllClosed(b);
    UnclosedParts(a, p, b);
    UnclosedParts(a, p', b);
    assert Unclosed(a) + [] == Unclosed(a);
  }

  lemma UnclosedParts(a: seq<Parentheses>, p: Parentheses, b: seq<Parentheses>)
    ensures Unclosed(a + [p] + b) == Unclosed(a) + (if p.closeIndex == 0 then [p.openIndex] else []) + Unclosed(b)
  {
    hide Unclosed;
    UnclosedConcat(a + [p], b);
    UnclosedConcat(a, [p]);
    UnclosedOne(p);
  }

  lemma ListKeepsPairs(s: string, t: string, list: seq<Parentheses>, j: nat)
    requires Scanned(s, list) && j < |list| && list[j].closeIndex == 0 && s != ""
    requires forall p, c :: Pair(t, p, c) <==> Pair(s, p, c) || (p == list[j].openIndex && c == |s|)
    ensures var list' := list[j := list[j].(closeIndex := |s|)];
            (forall p: Parentheses :: p in list' && p.closeIndex != 0 ==> Pair(t, p.openIndex, p.closeIndex))
            && (forall o, c :: Pair(t, o, c) ==> Parentheses(o, c) in list')
  {
    hide Stack, Unclosed;
    var list' := list[j := list[j].(closeIndex := |s|)];
    assert list'[j] == Parentheses(list[j].openIndex, |s|);
    forall o, c | Pair(s, o, c)
      ensures Parentheses(o, c) in list'
    {
      var k :| 0 <= k < |list| && list[k] == Parentheses(o, c);
      assert list'[k] == Parentheses(o, c);
    }
  }


  // ----- All pairs, in the order of their open positions -----

  ghost function PairsBefore(s: string, n: nat): seq<Parentheses> {
    if n == 0 then []
    else PairsBefore(s, n - 1) + PairAt(s, n - 1)
  }

  ghost function PairAt(s: string, o: nat): seq<Parentheses> {
    if exists c :: Pair(s, o, c) then var c :| Pair(s, o, c); [Parentheses(o, c)] else []
  }

  lemma PairAtUnique(s: string, o: nat)
    ensures forall c :: Pair(s, o, c) ==> PairAt(s, o) == [Parentheses(o, c)]
    ensures forall p: Parentheses :: p in PairAt(s, o) <==> p.openIndex == o && Pair(s, o, p.closeIndex)
  {
    hide Pair, BalancedPair;
    forall c, d | Pair(s, o, c) && Pair(s, o, d)
      ensures c == d
    {
      PairIffBalanced(s, o, c);
      PairIffBalanced(s, o, d);
      BalancedPairUnique(s, o, c, d);
    }
  }

  ghost function AllParentheses(s: string): seq<Parentheses> {
    PairsBefore(s, |s|)
  }

  lemma {:induction false} PairsBeforeExact(s: string, n: nat)
    ensures Ascending(PairsBefore(s, n))
    ensures forall p: Parentheses :: p in PairsBefore(s, n) <==> p.openIndex < n && Pair(s, p.openIndex, p.closeIndex)
  {
    hide Pair;
    if n > 0 {
      PairsBeforeExact(s, n - 1);
      PairAtUnique(s, n - 1);
    } else {
      PairIsInside(s);
    }
  }

  lemma PairIsInside(s: string)
    ensures forall o, c :: Pair(s, o, c) ==> 0 <= o < c < |s| && s[o] == '('
  {
  }

  /** The list holds exactly the pairs with a balanced interior, ordered by their open positions. */
  lemma AllParenthesesExact(s: string)
    ensures Ascending(AllParentheses(s))
    ensures forall o, c :: Parentheses(o, c) in AllParentheses(s) <==> BalancedPair(s, o, c)
  {
    hide Pair, BalancedPair;
    PairsBeforeExact(s, |s|);
    PairIsInside(s);
    forall o, c
      ensures Parentheses(o, c) in AllParentheses(s) <==> BalancedPair(s, o, c)
    {
      PairIffBalanced(s, o, c);
    }
  }

  lemma {:induction false} AscendingUnique(a: seq<Parentheses>, b: seq<Parentheses>)
    requires Ascending(a) && Ascending(b) && forall p :: p in a <==> p in b
    ensures a == b
  {
    hide Ascending;
    assert a != [] ==> a[|a| - 1] in a;
    assert b != [] ==> b[|b| - 1] in b;
    if a != [] {
      var n, m := |a| - 1, |b| - 1;
      AtMostLast(a, b[m]);
      AtMostLast(b, a[n]);
      WithoutLast(a);
      WithoutLast(b);
      AscendingUnique(a[..n], b[..m]);
    }
  }

  lemma AtMostLast(a: seq<Parentheses>, p: Parentheses)
    requires Ascending(a) && a != []
    ensures p in a ==> p == a[|a| - 1] || p.openIndex < a[|a| - 1].openIndex
  {
  }

  lemma WithoutLast(a: seq<Parentheses>)
    requires Ascending(a) && a != []
    ensures var n := |a| - 1;
            Ascending(a[..n]) && a == a[..n] + [a[n]] && forall p :: p in a[..n] <==> p in a && p != a[n]
  {
    assert a == a[..|a| - 1] + [a[|a| - 1]];
  }

  method GetAllParentheses(pattern: string) returns (temp: seq<Parentheses>)
    ensures temp == AllParentheses(pattern)
  {
    hide Scanned, AllParentheses;
    var parentheses := ScanParentheses(pattern);
    temp := [];
    for i := 0 to |parentheses|
      invariant Ascending(parentheses) && Ascending(temp)
      invariant forall p :: p in temp <==> p in parentheses[..i] && p.closeIndex != 0
    {
      assert parentheses[..i + 1] == parentheses[..i] + [parentheses[i]];
      if parentheses[i].closeIndex != 0 {
        temp := temp + [parentheses[i]];
      }
    }
    assert parentheses[..|parentheses|] == parentheses;
    ScannedIsAll(pattern, parentheses, temp);
  }

  lemma ScannedIsAll(pattern: string, parentheses: seq<Parentheses>, temp: seq<Parentheses>)
    requires Scanned(pattern, parentheses) && Ascending(temp)
    requires forall p :: p in temp <==> p in parentheses && p.closeIndex != 0
    ensures temp == AllParentheses(pattern)
  {
    hide Pair, Stack;
    PairsBeforeExact(pattern, |pattern|);
    PairIsInside(pattern);
    AscendingUnique(temp, AllParentheses(pattern));
  }

  /** The first loop: a closing parenthesis closes the last open entry, if there is one. */
  method ScanParentheses(pattern: string) returns (parentheses: seq<Parentheses>)
    ensures Scanned(pattern, parentheses) && Ascending(parentheses)
  {
    hide Scanned, Ascending;
    parentheses := [];
    NothingScanned();
    for i := 0 to |pattern|
      invariant i == 0 ==> parentheses == []
      invariant Scanned(pattern[..i], parentheses)
    {
      assert pattern[..i + 1] == pattern[..i] + [pattern[i]];
      if pattern[i] == '(' {
        ScanOpen(pattern[..i], parentheses);
        parentheses := parentheses + [Parentheses(i, 0)];
      } else if pattern[i] == ')' {
        var j := |parentheses| - 1;
        while j >= 0 && parentheses[j].closeIndex != 0
          invariant -1 <= j < |parentheses|
          invariant forall k :: j < k < |parentheses| ==> parentheses[k].closeIndex != 0
        {
          j := j - 1;
        }
        if j >= 0 {
          ScanClose(pattern[..i], parentheses, j);
          parentheses := parentheses[j := parentheses[j].(closeIndex := i)];
        } else {
          ScanOther(pattern[..i], ')', parentheses);
        }
      } else {
        ScanOther(pattern[..i], pattern[i], parentheses);
      }
    }
    assert pattern[..|pattern|] == pattern;
    ScannedAscending(pattern, parentheses);
  }

  lemma ScannedAscending(s: string, list: seq<Parentheses>)
    requires Scanned(s, list)
    ensures Ascending(list)
  {
  }

  lemma NothingScanned()
    ensures Scanned("", [])
  {
  }
}
