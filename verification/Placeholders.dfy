/** The placeholders of a target select parentheses of a pattern, which are then removed, while the others are escaped
    (utils/parenthesesutils.go). Positions count characters; in Go they are byte offsets. */
module Placeholders {
  import opened Wrappers
  import opened Text
  import opened ParenthesesUtils

  const MAX_INT: int := 0x7FFF_FFFF_FFFF_FFFF
  const MIN_INT: int := -0x8000_0000_0000_0000

  // ----- The values of the placeholders -----

  /** The texts between braces, as the regular expression {([^}]*)} finds them. */
  function Submatches(target: string): seq<string>
    decreases |target|
  {
    var a := Index(target, '{');
    if a < 0 then []
    else
      var rest := target[a + 1..];
      var b := Index(rest, '}');
      if b < 0 then [] else [rest[..b]] + Submatches(rest[b + 1..])
  }

  function DigitsValue(digits: string): (r: Option<nat>) {
    if digits == "" then Some(0)
    else
      var c := digits[|digits| - 1];
      var high := DigitsValue(digits[..|digits| - 1]);
      if high.Some? && '0' <= c <= '9' then Some(10 * high.value + (c - '0') as int) else None
  }

  /** strconv.Atoi for 64-bit integers. */
  function Atoi(s: string): Option<int> {
    var sign := if s != "" && (s[0] == '-' || s[0] == '+') then 1 else 0;
    var v := DigitsValue(s[sign..]);
    if |s| == sign || v.None? then None
    else
      var signed: int := if s[0] == '-' then 0 - v.value else v.value;
      if MIN_INT <= signed <= MAX_INT then Some(signed) else None
  }

  function NumbersOf(texts: seq<string>): seq<int> {
    if texts == [] then []
    else
      var n := Atoi(texts[|texts| - 1]);
      NumbersOf(texts[..|texts| - 1]) + if n.Some? then [n.value] else []
  }

  /** The numbers in the target's placeholders. */
  function Values(target: string): set<int> {
    set v | v in NumbersOf(Submatches(target))
  }

  predicate Increasing(s: seq<int>) {
    forall i, j :: 0 <= i < j < |s| ==> s[i] < s[j]
  }

  predicate NonDecreasing(s: seq<int>) {
    forall i, j :: 0 <= i < j < |s| ==> s[i] <= s[j]
  }

  ghost predicate SameElements(a: seq<int>, b: seq<int>) {
    forall v :: v in a <==> v in b
  }

  /** sort.Ints */
  function SortInts(s: seq<int>): (r: seq<int>)
    ensures NonDecreasing(r) && |r| == |s| && SameElements(r, s)
  {
    if s == [] then []
    else
      var n := |s| - 1;
      var r := SortInts(s[..n]);
      assert s == s[..n] + [s[n]];
      Insert(r, s[n])
  }

  function Insert(s: seq<int>, x: int): (r: seq<int>)
    requires NonDecreasing(s)
    ensures NonDecreasing(r) && |r| == |s| + 1 && forall v :: v in r <==> v == x || v in s
  {
    if s == [] then [x]
    else if x <= s[0] then [x] + s
    else
      var r := Insert(s[1..], x);
      InsertAfterFirst(s, x, r);
      [s[0]] + r
  }

  lemma InsertAfterFirst(s: seq<int>, x: int, r: seq<int>)
    requires NonDecreasing(s) && s != [] && s[0] < x
    requires NonDecreasing(r) && forall v :: v in r <==> v == x || v in s[1..]
    ensures NonDecreasing([s[0]] + r) && forall v :: v in [s[0]] + r <==> v == x || v in s
  {
    assert s == [s[0]] + s[1..];
    forall k | 0 <= k < |r|
      ensures s[0] <= r[k]
    {
      assert r[k] in r;
    }
  }

  /** Sorts the list and compacts it in place; the distinct values end up in front. */
  method SortNoDuplicates(values: seq<int>) returns (arg: seq<int>)
    requires values != []
    ensures Increasing(arg) && SameElements(arg, values)
  {
    hide SortInts, SameElements, Increasing;
    arg := SortInts(values);
    ghost var sorted := arg;
    var j := 0;
    FirstCompacted(sorted);
    for i := 1 to |arg|
      invariant 0 <= j < i <= |arg| == |sorted|
      invariant forall k :: i <= k < |arg| ==> arg[k] == sorted[k]
      invariant Compacted(sorted, i, arg[..j + 1])
    {
      ghost var before := arg[..j + 1];
      CompactMore(sorted, i, before);
      if arg[j] != arg[i] {
        j := j + 1;
        arg := arg[j := arg[i]];
        assert arg[..j + 1] == before + [sorted[i]];
      }
    }
    CompactedAll(values, sorted, arg[..j + 1]);
    arg := arg[..j + 1];
  }

  /** The front of the list holds the distinct values among the first `i` sorted ones. */
  ghost predicate Compacted(sorted: seq<int>, i: nat, front: seq<int>) {
    && 0 < i <= |sorted| && front != []
    && Increasing(front) && front[|front| - 1] == sorted[i - 1] && SameElements(front, sorted[..i])
  }

  lemma FirstCompacted(sorted: seq<int>)
    requires sorted != []
    ensures Compacted(sorted, 1, sorted[..1])
  {
  }

  lemma CompactMore(sorted: seq<int>, i: nat, front: seq<int>)
    requires NonDecreasing(sorted) && i < |sorted| && Compacted(sorted, i, front)
    ensures Compacted(sorted, i + 1, if front[|front| - 1] == sorted[i] then front else front + [sorted[i]])
  {
    assert sorted[..i + 1] == sorted[..i] + [sorted[i]];
    assert sorted[i - 1] <= sorted[i];
  }

  lemma CompactedAll(values: seq<int>, sorted: seq<int>, front: seq<int>)
    requires SameElements(sorted, values) && Compacted(sorted, |sorted|, front)
    ensures Increasing(front) && SameElements(front, values)
  {
    assert sorted[..|sorted|] == sorted;
  }

  method GetPlaceHoldersValues(target: string) returns (found: seq<int>)
    ensures Increasing(found) && forall v :: v in found <==> v in Values(target)
  {
    found := [];
    var matches := Submatches(target);
    for i := 0 to |matches|
      invariant found == NumbersOf(matches[..i])
    {
      assert matches[..i + 1][..i] == matches[..i];
      var number := Atoi(matches[i]);
      if number.Some? {
        found := found + [number.value];
      }
    }
    assert matches[..|matches|] == matches;
    if found != [] {
      found := SortNoDuplicates(found);
    }
  }

  // ----- The selected parentheses -----

  /** Machine arithmetic for v - 1. */
  function Pred(v: int): int {
    if v == MIN_INT then MAX_INT else v - 1
  }

  /** The pair is the one that a placeholder of the target names: the placeholder {v} names the v-th pair. */
  ghost predicate Selected(pattern: string, target: string, p: Parentheses) {
    exists v :: v in Values(target) && 1 <= v <= |AllParentheses(pattern)| && AllParentheses(pattern)[v - 1] == p
  }

  /** A placeholder such as {0} or {-1} makes the code index its list below 0. */
  ghost predicate IndexesBelow(target: string) {
    exists v :: v in Values(target) && MIN_INT < v < 1
  }

  lemma {:induction false} NumbersInRange(texts: seq<string>)
    ensures forall v :: v in NumbersOf(texts) ==> MIN_INT <= v <= MAX_INT
  {
    if texts != [] {
      NumbersInRange(texts[..|texts| - 1]);
    }
  }

  lemma ValuesInRange(target: string)
    ensures forall v :: v in Values(target) ==> MIN_INT <= v <= MAX_INT
  {
    NumbersInRange(Submatches(target));
  }

  lemma {:induction false} PairsFit(s: string, n: nat)
    ensures |PairsBefore(s, n)| <= n
    ensures n == |s| ==> |AllParentheses(s)| <= n
  {
    if n > 0 {
      PairsFit(s, n - 1);
    }
  }

  /** None is the run-time panic of an index out of range. */
  method FindParentheses(pattern: string, target: string) returns (result: Option<seq<Parentheses>>)
    requires |pattern| <= MAX_INT
    ensures result.None? <==> IndexesBelow(target)
    ensures result.Some? ==> Ascending(result.value) && forall p :: p in result.value <==> Selected(pattern, target, p)
  {
    hide AllParentheses, Values, FoundUpTo, Ascending, Increasing, Selected, IndexesBelow;
    var parentheses := GetAllParentheses(pattern);
    var values := GetPlaceHoldersValues(target);
    ValuesInRange(target);
    PairsFit(pattern, |pattern|);
    AllParenthesesExact(pattern);
    var found: seq<Parentheses> := [];
    NothingFound(parentheses, values);
    for i := 0 to |values|
      invariant FoundUpTo(parentheses, values, i, found)
    {
      assert values[i] in values;
      if !(MIN_INT < values[i] < 1) {
        FoundMore(parentheses, values, i, found);
      }
      var index := Pred(values[i]);
      if |parentheses| > index {
        if index < 0 {
          BelowIsPanic(target, values[i]);
          return None;
        }
        found := found + [parentheses[index]];
      }
    }
    FoundAll(pattern, target, values, found);
    return Some(found);
  }

  ghost predicate NamedBy(all: seq<Parentheses>, values: seq<int>, p: Parentheses) {
    exists v :: v in values && 1 <= v <= |all| && all[v - 1] == p
  }

  /** The loop of FindParentheses after `i` values: none of them indexed below zero, and the pairs they name were
      found, in order. */
  ghost predicate FoundUpTo(all: seq<Parentheses>, values: seq<int>, i: nat, found: seq<Parentheses>) {
    && i <= |values|
    && (forall k :: 0 <= k < i ==> !(MIN_INT < values[k] < 1))
    && Ascending(found)
    && (forall p :: p in found <==> NamedBy(all, values[..i], p))
  }

  lemma NothingFound(all: seq<Parentheses>, values: seq<int>)
    ensures FoundUpTo(all, values, 0, [])
  {
  }

  lemma FoundMore(all: seq<Parentheses>, values: seq<int>, i: nat, found: seq<Parentheses>)
    requires Ascending(all) && Increasing(values) && i < |values| && FoundUpTo(all, values, i, found)
    requires !(MIN_INT < values[i] < 1)
    ensures FoundUpTo(all, values, i + 1, if 1 <= values[i] <= |all| then found + [all[values[i] - 1]] else found)
  {
    hide NamedBy, Increasing, Ascending;
    NamedMore(all, values, i);
    if 1 <= values[i] <= |all| {
      var p := all[values[i] - 1];
      NamedBelow(all, values, i);
      forall k | 0 <= k < |found|
        ensures found[k].openIndex < p.openIndex
      {
        assert found[k] in found;
      }
      AscendingMore(found, p);
      assert forall q :: q in found + [p] <==> q in found || q == p;
    }
  }

  lemma AscendingMore(found: seq<Parentheses>, p: Parentheses)
    requires Ascending(found) && forall k :: 0 <= k < |found| ==> found[k].openIndex < p.openIndex
    ensures Ascending(found + [p])
  {
  }

  lemma BelowIsPanic(target: string, v: int)
    requires v in Values(target) && MIN_INT < v < 1
    ensures IndexesBelow(target)
  {
  }

  lemma FoundAll(pattern: string, target: string, values: seq<int>, found: seq<Parentheses>)
    requires FoundUpTo(AllParentheses(pattern), values, |values|, found)
             && forall v :: v in values <==> v in Values(target)
    ensures !IndexesBelow(target) && Ascending(found) && forall p :: p in found <==> Selected(pattern, target, p)
  {
    hide AllParentheses, Values, Ascending;
    assert values[..|values|] == values;
  }

  lemma NamedMore(all: seq<Parentheses>, values: seq<int>, i: nat)
    requires i < |values|
    ensures forall p :: NamedBy(all, values[..i + 1], p) <==>
                        NamedBy(all, values[..i], p) || (1 <= values[i] <= |all| && p == all[values[i] - 1])
  {
    var more := values[..i + 1];
    assert more == values[..i] + [values[i]];
    forall p | NamedBy(all, values[..i], p)
      ensures NamedBy(all, more, p)
    {
      var v :| v in values[..i] && 1 <= v <= |all| && all[v - 1] == p;
      assert v in more;
    }
    forall p | NamedBy(all, more, p)
      ensures NamedBy(all, values[..i], p) || (1 <= values[i] <= |all| && p == all[values[i] - 1])
    {
      var v :| v in more && 1 <= v <= |all| && all[v - 1] == p;
      assert v == values[i] || v in values[..i];
    }
    assert values[i] in more;
  }

  lemma NamedBelow(all: seq<Parentheses>, values: seq<int>, i: nat)
    requires Ascending(all) && Increasing(values) && i < |values| && 1 <= values[i] <= |all|
    ensures forall p :: NamedBy(all, values[..i], p) ==> p.openIndex < all[values[i] - 1].openIndex
  {
  }

  // ----- Removing and escaping -----

  /** The positions of the parentheses that the target's placeholders name. */
  ghost function Marks(pattern: string, target: string): (marks: set<int>)
    ensures forall i :: i in marks <==> exists p ::
              Selected(pattern, target, p) && (p.openIndex == i || p.closeIndex == i)
  {
    var pairs := set p | p in AllParentheses(pattern) && Selected(pattern, target, p);
    (set p | p in pairs :: p.openIndex) + (set p | p in pairs :: p.closeIndex)
  }

  predicate IsParenthesis(c: char) {
    c == '(' || c == ')'
  }

  ghost predicate HasEnd(parentheses: seq<Parentheses>, index: int) {
    exists p :: p in parentheses && (p.openIndex == index || p.closeIndex == index)
  }

  lemma EndsAreMarks(pattern: string, target: string, parentheses: seq<Parentheses>)
    requires forall p :: p in parentheses <==> Selected(pattern, target, p)
    ensures forall i :: HasEnd(parentheses, i) <==> i in Marks(pattern, target)
  {
    hide Selected;
  }

  method IsPresent(parentheses: seq<Parentheses>, index: int) returns (present: bool)
    ensures present <==> HasEnd(parentheses, index)
  {
    for k := 0 to |parentheses|
      invariant forall j :: 0 <= j < k ==> parentheses[j].openIndex != index && parentheses[j].closeIndex != index
    {
      if parentheses[k].openIndex == index || parentheses[k].closeIndex == index {
        assert parentheses[k] in parentheses;
        return true;
      }
    }
    return false;
  }

  /** What is left of the string without the marked parentheses. */
  function Removed(s: string, marks: set<int>): string {
    if s == "" then ""
    else
      var n := |s| - 1;
      Removed(s[..n], marks) + if IsParenthesis(s[n]) && n in marks then "" else [s[n]]
  }

  /** The string with a backslash before each parenthesis that is not marked. */
  function Escaped(s: string, marks: set<int>): string {
    if s == "" then ""
    else
      var n := |s| - 1;
      Escaped(s[..n], marks) + if IsParenthesis(s[n]) && n !in marks then ['\\', s[n]] else [s[n]]
  }

  /** None is the panic of FindParentheses. */
  method RemovePlaceholderParentheses(pattern: string, target: string) returns (result: Option<string>)
    requires |pattern| <= MAX_INT
    ensures result == if IndexesBelow(target) then None else Some(Removed(pattern, Marks(pattern, target)))
  {
    hide Selected, IndexesBelow, Marks, HasEnd, Ascending;
    var parentheses := FindParentheses(pattern, target);
    if parentheses.None? {
      return None;
    }
    EndsAreMarks(pattern, target, parentheses.value);
    var temp := "";
    for i := 0 to |pattern|
      invariant temp == Removed(pattern[..i], Marks(pattern, target))
    {
      assert pattern[..i + 1][..i] == pattern[..i];
      var present := IsPresent(parentheses.value, i);
      if IsParenthesis(pattern[i]) && present {
        continue;
      }
      temp := temp + [pattern[i]];
    }
    assert pattern[..|pattern|] == pattern;
    return Some(temp);
  }

  method AddEscapingParentheses(pattern: string, target: string, targetPathInArchive: string)
    returns (result: Option<string>)
    requires |pattern| <= MAX_INT
    ensures result == if IndexesBelow(target) || IndexesBelow(targetPathInArchive) then None
                      else Some(Escaped(pattern, Marks(pattern, target) + Marks(pattern, targetPathInArchive)))
  {
    hide Selected, IndexesBelow, Marks, HasEnd, Ascending;
    var parentheses := FindParentheses(pattern, target);
    var archiveParentheses := FindParentheses(pattern, targetPathInArchive);
    if parentheses.None? || archiveParentheses.None? {
      return None;
    }
    EndsAreMarks(pattern, target, parentheses.value);
    EndsAreMarks(pattern, targetPathInArchive, archiveParentheses.value);
    ghost var marks := Marks(pattern, target) + Marks(pattern, targetPathInArchive);
    var temp := "";
    for i := 0 to |pattern|
      invariant temp == Escaped(pattern[..i], marks)
    {
      assert pattern[..i + 1][..i] == pattern[..i];
      var present := IsPresent(parentheses.value, i);
      var archivePresent := IsPresent(archiveParentheses.value, i);
      if IsParenthesis(pattern[i]) && !present && !archivePresent {
        temp := temp + "\\" + [pattern[i]];
      } else {
        temp := temp + [pattern[i]];
      }
    }
    assert pattern[..|pattern|] == pattern;
    return Some(temp);
  }

  method IsPlaceholdersUsed(pattern: string, target: string) returns (used: Option<bool>)
    requires |pattern| <= MAX_INT
    ensures used == if IndexesBelow(target) then None else Some(Removed(pattern, Marks(pattern, target)) != target)
    ensures !IndexesBelow(target) ==>
              (used == Some(Used(pattern, target)) <==>
               if Used(pattern, target) then !StripsTo(pattern, Marks(pattern, target), target) else target == pattern)
  {
    hide Removed, Marks, Used, IndexesBelow, StripsTo;
    UsedIsRightIff(pattern, target);
    var removed := RemovePlaceholderParentheses(pattern, target);
    return if removed.None? then None else Some(removed.value != target);
  }

  /** Whole pairs are marked, and nothing else. */
  ghost predicate WholePairs(s: string, marks: set<int>) {
    && (forall i :: i in marks ==> exists o, c :: Pair(s, o, c) && (i == o || i == c))
    && (forall o, c :: Pair(s, o, c) ==> (o in marks <==> c in marks))
  }

  lemma MarksAreWholePairs(pattern: string, target: string)
    ensures WholePairs(pattern, Marks(pattern, target))
  {
    hide Pair, AllParentheses;
    PairsBeforeExact(pattern, |pattern|);
    AllIsPairsBefore(pattern);
    forall i | i in Marks(pattern, target)
      ensures exists o, c :: Pair(pattern, o, c) && (i == o || i == c)
    {
      var p :| Selected(pattern, target, p) && (p.openIndex == i || p.closeIndex == i);
      assert Pair(pattern, p.openIndex, p.closeIndex);
    }
    forall o, c | Pair(pattern, o, c)
      ensures o in Marks(pattern, target) <==> c in Marks(pattern, target)
    {
      forall p: Parentheses | p in AllParentheses(pattern)
                              && (p.openIndex == o || p.closeIndex == o || p.openIndex == c || p.closeIndex == c)
        ensures p == Parentheses(o, c)
      {
        PairsShareNothing(pattern, o, c, p.openIndex, p.closeIndex);
      }
      assert Selected(pattern, target, Parentheses(o, c)) <==> o in Marks(pattern, target);
      assert Selected(pattern, target, Parentheses(o, c)) <==> c in Marks(pattern, target);
    }
  }

  lemma AllIsPairsBefore(s: string)
    ensures AllParentheses(s) == PairsBefore(s, |s|)
  {
  }

  /** A parenthesis belongs to one pair. */
  lemma PairsShareNothing(s: string, o: int, c: int, p: int, d: int)
    requires Pair(s, o, c) && Pair(s, p, d)
    requires o == p || o == d || c == p || c == d
    ensures o == p && c == d
  {
    if o <= p {
      PairsNest(s, o, c, p, d);
    } else {
      PairsNest(s, p, d, o, c);
    }
  }

  // ----- Removal keeps the matching -----

  /** Where the characters at the open positions end up. */
  function Image(s: string, marks: set<int>, st: seq<nat>): seq<nat>
    requires forall k :: 0 <= k < |st| ==> st[k] < |s|
  {
    if st == [] then []
    else
      var last := st[|st| - 1];
      Image(s, marks, st[..|st| - 1]) + if last in marks then [] else [|Removed(s[..last], marks)|]
  }

  /** What one character does to the stack of what is left. */
  lemma RemovedStep(s: string, n: nat, marks: set<int>)
    requires n < |s|
    ensures Removed(s[..n + 1], marks)
         == Removed(s[..n], marks) + if IsParenthesis(s[n]) && n in marks then "" else [s[n]]
    ensures Stack(s[..n + 1])
         == var st := Stack(s[..n]);
            if s[n] == '(' then st + [n] else if s[n] == ')' && st != [] then st[..|st| - 1] else st
    ensures Stack(Removed(s[..n], marks) + [s[n]])
         == var t := Removed(s[..n], marks);
            var st := Stack(t);
            if s[n] == '(' then st + [|t|] else if s[n] == ')' && st != [] then st[..|st| - 1] else st
  {
    hide Stack, Removed;
    assert s[..n + 1][..n] == s[..n];
    StackStep(s[..n + 1]);
    var t := Removed(s[..n], marks);
    assert (t + [s[n]])[..|t|] == t;
    StackStep(t + [s[n]]);
    RemovedLast(s[..n + 1], marks);
  }

  lemma RemovedLast(s: string, marks: set<int>)
    requires s != ""
    ensures Removed(s, marks) == Removed(s[..|s| - 1], marks)
                                 + if IsParenthesis(s[|s| - 1]) && |s| - 1 in marks then "" else [s[|s| - 1]]
  {
  }

  /** The stack of what is left is the stack of the string without the marked positions. */
  lemma {:induction false} StackOfRemoved(s: string, n: nat, marks: set<int>)
    requires n <= |s| && WholePairs(s, marks)
    ensures Stack(Removed(s[..n], marks)) == Image(s, marks, Stack(s[..n]))
  {
    hide Stack, Removed, Pair, Image, WholePairs;
    if n == 0 {
      StackStep("");
      NothingRemoved(s, marks);
    } else {
      StackOfRemoved(s, n - 1, marks);
      if s[n - 1] == '(' {
        RemovedOpens(s, n - 1, marks);
      } else if s[n - 1] == ')' && Stack(s[..n - 1]) != [] {
        RemovedCloses(s, n - 1, marks);
      } else {
        RemovedOther(s, n - 1, marks);
      }
    }
  }

  lemma RemovedOther(s: string, n: nat, marks: set<int>)
    requires n < |s| && WholePairs(s, marks) && s[n] != '(' && (s[n] == ')' ==> Stack(s[..n]) == [])
    requires Stack(Removed(s[..n], marks)) == Image(s, marks, Stack(s[..n]))
    ensures Stack(Removed(s[..n + 1], marks)) == Image(s, marks, Stack(s[..n + 1]))
  {
    hide Stack, Removed, Pair, Image, WholePairs;
    NotMarked(s, n, marks);
    RemovedStep(s, n, marks);
    NothingRemoved(s, marks);
  }

  lemma RemovedOpens(s: string, n: nat, marks: set<int>)
    requires n < |s| && s[n] == '('
    requires Stack(Removed(s[..n], marks)) == Image(s, marks, Stack(s[..n]))
    ensures Stack(Removed(s[..n + 1], marks)) == Image(s, marks, Stack(s[..n + 1]))
  {
    hide Stack, Removed, Image;
    RemovedStep(s, n, marks);
    ImageOpens(s, n, marks);
    var t := Removed(s[..n], marks);
    if n in marks {
      assert t + "" == t;
      assert Image(s, marks, Stack(s[..n])) + [] == Image(s, marks, Stack(s[..n]));
    }
  }

  lemma ImageOpens(s: string, n: nat, marks: set<int>)
    requires n < |s|
    ensures Image(s, marks, Stack(s[..n]) + [n])
         == Image(s, marks, Stack(s[..n])) + if n in marks then [] else [|Removed(s[..n], marks)|]
  {
    hide Stack, Removed, Image;
    var st := Stack(s[..n]);
    ImageStep(s, marks, st + [n]);
    assert (st + [n])[..|st|] == st;
  }

  lemma RemovedCloses(s: string, n: nat, marks: set<int>)
    requires n < |s| && s[n] == ')' && Stack(s[..n]) != [] && WholePairs(s, marks)
    requires Stack(Removed(s[..n], marks)) == Image(s, marks, Stack(s[..n]))
    ensures Stack(Removed(s[..n + 1], marks)) == Image(s, marks, Stack(s[..n + 1]))
  {
    hide Stack, Removed, Image, Pair, WholePairs;
    TopIsClosed(s, n);
    var st := Stack(s[..n]);
    MarkedTogether(s, marks, st[|st| - 1], n);
    ImageStep(s, marks, st);
    if n in marks {
      RemovedCloseMarked(s, n, marks);
      assert Image(s, marks, st[..|st| - 1]) + [] == Image(s, marks, st[..|st| - 1]);
    } else {
      RemovedCloseKept(s, n, marks);
    }
  }

  lemma RemovedCloseMarked(s: string, n: nat, marks: set<int>)
    requires n < |s| && s[n] == ')' && n in marks && Stack(s[..n]) != []
    ensures Removed(s[..n + 1], marks) == Removed(s[..n], marks)
    ensures Stack(s[..n + 1]) == Stack(s[..n])[..|Stack(s[..n])| - 1]
  {
    hide Stack, Removed;
    RemovedStep(s, n, marks);
    assert Removed(s[..n], marks) + "" == Removed(s[..n], marks);
  }

  lemma RemovedCloseKept(s: string, n: nat, marks: set<int>)
    requires n < |s| && s[n] == ')' && n !in marks && Stack(s[..n]) != [] && Stack(Removed(s[..n], marks)) != []
    ensures var st := Stack(Removed(s[..n], marks)); Stack(Removed(s[..n + 1], marks)) == st[..|st| - 1]
    ensures Stack(s[..n + 1]) == Stack(s[..n])[..|Stack(s[..n])| - 1]
  {
    hide Stack, Removed;
    RemovedStep(s, n, marks);
  }

  lemma MarkedTogether(s: string, marks: set<int>, o: int, c: int)
    requires WholePairs(s, marks) && Pair(s, o, c)
    ensures o in marks <==> c in marks
  {
  }

  lemma TopIsClosed(s: string, c: nat)
    requires c < |s| && s[c] == ')' && Stack(s[..c]) != []
    ensures var st := Stack(s[..c]); Pair(s, st[|st| - 1], c)
  {
  }

  lemma NotMarked(s: string, n: nat, marks: set<int>)
    requires WholePairs(s, marks) && n < |s| && s[n] != '(' && (s[n] == ')' ==> Stack(s[..n]) == [])
    ensures n !in marks
  {
    PairIsInside(s);
  }

  lemma NothingRemoved(s: string, marks: set<int>)
    ensures Removed(s[..0], marks) == "" && Image(s, marks, []) == []
  {
  }

  lemma ImageStep(s: string, marks: set<int>, st: seq<nat>)
    requires st != [] ==> forall k :: 0 <= k < |st| ==> st[k] < |s|
    ensures st == [] ==> Image(s, marks, st) == []
    ensures st != [] ==>
              Image(s, marks, st) == Image(s, marks, st[..|st| - 1])
                                     + if st[|st| - 1] in marks then [] else [|Removed(s[..st[|st| - 1]], marks)|]
  {
  }

  /** Where the character at position `k` ends up. */
  function Pos(s: string, marks: set<int>, k: nat): nat
    requires k <= |s|
  {
    |Removed(s[..k], marks)|
  }

  predicate Kept(s: string, marks: set<int>, k: int) {
    0 <= k < |s| && !(IsParenthesis(s[k]) && k in marks)
  }

  lemma {:induction false} RemovedGrows(s: string, marks: set<int>, j: nat, k: nat)
    requires j <= k <= |s|
    ensures Pos(s, marks, j) <= Pos(s, marks, k) && Removed(s[..j], marks) == Removed(s[..k], marks)[..Pos(s, marks, j)]
  {
    hide Removed, Stack;
    if j < k {
      RemovedGrows(s, marks, j, k - 1);
      RemovedStep(s, k - 1, marks);
    }
  }

  /** The kept characters appear in what is left, in their order. */
  lemma KeptAt(s: string, marks: set<int>, k: nat)
    requires Kept(s, marks, k)
    ensures var r, p := Removed(s, marks), Pos(s, marks, k);
            p < |r| && r[p] == s[k] && r[..p] == Removed(s[..k], marks)
  {
    hide Removed, Stack;
    RemovedStep(s, k, marks);
    RemovedGrows(s, marks, k + 1, |s|);
    RemovedGrows(s, marks, k, |s|);
    assert s[..|s|] == s;
    var r := Removed(s, marks);
    assert r[..Pos(s, marks, k + 1)][Pos(s, marks, k)] == r[Pos(s, marks, k)];
  }

  /** Every character that is left was kept. */
  lemma {:induction false} LeftWasKept(s: string, marks: set<int>, n: nat, p: nat)
    requires n <= |s| && p < Pos(s, marks, n)
    ensures exists k :: 0 <= k < n && Kept(s, marks, k) && Pos(s, marks, k) == p
  {
    hide Stack, Removed;
    NothingRemoved(s, marks);
    if n > 0 {
      RemovedStep(s, n - 1, marks);
      if p < Pos(s, marks, n - 1) {
        LeftWasKept(s, marks, n - 1, p);
      } else {
        assert Kept(s, marks, n - 1);
      }
    }
  }

  /** Removing whole pairs keeps the matching of the others: the pairs of what is left are the pairs that were kept,
      moved. */
  lemma RemovalKeepsMatching(s: string, marks: set<int>, p: int, q: int)
    requires WholePairs(s, marks)
    ensures Pair(Removed(s, marks), p, q) <==>
            exists o, c :: Kept(s, marks, o) && Kept(s, marks, c) && Pair(s, o, c) && Pos(s, marks, o) == p
                           && Pos(s, marks, c) == q
  {
    hide Stack, Removed, Kept, Pos;
    if Pair(Removed(s, marks), p, q) {
      LeftPairWasPair(s, marks, p, q);
    }
    if o, c :| Kept(s, marks, o) && Kept(s, marks, c) && Pair(s, o, c) && Pos(s, marks, o) == p
               && Pos(s, marks, c) == q {
      KeptPairStays(s, marks, o, c);
    }
  }

  lemma KeptPairStays(s: string, marks: set<int>, o: int, c: int)
    requires WholePairs(s, marks) && Kept(s, marks, o) && Kept(s, marks, c) && Pair(s, o, c)
    ensures Pair(Removed(s, marks), Pos(s, marks, o), Pos(s, marks, c))
  {
    hide Stack, Removed, Image, WholePairs;
    PairIsInside(s);
    KeptAt(s, marks, c);
    StackOfRemoved(s, c, marks);
    ImageStep(s, marks, Stack(s[..c]));
    KeptMoves(s, marks, o, c);
  }

  lemma KeptMoves(s: string, marks: set<int>, o: nat, c: nat)
    requires o < c <= |s| && Kept(s, marks, o)
    ensures Pos(s, marks, o) < Pos(s, marks, c)
  {
    hide Stack, Removed;
    RemovedGrows(s, marks, o + 1, c);
    RemovedStep(s, o, marks);
  }

  lemma LeftPairWasPair(s: string, marks: set<int>, p: int, q: int)
    requires WholePairs(s, marks) && Pair(Removed(s, marks), p, q)
    ensures exists o, c :: Kept(s, marks, o) && Kept(s, marks, c) && Pair(s, o, c) && Pos(s, marks, o) == p
                           && Pos(s, marks, c) == q
  {
    hide Stack, Removed, Image;
    assert s[..|s|] == s;
    LeftWasKept(s, marks, |s|, q);
    var c :| 0 <= c < |s| && Kept(s, marks, c) && Pos(s, marks, c) == q;
    KeptAt(s, marks, c);
    StackOfRemoved(s, c, marks);
    var st := Stack(s[..c]);
    ImageStep(s, marks, st);
    var o := st[|st| - 1];
    assert Pair(s, o, c);
    assert Kept(s, marks, o);
  }

  // ----- Escaping and back -----

  /** Drops the backslash of every escaped parenthesis. */
  function Unescaped(s: string): string {
    var n := |s| - 1;
    if s == "" then ""
    else if IsParenthesis(s[n]) && n > 0 && s[n - 1] == '\\' then Unescaped(s[..n - 1]) + [s[n]]
    else Unescaped(s[..n]) + [s[n]]
  }

  /** A parenthesis that is left alone although a backslash stands before it. */
  ghost predicate LooksEscaped(s: string, marks: set<int>, k: int) {
    0 < k < |s| && k in marks && IsParenthesis(s[k]) && s[k - 1] == '\\'
  }

  lemma EscapedStep(s: string, n: nat, marks: set<int>)
    requires n < |s|
    ensures Escaped(s[..n + 1], marks)
         == Escaped(s[..n], marks) + if IsParenthesis(s[n]) && n !in marks then ['\\', s[n]] else [s[n]]
  {
    assert s[..n + 1][..n] == s[..n];
  }

  lemma UnescapedStep(t: string, c: char)
    ensures !IsParenthesis(c) ==> Unescaped(t + [c]) == Unescaped(t) + [c]
    ensures IsParenthesis(c) && (t == "" || t[|t| - 1] != '\\') ==> Unescaped(t + [c]) == Unescaped(t) + [c]
    ensures IsParenthesis(c) ==> Unescaped(t + ['\\', c]) == Unescaped(t) + [c]
  {
    assert (t + [c])[..|t|] == t;
    assert (t + ['\\', c])[..|t|] == t;
  }

  lemma UnescapedDrops(t: string, c: char)
    requires IsParenthesis(c)
    ensures Unescaped(t + ['\\'] + [c]) == Unescaped(t) + [c]
  {
    assert t + ['\\'] + [c] == t + ['\\', c];
    UnescapedStep(t, c);
  }

  lemma EscapedEnd(s: string, n: nat, marks: set<int>)
    requires 0 < n <= |s|
    ensures var e := Escaped(s[..n], marks); e != "" && e[|e| - 1] == s[n - 1]
  {
    EscapedStep(s, n - 1, marks);
  }

  /** Unescaping restores a prefix, or loses backslashes. */
  lemma {:induction false} UnescapedEscaped(s: string, n: nat, marks: set<int>)
    requires n <= |s|
    ensures |Unescaped(Escaped(s[..n], marks))| <= n
    ensures if exists k :: 0 <= k < n && LooksEscaped(s, marks, k) then |Unescaped(Escaped(s[..n], marks))| < n
            else Unescaped(Escaped(s[..n], marks)) == s[..n]
  {
    hide Escaped, Unescaped;
    if n == 0 {
      NothingEscaped(marks);
      assert s[..0] == "";
    } else {
      var k := n - 1;
      UnescapedEscaped(s, k, marks);
      EscapedStep(s, k, marks);
      UnescapedStep(Escaped(s[..k], marks), s[k]);
      assert s[..n] == s[..k] + [s[k]];
      if LooksEscaped(s, marks, k) {
        EscapedStep(s, k - 1, marks);
        UnescapedEscaped(s, k - 1, marks);
        UnescapedDrops(Escaped(s[..k - 1], marks), s[k]);
      } else if k > 0 {
        EscapedEnd(s, k, marks);
      } else {
        NothingEscaped(marks);
        assert s[..0] == "";
      }
    }
  }

  lemma NothingEscaped(marks: set<int>)
    ensures Escaped("", marks) == "" && Unescaped("") == ""
  {
  }

  /** Escaping is undone by unescaping if and only if no parenthesis that is left alone looks escaped already. */
  lemma EscapingRoundTrip(s: string, marks: set<int>)
    ensures Unescaped(Escaped(s, marks)) == s <==> !exists k :: LooksEscaped(s, marks, k)
  {
    hide Escaped, Unescaped;
    assert s[..|s|] == s;
    UnescapedEscaped(s, |s|, marks);
  }

  /** The number of unmarked parentheses among the first `n` characters. */
  function Added(s: string, marks: set<int>, n: nat): nat
    requires n <= |s|
  {
    if n == 0 then 0 else Added(s, marks, n - 1) + if IsParenthesis(s[n - 1]) && n - 1 !in marks then 1 else 0
  }

  lemma {:induction false} EscapedLength(s: string, marks: set<int>, n: nat)
    requires n <= |s|
    ensures |Escaped(s[..n], marks)| == n + Added(s, marks, n)
  {
    hide Escaped;
    if n == 0 {
      NothingEscaped(marks);
      assert s[..0] == "";
    } else {
      EscapedLength(s, marks, n - 1);
      EscapedStep(s, n - 1, marks);
    }
  }

  lemma {:induction false} EscapedGrows(s: string, marks: set<int>, j: nat, n: nat)
    requires j <= n <= |s|
    ensures Escaped(s[..j], marks) <= Escaped(s[..n], marks)
  {
    hide Escaped;
    if j < n {
      EscapedGrows(s, marks, j, n - 1);
      EscapedStep(s, n - 1, marks);
    }
  }

  /** Every character stands as many places later as there are unmarked parentheses before it, and an unmarked
      parenthesis one more, after its backslash. */
  lemma EscapedAt(s: string, marks: set<int>, k: nat)
    requires k < |s|
    ensures var t, i := Escaped(s, marks), k + Added(s, marks, k);
            && |t| == |s| + Added(s, marks, |s|)
            && if IsParenthesis(s[k]) && k !in marks then i + 1 < |t| && t[i] == '\\' && t[i + 1] == s[k]
               else i < |t| && t[i] == s[k]
  {
    hide Escaped, Added;
    assert s[..|s|] == s;
    EscapedLength(s, marks, |s|);
    EscapedLength(s, marks, k);
    EscapedStep(s, k, marks);
    EscapedGrows(s, marks, k + 1, |s|);
  }

  // ----- IsPlaceholdersUsed -----

  lemma {:induction false} RemovedNothing(s: string, marks: set<int>)
    requires forall i :: i in marks ==> !(0 <= i < |s|)
    ensures Removed(s, marks) == s
  {
    hide Removed;
    if s == "" {
      NothingRemoved(s, marks);
      assert s[..0] == "";
    } else {
      RemovedNothing(s[..|s| - 1], marks);
      RemovedLast(s, marks);
      assert s == s[..|s| - 1] + [s[|s| - 1]];
    }
  }

  /** Some placeholder of the target names a pair of parentheses of the pattern: what the comment promises to report. */
  ghost predicate Used(pattern: string, target: string) {
    exists v :: v in Values(target) && 1 <= v <= |AllParentheses(pattern)|
  }

  lemma UsedIffSelected(pattern: string, target: string)
    ensures Used(pattern, target) <==> exists p :: Selected(pattern, target, p)
  {
    hide AllParentheses, Values;
    if Used(pattern, target) {
      var v :| v in Values(target) && 1 <= v <= |AllParentheses(pattern)|;
      assert Selected(pattern, target, AllParentheses(pattern)[v - 1]);
    }
  }

  lemma {:induction false} RemovedKeepsOut(s: string, marks: set<int>, c: char)
    requires c !in s
    ensures c !in Removed(s, marks)
  {
    if s != "" {
      RemovedKeepsOut(s[..|s| - 1], marks, c);
    }
  }

  /** What IsPlaceholdersUsed answers: what is left of the pattern is not the target. */
  ghost predicate AnswersUsed(pattern: string, target: string) {
    Removed(pattern, Marks(pattern, target)) != target
  }

  /** The number of marked parentheses among the first `n` characters. */
  function Dropped(s: string, marks: set<int>, n: nat): (d: nat)
    requires n <= |s|
    ensures d <= n
  {
    if n == 0 then 0 else Dropped(s, marks, n - 1) + if Kept(s, marks, n - 1) then 0 else 1
  }

  /** `t` is `s` without its marked parentheses: every other character stands as many places earlier as there are marked
      parentheses before it. */
  ghost predicate StripsTo(s: string, marks: set<int>, t: string) {
    && |t| == |s| - Dropped(s, marks, |s|)
    && forall k :: Kept(s, marks, k) ==> StandsAt(t, k - Dropped(s, marks, k), s[k])
  }

  predicate StandsAt(t: string, i: int, c: char) {
    0 <= i < |t| && t[i] == c
  }

  lemma {:induction false} DroppedGrows(s: string, marks: set<int>, j: nat, n: nat)
    requires j <= n <= |s|
    ensures Dropped(s, marks, j) <= Dropped(s, marks, n) <= Dropped(s, marks, j) + n - j
    ensures j < n && Kept(s, marks, j) ==> Dropped(s, marks, n) < Dropped(s, marks, j) + n - j
  {
    if j < n {
      DroppedGrows(s, marks, j, n - 1);
    }
  }

  lemma {:induction false} DroppedPrefix(s: string, marks: set<int>, n: nat)
    requires n < |s|
    ensures Dropped(s, marks, n) == Dropped(s[..|s| - 1], marks, n)
  {
    if n > 0 {
      DroppedPrefix(s, marks, n - 1);
      assert s[n - 1] == s[..|s| - 1][n - 1];
    }
  }

  lemma StripsStep(s: string, marks: set<int>, t: string)
    requires s != ""
    ensures var n := |s| - 1;
            StripsTo(s, marks, t) <==>
            if Kept(s, marks, n) then t != "" && t[|t| - 1] == s[n] && StripsTo(s[..n], marks, t[..|t| - 1])
            else StripsTo(s[..n], marks, t)
  {
    hide Dropped;
    var n := |s| - 1;
    var r := s[..n];
    DroppedLast(s, marks);
    DroppedPrefix(s, marks, n);
    forall k | 0 <= k < n
      ensures Kept(s, marks, k) <==> Kept(r, marks, k)
      ensures Dropped(s, marks, k) == Dropped(r, marks, k)
      ensures Kept(s, marks, k) ==> k - Dropped(s, marks, k) < n - Dropped(s, marks, n)
    {
      DroppedPrefix(s, marks, k);
      DroppedGrows(s, marks, k, n);
    }
  }

  lemma DroppedLast(s: string, marks: set<int>)
    requires s != ""
    ensures Dropped(s, marks, |s|) == Dropped(s, marks, |s| - 1) + if Kept(s, marks, |s| - 1) then 0 else 1
  {
  }

  /** What is left of a string by the code is what is left by the positions. */
  lemma {:induction false} RemovedIff(s: string, marks: set<int>, t: string)
    ensures Removed(s, marks) == t <==> StripsTo(s, marks, t)
  {
    hide Removed, StripsTo;
    if s == "" {
      NothingStripped(marks, t);
    } else {
      var n := |s| - 1;
      RemovedLast(s, marks);
      StripsStep(s, marks, t);
      if Kept(s, marks, n) {
        if t != "" {
          RemovedIff(s[..n], marks, t[..|t| - 1]);
          assert t == t[..|t| - 1] + [t[|t| - 1]];
        }
      } else {
        RemovedIff(s[..n], marks, t);
      }
    }
  }

  lemma NothingStripped(marks: set<int>, t: string)
    ensures Removed("", marks) == ""
    ensures StripsTo("", marks, t) <==> t == ""
  {
  }

  /** IsPlaceholdersUsed answers what its comment promises if and only if the target, when it has a placeholder for
      one of the pattern's pairs, is not the pattern without the pairs that its placeholders name, and otherwise is
      the pattern. The code compares with the target and not with the pattern. */
  lemma UsedIsRightIff(pattern: string, target: string)
    ensures (AnswersUsed(pattern, target) <==> Used(pattern, target)) <==>
            if Used(pattern, target) then !StripsTo(pattern, Marks(pattern, target), target) else target == pattern
  {
    hide Selected, Removed, Marks, Values, Used, StripsTo;
    UsedIffSelected(pattern, target);
    if Used(pattern, target) {
      RemovedIff(pattern, Marks(pattern, target), target);
    } else {
      NothingMarked(pattern, target);
      RemovedNothing(pattern, Marks(pattern, target));
    }
  }

  /** For a pattern without an opening brace a placeholder that is used is always reported. */
  lemma UsedIsReported(pattern: string, target: string)
    requires '{' !in pattern && Used(pattern, target)
    ensures AnswersUsed(pattern, target)
  {
    hide Selected, Removed, Marks, Values, Used;
    RemovedKeepsOut(pattern, Marks(pattern, target), '{');
    UsedHasBrace(pattern, target);
  }

  lemma UsedHasBrace(pattern: string, target: string)
    requires Used(pattern, target)
    ensures '{' in target
  {
    hide Values, AllParentheses;
    if '{' !in target {
      NoValues(target);
    }
  }

  lemma NothingMarked(pattern: string, target: string)
    requires forall p :: !Selected(pattern, target, p)
    ensures Marks(pattern, target) == {}
  {
    hide Selected;
  }

  lemma NoValues(target: string)
    requires '{' !in target
    ensures Values(target) == {}
  {
    hide Index;
    IndexIsFirst(target, '{');
    assert Submatches(target) == [];
  }

  /** A wrong true: two different strings without any placeholder or parenthesis. */
  lemma UsedIsWrong()
    ensures !IndexesBelow("b") && !Used("a", "b") && AnswersUsed("a", "b")
  {
    hide Removed, AllParentheses, Values, Marks;
    NoValues("b");
    UsedIffSelected("a", "b");
    NothingMarked("a", "b");
    RemovedNothing("a", Marks("a", "b"));
  }

  /** A target of one placeholder. */
  lemma OnePlaceholder(text: string)
    requires '{' !in text && '}' !in text
    ensures Submatches("{" + text + "}") == [text]
  {
    hide Index;
    var target := "{" + text + "}";
    IndexAfter("", '{', text + "}");
    assert target == "" + ['{'] + (text + "}");
    var rest := target[1..];
    IndexAfter(text, '}', "");
    assert rest == text + ['}'] + "";
    assert rest[..|text|] == text && rest[|text| + 1..] == "";
    IndexIsFirst("", '{');
    assert Submatches("") == [];
  }

  lemma OneDigit(c: char)
    requires '0' <= c <= '9'
    ensures Atoi([c]) == Some((c - '0') as int) && Atoi(['-', c]) == Some(-((c - '0') as int))
  {
    assert [c][..0] == "" && [c][0..] == [c] && ['-', c][1..] == [c];
    assert DigitsValue([c]) == Some((c - '0') as int);
  }

  lemma OneValue(text: string, v: int)
    requires Submatches("{" + text + "}") == [text] && Atoi(text) == Some(v)
    ensures Values("{" + text + "}") == {v}
  {
    hide Submatches, Atoi;
    assert [text][..0] == [];
    assert NumbersOf([text]) == [v];
  }

  /** Two targets for which the code indexes its list below zero. */
  lemma PanicExamples()
    ensures IndexesBelow("{0}") && IndexesBelow("{-1}")
  {
    hide Submatches, Atoi, Values;
    assert "{" + "0" + "}" == "{0}" && "{" + "-1" + "}" == "{-1}";
    OnePlaceholder("0");
    OnePlaceholder("-1");
    OneDigit('0');
    OneDigit('1');
    assert "0" == ['0'] && "-1" == ['-', '1'];
    OneValue("0", 0);
    OneValue("-1", -1);
    assert 0 in Values("{0}") && -1 in Values("{-1}");
  }

  /** A wrong false, for a pattern with a brace: the placeholder is used, and what is left of the pattern is the
      target. */
  lemma UsedIsMissed()
    ensures Used("({1})", "{1}") && !AnswersUsed("({1})", "{1}")
  {
    hide Values, Submatches, Atoi, AllParentheses, Marks, Removed, BalancedPair;
    var s := "({1})";
    assert "{" + "1" + "}" == "{1}";
    OnePlaceholder("1");
    OneDigit('1');
    OneValue("1", 1);
    OnlyPair();
    var all := AllParentheses(s);
    assert Selected(s, "{1}", all[0]);
    assert 0 in Marks(s, "{1}") && 4 in Marks(s, "{1}");
    RemovedExample(Marks(s, "{1}"));
  }

  lemma OnlyPair()
    ensures AllParentheses("({1})") != [] && AllParentheses("({1})")[0] == Parentheses(0, 4)
  {
    hide AllParentheses, Balanced;
    var s := "({1})";
    AllParenthesesExact(s);
    InteriorBalanced();
    assert s[1..4] == "{1}" && BalancedPair(s, 0, 4);
    assert Parentheses(0, 4) in AllParentheses(s);
    var p := AllParentheses(s)[0];
    assert p in AllParentheses(s) && BalancedPair(s, p.openIndex, p.closeIndex);
  }

  lemma InteriorBalanced()
    ensures Balanced("{1}")
  {
    var t := "{1}";
    assert t[..0] == "" && t[..1] == "{" && t[..2] == "{1" && t[..3] == t;
    assert "{1"[..1] == "{" && "{"[..0] == "";
    assert Depth("{") == 0 && Depth("{1") == 0 && Depth(t) == 0;
  }

  lemma RemovedExample(marks: set<int>)
    requires 0 in marks && 4 in marks
    ensures Removed("({1})", marks) == "{1}"
  {
    var s := "({1})";
    assert s[..4] == "({1" + "}" && "({1}"[..3] == "({1" && "({1"[..2] == "({" && "({"[..1] == "(" && "("[..0] == "";
    assert Removed("(", marks) == "";
    assert Removed("({", marks) == "{";
    assert Removed("({1", marks) == "{1";
    assert Removed("({1}", marks) == "{1}";
  }
}
