/** Lists in one string, where a backslash protects a separator
    (splitWhileIgnoringBackslashPrefixSeparators in artifactory/services/utils/properties.go). */
module EscapedSplit {
  import opened Text

  const BACKSLASH: char := '\\'

  /** Reading a string from the left: the parts that are complete and the one being read. A separator completes the
      part unless the part ends in a backslash, whose place it then takes. */
  datatype Reading = Reading(done: seq<string>, cur: string)

  predicate Protects(cur: string) {
    cur != "" && cur[|cur| - 1] == BACKSLASH
  }

  function Read(s: string, sep: char): Reading {
    if s == "" then Reading([], "")
    else
      var r, c := Read(s[..|s| - 1], sep), s[|s| - 1];
      if c != sep then r.(cur := r.cur + [c])
      else if Protects(r.cur) then r.(cur := r.cur[..|r.cur| - 1] + [sep])
      else Reading(r.done + [r.cur], "")
  }

  function Parts(s: string, sep: char): (parts: seq<string>)
    ensures parts != []
  {
    Read(s, sep).done + [Read(s, sep).cur]
  }

  lemma ReadSep(s: string, sep: char)
    ensures var r := Read(s, sep);
            Read(s + [sep], sep)
            == if Protects(r.cur) then r.(cur := r.cur[..|r.cur| - 1] + [sep]) else Reading(r.done + [r.cur], "")
  {
    assert (s + [sep])[..|s|] == s;
  }

  lemma ReadOther(s: string, c: char, sep: char)
    requires c != sep
    ensures Read(s + [c], sep) == var r := Read(s, sep); r.(cur := r.cur + [c])
  {
    assert (s + [c])[..|s|] == s;
  }

  /** Text without a separator goes to the part being read. */
  lemma {:induction false} ReadText(s: string, t: string, sep: char)
    requires sep !in t
    ensures Read(s + t, sep) == var r := Read(s, sep); r.(cur := r.cur + t)
  {
    hide Read;
    if t == "" {
      assert s + t == s;
      assert Read(s, sep).cur + t == Read(s, sep).cur;
    } else {
      var n := |t| - 1;
      ReadText(s, t[..n], sep);
      ReadOther(s + t[..n], t[n], sep);
      assert s + t == (s + t[..n]) + [t[n]];
      assert t == t[..n] + [t[n]];
      assert Read(s, sep).cur + t == Read(s, sep).cur + t[..n] + [t[n]];
    }
  }

  /** The loop of the code splits at every separator and then glues a protected part to the next one, in place. */
  method SplitWhileIgnoringBackslashPrefixSeparators(str: string, separator: char) returns (splitArray: seq<string>)
    ensures splitArray == Parts(str, separator)
  {
    hide Read, Split, Join, Parts, Protects;
    var values := Split(str, separator);
    ghost var orig := values;
    splitArray := [];
    FirstRead(orig, separator);
    for i := 0 to |values|
      invariant |values| == |orig| && forall k :: i < k < |orig| ==> values[k] == orig[k]
      invariant i < |orig| ==> Read(Join(orig[..i + 1], separator), separator) == Reading(splitArray, values[i])
      invariant i == |orig| ==> splitArray == Parts(Join(orig, separator), separator)
    {
      var val := values[i];
      SuffixProtects(val);
      if i + 1 < |values| {
        NextRead(orig, i + 1, separator);
      } else {
        LastRead(orig, separator);
      }
      if HasSuffix(val, [BACKSLASH]) && i + 1 < |values| {
        values := values[i + 1 := val[..|val| - 1] + [separator] + values[i + 1]];
      } else {
        splitArray := splitArray + [val];
      }
    }
    JoinSplit(str, separator);
  }

  lemma SuffixProtects(val: string)
    ensures HasSuffix(val, [BACKSLASH]) <==> Protects(val)
  {
  }

  lemma LastRead(orig: seq<string>, sep: char)
    ensures var r := Read(Join(orig[..|orig|], sep), sep);
            Parts(Join(orig, sep), sep) == r.done + [r.cur]
  {
    assert orig[..|orig|] == orig;
  }

  lemma FirstRead(orig: seq<string>, sep: char)
    requires orig != [] && sep !in orig[0]
    ensures Read(Join(orig[..1], sep), sep) == Reading([], orig[0])
  {
    ReadText("", orig[0], sep);
    assert "" + orig[0] == orig[0];
  }

  lemma NextRead(orig: seq<string>, i: nat, sep: char)
    requires 0 < i < |orig| && sep !in orig[i]
    ensures Read(Join(orig[..i + 1], sep), sep) == (
              var r := Read(Join(orig[..i], sep), sep);
              if Protects(r.cur) then r.(cur := r.cur[..|r.cur| - 1] + [sep] + orig[i])
              else Reading(r.done + [r.cur], orig[i]))
  {
    hide Read, Join;
    var s := Join(orig[..i], sep);
    assert orig[..i + 1] == orig[..i] + [orig[i]];
    JoinConcat(orig[..i], [orig[i]], sep);
    JoinOne(orig[i], sep);
    ReadSep(s, sep);
    ReadText(s + [sep], orig[i], sep);
    assert "" + orig[i] == orig[i];
  }

  lemma JoinOne(part: string, sep: char)
    ensures Join([part], sep) == part
  {
  }

  // ----- Escaping -----

  /** strings.ReplaceAll of the separator by the protected separator. */
  function Escape(v: string, sep: char): string {
    if v == "" then ""
    else Escape(v[..|v| - 1], sep) + if v[|v| - 1] == sep then [BACKSLASH, sep] else [v[|v| - 1]]
  }

  /** The escaped values, joined by the separator. */
  function JoinEscaped(vs: seq<string>, sep: char): string {
    if vs == [] then ""
    else
      var n := |vs| - 1;
      (if n == 0 then "" else JoinEscaped(vs[..n], sep) + [sep]) + Escape(vs[n], sep)
  }

  lemma ReadProtected(s: string, sep: char)
    requires sep != BACKSLASH
    ensures Read(s + [BACKSLASH, sep], sep) == var r := Read(s, sep); r.(cur := r.cur + [sep])
  {
    hide Read;
    assert s + [BACKSLASH, sep] == s + [BACKSLASH] + [sep];
    ReadText(s, [BACKSLASH], sep);
    ReadSep(s + [BACKSLASH], sep);
    var cur := Read(s, sep).cur;
    assert (cur + [BACKSLASH])[..|cur|] == cur;
  }

  /** Reading an escaped value adds the value to the part being read. */
  lemma {:induction false} ReadEscaped(s: string, v: string, sep: char)
    requires sep != BACKSLASH
    ensures Read(s + Escape(v, sep), sep) == var r := Read(s, sep); r.(cur := r.cur + v)
  {
    hide Read;
    var cur := Read(s, sep).cur;
    if v == "" {
      assert s + Escape(v, sep) == s && cur + v == cur;
    } else {
      var n := |v| - 1;
      var e := Escape(v[..n], sep);
      ReadEscaped(s, v[..n], sep);
      assert v == v[..n] + [v[n]];
      assert cur + v == cur + v[..n] + [v[n]];
      if v[n] == sep {
        assert s + Escape(v, sep) == s + e + [BACKSLASH, sep];
        ReadProtected(s + e, sep);
      } else {
        assert s + Escape(v, sep) == s + e + [v[n]];
        ReadText(s + e, [v[n]], sep);
      }
    }
  }

  /** A value other than the last ends in a backslash: the separator after it is read as protected. */
  ghost predicate Glued(vs: seq<string>) {
    exists k :: 0 <= k < |vs| - 1 && Protects(vs[k])
  }

  lemma {:induction false} ReadJoinEscaped(vs: seq<string>, sep: char)
    requires vs != [] && sep != BACKSLASH
    ensures var r := Read(JoinEscaped(vs, sep), sep);
            && (if Glued(vs) then |r.done| < |vs| - 1 else r == Reading(vs[..|vs| - 1], vs[|vs| - 1]))
            && (Protects(r.cur) <==> Protects(vs[|vs| - 1]))
  {
    hide Read, Escape;
    var n := |vs| - 1;
    var v := vs[n];
    if n == 0 {
      ReadNothing(sep);
      ReadEscaped("", v, sep);
      assert "" + Escape(v, sep) == Escape(v, sep) && "" + v == v;
    } else {
      var front := vs[..n];
      ReadJoinEscaped(front, sep);
      ReadSep(JoinEscaped(front, sep), sep);
      ReadEscaped(JoinEscaped(front, sep) + [sep], v, sep);
      assert "" + v == v;
      assert front == front[..n - 1] + [front[n - 1]];
      GluedMore(vs);
    }
  }

  lemma ReadNothing(sep: char)
    ensures Read("", sep) == Reading([], "")
  {
  }

  lemma GluedMore(vs: seq<string>)
    requires |vs| > 1
    ensures Glued(vs) <==> Glued(vs[..|vs| - 1]) || Protects(vs[|vs| - 2])
  {
    var front := vs[..|vs| - 1];
    if Glued(front) {
      var k :| 0 <= k < |front| - 1 && Protects(front[k]);
      assert Protects(vs[k]);
    }
    if Glued(vs) {
      var k :| 0 <= k < |vs| - 1 && Protects(vs[k]);
      assert k < |front| - 1 ==> Protects(front[k]);
    }
  }

  /** Splitting undoes escaping and joining if and only if no value but the last ends in a backslash. */
  lemma SplitUndoesJoin(vs: seq<string>, sep: char)
    requires vs != [] && sep != BACKSLASH
    ensures Parts(JoinEscaped(vs, sep), sep) == vs <==> !Glued(vs)
  {
    hide Read, JoinEscaped, Glued;
    ReadJoinEscaped(vs, sep);
    assert vs == vs[..|vs| - 1] + [vs[|vs| - 1]];
  }

  // ----- The other way round -----

  lemma EscapeStep(v: string, c: char, sep: char)
    ensures Escape(v + [c], sep) == Escape(v, sep) + if c == sep then [BACKSLASH, sep] else [c]
  {
    assert (v + [c])[..|v|] == v;
  }

  lemma JoinEscapedStep(vs: seq<string>, v: string, sep: char)
    ensures JoinEscaped(vs + [v], sep) == (if vs == [] then "" else JoinEscaped(vs, sep) + [sep]) + Escape(v, sep)
  {
    assert (vs + [v])[..|vs|] == vs;
  }

  /** Joining undoes splitting, for every string. */
  lemma {:induction false} JoinUndoesSplit(s: string, sep: char)
    requires sep != BACKSLASH
    ensures JoinEscaped(Parts(s, sep), sep) == s
  {
    hide Read, Escape, JoinEscaped;
    if s == "" {
      ReadNothing(sep);
      JoinEscapedStep([], "", sep);
      NothingEscaped(sep);
    } else {
      var n := |s| - 1;
      var t, c := s[..n], s[n];
      JoinUndoesSplit(t, sep);
      var r := Read(t, sep);
      JoinEscapedStep(r.done, r.cur, sep);
      assert s == t + [c];
      if c != sep {
        ReadText(t, [c], sep);
        EscapeStep(r.cur, c, sep);
        JoinEscapedStep(r.done, r.cur + [c], sep);
      } else {
        ReadSep(t, sep);
        ReadsSeparator(r, t, sep);
      }
    }
  }

  lemma NothingEscaped(sep: char)
    ensures Escape("", sep) == ""
  {
  }

  lemma ReadsSeparator(r: Reading, t: string, sep: char)
    requires sep != BACKSLASH && JoinEscaped(r.done + [r.cur], sep) == t
    ensures var r' := if Protects(r.cur) then r.(cur := r.cur[..|r.cur| - 1] + [sep])
                      else Reading(r.done + [r.cur], "");
            JoinEscaped(r'.done + [r'.cur], sep) == t + [sep]
  {
    hide Escape, JoinEscaped;
    JoinEscapedStep(r.done, r.cur, sep);
    if Protects(r.cur) {
      var u := r.cur[..|r.cur| - 1];
      assert r.cur == u + [BACKSLASH];
      EscapeStep(u, BACKSLASH, sep);
      EscapeStep(u, sep, sep);
      JoinEscapedStep(r.done, u + [sep], sep);
      assert Escape(u, sep) + [BACKSLASH, sep] == Escape(u, sep) + [BACKSLASH] + [sep];
    } else {
      JoinEscapedStep(r.done + [r.cur], "", sep);
      NothingEscaped(sep);
    }
  }

  lemma {:induction false} EscapeLength(v: string, sep: char)
    ensures |Escape(v, sep)| >= |v|
    ensures |Escape(v, sep)| == |v| ==> sep !in v
    ensures sep !in v ==> Escape(v, sep) == v
  {
    if v != "" {
      EscapeLength(v[..|v| - 1], sep);
      assert v == v[..|v| - 1] + [v[|v| - 1]];
    }
  }

  lemma JoinLast(parts: seq<string>, last: string, sep: char)
    ensures Join(parts + [last], sep) == (if parts == [] then "" else Join(parts, sep) + [sep]) + last
  {
    JoinOne(last, sep);
    if parts == [] {
      assert [] + [last] == [last];
    } else {
      JoinConcat(parts, [last], sep);
    }
  }

  lemma {:induction false} NothingToEscape(vs: seq<string>, sep: char)
    requires forall i :: 0 <= i < |vs| ==> sep !in vs[i]
    ensures JoinEscaped(vs, sep) == Join(vs, sep)
  {
    hide Join, Escape;
    if vs == [] {
      NothingJoined(sep);
    } else {
      var n := |vs| - 1;
      NothingToEscape(vs[..n], sep);
      EscapeLength(vs[n], sep);
      assert vs == vs[..n] + [vs[n]];
      JoinLast(vs[..n], vs[n], sep);
    }
  }

  lemma NothingJoined(sep: char)
    ensures Join([], sep) == ""
  {
  }

  /** Parts without separators are found again in their join if and only if no separator is protected. */
  lemma SplitUndoesPlainJoin(vs: seq<string>, sep: char)
    requires vs != [] && sep != BACKSLASH && forall i :: 0 <= i < |vs| ==> sep !in vs[i]
    ensures Parts(Join(vs, sep), sep) == vs <==> !Glued(vs)
  {
    hide Join, Glued;
    NothingToEscape(vs, sep);
    SplitUndoesJoin(vs, sep);
  }
}
