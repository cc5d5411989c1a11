/** Which numbers the placeholders of a target hold: those that stand between braces as decimal numerals
    (getPlaceHoldersValues in utils/parenthesesutils.go). */
module PlaceholderNumbers {
  import opened Wrappers
  import opened Text
  import opened Placeholders

  // ----- Numerals -----

  function Digit(n: nat): (c: char)
    requires n < 10
    ensures '0' <= c <= '9'
  {
    '0' + n as char
  }

  /** The decimal numeral of a number. */
  function Numeral(n: nat): (t: string)
    ensures t != "" && AllDigits(t)
  {
    if n < 10 then [Digit(n)] else Numeral(n / 10) + [Digit(n % 10)]
  }

  predicate AllDigits(t: string) {
    forall i :: 0 <= i < |t| ==> '0' <= t[i] <= '9'
  }

  function Zeros(n: nat): (z: string)
    ensures AllDigits(z)
  {
    if n == 0 then "" else Zeros(n - 1) + "0"
  }

  lemma DigitsStep(t: string, c: char)
    ensures DigitsValue(t + [c])
         == if DigitsValue(t).Some? && '0' <= c <= '9' then Some(10 * DigitsValue(t).value + (c - '0') as int) else None
  {
    assert (t + [c])[..|t|] == t;
  }

  lemma NoDigits()
    ensures DigitsValue("") == Some(0)
  {
  }

  lemma {:induction false} ZerosValue(n: nat)
    ensures DigitsValue(Zeros(n)) == Some(0)
  {
    hide DigitsValue;
    if n == 0 {
      NoDigits();
    } else {
      ZerosValue(n - 1);
      DigitsStep(Zeros(n - 1), '0');
    }
  }

  /** A numeral denotes its number, also after zeros. */
  lemma {:induction false} NumeralValue(zeros: nat, n: nat)
    ensures DigitsValue(Zeros(zeros) + Numeral(n)) == Some(n)
    decreases n
  {
    hide DigitsValue;
    if n < 10 {
      ZerosValue(zeros);
      DigitsStep(Zeros(zeros), Digit(n));
    } else {
      NumeralValue(zeros, n / 10);
      assert Zeros(zeros) + Numeral(n) == Zeros(zeros) + Numeral(n / 10) + [Digit(n % 10)];
      DigitsStep(Zeros(zeros) + Numeral(n / 10), Digit(n % 10));
    }
  }

  lemma {:induction false} DigitsValueNone(t: string)
    ensures DigitsValue(t).Some? <==> AllDigits(t)
  {
    if t != "" {
      DigitsValueNone(t[..|t| - 1]);
      assert t == t[..|t| - 1] + [t[|t| - 1]];
      assert AllDigits(t) ==> AllDigits(t[..|t| - 1]);
    }
  }

  /** Every text of digits is the numeral of a number, after zeros. */
  lemma {:induction false} DigitsAreNumeral(t: string) returns (zeros: nat, n: nat)
    requires t != "" && AllDigits(t)
    ensures t == Zeros(zeros) + Numeral(n)
  {
    hide Numeral, Zeros;
    var k := |t| - 1;
    var d := (t[k] - '0') as int;
    assert t == t[..k] + [t[k]] && Digit(d) == t[k];
    OneDigitNumeral(d);
    if k == 0 {
      zeros, n := 0, d;
      NoZeros();
      assert "" + [t[0]] == t;
    } else {
      var z, m := DigitsAreNumeral(t[..k]);
      if m == 0 {
        zeros, n := z + 1, d;
        OneDigitNumeral(0);
        MoreZeros(z);
      } else {
        zeros, n := z, 10 * m + d;
        LongNumeral(m, d);
        assert Zeros(z) + Numeral(m) + [Digit(d)] == Zeros(z) + Numeral(n);
      }
    }
  }

  lemma OneDigitNumeral(d: nat)
    requires d < 10
    ensures Numeral(d) == [Digit(d)]
  {
  }

  lemma LongNumeral(m: nat, d: nat)
    requires m > 0 && d < 10
    ensures Numeral(10 * m + d) == Numeral(m) + [Digit(d)]
  {
  }

  lemma NoZeros()
    ensures Zeros(0) == ""
  {
  }

  lemma MoreZeros(n: nat)
    ensures Zeros(n + 1) == Zeros(n) + "0" && "0" == [Digit(0)]
  {
  }

  // ----- Texts between braces -----

  /** An optional sign. */
  predicate IsSign(s: string) {
    s == "" || s == "-" || s == "+"
  }

  function Signed(sign: string, n: nat): int {
    if sign == "-" then 0 - n else n
  }

  /** The text of a signed numeral is read as its number, if that fits 64 bits. */
  lemma AtoiNumeral(sign: string, zeros: nat, n: nat)
    requires IsSign(sign)
    ensures var v := Signed(sign, n);
            Atoi(sign + (Zeros(zeros) + Numeral(n))) == if MIN_INT <= v <= MAX_INT then Some(v) else None
  {
    hide DigitsValue, Numeral, Zeros;
    var t := Zeros(zeros) + Numeral(n);
    NumeralValue(zeros, n);
    var s := sign + t;
    assert s[|sign|..] == t;
    assert '0' <= t[0] <= '9';
    assert sign != "" ==> s[0] == sign[0];
  }

  /** Any other text is no number. */
  lemma AtoiOther(s: string)
    requires forall sign, t :: IsSign(sign) && t != "" && AllDigits(t) ==> s != sign + t
    ensures Atoi(s) == None
  {
    hide DigitsValue;
    var n := if s != "" && (s[0] == '-' || s[0] == '+') then 1 else 0;
    DigitsValueNone(s[n..]);
    assert s == s[..n] + s[n..];
    assert n == 1 ==> s[..n] == [s[0]];
    assert IsSign(s[..n]);
  }

  // ----- Values of a target -----

  lemma {:induction false} NumbersCons(t: string, texts: seq<string>)
    ensures NumbersOf([t] + texts) == (if Atoi(t).Some? then [Atoi(t).value] else []) + NumbersOf(texts)
  {
    hide Atoi;
    var n := |texts|;
    if n == 0 {
      assert [t] + texts == [t] && [t][..0] == [];
      assert NumbersOf([t]) == NumbersOf([]) + if Atoi(t).Some? then [Atoi(t).value] else [];
    } else {
      assert ([t] + texts)[..n] == [t] + texts[..n - 1];
      NumbersCons(t, texts[..n - 1]);
    }
  }

  /** The first placeholder of a target, and the rest. */
  lemma SubmatchesStep(x: string, t: string, y: string)
    requires '{' !in x && '}' !in t
    ensures Submatches(x + "{" + t + "}" + y) == [t] + Submatches(y)
  {
    hide Index;
    var target := x + "{" + t + "}" + y;
    assert target == x + ['{'] + (t + "}" + y);
    IndexAfter(x, '{', t + "}" + y);
    var rest := target[|x| + 1..];
    assert rest == t + ['}'] + y;
    IndexAfter(t, '}', y);
    assert rest[..|t|] == t && rest[|t| + 1..] == y;
  }

  /** A text between braces adds its number to those of what follows it. */
  lemma ValuesStep(x: string, t: string, y: string)
    requires '{' !in x && '}' !in t
    ensures Values(x + "{" + t + "}" + y) == (if Atoi(t).Some? then {Atoi(t).value} else {}) + Values(y)
  {
    hide Atoi, Submatches;
    SubmatchesStep(x, t, y);
    NumbersCons(t, Submatches(y));
  }

  /** Without a complete pair of braces there are no values. */
  lemma NoPlaceholder(x: string, t: string)
    requires '{' !in x && '}' !in t
    ensures Values(x) == {} && Values(x + "{" + t) == {}
  {
    hide Index;
    IndexIsFirst(x, '{');
    assert Submatches(x) == [];
    assert x + "{" + t == x + ['{'] + t;
    IndexAfter(x, '{', t);
    assert (x + "{" + t)[|x| + 1..] == t;
    IndexIsFirst(t, '}');
    assert Submatches(x + "{" + t) == [];
  }

  /** The number fits 64 bits. */
  predicate Fits(v: int) {
    -0x8000_0000_0000_0000 <= v < 0x8000_0000_0000_0000
  }

  /** For every target: a number between braces, with or without a sign and leading zeros, is a value if it fits
      64 bits, a text between braces that is no number adds none, and what follows is read in the same way. */
  lemma ValuesOfTarget(x: string, t: string, y: string, sign: string, zeros: nat, n: nat)
    requires '{' !in x && '}' !in t
    ensures Values(x) == {} && Values(x + "{" + t) == {}
    ensures IsSign(sign) && t == sign + (Zeros(zeros) + Numeral(n)) ==>
              var v := Signed(sign, n);
              Values(x + "{" + t + "}" + y) == (if Fits(v) then {v} else {}) + Values(y)
    ensures (forall s, d :: IsSign(s) && d != "" && AllDigits(d) ==> t != s + d) ==>
              Values(x + "{" + t + "}" + y) == Values(y)
  {
    hide Atoi, Values, Numeral, Zeros, AllDigits;
    NoPlaceholder(x, t);
    ValuesStep(x, t, y);
    if IsSign(sign) && t == sign + (Zeros(zeros) + Numeral(n)) {
      AtoiNumeral(sign, zeros, n);
    }
    if forall s, d :: IsSign(s) && d != "" && AllDigits(d) ==> t != s + d {
      AtoiOther(t);
    }
  }

  /** Two placeholders in any order, and one of several digits. */
  lemma ValuesExample()
    ensures Values("{2}/{1}") == {1, 2} && Values("a{12}") == {12}
  {
    hide Values, Atoi, Submatches;
    assert "" + "{" + "2" + "}" + "/{1}" == "{2}/{1}";
    assert "/" + "{" + "1" + "}" + "" == "/{1}";
    assert "a" + "{" + "12" + "}" + "" == "a{12}";
    ValuesStep("", "2", "/{1}");
    ValuesStep("/", "1", "");
    ValuesStep("a", "12", "");
    NoPlaceholder("", "");
    SmallNumerals();
    AtoiNumeral("", 0, 1);
    AtoiNumeral("", 0, 2);
    AtoiNumeral("", 0, 12);
  }

  lemma SmallNumerals()
    ensures "" + (Zeros(0) + Numeral(1)) == "1" && "" + (Zeros(0) + Numeral(2)) == "2"
    ensures "" + (Zeros(0) + Numeral(12)) == "12"
  {
    assert Numeral(12) == Numeral(1) + [Digit(2)];
  }
}
