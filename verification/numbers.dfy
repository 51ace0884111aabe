/** JavaScript's `parseFloat` over exact rational numbers. */
module Numbers {
  import opened Wrappers
  import opened Text

  function Pow10(n: nat): (r: real)
    ensures r >= 1.0
  {
    if n == 0 then 1.0 else 10.0 * Pow10(n - 1)
  }

  /** The value of a string of decimal digits, most significant first. */
  function DigitsValue(ds: string): nat
    requires AllDigits(ds)
  {
    if |ds| == 0 then 0
    else DigitsValue(ds[..|ds| - 1]) * 10 + (ds[|ds| - 1] as int - '0' as int)
  }

  /** The end of the run of decimal digits that starts at index `i`. */
  function DigitRun(s: string, i: nat): (j: nat)
    requires i <= |s|
    ensures i <= j <= |s| && AllDigits(s[i..j])
    ensures j < |s| ==> !IsDigit(s[j])
    ensures i < |s| && IsDigit(s[i]) ==> j > i
    decreases |s| - i
  {
    if i < |s| && IsDigit(s[i]) then
      var j := DigitRun(s, i + 1);
      assert s[i..j] == [s[i]] + s[i + 1..j];
      j
    else i
  }

  /** The exponent part at index `i` (`e` or `E`, an optional sign, at least
      one digit) as its value and the index after it; `(0, i)` when no
      complete exponent part starts there. */
  function ExponentAt(s: string, i: nat): (r: (int, nat))
    requires i <= |s|
    ensures i <= r.1 <= |s|
    ensures r.1 == i ==> r.0 == 0
  {
    if i < |s| && (s[i] == 'e' || s[i] == 'E') then
      var signed := i + 1 < |s| && (s[i + 1] == '+' || s[i + 1] == '-');
      var start := if signed then i + 2 else i + 1;
      var stop := DigitRun(s, start);
      if stop == start then (0, i)
      else
        var n: int := DigitsValue(s[start..stop]);
        (if signed && s[i + 1] == '-' then -n else n, stop)
    else (0, i)
  }

  /** The value of the digits `whole.fraction`. */
  function Mantissa(whole: string, fraction: string): real
    requires AllDigits(whole) && AllDigits(fraction)
  {
    DigitsValue(whole) as real + DigitsValue(fraction) as real / Pow10(|fraction|)
  }

  /** m · 10^e */
  function Scale(m: real, e: int): real {
    if e >= 0 then m * Pow10(e) else m / Pow10(-e)
  }

  /** A decimal literal starts at the beginning of `t`: an optional sign,
      then a digit, or a point followed by a digit. */
  predicate StartsNumber(t: string) {
    var i := if |t| > 0 && (t[0] == '+' || t[0] == '-') then 1 else 0;
    (i < |t| && IsDigit(t[i])) || (i + 1 < |t| && t[i] == '.' && IsDigit(t[i + 1]))
  }

  /** `parseFloat(s)`: skips leading white space, then reads the longest
      prefix that is a decimal literal (optional sign, digits with an optional
      fraction, optional exponent); `None` (NaN) when no literal starts there. */
  function ParseFloat(s: string): (r: Option<real>)
    ensures r.Some? ==> exists i :: 0 <= i < |s| && IsDigit(s[i])
    ensures r.Some? <==> StartsNumber(TrimStart(s))
  {
    var t := TrimStart(s);
    var r := ParseLiteral(t);
    if r.Some? then
      DigitWitness(s, t);
      r
    else r
  }

  /** The longest decimal literal at the start of `t`. */
  function ParseLiteral(t: string): (r: Option<real>)
    ensures r.Some? ==> exists p :: 0 <= p < |t| && IsDigit(t[p])
    ensures r.Some? <==> StartsNumber(t)
  {
    var neg := |t| > 0 && t[0] == '-';
    var i := if |t| > 0 && (t[0] == '+' || t[0] == '-') then 1 else 0;
    var j := DigitRun(t, i);
    var point := j < |t| && t[j] == '.';
    var k := if point then DigitRun(t, j + 1) else j;
    var fraction := if point then t[j + 1..k] else "";
    if j == i && |fraction| == 0 then None
    else
      var magnitude := Scale(Mantissa(t[i..j], fraction), ExponentAt(t, k).0);
      assert if j > i then IsDigit(t[i..j][0]) else IsDigit(fraction[0]);
      Some(if neg then -magnitude else magnitude)
  }

  /** A digit of a suffix is a digit of the text. */
  lemma DigitWitness(s: string, t: string)
    requires |t| <= |s| && t == s[|s| - |t|..] && exists p :: 0 <= p < |t| && IsDigit(t[p])
    ensures exists i :: 0 <= i < |s| && IsDigit(s[i])
  {
    var p :| 0 <= p < |t| && IsDigit(t[p]);
    assert s[|s| - |t| + p] == t[p];
  }

  /** `parseFloat(text)` of an optional value: `parseFloat(undefined)` is NaN. */
  function ParseFloatOpt(text: Option<string>): (r: Option<real>)
    ensures text.None? ==> r.None?
    ensures text.Some? ==> r == ParseFloat(text.value)
  {
    match text
    case None => None
    case Some(t) => ParseFloat(t)
  }

  /** A run of digits ending the text or followed by a non-digit is read whole. */
  lemma DigitRunOf(s: string, i: nat, j: nat)
    requires i <= j <= |s| && AllDigits(s[i..j]) && (j < |s| ==> !IsDigit(s[j]))
    ensures DigitRun(s, i) == j
    decreases j - i
  {
    if i < j {
      assert s[i] == s[i..j][0];
      assert s[i + 1..j] == s[i..j][1..];
      DigitRunOf(s, i + 1, j);
    }
  }

  /** A plain decimal `a.b` (either side may be empty, not both) reads as its value. */
  lemma ParseDecimal(a: string, b: string)
    requires AllDigits(a) && AllDigits(b) && |a| + |b| > 0
    ensures ParseFloat(a + "." + b) == Some(Mantissa(a, b))
  {
    var s := a + "." + b;
    var j := |a|;
    assert s[0..j] == a;
    assert s[j + 1..|s|] == b;
    assert s[j] == '.';
    assert AllDigits(s[0..j]) && AllDigits(s[j + 1..|s|]);
    DigitRunOf(s, 0, j);
    DigitRunOf(s, j + 1, |s|);
    LiteralOfDecimal(s, j);
    assert !IsSpace(s[0]) by {
      if j > 0 {
        assert s[0] == a[0];
      }
    }
    assert TrimStart(s) == s;
  }

  lemma LiteralOfDecimal(s: string, j: nat)
    requires j < |s| && s[j] == '.' && DigitRun(s, 0) == j && DigitRun(s, j + 1) == |s|
    requires j + 1 < |s| || j > 0
    ensures ParseLiteral(s) == Some(Mantissa(s[0..j], s[j + 1..|s|]))
  {
    assert s[0] != '+' && s[0] != '-' by {
      if j > 0 {
        assert IsDigit(s[0..j][0]);
      }
    }
    assert ExponentAt(s, |s|) == (0, |s|);
    ScaleByZero(Mantissa(s[0..j], s[j + 1..|s|]));
  }

  /** A decimal `a.b` with an optional sign, followed by text that cannot
      continue the literal, reads as its signed value: the rest is ignored. */
  lemma ParseSignedDecimal(sign: string, a: string, b: string, rest: string)
    requires sign == "" || sign == "-" || sign == "+"
    requires AllDigits(a) && AllDigits(b) && |a| + |b| > 0
    requires |rest| > 0 ==> !IsDigit(rest[0]) && rest[0] != 'e' && rest[0] != 'E'
    ensures ParseFloat(sign + a + "." + b + rest) ==
      Some(if sign == "-" then -Mantissa(a, b) else Mantissa(a, b))
  {
    var s := sign + a + "." + b + rest;
    var k := |sign| + |a| + 1 + |b|;
    assert ExponentAt(s, k) == (0, k) by {
      assert s[k..] == rest;
      if k < |s| {
        assert s[k] == s[k..][0];
      }
    }
    LiteralOfLayout(sign, a, b, rest, 0);
    ScaleByZero(Mantissa(a, b));
  }

  /** Text that does not start with white space is read from its start. */
  lemma ParseUnpadded(s: string)
    requires |s| > 0 && !IsSpace(s[0])
    ensures ParseFloat(s) == ParseLiteral(s)
  {
  }

  /** A decimal `a.b` with an optional sign and an exponent (`e` or `E`, an
      optional sign, digits `n`), followed by text that does not go on with a
      digit, reads as the mantissa scaled by that power of ten. */
  lemma ParseScientific(sign: string, a: string, b: string, e: char, esign: string, n: string, rest: string)
    requires sign == "" || sign == "-" || sign == "+"
    requires AllDigits(a) && AllDigits(b) && |a| + |b| > 0
    requires e == 'e' || e == 'E'
    requires esign == "" || esign == "-" || esign == "+"
    requires AllDigits(n) && |n| > 0
    requires |rest| > 0 ==> !IsDigit(rest[0])
    ensures ParseFloat(sign + a + "." + b + ([e] + esign + n + rest)) ==
      Some(Signed(sign, Scale(Mantissa(a, b), SignedValue(esign, n))))
  {
    var x := [e] + esign + n + rest;
    var s := sign + a + "." + b + x;
    var k := |sign| + |a| + 1 + |b|;
    assert ExponentAt(s, k).0 == SignedValue(esign, n) by {
      assert s[k..] == x;
      ExponentLayout(s, k, e, esign, n, rest);
    }
    LiteralOfLayout(sign, a, b, x, SignedValue(esign, n));
  }

  /** The literal `sign a.b` followed by `x`, which does not go on with a
      digit and holds an exponent of value `ex` (0 when there is none). */
  lemma LiteralOfLayout(sign: string, a: string, b: string, x: string, ex: int)
    requires sign == "" || sign == "-" || sign == "+"
    requires AllDigits(a) && AllDigits(b) && |a| + |b| > 0
    requires |x| > 0 ==> !IsDigit(x[0])
    requires ExponentAt(sign + a + "." + b + x, |sign| + |a| + 1 + |b|).0 == ex
    ensures ParseFloat(sign + a + "." + b + x) == Some(Signed(sign, Scale(Mantissa(a, b), ex)))
  {
    var s := sign + a + "." + b + x;
    DecimalLayout(sign, a, b, x);
    LiteralAt(s, |sign|, |sign| + |a|, |sign| + |a| + 1 + |b|, a, b, ex);
    ParseUnpadded(s);
  }

  /** Digits `a` with an optional sign and no point, followed by text that
      cannot continue the literal, read as their signed integer value: the
      rest is ignored. */
  lemma ParseSignedWhole(sign: string, a: string, rest: string)
    requires sign == "" || sign == "-" || sign == "+"
    requires AllDigits(a) && |a| > 0
    requires |rest| > 0 ==> !IsDigit(rest[0]) && rest[0] != '.' && rest[0] != 'e' && rest[0] != 'E'
    ensures ParseFloat(sign + a + rest) == Some(Signed(sign, DigitsValue(a) as real))
  {
    var s := sign + a + rest;
    var j := |sign| + |a|;
    assert ExponentAt(s, j) == (0, j) by {
      assert s[j..] == rest;
      if j < |s| {
        assert s[j] == s[j..][0];
      }
    }
    WholeOfLayout(sign, a, rest);
    assert Scale(Mantissa(a, ""), 0) == DigitsValue(a) as real by {
      ScaleByZero(Mantissa(a, ""));
      MantissaWhole(a);
    }
  }

  /** The literal `sign a` followed by `rest`, which does not go on with a
      digit or a point and holds no exponent. */
  lemma WholeOfLayout(sign: string, a: string, rest: string)
    requires sign == "" || sign == "-" || sign == "+"
    requires AllDigits(a) && |a| > 0
    requires |rest| > 0 ==> !IsDigit(rest[0]) && rest[0] != '.'
    requires ExponentAt(sign + a + rest, |sign| + |a|).0 == 0
    ensures ParseFloat(sign + a + rest) == Some(Signed(sign, Scale(Mantissa(a, ""), 0)))
  {
    var s := sign + a + rest;
    var j := |sign| + |a|;
    WholeLayout(sign, a, rest);
    WholeLiteralAt(s, |sign|, j, a);
    SignedAgrees(sign, s[0] == '-', Scale(Mantissa(a, ""), 0), Scale(Mantissa(a, ""), 0));
    ParseUnpadded(s);
  }

  /** Where the pieces of `sign + a + rest` sit, and the digit run they make. */
  lemma WholeLayout(sign: string, a: string, rest: string)
    requires sign == "" || sign == "-" || sign == "+"
    requires AllDigits(a) && |a| > 0
    requires |rest| > 0 ==> !IsDigit(rest[0]) && rest[0] != '.'
    ensures var s := sign + a + rest;
            var j := |sign| + |a|;
            && j <= |s| && s[|sign|..j] == a && DigitRun(s, |sign|) == j
            && (j < |s| ==> s[j] != '.')
            && (|s| > 0 && (s[0] == '+' || s[0] == '-') <==> |sign| == 1)
            && (s[0] == '-' <==> sign == "-")
            && !IsSpace(s[0])
  {
    var s := sign + a + rest;
    var j := |sign| + |a|;
    assert s[|sign|..j] == a;
    assert s[j..] == rest;
    if j < |s| {
      assert s[j] == rest[0];
    }
    DigitRunOf(s, |sign|, j);
    assert s[0] == if |sign| > 0 then sign[0] else a[0];
  }

  /** The literal read at the start of `s` when its sign takes `i`
      characters and its digits `a` run to `j`, with no point after them. */
  lemma WholeLiteralAt(s: string, i: nat, j: nat, a: string)
    requires i <= j <= |s| && i <= 1
    requires |s| > 0 && (s[0] == '+' || s[0] == '-') <==> i == 1
    requires DigitRun(s, i) == j && s[i..j] == a && |a| > 0
    requires j < |s| ==> s[j] != '.'
    requires ExponentAt(s, j).0 == 0
    ensures AllDigits(a)
    ensures ParseLiteral(s) == Some(if s[0] == '-' then -Scale(Mantissa(a, ""), 0) else Scale(Mantissa(a, ""), 0))
  {
  }

  lemma SignedAgrees(sign: string, neg: bool, m: real, v: real)
    requires neg == (sign == "-") && m == v
    ensures (if neg then -m else m) == Signed(sign, v)
  {
  }

  /** `parseFloat("5%")` is 5: the percent sign ends the literal. */
  lemma PercentExample()
    ensures ParseFloat("5%") == Some(5.0)
  {
    var digits := "5";
    assert AllDigits(digits) && DigitsValue(digits) == 5;
    assert "" + digits + "%" == "5%";
    ParseSignedWhole("", digits, "%");
  }

  /** `parseFloat("-1")` is -1. */
  lemma NegativeWholeExample()
    ensures ParseFloat("-1") == Some(-1.0)
  {
    var digits := "1";
    assert AllDigits(digits) && DigitsValue(digits) == 1;
    assert "-" + digits + "" == "-1";
    ParseSignedWhole("-", digits, "");
  }

  /** Text whose first character cannot start a literal, or a doubled sign,
      is NaN even when a digit follows. */
  lemma NotANumberExamples()
    ensures ParseFloat("abc5").None?
    ensures ParseFloat("--1").None?
    ensures ParseFloat("%5").None?
  {
    NoLiteral("abc5");
    NoLiteral("--1");
    NoLiteral("%5");
  }

  /** Text that starts with neither white space nor a literal is NaN. */
  lemma NoLiteral(s: string)
    requires |s| > 0 && !IsSpace(s[0]) && !StartsNumber(s)
    ensures ParseFloat(s).None?
  {
    ParseUnpadded(s);
  }

  /** A falling fund's `gszzl`, "-0.13", reads as -0.13. */
  lemma NegativeRateExample()
    ensures ParseFloat("-0.13") == Some(-0.13)
  {
    var whole, fraction := "0", "13";
    assert AllDigits(whole) && AllDigits(fraction);
    assert Mantissa(whole, fraction) == 0.13 by {
      assert DigitsValue(whole) == 0;
      assert fraction[..1] == "1";
      assert DigitsValue(fraction) == 13;
      assert Pow10(2) == 100.0;
    }
    assert "-" + whole + "." + fraction + "" == "-0.13";
    ParseSignedDecimal("-", whole, fraction, "");
  }

  /** `v` under the sign `sign`. */
  function Signed(sign: string, v: real): real {
    if sign == "-" then -v else v
  }

  /** The value of the digits `n` under the sign `esign`. */
  function SignedValue(esign: string, n: string): int
    requires AllDigits(n)
  {
    if esign == "-" then -(DigitsValue(n) as int) else DigitsValue(n)
  }

  /** Where the pieces of `sign + a + "." + b + rest` sit, and the digit runs
      they make. */
  lemma DecimalLayout(sign: string, a: string, b: string, rest: string)
    requires sign == "" || sign == "-" || sign == "+"
    requires AllDigits(a) && AllDigits(b) && |a| + |b| > 0
    requires |rest| > 0 ==> !IsDigit(rest[0])
    ensures var s := sign + a + "." + b + rest;
            var j := |sign| + |a|;
            && j + 1 + |b| <= |s| && s[|sign|..j] == a && s[j] == '.' && s[j + 1..j + 1 + |b|] == b
            && s[j + 1 + |b|..] == rest
            && DigitRun(s, |sign|) == j && DigitRun(s, j + 1) == j + 1 + |b|
            && (|s| > 0 && (s[0] == '+' || s[0] == '-') <==> |sign| == 1)
            && (|s| > 0 && s[0] == '-' <==> sign == "-")
            && !IsSpace(s[0])
  {
    var s := sign + a + "." + b + rest;
    var j := |sign| + |a|;
    var k := j + 1 + |b|;
    assert s[|sign|..j] == a;
    assert s[j + 1..k] == b;
    assert s[k..] == rest;
    if k < |s| {
      assert s[k] == rest[0];
    }
    DigitRunOf(s, |sign|, j);
    DigitRunOf(s, j + 1, k);
    if |sign| == 0 && |a| > 0 {
      assert s[0] == a[0];
    }
  }

  /** The literal read at the start of `s` when its sign takes `i` characters,
      its whole digits run to `j`, the point sits at `j` and the fraction's
      digits run to `k`, where an exponent of value `ex` may start. */
  lemma LiteralAt(s: string, i: nat, j: nat, k: nat, a: string, b: string, ex: int)
    requires i <= j < k <= |s| && s[j] == '.'
    requires |s| > 0 && (s[0] == '+' || s[0] == '-') <==> i == 1
    requires i <= 1
    requires DigitRun(s, i) == j && DigitRun(s, j + 1) == k
    requires s[i..j] == a && s[j + 1..k] == b && |a| + |b| > 0
    requires ExponentAt(s, k).0 == ex
    ensures AllDigits(a) && AllDigits(b)
    ensures ParseLiteral(s) == Some(if s[0] == '-' then -Scale(Mantissa(a, b), ex) else Scale(Mantissa(a, b), ex))
  {
  }

  /** The exponent part `e esign n` at `k`, followed by text that does not go
      on with a digit. */
  lemma ExponentLayout(s: string, k: nat, e: char, esign: string, n: string, rest: string)
    requires e == 'e' || e == 'E'
    requires esign == "" || esign == "-" || esign == "+"
    requires AllDigits(n) && |n| > 0
    requires |rest| > 0 ==> !IsDigit(rest[0])
    requires k <= |s| && s[k..] == [e] + esign + n + rest
    ensures ExponentAt(s, k).0 == SignedValue(esign, n)
  {
    var x := [e] + esign + n + rest;
    var start := k + 1 + |esign|;
    var stop := start + |n|;
    assert s[k] == x[0];
    if |esign| > 0 {
      assert s[k + 1] == x[1] == esign[0];
    } else {
      assert s[k + 1] == x[1] == n[0];
    }
    assert s[start..stop] == x[1 + |esign|..1 + |esign| + |n|] == n;
    if stop < |s| {
      assert s[stop] == x[1 + |esign| + |n|] == rest[0];
    }
    DigitRunOf(s, start, stop);
  }

  /** A whole number in decimal digits reads as its value. */
  lemma {:induction false} ParseDigits(a: string)
    requires AllDigits(a) && |a| > 0
    ensures ParseFloat(a) == Some(DigitsValue(a) as real)
  {
    assert a[0..|a|] == a;
    DigitRunOf(a, 0, |a|);
    LiteralOfWhole(a);
    assert !IsSpace(a[0]);
    assert TrimStart(a) == a;
  }

  lemma LiteralOfWhole(s: string)
    requires 0 < |s| && DigitRun(s, 0) == |s|
    ensures ParseLiteral(s) == Some(DigitsValue(s[0..|s|]) as real)
  {
    assert IsDigit(s[0..|s|][0]);
    assert ExponentAt(s, |s|) == (0, |s|);
    ScaleByZero(Mantissa(s[0..|s|], ""));
    MantissaWhole(s[0..|s|]);
  }

  lemma ScaleByZero(m: real)
    ensures Scale(m, 0) == m
  {
    assert Pow10(0) == 1.0;
  }

  lemma MantissaWhole(a: string)
    requires AllDigits(a)
    ensures Mantissa(a, "") == DigitsValue(a) as real
  {
    assert DigitsValue("") == 0;
  }

  /** Leading white space does not change what is read. */
  lemma ParseSkipsLeadingSpace(ws: string, s: string)
    requires forall i :: 0 <= i < |ws| ==> IsSpace(ws[i])
    ensures ParseFloat(ws + s) == ParseFloat(s)
  {
    TrimStartSkips(ws, s);
  }
}
