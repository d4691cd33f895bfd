/** What the JSON reader makes of spellings the canonical printer never uses: sections 6 and 7 of RFC 8259. */
module JsonGrammar {
  import opened Outcomes
  import opened Text
  import opened CanonJson
  import opened JsonReader

  // ---- Escapes by number ----

  function HexDigit(d: nat, upper: bool): char
    requires d < 16
  {
    if upper then "0123456789ABCDEF"[d] else "0123456789abcdef"[d]
  }

  /** A sixteen-bit number in four hex digits, each in either case. */
  function HexText(n: nat, upper: seq<bool>): (t: string)
    requires n < 0x10000 && |upper| == 4
    ensures |t| == 4
  {
    [HexDigit(n / 0x1000, upper[0]), HexDigit(n / 0x100 % 16, upper[1]), HexDigit(n / 16 % 16, upper[2]), HexDigit(n % 16, upper[3])]
  }

  lemma HexDigitReads(d: nat, upper: bool)
    requires d < 16
    ensures IsHex(HexDigit(d, upper)) && HexValue(HexDigit(d, upper)) == d
  {
  }

  lemma HexTextReads(n: nat, upper: seq<bool>, rest: string)
    requires n < 0x10000 && |upper| == 4
    ensures Hex4(HexText(n, upper) + rest) == Some(n)
  {
    hide HexDigit, IsHex, HexValue;
    var s := HexText(n, upper) + rest;
    HexDigitReads(n / 0x1000, upper[0]);
    HexDigitReads(n / 0x100 % 16, upper[1]);
    HexDigitReads(n / 16 % 16, upper[2]);
    HexDigitReads(n % 16, upper[3]);
    assert s[..4] == HexText(n, upper);
    assert s[0] == s[..4][0] && s[1] == s[..4][1] && s[2] == s[..4][2] && s[3] == s[..4][3];
  }

  /** Every character of the first plane is read from its number, whatever the case of the digits. */
  lemma NumberedCharacterReads(n: nat, upper: seq<bool>, rest: string)
    requires n < 0x10000 && |upper| == 4 && !(0xD800 <= n <= 0xDFFF)
    ensures ParseEscape("u" + (HexText(n, upper) + rest)) == Ok((n as char, rest))
  {
    hide HexText, Hex4;
    var s := "u" + (HexText(n, upper) + rest);
    HexTextReads(n, upper, rest);
    assert s[1..] == HexText(n, upper) + rest && s[5..] == rest;
  }

  /** A surrogate and a second number: together one character when they are a pair, and nothing otherwise. */
  lemma PairedNumbersRead(high: nat, low: nat, upper: seq<bool>, upper2: seq<bool>, rest: string)
    requires 0xD800 <= high <= 0xDFFF && low < 0x10000 && |upper| == |upper2| == 4
    ensures ParseEscape("u" + (HexText(high, upper) + ("\\u" + (HexText(low, upper2) + rest)))) ==
      if high <= 0xDBFF && 0xDC00 <= low <= 0xDFFF then Ok(((0x10000 + (high - 0xD800) * 0x400 + (low - 0xDC00)) as char, rest))
      else Err(Malformed)
  {
    hide HexText, Hex4;
    var second := HexText(low, upper2) + rest;
    var s := "u" + (HexText(high, upper) + ("\\u" + second));
    HexTextReads(high, upper, "\\u" + second);
    HexTextReads(low, upper2, rest);
    assert s[1..] == HexText(high, upper) + ("\\u" + second);
    assert s[5..] == "\\u" + second;
    assert s[7..] == second && s[11..] == rest;
  }

  /** A surrogate with no second number behind it is no character. */
  lemma LoneNumberIsMalformed(high: nat, upper: seq<bool>, rest: string)
    requires 0xD800 <= high <= 0xDFFF && |upper| == 4 && !("\\u" <= rest)
    ensures ParseEscape("u" + (HexText(high, upper) + rest)) == Err(Malformed)
  {
    hide HexText, Hex4;
    var s := "u" + (HexText(high, upper) + rest);
    HexTextReads(high, upper, rest);
    assert s[1..] == HexText(high, upper) + rest && s[5..] == rest;
  }

  // ---- Numbers ----

  predicate EndsNumber(rest: string) {
    rest == "" || !(IsDigit(rest[0]) || rest[0] in ".eE")
  }

  /** A whole number in plain digits is an integer within 64 bits, and a float beyond; so is a negative zero. */
  lemma WholeNumberReads(n: nat, negative: bool, rest: string)
    requires EndsNumber(rest)
    ensures var text := (if negative then "-" else "") + Digits(n);
      ParseNumber(text + rest) ==
      if negative && 1 <= n <= 0x8000_0000_0000_0000 then Ok((Int(-(n as int)), rest))
      else if !negative && n <= 0xFFFF_FFFF_FFFF_FFFF then Ok((Int(n), rest))
      else Ok((Float(text), rest))
  {
    hide Digits, NatOf, AllDigits, DigitRun, FractionAndExponent;
    var d := Digits(n);
    var text := (if negative then "-" else "") + d;
    var s := text + rest;
    DigitsReadBack(n);
    DigitRunStops(d, rest);
    assert s[if negative then 1 else 0..] == d + rest;
    assert IsDigit(d[0]) by {
      FirstIsDigit(d);
    }
    assert s[0] == text[0];
    assert d[0] == '0' ==> |d| == 1;
    assert (d + rest)[|d|..] == rest && (d + rest)[..|d|] == d;
    assert rest[0..] == rest;
    assert s[..|text|] == text;
  }

  lemma FirstIsDigit(d: string)
    requires AllDigits(d) && d != ""
    ensures IsDigit(d[0])
  {
  }

  predicate IsFraction(t: string) {
    t == "" || (|t| > 1 && t[0] == '.' && AllDigits(t[1..]))
  }

  predicate IsExponent(t: string) {
    t == ""
    || (|t| > 1 && t[0] in "eE" && AllDigits(t[1..]))
    || (|t| > 2 && t[0] in "eE" && t[1] in "+-" && AllDigits(t[2..]))
  }

  /** A fraction and an exponent of these shapes are taken whole. */
  lemma FractionAndExponentRead(fraction: string, exponent: string, rest: string)
    requires IsFraction(fraction) && IsExponent(exponent) && EndsNumber(rest)
    ensures FractionAndExponent(fraction + (exponent + rest)) == Ok(|fraction| + |exponent|)
  {
    hide DigitRun, AllDigits, IsExponent, FractionAndExponent;
    var tail := exponent + rest;
    ExponentReads(exponent, rest);
    if fraction == "" {
      assert fraction + tail == tail;
    } else {
      TailIsNoDigit(exponent, rest);
      DigitRunStops(fraction[1..], tail);
      assert (fraction + tail)[1..] == fraction[1..] + tail && (fraction + tail)[|fraction|..] == tail;
      FractionFirst(fraction + tail, |fraction|, tail);
    }
  }

  /** Behind a fraction the exponent is read as if it stood alone. */
  lemma FractionFirst(s: string, n: nat, tail: string)
    requires 1 < n <= |s| && s[0] == '.' && n == 1 + DigitRun(s[1..]) && s[n..] == tail && (tail == "" || tail[0] != '.')
    requires FractionAndExponent(tail).Ok?
    ensures FractionAndExponent(s) == Ok(n + FractionAndExponent(tail).value)
  {
    hide DigitRun;
    assert tail[0..] == tail;
  }

  lemma TailIsNoDigit(exponent: string, rest: string)
    requires IsExponent(exponent) && EndsNumber(rest)
    ensures exponent + rest == "" || (!IsDigit((exponent + rest)[0]) && (exponent + rest)[0] != '.')
  {
  }

  lemma ExponentReads(exponent: string, rest: string)
    requires IsExponent(exponent) && EndsNumber(rest)
    ensures FractionAndExponent(exponent + rest) == Ok(|exponent|)
  {
    hide DigitRun, AllDigits;
    var s := exponent + rest;
    if exponent != "" {
      var sign := if exponent[1] in "+-" then 1 else 0;
      var digits := exponent[1 + sign..];
      if sign == 0 {
        assert AllDigits(digits);
      } else {
        NoSignInDigits(exponent);
        assert AllDigits(digits);
      }
      DigitRunStops(digits, rest);
      assert s[1 + sign..] == digits + rest;
    }
  }

  lemma NoSignInDigits(t: string)
    requires |t| > 1 && t[1] in "+-"
    ensures !AllDigits(t[1..])
  {
    assert t[1..][0] == t[1];
  }

  /** And nothing of another shape is: what is taken is a fraction and an exponent, each there or not. */
  lemma OnlyFractionAndExponent(s: string) returns (fraction: string, exponent: string)
    requires FractionAndExponent(s).Ok?
    ensures s[..FractionAndExponent(s).value] == fraction + exponent && IsFraction(fraction) && IsExponent(exponent)
  {
    hide DigitRun, AllDigits, IsExponent;
    var taken, all := if s != "" && s[0] == '.' then 1 + DigitRun(s[1..]) else 0, FractionAndExponent(s).value;
    fraction, exponent := s[..taken], s[taken..all];
    if taken > 0 {
      assert fraction[1..] == s[1..][..taken - 1];
    }
    assert s[..all] == fraction + exponent;
    if all == taken {
      NoExponent();
    } else {
      var rest := s[taken..];
      assert exponent == rest[..all - taken];
      ExponentIsTaken(rest, all - taken);
    }
  }

  lemma NoExponent()
    ensures IsExponent("")
  {
  }

  lemma ExponentIsTaken(rest: string, n: nat)
    requires 0 < n <= |rest| && rest[0] in "eE"
    requires var sign := if |rest| > 1 && (rest[1] == '+' || rest[1] == '-') then 1 else 0;
      n == 1 + sign + DigitRun(rest[1 + sign..]) && DigitRun(rest[1 + sign..]) > 0
    ensures IsExponent(rest[..n])
  {
    hide DigitRun, AllDigits;
    var sign := if |rest| > 1 && (rest[1] == '+' || rest[1] == '-') then 1 else 0;
    assert rest[..n][1 + sign..] == rest[1 + sign..][..n - 1 - sign];
  }

  lemma DigitsThenMoreIsFloat(d: string, negative: bool, tail: string, k: nat)
    requires AllDigits(d) && d != "" && (d[0] == '0' ==> |d| == 1) && (tail == "" || !IsDigit(tail[0]))
    requires FractionAndExponent(tail) == Ok(k) && 0 < k <= |tail|
    ensures var sign := if negative then "-" else "";
      ParseNumber(sign + (d + tail)) == Ok((Float(sign + (d + tail[..k])), tail[k..]))
  {
    hide NatOf, AllDigits, DigitRun, FractionAndExponent, ParseNumber;
    var sign := if negative then "-" else "";
    var s := sign + (d + tail);
    DigitRunStops(d, tail);
    FirstIsDigit(d);
    assert s[|sign|..] == d + tail;
    assert s[0] == if negative then '-' else d[0];
    assert s[..|sign| + |d| + k] == sign + (d + tail[..k]);
    NumberWithMore(s, |sign|, d, tail, k);
  }

  lemma NumberWithMore(s: string, sign: nat, d: string, tail: string, k: nat)
    requires s != "" && sign <= |s| && s[sign..] == d + tail && sign == (if s[0] == '-' then 1 else 0)
    requires d != "" && (d[0] == '0' ==> |d| == 1)
    requires DigitRun(d + tail) == |d| && (d + tail)[..|d|] == d && (d + tail)[|d|..] == tail
    requires FractionAndExponent(tail) == Ok(k) && 0 < k <= |tail|
    ensures ParseNumber(s) == Ok((Float(s[..sign + |d| + k]), tail[k..]))
  {
    hide NatOf, AllDigits, DigitRun, FractionAndExponent;
  }

  /** A number with either of them is a float with its own text. */
  lemma FloatReads(n: nat, negative: bool, fraction: string, exponent: string, rest: string)
    requires IsFraction(fraction) && IsExponent(exponent) && fraction + exponent != "" && EndsNumber(rest)
    ensures var text := (if negative then "-" else "") + (Digits(n) + (fraction + exponent));
      ParseNumber(text + rest) == Ok((Float(text), rest))
  {
    hide Digits, NatOf, AllDigits, DigitRun, FractionAndExponent, ParseNumber, IsExponent, EndsNumber;
    var d, sign, tail := Digits(n), if negative then "-" else "", fraction + (exponent + rest);
    DigitsReadBack(n);
    TailIsNoDigit(exponent, rest);
    FractionAndExponentRead(fraction, exponent, rest);
    assert tail[..|fraction| + |exponent|] == fraction + exponent && tail[|fraction| + |exponent|..] == rest;
    DigitsThenMoreIsFloat(d, negative, tail, |fraction| + |exponent|);
    assert (sign + (d + (fraction + exponent))) + rest == sign + (d + tail);
  }

  /** A second digit after a zero, or no digit at all, is no number. */
  lemma OtherDigitsAreMalformed(s: string, negative: bool)
    requires s == "" || !IsDigit(s[0]) || (|s| > 1 && s[0] == '0' && IsDigit(s[1]))
    requires s != "" ==> s[0] != '-'
    ensures ParseNumber((if negative then "-" else "") + s) == Err(Malformed)
  {
    hide FractionAndExponent, NatOf, AllDigits;
    var t := (if negative then "-" else "") + s;
    assert t[if negative then 1 else 0..] == s;
    if |s| > 1 && IsDigit(s[0]) && IsDigit(s[1]) {
      assert DigitRun(s) == 1 + DigitRun(s[1..]) && DigitRun(s[1..]) >= 1;
    }
  }
}
