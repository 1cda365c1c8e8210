/** What the reader accepts beyond what the printer writes: every escape and every decimal number of the
    standard, and the permissive reader's own extensions. */
module JsonExtensions {
  import opened Wrappers
  import opened JsonValue
  import opened JsonGrammar
  import opened JsonRoundTrip
  import Std = JsonStandard

  // ---------------------------------------------------------------- strings

  predicate Plain(s: string, delimiter: char) {
    forall i | 0 <= i < |s| :: s[i] != delimiter && s[i] != '\\'
  }

  lemma {:induction false} PlainReads(s: string, delimiter: char, rest: string)
    requires Plain(s, delimiter)
    ensures StringBody(s + [delimiter] + rest, delimiter) == Some((s, rest))
  {
    var t := s + [delimiter] + rest;
    if s == "" {
      assert t[0] == delimiter && t[1..] == rest;
    } else {
      assert t[0] == s[0] && t[1..] == s[1..] + [delimiter] + rest;
      PlainReads(s[1..], delimiter, rest);
      assert [s[0]] + s[1..] == s;
    }
  }

  /** A string may stand in single quotes. */
  lemma SingleQuotesRead(s: string, rest: string)
    requires Plain(s, '\'')
    ensures ParseString(Live("'" + s + "'" + rest)) == (Some(s), Live(rest))
  {
    hide StringBody, Match;
    var t := "'" + s + "'" + rest;
    assert t[0] == '\'' && t[1..] == s + ['\''] + rest;
    MissHere("\"", t);
    PlainReads(s, '\'', rest);
  }

  /** The two-character escapes of the standard are read as what they stand for; of any other one but `\u` both
      characters are kept. */
  lemma EscapeReads(e: char, c: char, t: string)
    requires e != 'u'
    ensures Std.StandsFor(e, c) ==> StringBody(['\\', e] + t, '"') == Prepend([c], StringBody(t, '"'))
    ensures (forall d :: !Std.StandsFor(e, d)) ==>
      StringBody(['\\', e] + t, '"') == Prepend(['\\', e], StringBody(t, '"'))
  {
    hide StringBody;
    SimpleEscapeReads(e, t);
    if forall d :: !Std.StandsFor(e, d) {
      assert !Std.StandsFor(e, e) && !Std.StandsFor(e, 8 as char) && !Std.StandsFor(e, 12 as char)
          && !Std.StandsFor(e, 10 as char) && !Std.StandsFor(e, 13 as char) && !Std.StandsFor(e, 9 as char);
    }
  }

  lemma HexDigitMeans(c: char, d: int)
    ensures Std.HexDigitIs(c, d) ==>
      HexValue(c) == d >= 0 && !IsSpace(c) && c != '-' && c != '+' && c != 'x' && c != 'X'
  {
  }

  lemma HexReads(code: string, n: int)
    requires Std.HexText(code, n) && n < 65536
    ensures HexNumber(code) == Some(n)
  {
    hide HexPrefix, HexValue, IsSpace;
    var a, b, c, d := n / 4096, n / 256 % 16, n / 16 % 16, n % 16;
    HexDigitMeans(code[0], a);
    HexDigitMeans(code[1], b);
    HexDigitMeans(code[2], c);
    HexDigitMeans(code[3], d);
    assert SkipSpace(code) == code;
    HexPrefixStep(code, 0, a);
    HexPrefixStep(code[1..], a, b);
    HexPrefixStep(code[1..][1..], 16 * a + b, c);
    HexPrefixStep(code[1..][1..][1..], 16 * (16 * a + b) + c, d);
    HexPrefixEnd(n);
    assert code[1..][1..][1..][1..] == "";
    HexSum(n);
  }

  lemma HexSum(n: int)
    requires 0 <= n < 65536
    ensures 16 * (16 * (16 * (n / 4096) + n / 256 % 16) + n / 16 % 16) + n % 16 == n
  {
    var a, b := n / 16, n / 256;
    assert n == 16 * a + n % 16;
    assert b == a / 16 && a == 16 * b + a % 16;
    assert n / 4096 == b / 16 && b == 16 * (b / 16) + b % 16;
  }

  /** A `\u` escape gives the low eight bits of its code: above 255 it does not give the character it names. */
  lemma UnicodeReads(code: string, n: int, t: string)
    requires Std.HexText(code, n) && n < 65536
    ensures StringBody(("\\u" + code) + t, '"') == Prepend([(n % 256) as char], StringBody(t, '"'))
  {
    hide StringBody, HexNumber;
    UnicodeEscapeReads(code, t);
    HexReads(code, n);
  }

  lemma TwoHexDigits(a: char, b: char, h: int, l: int)
    requires Std.HexDigitIs(a, h) && Std.HexDigitIs(b, l)
    ensures HexPrefix([a, b], 0) == 16 * h + l
  {
    hide HexPrefix, HexValue;
    HexDigitMeans(a, h);
    HexDigitMeans(b, l);
    HexPrefixStep([a, b], 0, h);
    assert [a, b][1..] == [b] && [b][1..] == "";
    HexPrefixStep([b], h, l);
    HexPrefixEnd(16 * h + l);
  }

  /** The four characters of a `\u` escape need not be digits: a hexadecimal prefix and a sign are let through, and
      without any digit the escape stands for nothing. */
  lemma OddCodesRead(a: char, b: char, h: int, l: int)
    requires Std.HexDigitIs(a, h) && Std.HexDigitIs(b, l)
    ensures HexNumber("0x" + [a, b]) == HexNumber("0X" + [a, b]) == Some(16 * h + l)
    ensures HexNumber(" " + (['-'] + [a, b])) == Some(-(16 * h + l))
    ensures HexNumber(" " + (['+'] + [a, b])) == Some(16 * h + l)
  {
    hide HexPrefix, HexValue, HexNumber;
    TwoHexDigits(a, b, h, l);
    HexDigitMeans(a, h);
    HexDigitMeans(b, l);
    PrefixedCode("0x", [a, b]);
    PrefixedCode("0X", [a, b]);
    SignedCode('-', [a, b]);
    SignedCode('+', [a, b]);
  }

  lemma NotBlankFirst(t: string)
    requires t != "" && !IsSpace(t[0])
    ensures SkipSpace(t) == t && SkipSpace(" " + t) == t
  {
    assert (" " + t)[0] == ' ' && (" " + t)[1..] == t;
  }

  lemma PrefixedCode(x: string, code: string)
    requires (x == "0x" || x == "0X") && code != ""
    ensures HexNumber(x + code) == if HexValue(code[0]) < 0 then None else Some(HexPrefix(code, 0) as int)
  {
    hide HexPrefix, HexValue;
    var t := x + code;
    assert t[0] == '0' && t[1] == x[1] && t[2..] == code;
    NotBlankFirst(t);
  }

  lemma SignedCode(sign: char, code: string)
    requires (sign == '-' || sign == '+') && |code| == 2 && HexValue(code[0]) >= 0
    requires code[1] != 'x' && code[1] != 'X'
    ensures var n: int := HexPrefix(code, 0);
      HexNumber(" " + ([sign] + code)) == Some(if sign == '-' then -n else n)
  {
    hide HexPrefix, HexValue;
    var t := [sign] + code;
    assert t[0] == sign && t[1..] == code;
    NotBlankFirst(t);
  }

  lemma NoCodeReads(code: string)
    requires code != "" && !IsSpace(code[0]) && code[0] != '-' && code[0] != '+' && HexValue(code[0]) < 0
    ensures CodeUnit(code) == "" && CodeUnit("0x" + code) == ""
  {
    hide HexPrefix;
    NotBlankFirst(code);
    PrefixedCode("0x", code);
    assert code[0] != '0';
  }

  // ---------------------------------------------------------------- numbers

  function Pow10(k: nat): real {
    if k == 0 then 1.0 else 10.0 * Pow10(k - 1)
  }

  lemma {:induction false} ScaleMeans(x: real, e: int)
    ensures e >= 0 ==> Scale(x, e) == x * Pow10(e)
    ensures e < 0 ==> Scale(x, e) * Pow10(-e) == x
    decreases if e < 0 then -e else e
  {
    if e > 0 {
      ScaleMeans(x * 10.0, e - 1);
      Reorder(x, Pow10(e - 1));
    } else if e < 0 {
      ScaleMeans(x / 10.0, e + 1);
      if e == -1 {
        assert Scale(x, e) == x / 10.0;
        assert Pow10(1) == 10.0 * Pow10(0);
      } else {
        Reorder(Scale(x / 10.0, e + 1), Pow10(-e - 1));
      }
    }
  }

  lemma Reorder(x: real, p: real)
    ensures (x * 10.0) * p == x * (10.0 * p) && x * (10.0 * p) == (x * p) * 10.0
  {
  }

  /** What may follow a number that ends. */
  predicate EndsNumber(t: string) {
    t == "" || (!IsDigit(t[0]) && t[0] != 'e' && t[0] != 'E')
  }

  function Value(digits: string): nat {
    DigitsValue(digits, 0)
  }

  lemma DigitsStop(digits: string, t: string, acc: nat)
    requires AllDigits(digits) && (t == "" || !IsDigit(t[0]))
    ensures AfterDigits(digits + t) == t && DigitsValue(digits + t, acc) == DigitsValue(digits, acc)
  {
    DigitsRead(digits, t, acc);
  }

  predicate Sign(s: string) {
    s == "" || s == "-" || s == "+"
  }

  lemma SignReads(sign: string, t: string)
    requires Sign(sign) && (sign == "" ==> !IsSign(t))
    ensures AfterSign(sign + t) == t && (sign != "" ==> IsNegative(sign + t) == (sign == "-"))
    ensures sign == "" ==> sign + t == t
  {
    if sign == "" {
      assert sign + t == t;
    } else {
      assert (sign + t)[1..] == t;
    }
  }

  lemma DigitsAreNoSign(digits: string, t: string)
    requires AllDigits(digits) && (digits == "" ==> !IsSign(t))
    ensures !IsSign(digits + t)
  {
    if digits == "" {
      assert digits + t == t;
    } else {
      assert (digits + t)[0] == digits[0] && IsDigit(digits[0]);
      DigitIsNoSign(digits[0]);
    }
  }

  lemma ExponentReads(sign: string, digits: string, rest: string)
    requires Sign(sign) && digits != "" && AllDigits(digits) && EndsNumber(rest)
    ensures Exponent("e" + (sign + (digits + rest)))
         == Some((if sign == "-" then -(Value(digits) as int) else Value(digits), rest))
  {
    hide DigitsValue, AfterDigits;
    var t := "e" + (sign + (digits + rest));
    assert t[1..] == sign + (digits + rest);
    DigitsAreNoSign(digits, rest);
    SignReads(sign, digits + rest);
    DigitsStop(digits, rest, 0);
    assert !IsNegative(digits + rest);
  }

  /** Every number with digits before and after the point and an exponent is read exactly: the digits as one whole
      number, times ten to the exponent less the places after the point (see `ScaleMeans`). */
  lemma NumberReads(sign: string, whole: string, fraction: string, exponentSign: string, exponent: string, rest: string)
    requires Sign(sign) && Sign(exponentSign) && AllDigits(whole) && AllDigits(fraction) && AllDigits(exponent)
    requires whole != "" && exponent != "" && EndsNumber(rest)
    ensures var e := if exponentSign == "-" then -(Value(exponent) as int) else Value(exponent);
      var digits: int := Value(whole + fraction);
      ScanNumber(sign + (whole + ("." + (fraction + ("e" + (exponentSign + (exponent + rest)))))))
      == Some((Scale((if sign == "-" then -digits else digits) as real, e - |fraction|), rest))
  {
    hide DigitsValue, ScanNumber, Exponent, Scale, Mantissa, AfterMantissa, AfterSign, IsNegative;
    var tail := "e" + (exponentSign + (exponent + rest));
    var afterWhole := "." + (fraction + tail);
    ExponentReads(exponentSign, exponent, rest);
    TailStops(exponentSign + (exponent + rest));
    SignBefore(sign, whole, afterWhole);
    var t := sign + (whole + afterWhole);
    MantissaReads(t, whole, fraction, tail);
    ScanParts(t);
  }

  lemma ScanParts(t: string)
    requires Mantissa(t).Some? && Exponent(AfterMantissa(t)).Some?
    ensures var m, e := Mantissa(t).value, Exponent(AfterMantissa(t)).value;
      var digits: int := m.1;
      ScanNumber(t) == Some((Scale((if IsNegative(t) then -digits else digits) as real, e.0 - m.0), e.1))
  {
    hide Mantissa, Exponent, AfterMantissa, IsNegative;
  }

  lemma TailStops(t: string)
    ensures "e" + t != "" && !IsDigit(("e" + t)[0])
  {
  }

  lemma SignBefore(sign: string, whole: string, t: string)
    requires Sign(sign) && AllDigits(whole) && whole != ""
    ensures AfterSign(sign + (whole + t)) == whole + t
    ensures IsNegative(sign + (whole + t)) == (sign == "-")
  {
    DigitsAreNoSign(whole, t);
    SignReads(sign, whole + t);
  }

  lemma MantissaReads(t: string, whole: string, fraction: string, tail: string)
    requires AfterSign(t) == whole + ("." + (fraction + tail)) && whole != ""
    requires AllDigits(whole) && AllDigits(fraction) && tail != "" && !IsDigit(tail[0])
    ensures Mantissa(t) == Some((|fraction|, Value(whole + fraction))) && AfterMantissa(t) == tail
  {
    hide DigitsValue, AfterDigits, AfterSign;
    var afterWhole := "." + (fraction + tail);
    assert afterWhole[0] == '.' && !IsDigit('.') && afterWhole[1..] == fraction + tail;
    DigitsStop(whole, afterWhole, 0);
    DigitsStop(fraction, tail, DigitsValue(whole, 0));
    DigitsRead(whole, fraction, 0);
  }

  // ---------------------------------------------------------------- the permissive reader

  /** A comma where a value is expected is read as null, and stays where it is. */
  lemma CommaIsNull(t: string)
    ensures ParseValue(Live("," + t)) == (Some(Null), Live("," + t))
  {
    hide ParseString, ParseNumber, ParseBool, Match;
    var text := "," + t;
    NoBlanks(text);
    NoStringHere("", text);
    NoNumberHere(text);
    NoBoolHere(text);
    MissHere("null", text);
    ScalarStep(Live(text), Null, Live(text));
  }

  lemma {:induction false} LineSkipped(line: string, t: string)
    requires forall i | 0 <= i < |line| :: line[i] != '\r' && line[i] != '\n'
    ensures ToLineEnd(line + ("\n" + t)) == "\n" + t
  {
    var text := line + ("\n" + t);
    if line == "" {
      assert text == "\n" + t;
    } else {
      assert text[1..] == line[1..] + ("\n" + t);
      LineSkipped(line[1..], t);
    }
  }

  /** A comment before a token is skipped up to the end of its line. */
  lemma CommentIsSkipped(p: string, line: string, b: string, t: string)
    requires p != "" && !IsSpace(p[0]) && p[0] != '/' && AllSpace(b)
    requires forall i | 0 <= i < |line| :: line[i] != '\r' && line[i] != '\n'
    ensures Match(p, Live("//" + (line + ("\n" + (b + (p + t)))))) == (true, Live(t))
  {
    hide ToLineEnd;
    var end := "\n" + (b + (p + t));
    var text := "//" + (line + end);
    assert SkipSpace(text) == text && StartsComment(text) && text[2..] == line + end;
    LineSkipped(line, b + (p + t));
    NewlineThenBlank(b);
    assert end == ("\n" + b) + (p + t);
    SkipsBlanks("\n" + b, p + t);
    assert SkipComment(text) == Live(p + t);
    MatchesFrom(p, 0, t);
    assert p[0..] == p && text[0] == '/' && text[0] != p[0];
    assert MatchFrom(p, 0, text, false) == MatchFrom(p, 0, p + t, false);
  }

  lemma NewlineThenBlank(b: string)
    requires AllSpace(b)
    ensures AllSpace("\n" + b)
  {
  }

  /** Blanks are the space and the control characters from tab to carriage return. */
  lemma BlanksAre(c: char)
    ensures IsSpace(c) <==> c as int == 32 || 9 <= c as int <= 13
  {
  }

  lemma {:induction false} LineToEnd(line: string)
    requires forall i | 0 <= i < |line| :: line[i] != '\r' && line[i] != '\n'
    ensures ToLineEnd(line) == ""
  {
    if line != "" { LineToEnd(line[1..]); }
  }

  /** A comment that the end of the text cuts off leaves nothing to read. */
  lemma CommentAtEnd(p: string, line: string)
    requires p != "" && p[0] != '/' && forall i | 0 <= i < |line| :: line[i] != '\r' && line[i] != '\n'
    ensures Match(p, Live("//" + line)) == (false, Dead)
  {
    hide ToLineEnd;
    var text := "//" + line;
    LineToEnd(line);
    assert SkipSpace(text) == text && StartsComment(text) && text[2..] == line && text[0] == '/';
    assert SkipComment(text) == Dead;
  }

  lemma {:induction false} CutFrom(p: string, i: nat, k: nat)
    requires i <= k < |p|
    ensures MatchFrom(p, i, p[i..k], false) == (k > 0 && p[k] == p[k - 1] && k + 1 == |p|, Dead)
    decreases k - i
  {
    if i < k {
      assert p[i..k][0] == p[i] && p[i..k][1..] == p[i + 1..k];
      CutFrom(p, i + 1, k);
    }
  }

  /** A word that the end of the text cuts off is not matched, and nothing is left to read; but a word that ends
      in a double letter is matched without the last one. */
  lemma WordAtEnd(p: string, k: nat)
    requires 0 < k < |p| && !IsSpace(p[0])
    ensures Match(p, Live(p[..k])) == (p[k] == p[k - 1] && k + 1 == |p|, Dead)
  {
    hide MatchFrom;
    assert p[..k][0] == p[0] && SkipSpace(p[..k]) == p[..k] && p[0..k] == p[..k];
    CutFrom(p, 0, k);
  }

  /** So `nul` at the end of the text is read as null. */
  lemma NulIsNull()
    ensures ParseNull(Live("nul")) == (true, Dead)
  {
    assert "null"[..3] == "nul";
    WordAtEnd("null", 3);
  }

  lemma {:induction false} PrefixRead(p: string, i: nat, k: nat, t: string)
    requires i <= k <= |p|
    ensures MatchFrom(p, i, p[i..k] + t, false) == MatchFrom(p, k, t, false)
    decreases k - i
  {
    if i == k {
      assert p[i..k] + t == t;
    } else {
      assert (p[i..k] + t)[0] == p[i] && (p[i..k] + t)[1..] == p[i + 1..k] + t;
      PrefixRead(p, i + 1, k, t);
    }
  }

  lemma {:induction false} RestRead(p: string, i: nat, t: string)
    requires i <= |p|
    ensures MatchFrom(p, i, p[i..] + t, true) == (true, Live(t))
    decreases |p| - i
  {
    if i == |p| {
      assert p[i..] + t == t;
    } else {
      assert (p[i..] + t)[1..] == p[i + 1..] + t;
      RestRead(p, i + 1, t);
    }
  }

  /** A comment may even stand inside a word. When the word does not go on behind it the characters before it
      cannot be put back, and nothing is left to read. */
  lemma CommentInside(p: string, k: nat, line: string, b: string, t: string)
    requires 0 < k < |p| && !IsSpace(p[0]) && p[k] != '/' && AllSpace(b) && t != "" && !IsSpace(t[0])
    requires forall i | 0 <= i < |line| :: line[i] != '\r' && line[i] != '\n'
    ensures var m := Match(p, Live(p[..k] + ("//" + (line + ("\n" + (b + t))))));
      && (t[0] != p[k] && t[0] != '/' ==> m == (false, Dead))
      && (forall u | t == p[k..] + u :: m == (true, Live(u)))
  {
    hide ToLineEnd;
    var text := "//" + (line + ("\n" + (b + t)));
    var whole := p[..k] + text;
    assert whole[0] == p[0] && SkipSpace(whole) == whole && p[0..k] == p[..k];
    PrefixRead(p, 0, k, text);
    assert StartsComment(text) && text[0] == '/' && text[2..] == line + ("\n" + (b + t));
    LineSkipped(line, b + t);
    NewlineThenBlank(b);
    assert "\n" + (b + t) == ("\n" + b) + t;
    SkipsBlanks("\n" + b, t);
    assert SkipComment(text) == Live(t);
    assert MatchFrom(p, k, text, false) == MatchFrom(p, k, t, true);
    forall u | t == p[k..] + u ensures MatchFrom(p, k, t, true) == (true, Live(u)) { RestRead(p, k, u); }
  }
}
