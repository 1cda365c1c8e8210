/** Reading back what was printed. */
module JsonRoundTrip {
  import opened Wrappers
  import opened JsonValue
  import opened JsonPrinter
  import opened JsonGrammar

  // ---------------------------------------------------------------- strings

  lemma HexDigitReads(d: int)
    requires 0 <= d < 16
    ensures HexValue(HexDigit(d)) == d
  {
  }

  lemma HexPrefixStep(t: string, acc: nat, d: int)
    requires t != "" && HexValue(t[0]) == d >= 0
    ensures HexPrefix(t, acc) == HexPrefix(t[1..], 16 * acc + d)
  {
  }

  lemma HexPairReads(hi: char, lo: char, h: nat, l: nat)
    requires HexValue(hi) == h && HexValue(lo) == l
    ensures HexNumber("00" + [hi, lo]) == Some((16 * h + l) as int)
  {
    hide HexPrefix, HexValue;
    var t := "00" + [hi, lo];
    HexDigitReads(0);
    HexPrefixStep(t, 0, 0);
    assert t[1..] == ['0', hi, lo];
    HexPrefixStep(t[1..], 0, 0);
    assert t[1..][1..] == [hi, lo];
    HexPrefixStep([hi, lo], 0, h);
    assert [hi, lo][1..] == [lo];
    HexPrefixStep([lo], h, l);
    assert [lo][1..] == "";
    HexPrefixEnd(16 * h + l);
    assert SkipSpace(t) == t;
  }

  lemma HexPrefixEnd(n: nat)
    ensures HexPrefix("", n) == n
  {
  }

  predicate IsControl(c: char) {
    c as int < 32 && c != '\U{08}' && c != '\U{0C}' && c != '\n' && c != '\r' && c != '\t'
  }

  lemma ControlCharReads(c: char, t: string)
    requires IsControl(c)
    ensures StringBody(EscapeChar(c) + t, '"') == Prepend([c], StringBody(t, '"'))
  {
    hide StringBody, HexNumber, HexValue, HexDigit, Prepend;
    var h, l := c as int / 16, c as int % 16;
    var code := "00" + [HexDigit(h), HexDigit(l)];
    HexDigitReads(h);
    HexDigitReads(l);
    HexPairReads(HexDigit(h), HexDigit(l), h, l);
    assert EscapeChar(c) == "\\u" + code;
    UnicodeEscapeReads(code, t);
  }

  lemma UnicodeEscapeReads(code: string, t: string)
    requires |code| == 4
    ensures StringBody(("\\u" + code) + t, '"') == Prepend(CodeUnit(code), StringBody(t, '"'))
  {
    hide CodeUnit, Prepend;
    var e := ("\\u" + code) + t;
    assert e[2..6] == code && e[6..] == t;
  }

  lemma EscapedCharReads(c: char, t: string)
    ensures StringBody(EscapeChar(c) + t, '"') == Prepend([c], StringBody(t, '"'))
  {
    if IsControl(c) {
      ControlCharReads(c, t);
    } else if |EscapeChar(c)| == 1 {
      hide Prepend;
      assert (EscapeChar(c) + t)[1..] == t;
    } else {
      hide Prepend;
      SimpleEscapeReads(EscapeChar(c)[1], t);
      assert EscapeChar(c) == ['\\', EscapeChar(c)[1]];
    }
  }

  lemma SimpleEscapeReads(e: char, t: string)
    requires e != 'u'
    ensures StringBody(['\\', e] + t, '"') == Prepend(Unescape(e, '"'), StringBody(t, '"'))
  {
    hide Unescape, Prepend;
    assert (['\\', e] + t)[2..] == t;
  }

  /** Reading the escaped form of any string, up to the closing quote, gives that string and leaves
      exactly what follows. */
  lemma {:induction false} EscapeRoundTrip(s: string, rest: string)
    ensures StringBody(Escape(s) + "\"" + rest, '"') == Some((s, rest))
  {
    if s == "" {
      assert "" + "\"" + rest == "\"" + rest && ("\"" + rest)[1..] == rest;
    } else {
      hide StringBody, EscapeChar;
      EscapeRoundTrip(s[1..], rest);
      EscapedCharReads(s[0], Escape(s[1..]) + "\"" + rest);
      assert Escape(s) + "\"" + rest == EscapeChar(s[0]) + (Escape(s[1..]) + "\"" + rest);
      assert [s[0]] + s[1..] == s;
    }
  }

  // ---------------------------------------------------------------- blanks and tokens

  predicate AllSpace(b: string) {
    forall i | 0 <= i < |b| :: IsSpace(b[i])
  }

  /** Text at which a token can start. */
  predicate AtToken(t: string) {
    t != "" && !IsSpace(t[0]) && t[0] != '/'
  }

  lemma {:induction false} SkipsBlanks(b: string, t: string)
    requires AllSpace(b) && t != "" && !IsSpace(t[0])
    ensures SkipSpace(b + t) == t
  {
    if b == "" {
      assert b + t == t;
    } else {
      assert (b + t)[1..] == b[1..] + t;
      SkipsBlanks(b[1..], t);
    }
  }

  lemma {:induction false} MatchesFrom(p: string, i: nat, t: string)
    requires i <= |p|
    ensures MatchFrom(p, i, p[i..] + t, false) == (true, Live(t))
    decreases |p| - i
  {
    if i == |p| {
      assert p[i..] + t == t;
    } else {
      assert (p[i..] + t)[1..] == p[i + 1..] + t;
      MatchesFrom(p, i + 1, t);
    }
  }

  lemma Hit(p: string, b: string, t: string)
    requires p != "" && !IsSpace(p[0]) && AllSpace(b)
    ensures Match(p, Live(b + (p + t))) == (true, Live(t))
  {
    hide MatchFrom;
    SkipsBlanks(b, p + t);
    MatchesFrom(p, 0, t);
    assert p[0..] == p;
  }

  lemma MissesFrom(p: string, t: string)
    requires p != "" && AtToken(t) && t[0] != p[0]
    ensures MatchFrom(p, 0, t, false) == (false, Live(t))
  {
    assert p[..0] + t == t;
  }

  lemma Miss(p: string, b: string, t: string)
    requires p != "" && AllSpace(b) && AtToken(t) && t[0] != p[0]
    ensures Match(p, Live(b + t)) == (false, Live(t))
  {
    hide MatchFrom;
    SkipsBlanks(b, t);
    MissesFrom(p, t);
  }

  lemma MissHere(p: string, t: string)
    requires p != "" && AtToken(t) && t[0] != p[0]
    ensures Match(p, Live(t)) == (false, Live(t))
  {
    NoBlanks(t);
    Miss(p, "", t);
  }

  lemma NoBlanks(t: string)
    ensures AllSpace("") && "" + t == t
  {
  }

  lemma QuotedReads(s: string, b: string, rest: string)
    requires AllSpace(b)
    ensures ParseString(Live(b + (Quoted(s) + rest))) == (Some(s), Live(rest))
  {
    var t := Escape(s) + "\"" + rest;
    assert Quoted(s) + rest == "\"" + t;
    Hit("\"", b, t);
    EscapeRoundTrip(s, rest);
  }

  lemma QuotedStarts(s: string)
    ensures Quoted(s) != "" && Quoted(s)[0] == '"'
  {
  }

  lemma NoStringHere(b: string, t: string)
    requires AllSpace(b) && AtToken(t) && t[0] != '"' && t[0] != '\''
    ensures ParseString(Live(b + t)) == (None, Live(t))
  {
    Miss("\"", b, t);
  }

  lemma NoNumberHere(t: string)
    requires AtToken(t) && !IsDigit(t[0]) && !IsSign(t) && t[0] != '.'
    ensures ParseNumber(Live(t)) == (None, Live(t))
  {
    NoBlanks(t);
    SkipsBlanks("", t);
    assert Ws(Live(t)) == Live(t);
  }

  // ---------------------------------------------------------------- numbers

  predicate AllDigits(s: string) {
    forall i | 0 <= i < |s| :: IsDigit(s[i])
  }

  lemma {:induction false} DigitsRead(s: string, t: string, acc: nat)
    requires AllDigits(s)
    ensures DigitsValue(s + t, acc) == DigitsValue(t, DigitsValue(s, acc))
    ensures AfterDigits(s + t) == AfterDigits(t)
  {
    if s == "" {
      assert s + t == t;
    } else {
      assert (s + t)[1..] == s[1..] + t;
      DigitsRead(s[1..], t, 10 * acc + (s[0] as int - '0' as int));
    }
  }

  lemma {:induction false} DigitsOfNumber(n: nat)
    ensures Digits(n) != "" && AllDigits(Digits(n)) && DigitsValue(Digits(n), 0) == n
  {
    if n < 10 {
      assert DigitsValue([Digit(n)], 0) == DigitsValue([Digit(n)][1..], n);
    } else {
      DigitsOfNumber(n / 10);
      DigitsRead(Digits(n / 10), [Digit(n % 10)], 0);
      assert DigitsValue([Digit(n % 10)], n / 10) == DigitsValue([Digit(n % 10)][1..], n);
    }
  }

  /** What can follow a value in printed text. */
  predicate AfterValue(t: string) {
    t != "" && (t[0] == ',' || t[0] == ' ')
  }

  lemma WholeNumberScans(t: string, whole: string, rest: string, m: int)
    requires AfterSign(t) == whole && AfterDigits(whole) == rest && |rest| < |whole|
    requires AfterValue(rest) && DigitsValue(whole, 0) == m
    ensures ScanNumber(t) == Some(((if IsNegative(t) then -m else m) as real, rest))
  {
    assert DigitsValue("", m) == m;
    assert Exponent(rest) == Some((0, rest));
  }

  lemma DigitIsNoSign(c: char)
    ensures IsDigit(c) ==> c != '-' && c != '+'
  {
  }

  lemma SignedDigits(sign: string, digits: string, rest: string)
    requires sign == "" || sign == "-"
    requires digits != "" && IsDigit(digits[0])
    ensures AfterSign((sign + digits) + rest) == digits + rest
    ensures IsNegative((sign + digits) + rest) == (sign == "-")
  {
    var t := (sign + digits) + rest;
    DigitIsNoSign(digits[0]);
    if sign == "-" {
      assert t[0] == '-' && t[1..] == digits + rest;
    } else {
      assert sign + digits == digits;
      assert t[0] == digits[0];
    }
  }

  lemma DecimalReads(n: int, rest: string)
    requires AfterValue(rest)
    ensures ScanNumber(Decimal(n) + rest) == Some((n as real, rest))
  {
    var m := if n < 0 then -n else n;
    var sign := if n < 0 then "-" else "";
    DigitsOfNumber(m);
    DigitsRead(Digits(m), rest, 0);
    SignedDigits(sign, Digits(m), rest);
    NoBlanks(Digits(m));
    assert Decimal(n) == sign + Digits(m);
    assert DigitsValue(rest, m) == m && AfterDigits(rest) == rest;
    WholeNumberScans((sign + Digits(m)) + rest, Digits(m) + rest, rest, m);
  }

  lemma DecimalParses(n: int, b: string, rest: string)
    requires AllSpace(b) && AfterValue(rest)
    ensures ParseScalar(Live(b + (Decimal(n) + rest))) == (Some(Number(n as real)), Live(rest))
  {
    var t := Decimal(n) + rest;
    DigitsOfNumber(if n < 0 then -n else n);
    assert t[0] == '-' || IsDigit(t[0]);
    NoStringHere(b, t);
    DecimalReads(n, rest);
    NoBlanks(t);
    SkipsBlanks("", t);
    assert ParseNumber(Live(t)) == (Some(n as real), Live(rest));
  }

  // ---------------------------------------------------------------- literals

  lemma WordParses(word: string, v: Value, b: string, rest: string)
    requires AllSpace(b) && AfterValue(rest)
    requires (word == "true" && v == Bool(true)) || (word == "false" && v == Bool(false))
          || (word == "null" && v == Null)
    ensures ParseScalar(Live(b + (word + rest))) == (Some(v), Live(rest))
  {
    var t := word + rest;
    NoStringHere(b, t);
    NoNumberHere(t);
    NoBlanks(t);
    if word == "true" {
      Hit("true", "", rest);
    } else {
      Miss("true", "", t);
      if word == "false" {
        Hit("false", "", rest);
      } else {
        Miss("false", "", t);
        Hit("null", "", rest);
      }
    }
  }

  lemma NoBoolHere(t: string)
    requires AtToken(t) && t[0] != 't' && t[0] != 'f'
    ensures ParseBool(Live(t)) == (None, Live(t))
  {
    MissHere("true", t);
    MissHere("false", t);
  }

  lemma NoNullHere(t: string)
    requires AtToken(t) && t[0] != 'n' && t[0] != ','
    ensures ParseNull(Live(t)) == (false, Live(t))
  {
    MissHere("null", t);
  }

  predicate IsBracket(c: char) {
    c == '[' || c == ']' || c == '{' || c == '}'
  }

  lemma NoScalarHere(b: string, t: string)
    requires AllSpace(b) && t != "" && IsBracket(t[0])
    ensures ParseScalar(Live(b + t)) == (None, Live(t))
  {
    hide ParseString, ParseNumber, ParseBool, ParseNull;
    NoStringHere(b, t);
    NoNumberHere(t);
    NoBoolHere(t);
    NoNullHere(t);
  }

  lemma NoValueHere(b: string, t: string)
    requires AllSpace(b) && t != "" && (t[0] == ']' || t[0] == '}')
    ensures ParseValue(Live(b + t)) == (None, Live(t))
  {
    hide ParseScalar, Match;
    NoScalarHere(b, t);
    MissHere("{", t);
  }

  // ---------------------------------------------------------------- values

  /** The value that is read back: the printer writes an invalid value as null. */
  function Norm(v: Value): Value
    decreases v, 1
  {
    match v
    case Invalid => Null
    case Array(items) => Array(NormItems(items))
    case Object(fields) => Object(NormFields(fields))
    case _ => v
  }

  function NormItems(items: seq<Value>): seq<Value>
    decreases items, 0
  {
    if items == [] then [] else [Norm(items[0])] + NormItems(items[1..])
  }

  function NormFields(fs: seq<Field>): (r: seq<Field>)
    ensures |r| == |fs| && forall i | 0 <= i < |r| :: r[i].key == fs[i].key
    decreases fs, 0
  {
    if fs == [] then [] else [Field(fs[0].key, Norm(fs[0].value))] + NormFields(fs[1..])
  }

  /** No object inside has an entry with an empty key. */
  predicate Named(v: Value)
    decreases v, 1
  {
    match v
    case Array(items) => NamedItems(items)
    case Object(fields) => NamedFields(fields)
    case _ => true
  }

  predicate NamedItems(items: seq<Value>)
    decreases items, 0
  {
    items == [] || (Named(items[0]) && NamedItems(items[1..]))
  }

  predicate NamedFields(fs: seq<Field>)
    decreases fs, 0
  {
    fs == [] || (fs[0].key != "" && Named(fs[0].value) && NamedFields(fs[1..]))
  }

  lemma TabsAreBlank(b: string, depth: nat)
    requires AllSpace(b)
    ensures AllSpace(b + Tabs(depth))
  {
  }

  /** The lines of a non-empty array from its first body on. */
  function ItemText(depth: nat, items: seq<Value>, trim: bool, after: string): string
    requires items != [] && forall i | 0 <= i < |items| :: Printable(items[i])
  {
    Body(depth, items[0], trim)
    + (Separator(|items| == 1, trim) + (ItemLines(depth, items[1..], trim) + after))
  }

  /** The lines of a non-empty object from its first key on. */
  function FieldText(depth: nat, fs: seq<Field>, trim: bool, after: string): string
    requires fs != [] && PrintableFields(fs)
  {
    Quoted(fs[0].key) + (": " + (Body(depth, fs[0].value, trim)
    + (Separator(|fs| == 1, trim) + (FieldLines(depth, fs[1..], trim) + after))))
  }

  lemma Regroup(a: string, b: string, c: string, d: string, e: string)
    ensures (a + b + c + d) + e == a + (b + (c + (d + e)))
    ensures (a + b + c) + e == a + (b + (c + e))
    ensures (a + b) + e == a + (b + e)
  {
  }

  lemma ItemLinesText(depth: nat, items: seq<Value>, trim: bool, after: string)
    requires items != [] && forall i | 0 <= i < |items| :: Printable(items[i])
    ensures ItemLines(depth, items, trim) + after == Tabs(depth) + ItemText(depth, items, trim, after)
  {
    Regroup(Tabs(depth), Body(depth, items[0], trim), Separator(|items| == 1, trim),
            ItemLines(depth, items[1..], trim), after);
  }

  lemma FieldLinesText(depth: nat, fs: seq<Field>, trim: bool, after: string)
    requires fs != [] && PrintableFields(fs) && fs[0].key != ""
    ensures FieldLines(depth, fs, trim) + after == Tabs(depth) + FieldText(depth, fs, trim, after)
  {
    var t, q, b := Tabs(depth), Quoted(fs[0].key), Body(depth, fs[0].value, trim);
    var sep, lines := Separator(|fs| == 1, trim), FieldLines(depth, fs[1..], trim);
    Regroup(t + q + ": ", b, sep, lines, after);
    Regroup(t, q, ": ", "", b + (sep + (lines + after)));
  }

  lemma BodyStarts(depth: nat, v: Value, trim: bool, rest: string)
    requires Printable(v)
    ensures var t := Body(depth, v, trim) + rest; AtToken(t) && t[0] != ']' && t[0] != '}' && t[0] != ','
  {
    if v.Number? {
      DigitsOfNumber(if v.n.Floor < 0 then -v.n.Floor else v.n.Floor);
    }
  }

  lemma SeparatorShape(sep: string, rest: string)
    requires sep == ",\n" || sep == " \n"
    ensures AfterValue(sep + rest)
    ensures sep == ",\n" ==> sep + rest == "" + ("," + ("\n" + rest))
    ensures AllSpace(" \n") && AllSpace("\n") && AllSpace("")
  {
  }

  /** Reading the printed text of a value, after any blanks and before a separator, gives the
      value back and stops exactly at the separator, whether or not last commas are removed. */
  lemma ScalarStep(s: Stream, v: Value, s1: Stream)
    requires ParseScalar(s) == (Some(v), s1)
    ensures ParseValue(s) == (Some(v), s1)
  {
    hide ParseScalar;
  }

  lemma {:induction false} BodyParses(depth: nat, v: Value, trim: bool, b: string, rest: string)
    requires Printable(v) && WellFormed(v) && Named(v)
    requires AllSpace(b) && AfterValue(rest)
    ensures ParseValue(Live(b + (Body(depth, v, trim) + rest))) == (Some(Norm(v)), Live(rest))
    decreases v, 2
  {
    hide ParseValue, ParseScalar, ParseString, Match, ItemLines, FieldLines, Escape;
    match v
    case Array(items) => ArrayParses(depth, items, trim, b, rest);
    case Object(fields) => ObjectParses(depth, fields, trim, b, rest);
    case _ =>
      ScalarParses(depth, v, trim, b, rest);
      ScalarStep(Live(b + (Body(depth, v, trim) + rest)), Norm(v), Live(rest));
  }

  lemma StringStep(s: Stream, str: string, s1: Stream)
    requires ParseString(s) == (Some(str), s1)
    ensures ParseScalar(s) == (Some(String(str)), s1)
  {
  }

  lemma ScalarParses(depth: nat, v: Value, trim: bool, b: string, rest: string)
    requires Printable(v) && !v.Array? && !v.Object?
    requires AllSpace(b) && AfterValue(rest)
    ensures ParseScalar(Live(b + (Body(depth, v, trim) + rest))) == (Some(Norm(v)), Live(rest))
  {
    hide ParseScalar, ParseString, Match, Decimal, Quoted;
    match v
    case Bool(x) => WordParses(if x then "true" else "false", v, b, rest);
    case Number(n) => DecimalParses(n.Floor, b, rest);
    case String(s) =>
      QuotedReads(s, b, rest);
      StringStep(Live(b + (Quoted(s) + rest)), s, Live(rest));
    case _ => WordParses("null", Null, b, rest);
  }

  // The steps of the parsing routines, each from the answers of the routines it calls.

  lemma ArrayStep(s: Stream, t: Stream, s1: Stream, s2: Stream, s3: Stream, s4: Stream, items: seq<Value>)
    requires ParseScalar(s) == (None, t) && PeekIs(t, '[') && Match("[", t) == (true, s1)
    requires (Match("]", s1) == (true, s4) && items == [])
          || (Match("]", s1) == (false, s2) && ParseItems(s2) == (items, s3) && Match("]", s3) == (true, s4))
    ensures ParseValue(s) == (Some(Array(items)), s4)
  {
  }

  lemma ObjectStep(s: Stream, s1: Stream, s2: Stream, s3: Stream, s4: Stream, fs: seq<Field>)
    requires Match("{", s) == (true, s1)
    requires (Match("}", s1) == (true, s4) && fs == [])
          || (Match("}", s1) == (false, s2) && ParseFields(s2, []) == (Some(fs), s3) && Match("}", s3) == (true, s4))
    ensures ParseObject(s) == (Some(fs), s4)
  {
  }

  lemma ItemStep(s: Stream, v: Value, s1: Stream, more: bool, s2: Stream, tail: seq<Value>, s3: Stream)
    requires ParseValue(s) == (Some(v), s1) && Match(",", s1) == (more, s2)
    requires if more then ParseItems(s2) == (tail, s3) else tail == [] && s3 == s2
    ensures ParseItems(s) == ([v] + tail, s3)
  {
    hide ParseValue, Match;
    assert [v] + [] == [v];
  }

  lemma NoMoreItems(s: Stream, s1: Stream)
    requires ParseValue(s) == (None, s1)
    ensures ParseItems(s) == ([], s1)
  {
  }

  /** The blank text before a container's closing bracket. */
  lemma CloserHit(closer: string, b: string, depth: nat, rest: string)
    requires closer == "]" || closer == "}"
    requires AllSpace(b)
    ensures Match(closer, Live(b + (Tabs(depth) + (closer + rest)))) == (true, Live(rest))
    ensures Match(closer, Live(closer + rest)) == (true, Live(rest))
  {
    TabsAreBlank(b, depth);
    Regroup(b, Tabs(depth), "", "", closer + rest);
    Hit(closer, b + Tabs(depth), rest);
    NoBlanks(closer + rest);
    Hit(closer, "", rest);
  }

  lemma NoCloserYet(closer: string, b: string, depth: nat, text: string)
    requires closer == "]" || closer == "}"
    requires AllSpace(b) && AtToken(text) && text[0] != closer[0]
    ensures Match(closer, Live(b + (Tabs(depth) + text))) == (false, Live(text))
  {
    TabsAreBlank(b, depth);
    Regroup(b, Tabs(depth), "", "", text);
    Miss(closer, b + Tabs(depth), text);
  }

  lemma ContainerText(opener: string, lines: string, tabs: string, closer: string, rest: string)
    requires |opener| == 1
    ensures ((opener + "\n") + lines + tabs + closer) + rest == opener + ("\n" + (lines + (tabs + (closer + rest))))
    ensures opener == "[" ==> opener + "\n" == "[\n"
    ensures opener == "{" ==> opener + "\n" == "{\n"
  {
  }

  lemma OpenerHit(opener: string, b: string, t: string)
    requires opener == "[" || opener == "{"
    requires AllSpace(b)
    ensures ParseScalar(Live(b + (opener + t))) == (None, Live(opener + t))
    ensures Match(opener, Live(opener + t)) == (true, Live(t))
  {
    NoScalarHere(b, opener + t);
    NoBlanks(opener + t);
    Hit(opener, "", t);
  }

  lemma {:induction false} ArrayParses(depth: nat, items: seq<Value>, trim: bool, b: string, rest: string)
    requires Printable(Array(items)) && WellFormed(Array(items)) && NamedItems(items)
    requires AllSpace(b) && AfterValue(rest)
    ensures ParseValue(Live(b + (Body(depth, Array(items), trim) + rest)))
         == (Some(Array(NormItems(items))), Live(rest))
    decreases items, 1
  {
    hide ParseValue, ParseItems, ParseScalar, Match;
    var lines, after := ItemLines(depth + 1, items, trim), Tabs(depth) + ("]" + rest);
    var inner := "\n" + (lines + after);
    ContainerText("[", lines, Tabs(depth), "]", rest);
    OpenerHit("[", b, inner);
    CloserHit("]", "\n", depth, rest);
    var s, t := Live(b + ("[" + inner)), Live("[" + inner);
    if items == [] {
      NoBlanks(after);
      ArrayStep(s, t, Live(inner), Dead, Dead, Live(rest), []);
    } else {
      var text := ItemText(depth + 1, items, trim, after);
      ItemLinesText(depth + 1, items, trim, after);
      BodyStarts(depth + 1, items[0], trim,
                 Separator(|items| == 1, trim) + (ItemLines(depth + 1, items[1..], trim) + after));
      NoCloserYet("]", "\n", depth + 1, text);
      NoBlanks(text);
      ItemsParse(depth + 1, items, trim, "", Tabs(depth), rest);
      ArrayStep(s, t, Live(inner), Live(text), Live("]" + rest), Live(rest), NormItems(items));
    }
  }

  lemma SeparatorReads(last: bool, trim: bool, closer: string, lines: string, w: string, rest: string)
    requires closer == "]" || closer == "}"
    requires AllSpace(w) && (last ==> lines == "")
    ensures var s := Live(Separator(last, trim) + (lines + (w + (closer + rest))));
      if last && trim then Match(",", s) == (false, Live(closer + rest))
      else Match(",", s) == (true, Live("\n" + (lines + (w + (closer + rest)))))
  {
    var after := lines + (w + (closer + rest));
    if last && trim {
      NoBlanks(w + (closer + rest));
      Regroup(" \n", w, "", "", closer + rest);
      Miss(",", " \n" + w, closer + rest);
    } else {
      SeparatorShape(",\n", after);
      Hit(",", "", "\n" + after);
    }
  }

  lemma NoItemAfterComma(w: string, rest: string)
    requires AllSpace(w)
    ensures ParseItems(Live("\n" + ("" + (w + ("]" + rest))))) == ([], Live("]" + rest))
  {
    NoBlanks(w + ("]" + rest));
    Regroup("\n", w, "", "", "]" + rest);
    NoValueHere("\n" + w, "]" + rest);
    NoMoreItems(Live("\n" + (w + ("]" + rest))), Live("]" + rest));
  }

  /** The loop over the items of a printed array collects them all and stops at the bracket. */
  lemma {:induction false} ItemsParse(depth: nat, items: seq<Value>, trim: bool, b: string, w: string, rest: string)
    requires items != [] && Printable(Array(items)) && WellFormed(Array(items)) && NamedItems(items)
    requires AllSpace(b) && AllSpace(w)
    ensures ParseItems(Live(b + ItemText(depth, items, trim, w + ("]" + rest)))) == (NormItems(items), Live("]" + rest))
    decreases items, 0
  {
    hide ParseValue, ParseItems, Match;
    var after, last := w + ("]" + rest), |items| == 1;
    var sep, lines := Separator(last, trim), ItemLines(depth, items[1..], trim);
    SeparatorShape(sep, lines + after);
    BodyParses(depth, items[0], trim, b, sep + (lines + after));
    SeparatorReads(last, trim, "]", lines, w, rest);
    var s, s1 := Live(b + ItemText(depth, items, trim, after)), Live(sep + (lines + after));
    var s2 := Live("\n" + (lines + after));
    if last && trim {
      ItemStep(s, Norm(items[0]), s1, false, Live("]" + rest), [], Live("]" + rest));
    } else {
      if last {
        NoItemAfterComma(w, rest);
      } else {
        ItemLinesText(depth, items[1..], trim, after);
        TabsAreBlank("\n", depth);
        Regroup("\n", Tabs(depth), "", "", ItemText(depth, items[1..], trim, after));
        ItemsParse(depth, items[1..], trim, "\n" + Tabs(depth), w, rest);
      }
      ItemStep(s, Norm(items[0]), s1, true, s2, NormItems(items[1..]), Live("]" + rest));
    }
  }

  // ---------------------------------------------------------------- objects

  lemma FieldStep(s: Stream, acc: seq<Field>, key: string, s1: Stream, s2: Stream, v: Value, s3: Stream,
                  more: bool, s4: Stream, r: (Option<seq<Field>>, Stream))
    requires ParseString(s) == (Some(key), s1) && Match(":", s1) == (true, s2)
    requires ParseValue(s2) == (Some(v), s3) && Match(",", s3) == (more, s4)
    requires r == if more then ParseFields(s4, Insert(acc, key, v)) else (Some(Insert(acc, key, v)), s4)
    ensures ParseFields(s, acc) == r
  {
    hide ParseValue, Match, ParseString, Insert;
  }

  lemma ObjectValueStep(s: Stream, t: Stream, fs: seq<Field>, s1: Stream)
    requires ParseScalar(s) == (None, t) && !PeekIs(t, '[') && ParseObject(t) == (Some(fs), s1)
    ensures ParseValue(s) == (Some(Object(fs)), s1)
  {
    hide ParseScalar, ParseObject, ParseArray;
  }

  lemma NoKeyAfterComma(w: string, rest: string, acc: seq<Field>)
    requires AllSpace(w)
    ensures ParseFields(Live("\n" + ("" + (w + ("}" + rest)))), acc) == (Some(acc), Live("}" + rest))
  {
    hide Match, ParseString;
    NoBlanks(w + ("}" + rest));
    Regroup("\n", w, "", "", "}" + rest);
    NoStringHere("\n" + w, "}" + rest);
  }

  lemma ColonReads(t: string)
    ensures Match(":", Live(": " + t)) == (true, Live(" " + t))
  {
    NoBlanks(":" + (" " + t));
    Hit(":", "", " " + t);
    assert ":" + (" " + t) == ": " + t;
  }

  /** How reading a printed object starts and ends. */
  lemma ObjectOpens(depth: nat, fs: seq<Field>, trim: bool, rest: string)
    requires PrintableFields(fs) && NamedFields(fs)
    ensures var after := Tabs(depth) + ("}" + rest);
      var inner := "\n" + (FieldLines(depth + 1, fs, trim) + after);
      && Body(depth, Object(fs), trim) + rest == "{" + inner
      && Match("{", Live("{" + inner)) == (true, Live(inner))
      && Match("}", Live("}" + rest)) == (true, Live(rest))
      && (if fs == [] then Match("}", Live(inner)) == (true, Live(rest))
          else Match("}", Live(inner)) == (false, Live(FieldText(depth + 1, fs, trim, after))))
  {
    hide Match, ParseScalar, Quoted;
    var lines, after := FieldLines(depth + 1, fs, trim), Tabs(depth) + ("}" + rest);
    ContainerText("{", lines, Tabs(depth), "}", rest);
    OpenerHit("{", "", "\n" + (lines + after));
    CloserHit("}", "\n", depth, rest);
    if fs == [] {
      NoBlanks(after);
    } else {
      FieldLinesText(depth + 1, fs, trim, after);
      QuotedStarts(fs[0].key);
      NoCloserYet("}", "\n", depth + 1, FieldText(depth + 1, fs, trim, after));
    }
  }

  lemma NormStaysSorted(fs: seq<Field>)
    requires FieldsWellFormed(fs)
    ensures Sorted([] + NormFields(fs)) && [] + NormFields(fs) == NormFields(fs)
  {
    hide Less;
    assert [] + NormFields(fs) == NormFields(fs);
  }

  /** Reading the printed text of a whole object. */
  lemma {:induction false} PrintedObjectParses(depth: nat, fs: seq<Field>, trim: bool, rest: string)
    requires PrintableFields(fs) && FieldsWellFormed(fs) && NamedFields(fs)
    ensures ParseObject(Live(Body(depth, Object(fs), trim) + rest)) == (Some(NormFields(fs)), Live(rest))
    decreases fs, 1
  {
    hide ParseFields, ParseObject, Match, Body, Sorted, FieldText, FieldLines;
    var after := Tabs(depth) + ("}" + rest);
    var inner := "\n" + (FieldLines(depth + 1, fs, trim) + after);
    ObjectOpens(depth, fs, trim, rest);
    if fs == [] {
      ObjectStep(Live("{" + inner), Live(inner), Dead, Dead, Live(rest), []);
    } else {
      var text := FieldText(depth + 1, fs, trim, after);
      NormStaysSorted(fs);
      NoBlanks(text);
      FieldsParse(depth + 1, fs, trim, "", Tabs(depth), rest, []);
      ObjectStep(Live("{" + inner), Live(inner), Live(text), Live("}" + rest), Live(rest), NormFields(fs));
    }
  }

  lemma {:induction false} ObjectParses(depth: nat, fs: seq<Field>, trim: bool, b: string, rest: string)
    requires PrintableFields(fs) && FieldsWellFormed(fs) && NamedFields(fs)
    requires AllSpace(b) && AfterValue(rest)
    ensures ParseValue(Live(b + (Body(depth, Object(fs), trim) + rest))) == (Some(Object(NormFields(fs))), Live(rest))
    decreases fs, 2
  {
    hide ParseValue, ParseFields, ParseObject, ParseScalar, Match;
    var lines, after := FieldLines(depth + 1, fs, trim), Tabs(depth) + ("}" + rest);
    var inner := "\n" + (lines + after);
    ContainerText("{", lines, Tabs(depth), "}", rest);
    OpenerHit("{", b, inner);
    PrintedObjectParses(depth, fs, trim, rest);
    ObjectValueStep(Live(b + ("{" + inner)), Live("{" + inner), NormFields(fs), Live(rest));
  }

  /** The entries read so far together with those still to come stay a sorted object. */
  lemma KeysStaySorted(acc: seq<Field>, fs: seq<Field>)
    requires fs != [] && Sorted(acc + NormFields(fs))
    ensures var f := NormFields(fs)[0];
      Insert(acc, f.key, f.value) == acc + [f] && acc + NormFields(fs) == (acc + [f]) + NormFields(fs[1..])
  {
    InsertNext(acc, NormFields(fs)[0], NormFields(fs[1..]));
  }

  /** The loop over the entries of a printed object collects them all and stops at the brace. */
  lemma {:induction false} FieldsParse(depth: nat, fs: seq<Field>, trim: bool, b: string, w: string,
                                       rest: string, acc: seq<Field>)
    requires fs != [] && PrintableFields(fs) && (forall i | 0 <= i < |fs| :: WellFormed(fs[i].value)) && NamedFields(fs)
    requires AllSpace(b) && AllSpace(w) && Sorted(acc + NormFields(fs))
    ensures ParseFields(Live(b + FieldText(depth, fs, trim, w + ("}" + rest))), acc)
         == (Some(acc + NormFields(fs)), Live("}" + rest))
    decreases fs, 0
  {
    hide ParseValue, ParseFields, ParseString, Match, Quoted, Insert, Less;
    var after, last := w + ("}" + rest), |fs| == 1;
    var sep, lines := Separator(last, trim), FieldLines(depth, fs[1..], trim);
    var key, v := fs[0].key, Norm(fs[0].value);
    var body := Body(depth, fs[0].value, trim);
    SeparatorShape(sep, lines + after);
    QuotedReads(key, b, ": " + (body + (sep + (lines + after))));
    ColonReads(body + (sep + (lines + after)));
    BodyParses(depth, fs[0].value, trim, " ", sep + (lines + after));
    SeparatorReads(last, trim, "}", lines, w, rest);
    KeysStaySorted(acc, fs);
    var acc1 := acc + [Field(key, v)];
    var s, s1 := Live(b + FieldText(depth, fs, trim, after)), Live(": " + (body + (sep + (lines + after))));
    var s2, s3 := Live(" " + (body + (sep + (lines + after)))), Live(sep + (lines + after));
    var r := (Some(acc + NormFields(fs)), Live("}" + rest));
    if last { assert acc1 + [] == acc1; }
    if last && trim {
      FieldStep(s, acc, key, s1, s2, v, s3, false, Live("}" + rest), r);
    } else {
      var s4 := Live("\n" + (lines + after));
      if last {
        NoKeyAfterComma(w, rest, acc1);
      } else {
        FieldLinesText(depth, fs[1..], trim, after);
        TabsAreBlank("\n", depth);
        Regroup("\n", Tabs(depth), "", "", FieldText(depth, fs[1..], trim, after));
        FieldsParse(depth, fs[1..], trim, "\n" + Tabs(depth), w, rest, acc1);
      }
      FieldStep(s, acc, key, s1, s2, v, s3, true, s4, r);
    }
  }

  // ---------------------------------------------------------------- the main result

  /** Printing an object and reading the text gives the object back (an invalid value comes back
      as the null it is printed as), provided no entry has an empty key; and it makes no
      difference whether the last comma of each container was removed. */
  lemma PrintThenRead(fs: seq<Field>)
    requires PrintableFields(fs) && FieldsWellFormed(fs) && NamedFields(fs)
    ensures ReadObject(PrintObject(fs)) == Some(NormFields(fs))
    ensures ReadObject(PrintObjectUntrimmed(fs)) == ReadObject(PrintObject(fs))
  {
    PrintedText(fs);
    PrintedObjectParses(0, fs, true, " \n");
    PrintedObjectParses(0, fs, false, ",\n");
  }
}
