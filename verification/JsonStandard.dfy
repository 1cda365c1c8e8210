/** The printed text is JSON as RFC 8259 defines it: its grammar (sections 2 to 7) as a relation between values
    and texts, which knows no trailing commas and no other extensions. */
module JsonStandard {
  import opened JsonValue
  import opened JsonPrinter
  import opened JsonRoundTrip

  // ---------------------------------------------------------------- the grammar

  predicate Blank(t: string) {
    forall i | 0 <= i < |t| :: t[i] == ' ' || t[i] == '\t' || t[i] == '\n' || t[i] == '\r'
  }

  /** The two-character escapes. */
  predicate StandsFor(e: char, c: char) {
    || ((e == '"' || e == '\\' || e == '/') && c == e)
    || (e == 'b' && c as int == 8)
    || (e == 'f' && c as int == 12)
    || (e == 'n' && c as int == 10)
    || (e == 'r' && c as int == 13)
    || (e == 't' && c as int == 9)
  }

  predicate HexText(t: string, n: int) {
    |t| == 4 && n >= 0
    && HexDigitIs(t[0], n / 4096) && HexDigitIs(t[1], n / 256 % 16) && HexDigitIs(t[2], n / 16 % 16)
    && HexDigitIs(t[3], n % 16)
  }

  predicate HexDigitIs(c: char, d: int) {
    (0 <= d < 10 && c as int == '0' as int + d)
    || (10 <= d < 16 && (c as int == 'a' as int + d - 10 || c as int == 'A' as int + d - 10))
  }

  /** One character inside a string. */
  predicate CharText(c: char, t: string) {
    || (t == [c] && c as int >= 0x20 && c != '"' && c != '\\')
    || (|t| == 2 && t[0] == '\\' && StandsFor(t[1], c))
    || (|t| == 6 && t[0] == '\\' && t[1] == 'u' && HexText(t[2..], c as int))
  }

  ghost predicate CharsText(s: string, t: string)
    decreases s
  {
    if s == "" then t == ""
    else exists k :: FirstChar(s, t, k) && CharsText(s[1..], t[k..])
  }

  predicate FirstChar(s: string, t: string, k: int) {
    s != "" && 0 <= k <= |t| && CharText(s[0], t[..k])
  }

  ghost predicate StringText(s: string, t: string) {
    |t| >= 2 && t[0] == '"' && t[|t| - 1] == '"' && CharsText(s, t[1..|t| - 1])
  }

  predicate IsDigitText(c: char, d: int) {
    0 <= d < 10 && c as int == '0' as int + d
  }

  /** Decimal digits without leading zeros. */
  predicate NatText(n: nat, t: string) {
    if n < 10 then |t| == 1 && IsDigitText(t[0], n)
    else t != "" && NatText(n / 10, t[..|t| - 1]) && IsDigitText(t[|t| - 1], n % 10)
  }

  predicate IntText(n: int, t: string) {
    if n < 0 then t != "" && t[0] == '-' && NatText(-n, t[1..]) else NatText(n, t)
  }

  /** The texts of a value; of numbers only those written as whole numbers. */
  ghost predicate ValueText(v: Value, t: string)
    decreases v, 0
  {
    match v
    case Invalid => false
    case Null => t == "null"
    case Bool(b) => t == if b then "true" else "false"
    case Number(x) => x == x.Floor as real && IntText(x.Floor, t)
    case String(s) => StringText(s, t)
    case Array(items) =>
      |t| >= 2 && t[0] == '[' && t[|t| - 1] == ']' && ItemsText(items, t[1..|t| - 1])
    case Object(fields) =>
      |t| >= 2 && t[0] == '{' && t[|t| - 1] == '}' && FieldsText(fields, t[1..|t| - 1])
  }

  /** A value with blanks around it. */
  ghost predicate PaddedText(v: Value, t: string)
    decreases v, 1
  {
    exists i, j :: Pad(t, i, j) && ValueText(v, t[i..j])
  }

  predicate Pad(t: string, i: int, j: int) {
    0 <= i <= j <= |t| && Blank(t[..i]) && Blank(t[j..])
  }

  ghost predicate PaddedName(s: string, t: string) {
    exists i, j :: Pad(t, i, j) && StringText(s, t[i..j])
  }

  /** Values with one comma between each two. */
  ghost predicate ItemsText(items: seq<Value>, t: string)
    decreases items, 0
  {
    if items == [] then Blank(t)
    else if |items| == 1 then PaddedText(items[0], t)
    else exists k :: IsAt(t, ',', k) && PaddedText(items[0], t[..k]) && ItemsText(items[1..], t[k + 1..])
  }

  predicate IsAt(t: string, c: char, k: int) {
    0 <= k < |t| && t[k] == c
  }

  /** A name, a colon and a value. */
  ghost predicate FieldText(f: Field, t: string)
    decreases f, 2
  {
    exists k :: IsAt(t, ':', k) && PaddedName(f.key, t[..k]) && PaddedText(f.value, t[k + 1..])
  }

  ghost predicate FieldsText(fs: seq<Field>, t: string)
    decreases fs, 0
  {
    if fs == [] then Blank(t)
    else if |fs| == 1 then FieldText(fs[0], t)
    else exists k :: IsAt(t, ',', k) && FieldText(fs[0], t[..k]) && FieldsText(fs[1..], t[k + 1..])
  }

  // ---------------------------------------------------------------- putting texts together

  lemma PadText(v: Value, w1: string, b: string, w2: string)
    requires Blank(w1) && Blank(w2) && ValueText(v, b)
    ensures PaddedText(v, w1 + b + w2)
  {
    hide ValueText, Blank;
    var t := w1 + b + w2;
    assert t[..|w1|] == w1 && t[|w1|..|w1| + |b|] == b && t[|w1| + |b|..] == w2;
    assert Pad(t, |w1|, |w1| + |b|);
  }

  lemma PadName(s: string, w1: string, b: string, w2: string)
    requires Blank(w1) && Blank(w2) && StringText(s, b)
    ensures PaddedName(s, w1 + b + w2)
  {
    hide StringText, Blank;
    var t := w1 + b + w2;
    assert t[..|w1|] == w1 && t[|w1|..|w1| + |b|] == b && t[|w1| + |b|..] == w2;
    assert Pad(t, |w1|, |w1| + |b|);
  }

  lemma JoinItems(items: seq<Value>, a: string, b: string)
    requires |items| > 1 && PaddedText(items[0], a) && ItemsText(items[1..], b)
    ensures ItemsText(items, a + "," + b)
  {
    hide PaddedText;
    var t := a + "," + b;
    assert t[..|a|] == a && t[|a| + 1..] == b && IsAt(t, ',', |a|);
  }

  lemma JoinField(f: Field, a: string, b: string)
    requires PaddedName(f.key, a) && PaddedText(f.value, b)
    ensures FieldText(f, a + ":" + b)
  {
    hide PaddedName, PaddedText;
    var t := a + ":" + b;
    assert t[..|a|] == a && t[|a| + 1..] == b && IsAt(t, ':', |a|);
  }

  lemma JoinFields(fs: seq<Field>, a: string, b: string)
    requires |fs| > 1 && FieldText(fs[0], a) && FieldsText(fs[1..], b)
    ensures FieldsText(fs, a + "," + b)
  {
    hide FieldText;
    var t := a + "," + b;
    assert t[..|a|] == a && t[|a| + 1..] == b && IsAt(t, ',', |a|);
  }

  lemma BlankJoins(a: string, b: string)
    requires Blank(a) && Blank(b)
    ensures Blank(a + b)
  {
  }

  lemma TabsBlank(depth: nat)
    ensures Blank(Tabs(depth)) && Blank("\n") && Blank(" \n") && Blank(" ") && Blank("")
  {
  }

  // ---------------------------------------------------------------- what the printer writes

  lemma EscapedChar(c: char)
    ensures CharText(c, EscapeChar(c))
  {
    var t := EscapeChar(c);
    if |t| == 6 {
      assert t[2..] == "00" + [HexDigit(c as int / 16), HexDigit(c as int % 16)];
    }
  }

  lemma {:induction false} EscapedIsStandard(s: string)
    ensures CharsText(s, Escape(s))
  {
    if s != "" {
      hide CharText, EscapeChar;
      EscapedIsStandard(s[1..]);
      EscapedChar(s[0]);
      var first, t := EscapeChar(s[0]), Escape(s);
      assert t[..|first|] == first && t[|first|..] == Escape(s[1..]);
      assert FirstChar(s, t, |first|);
    }
  }

  lemma QuotedIsStandard(s: string)
    ensures StringText(s, Quoted(s))
  {
    hide CharsText;
    EscapedIsStandard(s);
    assert Quoted(s)[1..|Quoted(s)| - 1] == Escape(s);
  }

  lemma {:induction false} DigitsAreStandard(n: nat)
    ensures NatText(n, Digits(n))
  {
    if n >= 10 {
      DigitsAreStandard(n / 10);
      assert Digits(n)[..|Digits(n)| - 1] == Digits(n / 10);
    }
  }

  lemma DecimalIsStandard(n: int)
    ensures IntText(n, Decimal(n))
  {
    DigitsAreStandard(if n < 0 then -n else n);
    if n < 0 { assert Decimal(n)[1..] == Digits(-n); }
  }

  lemma NormFirst(items: seq<Value>)
    requires items != []
    ensures var n := NormItems(items);
      |n| == |items| && n[0] == Norm(items[0]) && n[1..] == NormItems(items[1..])
  {
    if |items| > 1 { NormFirst(items[1..]); }
  }

  lemma NormFieldsFirst(fs: seq<Field>)
    requires fs != []
    ensures var n := NormFields(fs);
      |n| == |fs| && n[0] == Field(fs[0].key, Norm(fs[0].value)) && n[1..] == NormFields(fs[1..])
  {
  }

  lemma LastLine(before: string, text: string, after: string)
    ensures before + (text + " \n" + "") + after == before + text + (" \n" + after)
  {
  }

  lemma InnerLine(before: string, text: string, rest: string, after: string)
    ensures before + (text + ",\n" + rest) + after == (before + text) + "," + ("\n" + rest + after)
  {
  }

  lemma NothingBehind(a: string, b: string)
    ensures (a + b) + "" == a + b
  {
  }

  lemma Shift(a: string, b: string, c: string)
    ensures a + (b + c) == (a + b) + c
  {
  }

  lemma Enclosed(opener: string, lines: string, tabs: string, closer: string)
    requires |opener| == 1 && |closer| == 1
    ensures var t := opener + "\n" + lines + tabs + closer;
      |t| >= 2 && t[0] == opener[0] && t[|t| - 1] == closer[0] && t[1..|t| - 1] == "\n" + lines + tabs
  {
  }

  /** The text of every value, trimmed, is a text of that value in the standard grammar. */
  lemma {:induction false} BodyIsStandard(depth: nat, v: Value)
    requires Printable(v) && Named(v)
    ensures ValueText(Norm(v), Body(depth, v, true))
    decreases v, 2
  {
    match v
    case String(s) => QuotedIsStandard(s);
    case Number(x) => DecimalIsStandard(x.Floor);
    case Array(items) =>
      hide ValueText, Norm, Body, Tabs;
      TabsBlank(depth);
      ItemsAreStandard(depth + 1, items, "\n", Tabs(depth));
      ArrayIsStandard(depth, items);
    case Object(fields) =>
      hide ValueText, Norm, Body, Tabs;
      TabsBlank(depth);
      FieldsAreStandard(depth + 1, fields, "\n", Tabs(depth));
      ObjectIsStandard(depth, fields);
    case _ =>
  }

  lemma ArrayIsStandard(depth: nat, items: seq<Value>)
    requires Printable(Array(items))
    requires ItemsText(NormItems(items), "\n" + ItemLines(depth + 1, items, true) + Tabs(depth))
    ensures ValueText(Norm(Array(items)), Body(depth, Array(items), true))
  {
    hide ItemsText, ItemLines, NormItems, Tabs;
    Enclosed("[", ItemLines(depth + 1, items, true), Tabs(depth), "]");
    assert "[" + "\n" == "[\n";
  }

  lemma ObjectIsStandard(depth: nat, fs: seq<Field>)
    requires PrintableFields(fs)
    requires FieldsText(NormFields(fs), "\n" + FieldLines(depth + 1, fs, true) + Tabs(depth))
    ensures ValueText(Norm(Object(fs)), Body(depth, Object(fs), true))
  {
    hide FieldsText, FieldLines, NormFields, Tabs;
    Enclosed("{", FieldLines(depth + 1, fs, true), Tabs(depth), "}");
    assert "{" + "\n" == "{\n";
  }

  lemma ItemLinesFirst(depth: nat, items: seq<Value>)
    requires items != [] && forall i | 0 <= i < |items| :: Printable(items[i])
    ensures ItemLines(depth, items, true)
         == (Tabs(depth) + Body(depth, items[0], true)) + Separator(|items| == 1, true)
            + ItemLines(depth, items[1..], true)
    ensures |items| == 1 ==> ItemLines(depth, items[1..], true) == ""
  {
  }

  lemma ItemIsStandard(depth: nat, v: Value, before: string, after: string)
    requires Printable(v) && ValueText(Norm(v), Body(depth, v, true)) && Blank(before) && Blank(after)
    ensures PaddedText(Norm(v), before + (Tabs(depth) + Body(depth, v, true)) + after)
  {
    hide ValueText, PaddedText, Body, Blank, Tabs;
    TabsBlank(depth);
    BlankJoins(before, Tabs(depth));
    PadText(Norm(v), before + Tabs(depth), Body(depth, v, true), after);
    Shift(before, Tabs(depth), Body(depth, v, true));
  }

  lemma {:induction false} ItemsAreStandard(depth: nat, items: seq<Value>, before: string, after: string)
    requires (forall i | 0 <= i < |items| :: Printable(items[i])) && NamedItems(items)
    requires Blank(before) && Blank(after)
    ensures ItemsText(NormItems(items), before + ItemLines(depth, items, true) + after)
    decreases items, 1
  {
    if items == [] {
      BlankJoins(before, after);
      assert before + "" + after == before + after;
    } else {
      hide ValueText, PaddedText, ItemsText, Body, Blank, ItemLines, NormItems, Tabs;
      var text, rest := Tabs(depth) + Body(depth, items[0], true), ItemLines(depth, items[1..], true);
      BodyIsStandard(depth, items[0]);
      NormFirst(items);
      ItemLinesFirst(depth, items);
      TabsBlank(depth);
      if |items| == 1 {
        BlankJoins(" \n", after);
        ItemIsStandard(depth, items[0], before, " \n" + after);
        OneItem(NormItems(items), before + text + (" \n" + after));
        LastLine(before, text, after);
      } else {
        ItemsAreStandard(depth, items[1..], "\n", after);
        ItemIsStandard(depth, items[0], before, "");
        NothingBehind(before, text);
        JoinItems(NormItems(items), before + text, "\n" + rest + after);
        InnerLine(before, text, rest, after);
      }
    }
  }

  lemma OneItem(items: seq<Value>, t: string)
    requires |items| == 1 && PaddedText(items[0], t)
    ensures ItemsText(items, t)
  {
  }

  lemma OneField(fs: seq<Field>, t: string)
    requires |fs| == 1 && FieldText(fs[0], t)
    ensures FieldsText(fs, t)
  {
  }

  lemma EntryText(before: string, tabs: string, name: string, body: string, after: string)
    ensures before + ((tabs + name + ": ") + body) + after == ((before + tabs) + name + "") + ":" + (" " + body + after)
  {
  }

  lemma EntryIsStandard(depth: nat, f: Field, before: string, after: string)
    requires Printable(f.value) && f.key != "" && ValueText(Norm(f.value), Body(depth, f.value, true))
    requires Blank(before) && Blank(after)
    ensures FieldText(Field(f.key, Norm(f.value)), before + (Head(depth, f.key) + Body(depth, f.value, true)) + after)
  {
    hide ValueText, PaddedText, PaddedName, StringText, FieldText, Body, Blank, Quoted, Tabs;
    TabsBlank(depth);
    BlankJoins(before, Tabs(depth));
    QuotedIsStandard(f.key);
    PadName(f.key, before + Tabs(depth), Quoted(f.key), "");
    PadText(Norm(f.value), " ", Body(depth, f.value, true), after);
    JoinField(Field(f.key, Norm(f.value)), (before + Tabs(depth)) + Quoted(f.key) + "",
              " " + Body(depth, f.value, true) + after);
    EntryText(before, Tabs(depth), Quoted(f.key), Body(depth, f.value, true), after);
  }

  lemma FieldLinesFirst(depth: nat, fs: seq<Field>)
    requires fs != [] && PrintableFields(fs)
    ensures FieldLines(depth, fs, true)
         == (Head(depth, fs[0].key) + Body(depth, fs[0].value, true)) + Separator(|fs| == 1, true)
            + FieldLines(depth, fs[1..], true)
    ensures |fs| == 1 ==> FieldLines(depth, fs[1..], true) == ""
  {
  }

  lemma {:induction false} FieldsAreStandard(depth: nat, fs: seq<Field>, before: string, after: string)
    requires PrintableFields(fs) && NamedFields(fs)
    requires Blank(before) && Blank(after)
    ensures FieldsText(NormFields(fs), before + FieldLines(depth, fs, true) + after)
    decreases fs, 1
  {
    if fs == [] {
      BlankJoins(before, after);
      assert before + "" + after == before + after;
    } else {
      hide ValueText, FieldText, FieldsText, Body, Blank, Head, FieldLines, NormFields;
      var entry, rest := Head(depth, fs[0].key) + Body(depth, fs[0].value, true), FieldLines(depth, fs[1..], true);
      BodyIsStandard(depth, fs[0].value);
      NormFieldsFirst(fs);
      FieldLinesFirst(depth, fs);
      TabsBlank(depth);
      if |fs| == 1 {
        BlankJoins(" \n", after);
        EntryIsStandard(depth, fs[0], before, " \n" + after);
        OneField(NormFields(fs), before + entry + (" \n" + after));
        LastLine(before, entry, after);
      } else {
        FieldsAreStandard(depth, fs[1..], "\n", after);
        EntryIsStandard(depth, fs[0], before, "");
        NothingBehind(before, entry);
        JoinFields(NormFields(fs), before + entry, "\n" + rest + after);
        InnerLine(before, entry, rest, after);
      }
    }
  }

  /** The printed text of an object without empty keys is standard JSON for that object: what removing the last
      commas is for. */
  lemma PrintedIsStandard(fs: seq<Field>)
    requires PrintableFields(fs) && NamedFields(fs)
    ensures PaddedText(Object(NormFields(fs)), PrintObject(fs))
  {
    hide ValueText, PaddedText, Body;
    PrintedText(fs);
    BodyIsStandard(0, Object(fs));
    TabsBlank(0);
    PadText(Object(NormFields(fs)), "", Body(0, Object(fs), true), " \n");
    assert "" + Body(0, Object(fs), true) + " \n" == Body(0, Object(fs), true) + " \n";
  }
}
