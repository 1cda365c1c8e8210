/** Exactly when an object survives printing and reading.
    The argument counts the colons outside string literals and comments: every entry that is read
    costs one, and the printer writes one for every entry with a non-empty key only. */
module JsonExactness {
  import opened Wrappers
  import opened JsonValue
  import opened JsonPrinter
  import opened JsonGrammar
  import opened JsonRoundTrip

  /** The colons of a text outside string literals and comments. */
  function Colons(t: string): nat
    decreases |t|
  {
    if t == "" then 0
    else if t[0] == '"' || t[0] == '\'' then
      var body := StringBody(t[1..], t[0]);
      if body.None? then 0 else Colons(body.value.1)
    else if StartsComment(t) then Colons(ToLineEnd(t[2..]))
    else (if t[0] == ':' then 1 else 0) + Colons(t[1..])
  }

  function ColonsLeft(s: Stream): nat {
    if s.Live? then Colons(s.rest) else 0
  }

  // ---------------------------------------------------------------- entries of a value

  /** The entries of all objects inside a value. */
  function Entries(v: Value): nat
    decreases v, 1
  {
    match v
    case Array(items) => EntriesOfItems(items)
    case Object(fields) => EntriesOf(fields)
    case _ => 0
  }

  function EntriesOfItems(items: seq<Value>): nat
    decreases items, 0
  {
    if items == [] then 0 else Entries(items[0]) + EntriesOfItems(items[1..])
  }

  function EntriesOf(fs: seq<Field>): nat
    decreases fs, 0
  {
    if fs == [] then 0 else 1 + Entries(fs[0].value) + EntriesOf(fs[1..])
  }

  /** Those entries of them whose key is not empty. */
  function NamedEntries(v: Value): nat
    decreases v, 1
  {
    match v
    case Array(items) => NamedEntriesOfItems(items)
    case Object(fields) => NamedEntriesOf(fields)
    case _ => 0
  }

  function NamedEntriesOfItems(items: seq<Value>): nat
    decreases items, 0
  {
    if items == [] then 0 else NamedEntries(items[0]) + NamedEntriesOfItems(items[1..])
  }

  function NamedEntriesOf(fs: seq<Field>): nat
    decreases fs, 0
  {
    if fs == [] then 0
    else (if fs[0].key == "" then 0 else 1) + NamedEntries(fs[0].value) + NamedEntriesOf(fs[1..])
  }

  lemma {:induction false} NamedMeansAllEntries(v: Value)
    ensures NamedEntries(v) <= Entries(v)
    ensures NamedEntries(v) == Entries(v) ==> Named(v)
    decreases v, 1
  {
    match v
    case Array(items) => NamedMeansAllItems(items);
    case Object(fields) => NamedMeansAllFields(fields);
    case _ =>
  }

  lemma {:induction false} NamedMeansAllItems(items: seq<Value>)
    ensures NamedEntriesOfItems(items) <= EntriesOfItems(items)
    ensures NamedEntriesOfItems(items) == EntriesOfItems(items) ==> NamedItems(items)
    decreases items, 0
  {
    if items != [] {
      NamedMeansAllEntries(items[0]);
      NamedMeansAllItems(items[1..]);
    }
  }

  lemma {:induction false} NamedMeansAllFields(fs: seq<Field>)
    ensures NamedEntriesOf(fs) <= EntriesOf(fs)
    ensures NamedEntriesOf(fs) == EntriesOf(fs) ==> NamedFields(fs)
    decreases fs, 0
  {
    if fs != [] {
      NamedMeansAllEntries(fs[0].value);
      NamedMeansAllFields(fs[1..]);
    }
  }

  lemma {:induction false} InsertAddsOneEntry(fs: seq<Field>, k: string, v: Value)
    ensures EntriesOf(Insert(fs, k, v)) <= EntriesOf(fs) + 1 + Entries(v)
  {
    var f := Field(k, v);
    if fs == [] {
      assert [f][1..] == [];
    } else if fs[0].key == k {
      assert ([f] + fs[1..])[1..] == fs[1..];
    } else if Less(k, fs[0].key) {
      assert ([f] + fs)[1..] == fs;
    } else {
      InsertAddsOneEntry(fs[1..], k, v);
      var r := Insert(fs[1..], k, v);
      assert ([fs[0]] + r)[1..] == r;
    }
  }

  // ---------------------------------------------------------------- colons of plain text

  predicate PlainChar(c: char) {
    c != '"' && c != '\'' && c != '/' && c != ':'
  }

  predicate PlainText(s: string) {
    forall i | 0 <= i < |s| :: PlainChar(s[i])
  }

  lemma {:induction false} PlainPrefix(s: string, t: string)
    requires PlainText(s)
    ensures Colons(s + t) == Colons(t)
  {
    if s == "" {
      assert s + t == t;
    } else {
      assert (s + t)[1..] == s[1..] + t;
      PlainPrefix(s[1..], t);
    }
  }

  lemma NothingHasNone()
    ensures Colons("") == 0
  {
  }

  lemma QuotedHasNone(s: string, t: string)
    ensures Colons(Quoted(s) + t) == Colons(t)
  {
    hide Escape, StringBody;
    EscapeRoundTrip(s, t);
    assert (Quoted(s) + t)[1..] == Escape(s) + "\"" + t;
  }

  lemma {:induction false} DigitsArePlain(n: nat)
    ensures PlainText(Digits(n))
  {
    if n >= 10 { DigitsArePlain(n / 10); }
  }

  // ---------------------------------------------------------------- reading never gains colons

  lemma {:induction false} BlanksHaveNone(t: string)
    ensures Colons(SkipSpace(t)) == Colons(t)
  {
    if t != "" && IsSpace(t[0]) { BlanksHaveNone(t[1..]); }
  }

  lemma WsKeeps(s: Stream)
    ensures ColonsLeft(Ws(s)) <= ColonsLeft(s)
  {
    if s.Live? { BlanksHaveNone(s.rest); }
  }

  lemma CommentKeeps(t: string)
    requires StartsComment(t)
    ensures ColonsLeft(SkipComment(t)) <= Colons(t)
  {
    WsKeeps(Live(ToLineEnd(t[2..])));
  }

  lemma {:induction false} PlainMatchFrom(p: string, i: nat, t: string, cut: bool)
    requires PlainText(p) && i <= |p|
    ensures ColonsLeft(MatchFrom(p, i, t, cut).1) <= Colons(t)
    decreases |t|
  {
    if i == |p| || t == "" {
    } else if t[0] == p[i] {
      PlainMatchFrom(p, i + 1, t[1..], cut);
    } else if StartsComment(t) {
      CommentKeeps(t);
      var s := SkipComment(t);
      if s.Live? { PlainMatchFrom(p, i, s.rest, cut || i > 0); }
    } else {
      PlainPrefix(p[..i], t);
    }
  }

  lemma PlainMatch(p: string, s: Stream)
    requires p != "" && PlainText(p)
    ensures ColonsLeft(Match(p, s).1) <= ColonsLeft(s)
  {
    WsKeeps(s);
    var w := Ws(s);
    if w.Live? { PlainMatchFrom(p, 0, w.rest, false); }
  }

  /** Matching a single mark: on success the text that starts with the mark has no more colons
      than the whole. */
  lemma {:induction false} MarkMatchFrom(c: char, t: string)
    requires c == '"' || c == ':'
    ensures var r := MatchFrom([c], 0, t, false);
      if r.0 then r.1.Live? && Colons([c] + r.1.rest) <= Colons(t) else ColonsLeft(r.1) <= Colons(t)
    decreases |t|
  {
    if t == "" {
    } else if t[0] == c {
      assert [c] + t[1..] == t;
    } else if StartsComment(t) {
      CommentKeeps(t);
      var s := SkipComment(t);
      if s.Live? { MarkMatchFrom(c, s.rest); }
    } else {
      assert [c][..0] + t == t;
    }
  }

  lemma MarkMatch(c: char, s: Stream)
    requires c == '"' || c == ':'
    ensures var r := Match([c], s);
      if r.0 then r.1.Live? && Colons([c] + r.1.rest) <= ColonsLeft(s) else ColonsLeft(r.1) <= ColonsLeft(s)
  {
    WsKeeps(s);
    var w := Ws(s);
    if w.Live? { MarkMatchFrom(c, w.rest); }
  }

  lemma ColonCosts(s: Stream)
    ensures var r := Match(":", s); ColonsLeft(r.1) + (if r.0 then 1 else 0) <= ColonsLeft(s)
  {
    MarkMatch(':', s);
    var r := Match(":", s);
    assert [':'] == ":";
    if r.0 { assert (":" + r.1.rest)[1..] == r.1.rest; }
  }

  lemma UnquoteKeeps(t: string, c: char)
    requires c == '"' || c == '\''
    ensures ColonsLeft(Unquote(t, c).1) <= Colons([c] + t)
  {
    assert ([c] + t)[1..] == t;
  }

  lemma StringKeeps(s: Stream)
    ensures ColonsLeft(ParseString(s).1) <= ColonsLeft(s)
  {
    MarkMatch('"', s);
    assert ['"'] == "\"";
    var m := Match("\"", s);
    if m.0 {
      UnquoteKeeps(m.1.rest, '"');
    } else if PeekIs(m.1, '\'') {
      UnquoteKeeps(m.1.rest[1..], '\'');
      assert ['\''] + m.1.rest[1..] == m.1.rest;
    }
  }

  lemma {:induction false} DigitsKeep(t: string)
    ensures Colons(AfterDigits(t)) == Colons(t)
  {
    if t != "" && IsDigit(t[0]) { DigitsKeep(t[1..]); }
  }

  lemma ExponentKeeps(t: string)
    ensures Exponent(t).Some? ==> Colons(Exponent(t).value.1) == Colons(t)
  {
    if t != "" && (t[0] == 'e' || t[0] == 'E') { DigitsKeep(AfterSign(t[1..])); }
  }

  lemma SignKeeps(t: string)
    ensures Colons(AfterSign(t)) == Colons(t)
  {
  }

  lemma PointKeeps(t: string)
    requires t != "" && t[0] == '.'
    ensures Colons(t[1..]) == Colons(t)
  {
  }

  lemma NumberKeeps(s: Stream)
    ensures ColonsLeft(ParseNumber(s).1) <= ColonsLeft(s)
  {
    hide Colons, Mantissa, Exponent, Scale, AfterDigits;
    WsKeeps(s);
    var w := Ws(s);
    if w.Live? && ScanNumber(w.rest).Some? {
      var whole := AfterSign(w.rest);
      SignKeeps(w.rest);
      DigitsKeep(whole);
      var afterWhole := AfterDigits(whole);
      if afterWhole != "" && afterWhole[0] == '.' {
        PointKeeps(afterWhole);
        DigitsKeep(afterWhole[1..]);
      }
      ExponentKeeps(AfterMantissa(w.rest));
    }
  }

  lemma ScalarKeeps(s: Stream)
    ensures ColonsLeft(ParseScalar(s).1) <= ColonsLeft(s)
    ensures ParseScalar(s).0.Some? ==> Entries(ParseScalar(s).0.value) == 0
  {
    hide ParseString, ParseNumber, Match, Colons;
    StringKeeps(s);
    var s1 := ParseString(s).1;
    NumberKeeps(s1);
    var s2 := ParseNumber(s1).1;
    PlainMatch("true", s2);
    PlainMatch("false", Match("true", s2).1);
    PlainMatch("null", ParseBool(s2).1);
  }

  /** Every entry that is read costs a colon. */
  lemma {:induction false} ValueCosts(s: Stream)
    ensures var r := ParseValue(s);
      ColonsLeft(r.1) + (if r.0.Some? then Entries(r.0.value) else 0) <= ColonsLeft(s)
    decreases Left(s), 2
  {
    hide ParseScalar, Match, Colons;
    ScalarKeeps(s);
    var scalar := ParseScalar(s);
    if scalar.0.None? {
      var a := if PeekIs(scalar.1, '[') then ParseArray(scalar.1) else (None, scalar.1);
      if PeekIs(scalar.1, '[') { ArrayCosts(scalar.1); }
      if a.0.None? { ObjectCosts(a.1); }
    }
  }

  lemma {:induction false} ArrayCosts(s: Stream)
    ensures var r := ParseArray(s);
      ColonsLeft(r.1) + (if r.0.Some? then EntriesOfItems(r.0.value) else 0) <= ColonsLeft(s)
    decreases Left(s), 1
  {
    hide Match, Colons;
    PlainMatch("[", s);
    var open := Match("[", s);
    if open.0 {
      PlainMatch("]", open.1);
      var empty := Match("]", open.1);
      if !empty.0 {
        ItemsCost(empty.1);
        PlainMatch("]", ParseItems(empty.1).1);
      }
    }
  }

  lemma {:induction false} ItemsCost(s: Stream)
    ensures var r := ParseItems(s); ColonsLeft(r.1) + EntriesOfItems(r.0) <= ColonsLeft(s)
    decreases Left(s), 3
  {
    hide Match, Colons;
    ValueCosts(s);
    var v := ParseValue(s);
    if v.0.Some? {
      PlainMatch(",", v.1);
      var more := Match(",", v.1);
      assert [v.0.value][1..] == [];
      if more.0 {
        ItemsCost(more.1);
        var tail := ParseItems(more.1).0;
        assert ([v.0.value] + tail)[1..] == tail;
      }
    }
  }

  lemma {:induction false} ObjectCosts(s: Stream)
    ensures var r := ParseObject(s);
      ColonsLeft(r.1) + (if r.0.Some? then EntriesOf(r.0.value) else 0) <= ColonsLeft(s)
    decreases Left(s), 1
  {
    hide Match, Colons;
    PlainMatch("{", s);
    var open := Match("{", s);
    if open.0 {
      PlainMatch("}", open.1);
      var empty := Match("}", open.1);
      if !empty.0 {
        FieldsCost(empty.1, []);
        PlainMatch("}", ParseFields(empty.1, []).1);
      }
    }
  }

  lemma {:induction false} FieldsCost(s: Stream, acc: seq<Field>)
    ensures var r := ParseFields(s, acc);
      ColonsLeft(r.1) + (if r.0.Some? then EntriesOf(r.0.value) else 0) <= ColonsLeft(s) + EntriesOf(acc)
    decreases Left(s), 3
  {
    hide Match, Colons, ParseString, Insert;
    StringKeeps(s);
    var key := ParseString(s);
    if key.0.Some? {
      ColonCosts(key.1);
      var colon := Match(":", key.1);
      if colon.0 {
        ValueCosts(colon.1);
        var v := ParseValue(colon.1);
        if v.0.Some? {
          InsertAddsOneEntry(acc, key.0.value, v.0.value);
          PlainMatch(",", v.1);
          var more := Match(",", v.1);
          if more.0 { FieldsCost(more.1, Insert(acc, key.0.value, v.0.value)); }
        }
      }
    }
  }

  // ---------------------------------------------------------------- printing pays for named entries only

  /** A container's own text has no colons, so only its lines count. */
  lemma ContainerPays(opener: string, lines: string, depth: nat, closer: string, t: string)
    requires (opener == "[\n" && closer == "]") || (opener == "{\n" && closer == "}")
    ensures var after := (Tabs(depth) + closer) + t;
      Colons((opener + lines + Tabs(depth) + closer) + t) == Colons(lines + after) && Colons(after) == Colons(t)
  {
    hide Colons;
    var after := (Tabs(depth) + closer) + t;
    assert (opener + lines + Tabs(depth) + closer) + t == opener + (lines + after);
    PlainPrefix(opener, lines + after);
    PlainPrefix(Tabs(depth) + closer, t);
  }

  lemma {:induction false} BodyPays(depth: nat, v: Value, trim: bool, t: string)
    requires Printable(v)
    ensures Colons(Body(depth, v, trim) + t) == NamedEntries(v) + Colons(t)
    decreases v, 1
  {
    hide Colons, Quoted, ItemLines, FieldLines, NamedEntriesOf, NamedEntriesOfItems;
    match v
    case String(s) => QuotedHasNone(s, t);
    case Array(items) =>
      ContainerPays("[\n", ItemLines(depth + 1, items, trim), depth, "]", t);
      ItemsPay(depth + 1, items, trim, (Tabs(depth) + "]") + t);
    case Object(fields) =>
      ContainerPays("{\n", FieldLines(depth + 1, fields, trim), depth, "}", t);
      FieldsPay(depth + 1, fields, trim, (Tabs(depth) + "}") + t);
    case Number(n) =>
      DigitsArePlain(if n.Floor < 0 then -n.Floor else n.Floor);
      PlainPrefix(Decimal(n.Floor), t);
    case _ => PlainPrefix(Body(depth, v, trim), t);
  }

  lemma {:induction false} ItemsPay(depth: nat, items: seq<Value>, trim: bool, t: string)
    requires forall i | 0 <= i < |items| :: Printable(items[i])
    ensures Colons(ItemLines(depth, items, trim) + t) == NamedEntriesOfItems(items) + Colons(t)
    decreases items, 0
  {
    hide Colons, Body;
    if items == [] {
      assert "" + t == t;
    } else {
      var tabs, body := Tabs(depth), Body(depth, items[0], trim);
      var sep, lines := Separator(|items| == 1, trim), ItemLines(depth, items[1..], trim);
      Regroup(tabs, body, sep, lines, t);
      PlainPrefix(tabs, body + (sep + (lines + t)));
      BodyPays(depth, items[0], trim, sep + (lines + t));
      PlainPrefix(sep, lines + t);
      ItemsPay(depth, items[1..], trim, t);
    }
  }

  lemma ColonPays(t: string)
    ensures Colons(": " + t) == 1 + Colons(t)
  {
    assert (": " + t)[1..] == " " + t;
    PlainPrefix(" ", t);
  }

  lemma HeadPays(depth: nat, name: string, t: string)
    ensures Colons(Head(depth, name) + t) == (if name == "" then 0 else 1) + Colons(t)
  {
    hide Colons, Quoted;
    if name == "" {
      PlainPrefix(Tabs(depth), t);
    } else {
      assert Head(depth, name) + t == Tabs(depth) + (Quoted(name) + (": " + t));
      PlainPrefix(Tabs(depth), Quoted(name) + (": " + t));
      QuotedHasNone(name, ": " + t);
      ColonPays(t);
    }
  }

  lemma {:induction false} FieldsPay(depth: nat, fs: seq<Field>, trim: bool, t: string)
    requires PrintableFields(fs)
    ensures Colons(FieldLines(depth, fs, trim) + t) == NamedEntriesOf(fs) + Colons(t)
    decreases fs, 0
  {
    hide Colons, Body, Head;
    if fs == [] {
      assert "" + t == t;
    } else {
      var head, body := Head(depth, fs[0].key), Body(depth, fs[0].value, trim);
      var sep, lines := Separator(|fs| == 1, trim), FieldLines(depth, fs[1..], trim);
      Regroup(head, body, sep, lines, t);
      HeadPays(depth, fs[0].key, body + (sep + (lines + t)));
      BodyPays(depth, fs[0].value, trim, sep + (lines + t));
      PlainPrefix(sep, lines + t);
      FieldsPay(depth, fs[1..], trim, t);
    }
  }

  // ---------------------------------------------------------------- the exact condition

  /** No value inside is an invalid one. */
  predicate Valued(v: Value)
    decreases v, 1
  {
    match v
    case Invalid => false
    case Array(items) => ValuedItems(items)
    case Object(fields) => ValuedFields(fields)
    case _ => true
  }

  predicate ValuedItems(items: seq<Value>)
    decreases items, 0
  {
    items == [] || (Valued(items[0]) && ValuedItems(items[1..]))
  }

  predicate ValuedFields(fs: seq<Field>)
    decreases fs, 0
  {
    fs == [] || (Valued(fs[0].value) && ValuedFields(fs[1..]))
  }

  lemma {:induction false} NormKeepsValued(v: Value)
    ensures Norm(v) == v <==> Valued(v)
    decreases v, 1
  {
    match v
    case Array(items) => NormKeepsItems(items);
    case Object(fields) => NormKeepsFields(fields);
    case _ =>
  }

  lemma {:induction false} NormKeepsItems(items: seq<Value>)
    ensures NormItems(items) == items <==> ValuedItems(items)
    decreases items, 0
  {
    if items != [] {
      NormKeepsValued(items[0]);
      NormKeepsItems(items[1..]);
      var n := [Norm(items[0])] + NormItems(items[1..]);
      assert n[0] == Norm(items[0]) && n[1..] == NormItems(items[1..]);
      assert items == [items[0]] + items[1..];
    }
  }

  lemma {:induction false} NormKeepsFields(fs: seq<Field>)
    ensures NormFields(fs) == fs <==> ValuedFields(fs)
    decreases fs, 0
  {
    if fs != [] {
      NormKeepsValued(fs[0].value);
      NormKeepsFields(fs[1..]);
      var n := [Field(fs[0].key, Norm(fs[0].value))] + NormFields(fs[1..]);
      assert n[0] == Field(fs[0].key, Norm(fs[0].value)) && n[1..] == NormFields(fs[1..]);
      assert fs == [fs[0]] + fs[1..];
    }
  }

  /** An object with an empty key anywhere inside is never read back. */
  lemma OnlyNamedSurvive(fs: seq<Field>)
    requires PrintableFields(fs) && ReadObject(PrintObject(fs)) == Some(fs)
    ensures NamedFields(fs)
  {
    hide Colons, ParseObject, Body;
    PrintedText(fs);
    ObjectCosts(Live(PrintObject(fs)));
    BodyPays(0, Object(fs), true, " \n");
    PlainPrefix(" \n", "");
    assert " \n" + "" == " \n";
    NothingHasNone();
    NamedMeansAllFields(fs);
  }

  /** Printing and reading an object gives it back if and only if no entry inside has an empty key
      and no value inside is invalid. */
  lemma SurvivesExactly(fs: seq<Field>)
    requires PrintableFields(fs) && FieldsWellFormed(fs)
    ensures ReadObject(PrintObject(fs)) == Some(fs) <==> NamedFields(fs) && ValuedFields(fs)
  {
    hide ReadObject, PrintObject;
    NormKeepsFields(fs);
    if NamedFields(fs) {
      PrintThenRead(fs);
    } else if ReadObject(PrintObject(fs)) == Some(fs) {
      OnlyNamedSurvive(fs);
    }
  }
}
