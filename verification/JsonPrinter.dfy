/** The text writer: `escape_string`, `remove_last_comma`, `tag` and `Object::json`. */
module JsonPrinter {
  import opened JsonValue

  const MAX_DIGITS: int := 0x8AC7_2304_89E8_0000 // 10^19: long double prints 19 significant digits

  /** Numbers that the stream prints in plain decimal. */
  predicate PlainNumber(x: real) {
    x == x.Floor as real && -MAX_DIGITS < x.Floor < MAX_DIGITS
  }

  /** The values the model can print: every number inside is a plain one. */
  predicate Printable(v: Value)
    decreases v, 0
  {
    match v
    case Number(n) => PlainNumber(n)
    case Array(items) => forall i | 0 <= i < |items| :: Printable(items[i])
    case Object(fields) => PrintableFields(fields)
    case _ => true
  }

  predicate PrintableFields(fs: seq<Field>)
    decreases fs, 1
  {
    forall i | 0 <= i < |fs| :: Printable(fs[i].value)
  }

  function HexDigit(d: int): char
    requires 0 <= d < 16
  {
    "0123456789abcdef"[d]
  }

  /** One entry of the 256-entry escape table. */
  function EscapeChar(c: char): string {
    if c == '"' then "\\\""
    else if c == '\\' then "\\\\"
    else if c == '/' then "\\/"
    else if c == '\U{08}' then "\\b"
    else if c == '\U{0C}' then "\\f"
    else if c == '\n' then "\\n"
    else if c == '\r' then "\\r"
    else if c == '\t' then "\\t"
    else if c as int < 32 then "\\u00" + [HexDigit(c as int / 16), HexDigit(c as int % 16)]
    else [c]
  }

  function Escape(s: string): string {
    if s == "" then "" else EscapeChar(s[0]) + Escape(s[1..])
  }

  function Quoted(s: string): string {
    "\"" + Escape(s) + "\""
  }

  function Digit(d: int): char
    requires 0 <= d < 10
  {
    "0123456789"[d]
  }

  function Digits(n: nat): string {
    if n < 10 then [Digit(n)] else Digits(n / 10) + [Digit(n % 10)]
  }

  function Decimal(n: int): string {
    if n < 0 then "-" + Digits(-n) else Digits(n)
  }

  function Tabs(depth: nat): string {
    seq(depth, _ => '\t')
  }

  /** Overwrites a comma in the last but one place. */
  function RemoveLastComma(s: string): string {
    if |s| > 2 && s[|s| - 2] == ',' then s[|s| - 2 := ' '] else s
  }

  /** Only a comma in the last but one place of a text of three characters or more becomes a blank. */
  lemma CommaRemovedExactly(s: string, i: nat)
    requires i < |s|
    ensures |RemoveLastComma(s)| == |s|
    ensures RemoveLastComma(s)[i] == if i == |s| - 2 && i >= 1 && s[i] == ',' then ' ' else s[i]
  {
  }

  /** The end of a container's text; `trim` says whether the last comma is removed, as the
      original always does. The untrimmed form is only there to state what trimming is worth. */
  function Finish(s: string, trim: bool): string {
    if trim then RemoveLastComma(s) else s
  }

  function Head(depth: nat, name: string): string {
    if name == "" then Tabs(depth) else Tabs(depth) + Quoted(name) + ": "
  }

  /** `tag`: one value with its name, indentation and the separator after it. */
  function Tag(depth: nat, name: string, v: Value, trim: bool): string
    requires Printable(v)
    decreases v, 1
  {
    var head := Head(depth, name);
    match v
    case Bool(b) => head + (if b then "true" else "false") + ",\n"
    case Array(items) =>
      Finish(head + "[\n" + TagItems(depth + 1, items, trim), trim) + Tabs(depth) + "]" + ",\n"
    case String(s) => head + Quoted(s) + ",\n"
    case Object(fields) =>
      Finish(head + "{\n" + TagFields(depth + 1, fields, trim), trim) + Tabs(depth) + "}" + ",\n"
    case Number(n) => head + Decimal(n.Floor) + ",\n"
    case _ => head + "null" + ",\n"
  }

  function TagItems(depth: nat, items: seq<Value>, trim: bool): string
    requires forall i | 0 <= i < |items| :: Printable(items[i])
    decreases items, 0
  {
    if items == [] then "" else Tag(depth, "", items[0], trim) + TagItems(depth, items[1..], trim)
  }

  function TagFields(depth: nat, fs: seq<Field>, trim: bool): string
    requires PrintableFields(fs)
    decreases fs, 0
  {
    if fs == [] then ""
    else Tag(depth, fs[0].key, fs[0].value, trim) + TagFields(depth, fs[1..], trim)
  }

  /** `Object::json`. */
  function PrintObject(fs: seq<Field>): string
    requires PrintableFields(fs)
  {
    RemoveLastComma(Tag(0, "", Object(fs), true))
  }

  /** The same text with every trailing separator left in. */
  function PrintObjectUntrimmed(fs: seq<Field>): string
    requires PrintableFields(fs)
  {
    Tag(0, "", Object(fs), false)
  }

  // ---------------------------------------------------------------- what trimming does

  /** The text of a value alone, without name, indentation and separator. */
  function Body(depth: nat, v: Value, trim: bool): string
    requires Printable(v)
    decreases v, 1
  {
    match v
    case Bool(b) => if b then "true" else "false"
    case Array(items) => "[\n" + ItemLines(depth + 1, items, trim) + Tabs(depth) + "]"
    case String(s) => Quoted(s)
    case Object(fields) => "{\n" + FieldLines(depth + 1, fields, trim) + Tabs(depth) + "}"
    case Number(n) => Decimal(n.Floor)
    case _ => "null"
  }

  /** What separates an entry from what follows: a comma, except after the last trimmed one. */
  function Separator(last: bool, trim: bool): string {
    if last && trim then " \n" else ",\n"
  }

  function ItemLines(depth: nat, items: seq<Value>, trim: bool): string
    requires forall i | 0 <= i < |items| :: Printable(items[i])
    decreases items, 0
  {
    if items == [] then ""
    else Tabs(depth) + Body(depth, items[0], trim) + Separator(|items| == 1, trim)
         + ItemLines(depth, items[1..], trim)
  }

  function FieldLines(depth: nat, fs: seq<Field>, trim: bool): string
    requires PrintableFields(fs)
    decreases fs, 0
  {
    if fs == [] then ""
    else Head(depth, fs[0].key) + Body(depth, fs[0].value, trim) + Separator(|fs| == 1, trim)
         + FieldLines(depth, fs[1..], trim)
  }

  lemma LastSeparator(before: string, trim: bool)
    requires before != ""
    ensures Finish(before + ",\n", trim) == before + Separator(true, trim)
  {
    var s := before + ",\n";
    assert s[|s| - 2 := ' '] == before + " \n";
  }

  // Rearrangements of concatenations, kept apart from the functions they are used on.

  lemma RegroupContainer(head: string, opener: string, lines: string, tabs: string, closer: string)
    ensures head + opener + lines + tabs + closer + ",\n" == head + (opener + lines + tabs + closer) + ",\n"
  {
  }

  lemma RegroupEntry(before: string, head: string, body: string, sep: string, rest: string)
    ensures before + (head + body + sep + rest) == before + (head + body) + sep + rest
  {
  }

  /** The text of a value is its body between its head and its separator: in particular
      `remove_last_comma` replaced exactly the separator after the last entry of every container
      and nothing else. */
  lemma {:induction false} TagIsBody(depth: nat, name: string, v: Value, trim: bool)
    requires Printable(v)
    ensures Tag(depth, name, v, trim) == Head(depth, name) + Body(depth, v, trim) + ",\n"
    decreases v, 1
  {
    match v
    case Array(items) =>
      var head := Head(depth, name);
      ItemsTrimmed(depth + 1, items, trim, head + "[\n");
      RegroupContainer(head, "[\n", ItemLines(depth + 1, items, trim), Tabs(depth), "]");
    case Object(fields) =>
      var head := Head(depth, name);
      FieldsTrimmed(depth + 1, fields, trim, head + "{\n");
      RegroupContainer(head, "{\n", FieldLines(depth + 1, fields, trim), Tabs(depth), "}");
    case _ =>
  }

  lemma {:induction false} ItemsTrimmed(depth: nat, items: seq<Value>, trim: bool, before: string)
    requires forall i | 0 <= i < |items| :: Printable(items[i])
    requires |before| >= 2 && (items == [] ==> before[|before| - 2] != ',')
    ensures Finish(before + TagItems(depth, items, trim), trim) == before + ItemLines(depth, items, trim)
    decreases items, 0
  {
    if items == [] {
      assert before + "" == before;
    } else {
      var head, body := Tabs(depth), Body(depth, items[0], trim);
      TagIsBody(depth, "", items[0], trim);
      RegroupEntry(before, head, body, ",\n", TagItems(depth, items[1..], trim));
      RegroupEntry(before, head, body, Separator(|items| == 1, trim), ItemLines(depth, items[1..], trim));
      if |items| == 1 {
        LastSeparator(before + (head + body), trim);
        NothingAfter(before + (head + body) + ",\n", before + (head + body) + Separator(true, trim));
      } else {
        ItemsTrimmed(depth, items[1..], trim, before + (head + body) + ",\n");
      }
    }
  }

  lemma NothingAfter(a: string, b: string)
    ensures a + "" == a && b + "" == b
  {
  }

  lemma {:induction false} FieldsTrimmed(depth: nat, fs: seq<Field>, trim: bool, before: string)
    requires PrintableFields(fs)
    requires |before| >= 2 && (fs == [] ==> before[|before| - 2] != ',')
    ensures Finish(before + TagFields(depth, fs, trim), trim) == before + FieldLines(depth, fs, trim)
    decreases fs, 0
  {
    if fs == [] {
      assert before + "" == before;
    } else {
      var head, body := Head(depth, fs[0].key), Body(depth, fs[0].value, trim);
      TagIsBody(depth, fs[0].key, fs[0].value, trim);
      RegroupEntry(before, head, body, ",\n", TagFields(depth, fs[1..], trim));
      RegroupEntry(before, head, body, Separator(|fs| == 1, trim), FieldLines(depth, fs[1..], trim));
      if |fs| == 1 {
        LastSeparator(before + (head + body), trim);
        NothingAfter(before + (head + body) + ",\n", before + (head + body) + Separator(true, trim));
      } else {
        FieldsTrimmed(depth, fs[1..], trim, before + (head + body) + ",\n");
      }
    }
  }

  /** The whole printed text of an object. */
  lemma PrintedText(fs: seq<Field>)
    requires PrintableFields(fs)
    ensures PrintObject(fs) == Body(0, Object(fs), true) + " \n"
    ensures PrintObjectUntrimmed(fs) == Body(0, Object(fs), false) + ",\n"
  {
    TagIsBody(0, "", Object(fs), true);
    TagIsBody(0, "", Object(fs), false);
    var body := Body(0, Object(fs), true);
    LastSeparator(body, true);
    assert Head(0, "") + body + ",\n" == body + ",\n";
    assert Head(0, "") + Body(0, Object(fs), false) == Body(0, Object(fs), false);
  }
}
