/** What the reader does, as functions on the text still to be read.
    The reader works on a stream that it consumes, puts characters back into and probes; the
    functions give, for each parsing routine, its answer and the stream it leaves behind, also
    when it fails. Everything is total: malformed text, text that ends too early, comments. */
module JsonGrammar {
  import opened Wrappers
  import opened JsonValue

  /** `Dead` is a stream that ended or failed: every later read from it fails. */
  datatype Stream = Live(rest: string) | Dead

  function Left(s: Stream): nat {
    if s.Live? then |s.rest| else 0
  }

  predicate PeekIs(s: Stream, c: char) {
    s.Live? && s.rest != "" && s.rest[0] == c
  }

  // ---------------------------------------------------------------- blanks, comments, tokens

  predicate IsSpace(c: char) {
    c == ' ' || '\t' <= c <= '\r'
  }

  function SkipSpace(t: string): (r: string)
    ensures |r| <= |t|
    ensures r != "" ==> !IsSpace(r[0])
  {
    if t != "" && IsSpace(t[0]) then SkipSpace(t[1..]) else t
  }

  /** `input >> std::ws`: running into the end leaves a stream nothing can be read from. */
  function Ws(s: Stream): (r: Stream)
    ensures Left(r) <= Left(s)
    ensures r.Live? ==> r.rest != "" && !IsSpace(r.rest[0])
  {
    if s.Dead? then Dead
    else if SkipSpace(s.rest) == "" then Dead
    else Live(SkipSpace(s.rest))
  }

  predicate StartsComment(t: string) {
    |t| >= 2 && t[0] == '/' && t[1] == '/'
  }

  function ToLineEnd(t: string): (r: string)
    ensures |r| <= |t|
  {
    if t == "" || t[0] == '\r' || t[0] == '\n' then t else ToLineEnd(t[1..])
  }

  /** `parse_comment` on text that starts with two slashes. */
  function SkipComment(t: string): (r: Stream)
    requires StartsComment(t)
    ensures Left(r) + 2 <= |t|
  {
    Ws(Live(ToLineEnd(t[2..])))
  }

  /** The loop of `match` with `i` characters of the pattern already read. On a mismatch the
      characters read are put back, which fails when a comment was skipped between them (`cut`).
      At the end of the text the failing read leaves the previous character in the buffer, so a
      pattern that ends in a double letter is accepted one letter short, on a dead stream. */
  function MatchFrom(p: string, i: nat, t: string, cut: bool): (r: (bool, Stream))
    requires i <= |p|
    ensures i == 0 && !cut ==> Left(r.1) <= |t|
    ensures Left(r.1) <= |t| + i
    ensures r.0 && i < |p| ==> r.1.Dead? || Left(r.1) < |t|
    ensures r.0 && |p| == 1 ==> r.1.Live?
    decreases |t|
  {
    if i == |p| then (true, Live(t))
    else if t == "" then (i > 0 && p[i] == p[i - 1] && i + 1 == |p|, Dead)
    else if t[0] == p[i] then
      MatchFrom(p, i + 1, t[1..], cut)
    else if StartsComment(t) then
      var s := SkipComment(t);
      if s.Dead? then (false, Dead) else MatchFrom(p, i, s.rest, cut || i > 0)
    else if cut then (false, Dead)
    else (false, Live(p[..i] + t))
  }

  /** `match`. */
  function Match(p: string, s: Stream): (r: (bool, Stream))
    requires p != ""
    ensures Left(r.1) <= Left(s)
    ensures r.0 && |p| == 1 ==> r.1.Live? && Left(r.1) < Left(s)
  {
    var w := Ws(s);
    if w.Dead? then (false, Dead) else MatchFrom(p, 0, w.rest, false)
  }

  // ---------------------------------------------------------------- strings

  function HexValue(c: char): int {
    if '0' <= c <= '9' then c as int - '0' as int
    else if 'a' <= c <= 'f' then c as int - 'a' as int + 10
    else if 'A' <= c <= 'F' then c as int - 'A' as int + 10
    else -1
  }

  /** Reading the leading hexadecimal digits. */
  function HexPrefix(t: string, acc: nat): nat {
    if t == "" || HexValue(t[0]) < 0 then acc else HexPrefix(t[1..], 16 * acc + HexValue(t[0]))
  }

  /** Extracting an `int` in hexadecimal from the four characters after `\u`: blanks, a sign and
      a `0x` are let through; at least one digit is needed. */
  function HexNumber(t: string): Option<int> {
    var t1 := SkipSpace(t);
    var negative := t1 != "" && t1[0] == '-';
    var t2 := if t1 != "" && (t1[0] == '-' || t1[0] == '+') then t1[1..] else t1;
    var t3 := if |t2| >= 2 && t2[0] == '0' && (t2[1] == 'x' || t2[1] == 'X') then t2[2..] else t2;
    if t3 == "" || HexValue(t3[0]) < 0 then None
    else var n: int := HexPrefix(t3, 0); Some(if negative then -n else n)
  }

  /** `value.push_back(i)` keeps the low eight bits. */
  function LowByte(i: int): char {
    (i % 256) as char
  }

  /** What the two characters of a simple escape stand for. */
  function Unescape(c: char, delimiter: char): string {
    if c == '\\' || c == '/' then [c]
    else if c == 'b' then "\U{08}"
    else if c == 'f' then "\U{0C}"
    else if c == 'n' then "\n"
    else if c == 'r' then "\r"
    else if c == 't' then "\t"
    else if c != delimiter then ['\\', c]
    else [c]
  }

  /** A string after its opening delimiter: its value and the text after the closing one, or
      `None` when the text ends first. */
  function StringBody(t: string, delimiter: char): (r: Option<(string, string)>)
    ensures r.Some? ==> |r.value.1| < |t|
    decreases |t|
  {
    if t == "" then None
    else if t[0] == delimiter then Some(("", t[1..]))
    else if t[0] != '\\' then Prepend([t[0]], StringBody(t[1..], delimiter))
    else if |t| < 2 then None
    else if t[1] != 'u' then Prepend(Unescape(t[1], delimiter), StringBody(t[2..], delimiter))
    else if |t| < 6 then None
    else Prepend(CodeUnit(t[2..6]), StringBody(t[6..], delimiter))
  }

  /** What a `\u` escape pushes: nothing at all when no number can be read. */
  function CodeUnit(digits: string): string {
    match HexNumber(digits)
    case None => ""
    case Some(i) => [LowByte(i)]
  }

  function Prepend(s: string, r: Option<(string, string)>): Option<(string, string)> {
    if r.None? then None else Some((s + r.value.0, r.value.1))
  }

  /** `parse_string`: double quotes, or single quotes as the permissive reader allows. */
  function ParseString(s: Stream): (r: (Option<string>, Stream))
    ensures Left(r.1) <= Left(s)
    ensures r.0.Some? ==> r.1.Live? && Left(r.1) < Left(s)
  {
    var m := Match("\"", s);
    if m.0 then Unquote(m.1.rest, '"')
    else if PeekIs(m.1, '\'') then Unquote(m.1.rest[1..], '\'')
    else (None, m.1)
  }

  function Unquote(t: string, delimiter: char): (r: (Option<string>, Stream))
    ensures Left(r.1) <= |t| && (r.0.Some? ==> r.1.Live?)
  {
    match StringBody(t, delimiter)
    case None => (None, Dead)
    case Some(p) => (Some(p.0), Live(p.1))
  }

  // ---------------------------------------------------------------- numbers

  predicate IsDigit(c: char) {
    '0' <= c <= '9'
  }

  /** The text after the leading decimal digits. */
  function AfterDigits(t: string): (r: string)
    ensures |r| <= |t|
  {
    if t != "" && IsDigit(t[0]) then AfterDigits(t[1..]) else t
  }

  /** The number that the leading digits continue `acc` to. */
  function DigitsValue(t: string, acc: nat): nat {
    if t != "" && IsDigit(t[0]) then DigitsValue(t[1..], 10 * acc + (t[0] as int - '0' as int)) else acc
  }

  function Scale(x: real, exponent: int): real
    decreases if exponent < 0 then -exponent else exponent
  {
    if exponent == 0 then x
    else if exponent > 0 then Scale(x * 10.0, exponent - 1)
    else Scale(x / 10.0, exponent + 1)
  }

  predicate IsSign(t: string) {
    t != "" && (t[0] == '-' || t[0] == '+')
  }

  predicate IsNegative(t: string) {
    t != "" && t[0] == '-'
  }

  function AfterSign(t: string): (r: string)
    ensures |r| <= |t|
  {
    if IsSign(t) then t[1..] else t
  }

  /** The exponent part after a mantissa: its value (0 when there is none) and the text after it,
      or `None` for an `e` without digits. */
  function Exponent(t: string): (r: Option<(int, string)>)
    ensures r.Some? ==> |r.value.1| <= |t|
  {
    if t == "" || (t[0] != 'e' && t[0] != 'E') then Some((0, t))
    else
      var digits := AfterSign(t[1..]);
      var rest := AfterDigits(digits);
      if |rest| == |digits| then None
      else
        var n: int := DigitsValue(digits, 0);
        Some((if IsNegative(t[1..]) then -n else n, rest))
  }

  /** The text after a sign, digits, and possibly a point with more digits. */
  function AfterMantissa(t: string): (r: string)
    ensures |r| <= |t|
  {
    var w := AfterDigits(AfterSign(t));
    if w != "" && w[0] == '.' then AfterDigits(w[1..]) else w
  }

  /** The number of digits after the point, and the digits of the mantissa as one whole number
      (`None` when there is no digit at all). */
  function Mantissa(t: string): Option<(nat, nat)> {
    var whole := AfterSign(t);
    var w := AfterDigits(whole);
    var fraction := if w != "" && w[0] == '.' then w[1..] else "";
    var places := |fraction| - |AfterDigits(fraction)|;
    if |whole| - |w| + places == 0 then None
    else Some((places, DigitsValue(fraction, DigitsValue(whole, 0))))
  }

  /** `input >> value` for a floating-point number at a non-blank position. */
  function ScanNumber(t: string): Option<(real, string)> {
    var m := Mantissa(t);
    if m.None? then None
    else
      var digits: int := m.value.1;
      match Exponent(AfterMantissa(t))
      case None => None
      case Some(e) => Some((Scale((if IsNegative(t) then -digits else digits) as real, e.0 - m.value.0), e.1))
  }

  /** `parse_number`: a failed extraction rewinds to after the blanks. */
  function ParseNumber(s: Stream): (r: (Option<real>, Stream))
    ensures Left(r.1) <= Left(s)
  {
    var w := Ws(s);
    if w.Dead? then (None, Dead)
    else
      match ScanNumber(w.rest)
      case None => (None, w)
      case Some(p) => (Some(p.0), Live(p.1))
  }

  // ---------------------------------------------------------------- literals

  function ParseBool(s: Stream): (r: (Option<bool>, Stream))
    ensures Left(r.1) <= Left(s)
  {
    var t := Match("true", s);
    if t.0 then (Some(true), t.1)
    else
      var f := Match("false", t.1);
      (if f.0 then Some(false) else None, f.1)
  }

  /** `parse_null`: the permissive reader also takes a comma ahead for a null, reading nothing. */
  function ParseNull(s: Stream): (r: (bool, Stream))
    ensures Left(r.1) <= Left(s)
  {
    var n := Match("null", s);
    (n.0 || PeekIs(n.1, ','), n.1)
  }

  /** The first four attempts of `Value::parse`. */
  function ParseScalar(s: Stream): (r: (Option<Value>, Stream))
    ensures Left(r.1) <= Left(s)
  {
    var str := ParseString(s);
    if str.0.Some? then (Some(String(str.0.value)), str.1)
    else
      var num := ParseNumber(str.1);
      if num.0.Some? then (Some(Number(num.0.value)), num.1)
      else
        var b := ParseBool(num.1);
        if b.0.Some? then (Some(Bool(b.0.value)), b.1)
        else
          var n := ParseNull(b.1);
          (if n.0 then Some(Null) else None, n.1)
  }

  // ---------------------------------------------------------------- values

  /** `Value::parse`. A failed array is not rewound: the object attempt goes on from where the
      array attempt stopped. */
  function ParseValue(s: Stream): (r: (Option<Value>, Stream))
    ensures Left(r.1) <= Left(s)
    decreases Left(s), 2
  {
    var scalar := ParseScalar(s);
    if scalar.0.Some? then scalar
    else
      var a := if PeekIs(scalar.1, '[') then ParseArray(scalar.1) else (None, scalar.1);
      if a.0.Some? then (Some(Array(a.0.value)), a.1)
      else
        var o := ParseObject(a.1);
        (if o.0.Some? then Some(Object(o.0.value)) else None, o.1)
  }

  /** `Array::parse`. */
  function ParseArray(s: Stream): (r: (Option<seq<Value>>, Stream))
    ensures Left(r.1) <= Left(s)
    decreases Left(s), 1
  {
    var open := Match("[", s);
    if !open.0 then (None, open.1)
    else
      var empty := Match("]", open.1);
      if empty.0 then (Some([]), empty.1)
      else
        var items := ParseItems(empty.1);
        var close := Match("]", items.1);
        (if close.0 then Some(items.0) else None, close.1)
  }

  /** The loop of `Array::parse`: it ends at the first value that cannot be read. */
  function ParseItems(s: Stream): (r: (seq<Value>, Stream))
    ensures Left(r.1) <= Left(s)
    decreases Left(s), 3
  {
    var v := ParseValue(s);
    if v.0.None? then ([], v.1)
    else
      var more := Match(",", v.1);
      if !more.0 then ([v.0.value], more.1)
      else
        var tail := ParseItems(more.1);
        ([v.0.value] + tail.0, tail.1)
  }

  /** `Object::parse`. */
  function ParseObject(s: Stream): (r: (Option<seq<Field>>, Stream))
    ensures Left(r.1) <= Left(s)
    decreases Left(s), 1
  {
    var open := Match("{", s);
    if !open.0 then (None, open.1)
    else
      var empty := Match("}", open.1);
      if empty.0 then (Some([]), empty.1)
      else
        var fields := ParseFields(empty.1, []);
        if fields.0.None? then (None, fields.1)
        else
          var close := Match("}", fields.1);
          (if close.0 then fields.0 else None, close.1)
  }

  /** The loop of `Object::parse` with the entries read so far. A missing key ends it well only
      before a closing brace; a missing value ends it always. */
  function ParseFields(s: Stream, acc: seq<Field>): (r: (Option<seq<Field>>, Stream))
    ensures Left(r.1) <= Left(s)
    decreases Left(s), 3
  {
    var key := ParseString(s);
    if key.0.None? then (if PeekIs(key.1, '}') then Some(acc) else None, key.1)
    else
      var colon := Match(":", key.1);
      if !colon.0 then (None, colon.1)
      else
        var v := ParseValue(colon.1);
        if v.0.None? then (Some(acc), v.1)
        else
          var acc1 := Insert(acc, key.0.value, v.0.value);
          var more := Match(",", v.1);
          if !more.0 then (Some(acc1), more.1) else ParseFields(more.1, acc1)
  }

  /** The items that an array holds after `Array::parse`, also when that fails. */
  function KeptItems(s: Stream): seq<Value> {
    var open := Match("[", s);
    if !open.0 then []
    else
      var empty := Match("]", open.1);
      if empty.0 then [] else ParseItems(empty.1).0
  }

  /** The entries that an object holds after `Object::parse`, also when that fails. */
  function KeptEntries(s: Stream): seq<Field> {
    var open := Match("{", s);
    if !open.0 then []
    else
      var empty := Match("}", open.1);
      if empty.0 then [] else KeptFields(empty.1, [])
  }

  function KeptFields(s: Stream, acc: seq<Field>): seq<Field>
    decreases Left(s)
  {
    var key := ParseString(s);
    if key.0.None? then acc
    else
      var colon := Match(":", key.1);
      if !colon.0 then acc
      else
        var v := ParseValue(colon.1);
        if v.0.None? then acc
        else
          var acc1 := Insert(acc, key.0.value, v.0.value);
          var more := Match(",", v.1);
          if !more.0 then acc1 else KeptFields(more.1, acc1)
  }

  /** `Object::parse(const std::string&)`: the object a text stands for, whatever follows it. */
  function ReadObject(text: string): Option<seq<Field>> {
    ParseObject(Live(text)).0
  }
}
