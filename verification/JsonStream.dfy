/** The reader as it works: a stream over a fixed text with a position that moves forward on
    `get` and back on `putback`, and that is dead once a read has run past the end or a character
    could not be put back. Every routine is proved to answer and to leave the stream exactly as
    the function of the same name in `JsonGrammar` says. */
module JsonStream {
  import opened Wrappers
  import opened JsonValue
  import G = JsonGrammar

  class TextStream {
    const text: string
    var pos: nat
    var dead: bool

    ghost predicate Valid()
      reads this
    {
      pos <= |text|
    }

    /** What can still be read. */
    ghost function State(): G.Stream
      reads this
      requires Valid()
    {
      if dead then G.Dead else G.Live(text[pos..])
    }

    constructor (text: string)
      ensures Valid() && this.text == text && State() == G.Live(text)
    {
      this.text := text;
      pos := 0;
      dead := false;
    }

    /** `input.get(ch)`: at the end the character stays what it was. */
    method Get(ch: char) returns (c: char)
      requires Valid()
      modifies this
      ensures Valid() && pos >= old(pos)
      ensures old(dead) || old(pos) == |text| ==> dead && c == ch && pos == old(pos)
      ensures !old(dead) && old(pos) < |text| ==> !dead && c == text[old(pos)] && pos == old(pos) + 1
    {
      if dead || pos == |text| {
        dead := true;
        c := ch;
      } else {
        c := text[pos];
        pos := pos + 1;
      }
    }

    /** `input.putback(ch)`: the text cannot be changed, so only the character just read fits. */
    method Putback(c: char)
      requires Valid()
      modifies this
      ensures Valid() && pos <= old(pos)
      ensures !old(dead) && old(pos) > 0 && text[old(pos) - 1] == c ==> !dead && pos == old(pos) - 1
      ensures !(!old(dead) && old(pos) > 0 && text[old(pos) - 1] == c) ==> dead && pos == old(pos)
    {
      if !dead && pos > 0 && text[pos - 1] == c {
        pos := pos - 1;
      } else {
        dead := true;
      }
    }

    /** `input.peek()` */
    function PeekIs(c: char): bool
      requires Valid()
      reads this
    {
      !dead && pos < |text| && text[pos] == c
    }

    /** `input >> std::ws` */
    method Ws()
      requires Valid()
      modifies this
      ensures Valid() && State() == G.Ws(old(State()))
      ensures pos >= old(pos)
      ensures !dead && pos > old(pos) ==> G.IsSpace(text[pos - 1])
    {
      hide G.SkipSpace, G.IsSpace;
      ghost var skipped := G.SkipSpace(text[pos..]);
      while !dead && pos < |text| && G.IsSpace(text[pos])
        invariant Valid() && pos >= old(pos) && dead == old(dead)
        invariant skipped == G.SkipSpace(text[pos..])
        invariant pos > old(pos) ==> G.IsSpace(text[pos - 1])
      {
        BlankStep(text, pos);
        pos := pos + 1;
      }
      NoBlankStep(text, pos);
      if pos == |text| {
        dead := true;
      }
    }

    /** The loop of `parse_comment` up to the end of the line. */
    method SkipLine()
      requires Valid() && !dead
      modifies this`pos
      ensures Valid() && pos >= old(pos) && text[pos..] == G.ToLineEnd(text[old(pos)..])
      ensures pos < |text| ==> G.IsSpace(text[pos])
    {
      hide G.ToLineEnd;
      ghost var line := G.ToLineEnd(text[pos..]);
      while pos < |text| && text[pos] != '\r' && text[pos] != '\n'
        invariant Valid() && pos >= old(pos)
        invariant line == G.ToLineEnd(text[pos..])
      {
        LineStep(text, pos);
        pos := pos + 1;
      }
      LineEndStep(text, pos);
    }

    /** `parse_comment` */
    method ParseComment() returns (ok: bool)
      requires Valid()
      modifies this
      ensures Valid() && pos >= old(pos)
      ensures ok == (!old(dead) && G.StartsComment(text[old(pos)..]))
      ensures ok ==> State() == G.SkipComment(text[old(pos)..]) && (dead || pos >= old(pos) + 2)
      ensures ok && !dead ==> G.IsSpace(text[pos - 1])
      ensures !ok ==> pos == old(pos) && dead == old(dead)
    {
      if dead || pos == |text| || text[pos] != '/' { return false; }
      if pos + 1 == |text| || text[pos + 1] != '/' { return false; }
      hide G.ToLineEnd, G.Ws, G.IsSpace;
      assert text[pos..][2..] == text[pos + 2..];
      pos := pos + 2;
      SkipLine();
      Ws();
      ok := true;
    }

    /** The characters read of a pattern are put back one by one; past a comment that fails. */
    method UndoMatch(p: string, i: nat, ghost j: nat)
      requires Valid() && i <= |p| && (!dead ==> Undoable(text, pos, p, i, j))
      requires forall k | 0 <= k < |p| :: !G.IsSpace(p[k])
      modifies this
      ensures Valid()
      ensures old(dead) || j > 0 ==> dead
      ensures !old(dead) && j == 0 ==> !dead && pos == old(pos) - i
    {
      var cur := i;
      while cur > 0
        invariant 0 <= cur <= i && Valid()
        invariant !dead ==> !old(dead) && cur >= j && pos == old(pos) - (i - cur)
        invariant dead ==> old(dead) || j > 0
        invariant cur < j ==> dead
      {
        cur := cur - 1;
        if !dead && cur >= j {
          assert text[old(pos) - (i - j)..old(pos)][cur - j] == p[j..i][cur - j];
        }
        Putback(p[cur]);
      }
    }

    /** The branch of `match` for a character that is not the next one of the pattern: it is put
        back, then either a comment is skipped and the loop goes on, or everything is put back. */
    method Mismatch(p: string, i: nat, c: char, ghost j: nat) returns (again: bool, ghost j': nat)
      requires Valid() && i < |p| && forall k | 0 <= k < |p| :: !G.IsSpace(p[k])
      requires !dead ==> pos > 0 && text[pos - 1] == c && c != p[i] && Undoable(text, pos - 1, p, i, j)
      modifies this
      ensures Valid() && j' == (if again && i > 0 then i else j)
      ensures old(dead) ==> !again && dead
      ensures !old(dead) && !again ==> (false, State()) == G.MatchFrom(p, i, text[old(pos) - 1..], j > 0)
      ensures again && dead ==> G.MatchFrom(p, i, text[old(pos) - 1..], j > 0) == (false, G.Dead)
      ensures again && !dead ==> old(pos) < pos < |text| && Undoable(text, pos, p, i, j')
      ensures again && !dead ==>
        G.MatchFrom(p, i, text[old(pos) - 1..], j > 0) == G.MatchFrom(p, i, text[pos..], j' > 0)
    {
      hide G.MatchFrom, G.IsSpace;
      j' := j;
      ghost var was, here := dead, pos - 1;
      Putback(c);
      ghost var t := if was then "" else text[here..];
      if !was { MismatchStep(p, i, t, j > 0); }
      again := ParseComment();
      if again {
        if i > 0 { j' := i; }
        assert !dead ==> text[pos..pos] == p[i..i];
      } else {
        UndoMatch(p, i, j);
        if !was && j == 0 { UndoneText(text, here, p, i); }
      }
    }

    /** Where the loop of `match` stands: `i` characters of the pattern are read, and what the
        loop started with will be answered as what is left now. */
    ghost predicate Matching(p: string, i: nat, j: nat, ch: char, answer: (bool, G.Stream))
      reads this
      requires Valid()
    {
      && i <= |p|
      && (dead ==> answer == (i == |p|, G.Dead))
      && (!dead ==> Undoable(text, pos, p, i, j) && answer == G.MatchFrom(p, i, text[pos..], j > 0))
      && (!dead && pos == |text| ==> i > 0 && ch == p[i - 1])
    }

    /** One round of the loop of `match`. */
    method MatchRound(p: string, i: nat, ch: char, ghost j: nat, ghost answer: (bool, G.Stream))
      returns (again: bool, i': nat, ch': char, ghost j': nat)
      requires Valid() && !dead && i < |p| && Matching(p, i, j, ch, answer)
      requires forall k | 0 <= k < |p| :: !G.IsSpace(p[k])
      modifies this
      ensures Valid()
      ensures again ==> Matching(p, i', j', ch', answer) && (dead || pos > old(pos))
      ensures !again ==> answer == (false, State())
    {
      hide G.MatchFrom, G.IsSpace;
      again, i', j' := true, i, j;
      ghost var here, ended := pos, pos == |text|;
      if ended { EndStep(p, i, j > 0); }
      ch' := Get(ch);
      if ch' != p[i] {
        again, j' := Mismatch(p, i, ch', j);
      } else {
        if !ended {
          ReadExtends(text, here, p, i, j);
          ReadStep(p, i, text, here, j > 0);
        }
        i' := i + 1;
      }
    }

    /** `match` */
    method Match(p: string) returns (ok: bool)
      requires Valid() && p != "" && forall k | 0 <= k < |p| :: !G.IsSpace(p[k])
      modifies this
      ensures Valid() && (ok, State()) == G.Match(p, old(State()))
    {
      Ws();
      if dead { return false; }
      ghost var answer := G.MatchFrom(p, 0, text[pos..], false);
      assert text[pos..pos] == p[0..0];
      hide G.MatchFrom, G.IsSpace;
      var i, ch, again := 0, '\0', true;
      ghost var j := 0;
      while !dead && i < |p|
        invariant Valid() && 0 <= i && Matching(p, i, j, ch, answer)
        decreases !dead, |text| - pos
      {
        again, i, ch, j := MatchRound(p, i, ch, j, answer);
        if !again { return false; }
      }
      if !dead { DoneStep(p, text[pos..], j > 0); }
      ok := i == |p|;
    }

    /** The four characters after `\u`. */
    method ReadCode(last: char) returns (code: string, ch: char)
      requires Valid()
      modifies this
      ensures Valid() && pos >= old(pos)
      ensures !dead ==> !old(dead) && pos == old(pos) + 4 && code == text[old(pos)..pos] && ch == text[pos - 1]
      ensures dead ==> old(dead) || |text| < old(pos) + 4
    {
      code, ch := "", last;
      var n := 0;
      while !dead && n < 4
        invariant Valid() && n <= 4 && pos >= old(pos)
        invariant !dead ==> !old(dead) && pos == old(pos) + n && code == text[old(pos)..pos]
        invariant !dead && n > 0 ==> ch == text[pos - 1]
        invariant dead ==> old(dead) || |text| < old(pos) + 4
      {
        ch := Get(ch);
        code := code + [ch];
        n := n + 1;
      }
    }

    /** Where the loop of `parse_string` stands: what it started with will be answered as the
        value collected so far followed by what is left. */
    ghost predicate Collecting(delimiter: char, value: string, done: bool, answer: Option<(string, string)>)
      reads this
      requires Valid()
    {
      if dead then answer == None
      else if done then answer == Some((value, text[pos..]))
      else answer == G.Prepend(value, G.StringBody(text[pos..], delimiter))
    }

    /** One round of the loop of `parse_string`; `ch` is the character in the buffer. */
    method BodyRound(delimiter: char, before: string, last: char, ghost answer: Option<(string, string)>)
      returns (value: string, ch: char, done: bool)
      requires Valid() && !dead && Collecting(delimiter, before, false, answer)
      modifies this
      ensures Valid() && Collecting(delimiter, value, done, answer)
      ensures done ==> ch == delimiter
      ensures dead || pos > old(pos)
    {
      hide G.StringBody, G.Prepend, G.Unescape, G.CodeUnit;
      BodyStep(text, pos, delimiter, before);
      value, done := before, false;
      ch := Get(last);
      if ch == delimiter {
        done := true;
      } else if ch == '\\' {
        ch := Get(ch);
        if ch == 'u' {
          var code;
          code, ch := ReadCode(ch);
          value := value + (if dead then "" else G.CodeUnit(code));
        } else {
          value := value + G.Unescape(ch, delimiter);
        }
      } else {
        value := value + [ch];
      }
    }

    /** The body of `parse_string` after the opening delimiter; `last` is the character in the
        buffer. */
    method StringBody(delimiter: char, last: char) returns (ok: bool, value: string)
      requires Valid() && !dead
      modifies this
      ensures Valid()
      ensures (if ok then Some(value) else None, State()) == G.Unquote(text[old(pos)..], delimiter)
    {
      hide G.StringBody;
      ghost var answer := G.StringBody(text[pos..], delimiter);
      NothingYet(text[pos..], delimiter);
      var ch, done := last, false;
      value := "";
      while !dead && !done
        invariant Valid() && Collecting(delimiter, value, done, answer)
        invariant done ==> ch == delimiter
        decreases !dead, !done, |text| - pos
      {
        value, ch, done := BodyRound(delimiter, value, ch, answer);
      }
      ok := !dead && ch == delimiter;
    }

    /** `parse_string` */
    method ParseString() returns (ok: bool, value: string)
      requires Valid()
      modifies this
      ensures Valid() && (if ok then Some(value) else None, State()) == G.ParseString(old(State()))
    {
      hide G.StringBody, G.Match;
      value := "";
      ok := Match("\"");
      if ok {
        ok, value := StringBody('"', '\0');
      } else if PeekIs('\'') {
        assert text[pos..][1..] == text[pos + 1..];
        var ch := Get('\0');
        ok, value := StringBody('\'', ch);
      }
    }

    /** `parse_number`: the position is remembered and restored when the extraction fails. */
    method ParseNumber() returns (ok: bool, value: real)
      requires Valid()
      modifies this
      ensures Valid() && (if ok then Some(value) else None, State()) == G.ParseNumber(old(State()))
    {
      hide G.ScanNumber;
      Ws();
      if dead { return false, 0.0; }
      var rollback := pos;
      match G.ScanNumber(text[pos..])
      case Some(p) =>
        ScanIsSuffix(text[pos..]);
        pos := |text| - |p.1|;
        ok, value := true, p.0;
      case None =>
        pos := rollback;
        ok, value := false, 0.0;
    }

    /** `parse_bool` */
    method ParseBool() returns (ok: bool, value: bool)
      requires Valid()
      modifies this
      ensures Valid() && (if ok then Some(value) else None, State()) == G.ParseBool(old(State()))
    {
      hide G.Match;
      value := true;
      ok := Match("true");
      if !ok {
        value := false;
        ok := Match("false");
      }
    }

    /** `parse_null` */
    method ParseNull() returns (ok: bool)
      requires Valid()
      modifies this
      ensures Valid() && (ok, State()) == G.ParseNull(old(State()))
    {
      hide G.Match;
      ok := Match("null");
      if !ok {
        ok := PeekIs(',');
      }
    }

    /** `Value::parse` */
    method ParseValue() returns (ok: bool, value: Value)
      requires Valid()
      modifies this
      ensures Valid() && (if ok then Some(value) else None, State()) == G.ParseValue(old(State()))
      decreases G.Left(State()), 2
    {
      hide G.ParseString, G.ParseNumber, G.ParseBool, G.ParseNull, G.ParseArray, G.ParseObject;
      value := Invalid;
      var str; ok, str := ParseString();
      if ok { return true, String(str); }
      var num; ok, num := ParseNumber();
      if ok { return true, Number(num); }
      var b; ok, b := ParseBool();
      if ok { return true, Bool(b); }
      ok := ParseNull();
      if ok { return true, Null; }
      if PeekIs('[') {
        var items; ok, items := ParseArray();
        if ok { return true, Array(items); }
      }
      var fields; ok, fields := ParseObject();
      if ok { return true, Object(fields); }
    }

    /** `Array::parse` */
    method ParseArray() returns (ok: bool, items: seq<Value>)
      requires Valid()
      modifies this
      ensures Valid() && (if ok then Some(items) else None, State()) == G.ParseArray(old(State()))
      ensures items == G.KeptItems(old(State()))
      decreases G.Left(State()), 1
    {
      hide G.Match, G.ParseValue;
      items := [];
      ok := Match("[");
      if !ok { return; }
      ok := Match("]");
      if ok { return; }
      ghost var all := G.ParseItems(State());
      assert [] + all.0 == all.0;
      var more := true;
      while more
        invariant Valid() && G.Left(State()) < G.Left(old(State()))
        invariant more ==> all == (items + G.ParseItems(State()).0, G.ParseItems(State()).1)
        invariant !more ==> all == (items, State())
        decreases more, G.Left(State())
      {
        ghost var here, before := State(), items;
        var v; ok, v := ParseValue();
        if !ok {
          assert items + [] == items;
          more := false;
        } else {
          items := items + [v];
          more := Match(",");
          if more {
            assert before + ([v] + G.ParseItems(State()).0) == items + G.ParseItems(State()).0;
          }
        }
      }
      ok := Match("]");
    }

    /** `Object::parse` */
    method ParseObject() returns (ok: bool, fields: seq<Field>)
      requires Valid()
      modifies this
      ensures Valid() && (if ok then Some(fields) else None, State()) == G.ParseObject(old(State()))
      ensures fields == G.KeptEntries(old(State()))
      decreases G.Left(State()), 1
    {
      hide G.Match, G.ParseValue, G.ParseString, Insert;
      fields := [];
      ok := Match("{");
      if !ok { return; }
      ok := Match("}");
      if ok { return; }
      ghost var all, kept := G.ParseFields(State(), []), G.KeptFields(State(), []);
      var more := true;
      while more
        invariant Valid() && G.Left(State()) < G.Left(old(State()))
        invariant more ==> all == G.ParseFields(State(), fields)
        invariant !more ==> all == (Some(fields), State())
        invariant kept == if more then G.KeptFields(State(), fields) else fields
        decreases more, G.Left(State())
      {
        var key, v;
        ok, key := ParseString();
        if !ok {
          if PeekIs('}') {
            more := false;
          } else {
            return;
          }
        } else {
          ok := Match(":");
          if !ok { return; }
          ok, v := ParseValue();
          if !ok {
            more := false;
          } else {
            fields := Insert(fields, key, v);
            more := Match(",");
          }
        }
      }
      ok := Match("}");
    }
  }

  /** `Object::parse(const std::string&)`: reading a whole text. The entries read before a failure are
      kept, and a caller that ignores the answer sees them. */
  method ReadText(text: string) returns (ok: bool, fields: seq<Field>)
    ensures (if ok then Some(fields) else None) == G.ReadObject(text)
    ensures fields == G.KeptEntries(G.Live(text))
  {
    var input := new TextStream(text);
    assert text[0..] == text;
    ok, fields := input.ParseObject();
  }

  /** The pattern characters read since the last comment stand right before the position; if a
      comment was skipped after some pattern character, a blank stands before them. */
  ghost predicate Undoable(text: string, pos: nat, p: string, i: nat, j: nat) {
    j <= i <= |p| && i - j <= pos <= |text| && text[pos - (i - j)..pos] == p[j..i]
    && (j > 0 ==> i - j < pos && G.IsSpace(text[pos - (i - j) - 1]))
  }

  lemma ReadExtends(text: string, pos: nat, p: string, i: nat, j: nat)
    requires Undoable(text, pos, p, i, j) && i < |p| && pos < |text| && text[pos] == p[i]
    ensures Undoable(text, pos + 1, p, i + 1, j) && text[pos..][1..] == text[pos + 1..]
  {
    assert text[pos + 1 - (i + 1 - j)..pos + 1] == text[pos - (i - j)..pos] + [text[pos]];
    assert p[j..i + 1] == p[j..i] + [p[i]];
  }

  lemma UndoneText(text: string, pos: nat, p: string, i: nat)
    requires Undoable(text, pos, p, i, 0)
    ensures text[pos - i..] == p[..i] + text[pos..]
  {
    assert text[pos - i..] == text[pos - i..pos] + text[pos..];
  }

  // One step of the skipping functions at a time.

  lemma BlankStep(text: string, pos: nat)
    requires pos < |text| && G.IsSpace(text[pos])
    ensures G.SkipSpace(text[pos..]) == G.SkipSpace(text[pos + 1..])
  {
    assert text[pos..][1..] == text[pos + 1..];
  }

  lemma NoBlankStep(text: string, pos: nat)
    requires pos <= |text|
    ensures pos == |text| || !G.IsSpace(text[pos]) ==> G.SkipSpace(text[pos..]) == text[pos..]
    ensures pos < |text| && !G.IsSpace(text[pos]) ==> !G.Ws(G.Live(text[pos..])).Dead?
  {
  }

  lemma LineStep(text: string, pos: nat)
    requires pos < |text| && text[pos] != '\r' && text[pos] != '\n'
    ensures G.ToLineEnd(text[pos..]) == G.ToLineEnd(text[pos + 1..])
  {
    assert text[pos..][1..] == text[pos + 1..];
  }

  lemma LineEndStep(text: string, pos: nat)
    requires pos <= |text| && (pos == |text| || text[pos] == '\r' || text[pos] == '\n')
    ensures G.ToLineEnd(text[pos..]) == text[pos..]
    ensures pos < |text| ==> G.IsSpace(text[pos]) && G.SkipSpace(text[pos..]) != text[pos..]
  {
    hide G.IsSpace;
    if pos < |text| {
      NewlineIsBlank(text[pos]);
      BlankStep(text, pos);
    }
  }

  lemma NewlineIsBlank(c: char)
    requires c == '\r' || c == '\n'
    ensures G.IsSpace(c)
  {
  }

  // One step of `MatchFrom` at a time.

  lemma ReadStep(p: string, i: nat, text: string, pos: nat, cut: bool)
    requires i < |p| && pos < |text| && text[pos] == p[i]
    ensures G.MatchFrom(p, i, text[pos..], cut) == G.MatchFrom(p, i + 1, text[pos + 1..], cut)
  {
    assert text[pos..][1..] == text[pos + 1..];
  }

  lemma EndStep(p: string, i: nat, cut: bool)
    requires i < |p|
    ensures G.MatchFrom(p, i, "", cut) == (i > 0 && p[i] == p[i - 1] && i + 1 == |p|, G.Dead)
  {
  }

  lemma DoneStep(p: string, t: string, cut: bool)
    ensures G.MatchFrom(p, |p|, t, cut) == (true, G.Live(t))
  {
  }

  lemma MismatchStep(p: string, i: nat, t: string, cut: bool)
    requires i < |p| && t != "" && t[0] != p[i]
    ensures G.MatchFrom(p, i, t, cut)
         == if G.StartsComment(t) then
              (if G.SkipComment(t).Dead? then (false, G.Dead)
               else G.MatchFrom(p, i, G.SkipComment(t).rest, cut || i > 0))
            else (false, if cut then G.Dead else G.Live(p[..i] + t))
  {
  }

  // One step of `StringBody` at a time.

  lemma NothingYet(t: string, delimiter: char)
    ensures G.Prepend("", G.StringBody(t, delimiter)) == G.StringBody(t, delimiter)
  {
    hide G.StringBody;
    var r := G.StringBody(t, delimiter);
    if r.Some? { assert "" + r.value.0 == r.value.0; }
  }

  lemma PrependTwice(a: string, b: string, r: Option<(string, string)>)
    ensures G.Prepend(a, G.Prepend(b, r)) == G.Prepend(a + b, r)
  {
    if r.Some? { assert a + (b + r.value.0) == a + b + r.value.0; }
  }

  lemma PrependToEnd(a: string, rest: string)
    ensures G.Prepend(a, None) == None && G.Prepend(a, Some(("", rest))) == Some((a, rest))
  {
    assert a + "" == a;
  }

  lemma BodyStep(text: string, pos: nat, delimiter: char, value: string)
    requires pos <= |text|
    ensures var r := G.Prepend(value, G.StringBody(text[pos..], delimiter));
      if pos == |text| then r == None
      else if text[pos] == delimiter then r == Some((value, text[pos + 1..]))
      else if text[pos] != '\\' then r == G.Prepend(value + [text[pos]], G.StringBody(text[pos + 1..], delimiter))
      else if pos + 1 == |text| then r == None
      else if text[pos + 1] != 'u' then
        r == G.Prepend(value + G.Unescape(text[pos + 1], delimiter), G.StringBody(text[pos + 2..], delimiter))
      else if pos + 6 > |text| then r == None
      else r == G.Prepend(value + G.CodeUnit(text[pos + 2..pos + 6]), G.StringBody(text[pos + 6..], delimiter))
  {
    hide G.Unescape, G.CodeUnit, G.Prepend;
    var t := text[pos..];
    PrependToEnd(value, "");
    if t == "" || t[0] == delimiter {
      PrependToEnd(value, if t == "" then "" else t[1..]);
      if t != "" { assert t[1..] == text[pos + 1..]; }
    } else if t[0] != '\\' {
      assert t[1..] == text[pos + 1..];
      PrependTwice(value, [t[0]], G.StringBody(t[1..], delimiter));
    } else if |t| < 2 {
    } else if t[1] != 'u' {
      assert t[2..] == text[pos + 2..];
      PrependTwice(value, G.Unescape(t[1], delimiter), G.StringBody(t[2..], delimiter));
    } else if |t| < 6 {
    } else {
      assert t[2..6] == text[pos + 2..pos + 6] && t[6..] == text[pos + 6..];
      PrependTwice(value, G.CodeUnit(t[2..6]), G.StringBody(t[6..], delimiter));
    }
  }

  predicate Suffix(r: string, t: string) {
    |r| <= |t| && r == t[|t| - |r|..]
  }

  lemma {:induction false} DigitsSuffix(t: string)
    ensures Suffix(G.AfterDigits(t), t)
  {
    if t != "" && G.IsDigit(t[0]) { DigitsSuffix(t[1..]); }
  }

  lemma SuffixOfSuffix(a: string, b: string, c: string)
    requires Suffix(a, b) && Suffix(b, c)
    ensures Suffix(a, c)
  {
  }

  lemma ExponentSuffix(t: string)
    ensures G.Exponent(t).Some? ==> Suffix(G.Exponent(t).value.1, t)
  {
    if t != "" && (t[0] == 'e' || t[0] == 'E') {
      DigitsSuffix(G.AfterSign(t[1..]));
      SuffixOfSuffix(G.AfterDigits(G.AfterSign(t[1..])), G.AfterSign(t[1..]), t);
    }
  }

  /** A number extraction consumes a prefix of the text. */
  lemma ScanIsSuffix(t: string)
    ensures G.ScanNumber(t).Some? ==> Suffix(G.ScanNumber(t).value.1, t)
  {
    hide G.Exponent, G.Mantissa, G.Scale, G.AfterDigits;
    var whole := G.AfterSign(t);
    var w := G.AfterDigits(whole);
    DigitsSuffix(whole);
    SuffixOfSuffix(w, whole, t);
    if w != "" && w[0] == '.' {
      DigitsSuffix(w[1..]);
      SuffixOfSuffix(G.AfterDigits(w[1..]), w[1..], w);
      SuffixOfSuffix(G.AfterDigits(w[1..]), w, t);
    }
    var m := G.AfterMantissa(t);
    ExponentSuffix(m);
    if G.Exponent(m).Some? { SuffixOfSuffix(G.Exponent(m).value.1, m, t); }
  }
}
