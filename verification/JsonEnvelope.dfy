/** What follows from the exact round trip: everything that is read is in canonical form, printing
    it again is stable, and a message wrapped in an envelope comes out unchanged. */
module JsonEnvelope {
  import opened Wrappers
  import opened JsonValue
  import opened JsonPrinter
  import opened JsonGrammar
  import opened JsonRoundTrip
  import opened JsonExactness

  // ---------------------------------------------------------------- what is read is canonical

  /** Sorted objects without invalid values inside. */
  ghost predicate Canonical(v: Value) {
    WellFormed(v) && Valued(v)
  }

  ghost predicate CanonicalFields(fs: seq<Field>) {
    FieldsWellFormed(fs) && ValuedFields(fs)
  }

  lemma {:induction false} ValuedEach(fs: seq<Field>)
    ensures ValuedFields(fs) <==> forall i | 0 <= i < |fs| :: Valued(fs[i].value)
  {
    if fs != [] {
      ValuedEach(fs[1..]);
      assert forall i | 1 <= i < |fs| :: fs[i] == fs[1..][i - 1];
      assert forall i | 0 <= i < |fs[1..]| :: fs[1..][i] == fs[i + 1];
    }
  }

  lemma {:induction false} ValuedEachItem(items: seq<Value>)
    ensures ValuedItems(items) <==> forall i | 0 <= i < |items| :: Valued(items[i])
  {
    if items != [] {
      ValuedEachItem(items[1..]);
      assert forall i | 1 <= i < |items| :: items[i] == items[1..][i - 1];
      assert forall i | 0 <= i < |items[1..]| :: items[1..][i] == items[i + 1];
    }
  }

  lemma InsertKeepsCanonical(fs: seq<Field>, k: string, v: Value)
    requires CanonicalFields(fs) && Canonical(v)
    ensures CanonicalFields(Insert(fs, k, v))
  {
    hide Insert, Less, Valued, ValuedFields;
    InsertKeepsSorted(fs, k, v);
    InsertKeys(fs, k, v);
    ValuedEach(fs);
    var r := Insert(fs, k, v);
    forall i | 0 <= i < |r| ensures Canonical(r[i].value) {
      assert r[i] in r;
    }
    ValuedEach(r);
  }

  lemma {:induction false} ValueIsCanonical(s: Stream)
    requires ParseValue(s).0.Some?
    ensures Canonical(ParseValue(s).0.value)
    decreases Left(s), 2
  {
    hide ParseString, ParseNumber, ParseBool, ParseNull;
    var scalar := ParseScalar(s);
    if scalar.0.None? {
      var a := if PeekIs(scalar.1, '[') then ParseArray(scalar.1) else (None, scalar.1);
      if a.0.Some? {
        ArrayIsCanonical(scalar.1);
      } else {
        ObjectIsCanonical(a.1);
      }
    }
  }

  lemma {:induction false} ArrayIsCanonical(s: Stream)
    requires ParseArray(s).0.Some?
    ensures Canonical(Array(ParseArray(s).0.value))
    decreases Left(s), 1
  {
    hide Match;
    var empty := Match("]", Match("[", s).1);
    if !empty.0 { ItemsAreCanonical(empty.1); }
    ValuedEachItem(ParseArray(s).0.value);
  }

  lemma {:induction false} ItemsAreCanonical(s: Stream)
    ensures forall i | 0 <= i < |ParseItems(s).0| :: Canonical(ParseItems(s).0[i])
    decreases Left(s), 3
  {
    hide Match;
    var v := ParseValue(s);
    if v.0.Some? {
      ValueIsCanonical(s);
      var more := Match(",", v.1);
      if more.0 { ItemsAreCanonical(more.1); }
    }
  }

  lemma {:induction false} ObjectIsCanonical(s: Stream)
    requires ParseObject(s).0.Some?
    ensures CanonicalFields(ParseObject(s).0.value)
    decreases Left(s), 1
  {
    hide Match;
    var empty := Match("}", Match("{", s).1);
    if !empty.0 { FieldsAreCanonical(empty.1, []); }
  }

  lemma {:induction false} FieldsAreCanonical(s: Stream, acc: seq<Field>)
    requires CanonicalFields(acc) && ParseFields(s, acc).0.Some?
    ensures CanonicalFields(ParseFields(s, acc).0.value)
    decreases Left(s), 3
  {
    hide Match, ParseString, Insert, CanonicalFields, Canonical;
    var key := ParseString(s);
    if key.0.Some? {
      var colon := Match(":", key.1);
      if colon.0 {
        var v := ParseValue(colon.1);
        if v.0.Some? {
          ValueIsCanonical(colon.1);
          InsertKeepsCanonical(acc, key.0.value, v.0.value);
          var more := Match(",", v.1);
          if more.0 { FieldsAreCanonical(more.1, Insert(acc, key.0.value, v.0.value)); }
        }
      }
    }
  }

  /** What a failed parse leaves behind is in canonical form as well, and what a successful one gives is what
      it leaves. */
  lemma KeptIsCanonical(s: Stream)
    ensures CanonicalFields(KeptEntries(s))
    ensures ParseObject(s).0.Some? ==> ParseObject(s).0.value == KeptEntries(s)
  {
    hide Match, ParseFields, CanonicalFields;
    EmptyIsCanonical();
    var open := Match("{", s);
    if open.0 {
      var empty := Match("}", open.1);
      if !empty.0 { KeptFieldsAreCanonical(empty.1, []); }
    }
  }

  lemma EmptyIsCanonical()
    ensures CanonicalFields([])
  {
  }

  lemma {:induction false} KeptFieldsAreCanonical(s: Stream, acc: seq<Field>)
    requires CanonicalFields(acc)
    ensures CanonicalFields(KeptFields(s, acc))
    ensures ParseFields(s, acc).0.Some? ==> ParseFields(s, acc).0.value == KeptFields(s, acc)
    decreases Left(s)
  {
    hide Match, ParseString, ParseValue, Insert, CanonicalFields, Canonical;
    var key := ParseString(s);
    if key.0.Some? {
      var colon := Match(":", key.1);
      if colon.0 {
        var v := ParseValue(colon.1);
        if v.0.Some? {
          ValueIsCanonical(colon.1);
          InsertKeepsCanonical(acc, key.0.value, v.0.value);
          var more := Match(",", v.1);
          if more.0 { KeptFieldsAreCanonical(more.1, Insert(acc, key.0.value, v.0.value)); }
        }
      }
    }
  }

  /** Whatever text is read, printing the object and reading it again changes nothing, if and only
      if no entry has an empty key. */
  lemma ReprintIsStable(text: string)
    requires ReadObject(text).Some? && PrintableFields(ReadObject(text).value)
    ensures var fs := ReadObject(text).value;
      FieldsWellFormed(fs) && (ReadObject(PrintObject(fs)) == ReadObject(text) <==> NamedFields(fs))
  {
    ObjectIsCanonical(Live(text));
    SurvivesExactly(ReadObject(text).value);
  }

  // ---------------------------------------------------------------- a failed array is not rewound

  /** Values with a comma between each two, and what comes after them. */
  function Listed(items: seq<Value>, after: string): string
    requires items != [] && forall i | 0 <= i < |items| :: Printable(items[i])
  {
    Body(0, items[0], true) + if |items| == 1 then after else "," + Listed(items[1..], after)
  }

  lemma ListedStarts(items: seq<Value>, after: string)
    requires items != [] && forall i | 0 <= i < |items| :: Printable(items[i])
    ensures var t := Listed(items, after); AtToken(t) && t[0] != ']'
  {
    BodyStarts(0, items[0], true, if |items| == 1 then after else "," + Listed(items[1..], after));
  }

  /** Before an object that no comma announces the items of an array end. */
  lemma {:induction false} ListedParses(items: seq<Value>, tail: string)
    requires items != [] && Printable(Array(items)) && WellFormed(Array(items)) && NamedItems(items)
    requires AtToken(tail) && tail[0] == '{'
    ensures ParseItems(Live(Listed(items, " " + tail))) == (NormItems(items), Live(tail))
    decreases items
  {
    hide ParseValue, ParseScalar, ParseItems, Match, Body, WellFormed;
    var text := Listed(items, " " + tail);
    NoBlanks(text);
    RestIsListable(items);
    if |items| == 1 {
      BodyParses(0, items[0], true, "", " " + tail);
      assert AllSpace(" ");
      Miss(",", " ", tail);
      ItemStep(Live(text), Norm(items[0]), Live(" " + tail), false, Live(tail), [], Live(tail));
      assert NormItems(items) == [Norm(items[0])] + [];
    } else {
      var more := Listed(items[1..], " " + tail);
      BodyParses(0, items[0], true, "", "," + more);
      NoBlanks("," + more);
      Hit(",", "", more);
      ListedParses(items[1..], tail);
      ItemStep(Live(text), Norm(items[0]), Live("," + more), true, Live(more), NormItems(items[1..]), Live(tail));
    }
  }

  lemma RestIsListable(items: seq<Value>)
    requires items != [] && Printable(Array(items)) && WellFormed(Array(items)) && NamedItems(items)
    ensures Printable(items[0]) && WellFormed(items[0]) && Named(items[0])
    ensures Printable(Array(items[1..])) && WellFormed(Array(items[1..])) && NamedItems(items[1..])
  {
  }

  /** A text that starts with an opening bracket is never read as anything but an array or an object, and as
      an object exactly when no array can be read and an object stands where that attempt stopped. */
  lemma BracketReads(t: string)
    ensures var s := Live("[" + t);
      var v, a := ParseValue(s).0, ParseArray(s);
      && (v.Some? ==> v.value.Array? || v.value.Object?)
      && (v.Some? && v.value.Array? <==> a.0.Some?)
      && (v.Some? && v.value.Object? <==> a.0.None? && ParseObject(a.1).0.Some?)
  {
    hide ParseScalar, ParseArray, ParseObject;
    NoBlanks("[" + t);
    NoScalarHere("", "[" + t);
  }

  /** An object after an unfinished array is read in the array's place: for all values and objects, an
      opening bracket, the values with commas between them, and the object without one, read as the object
      alone. */
  lemma UnfinishedArrayIsSkipped(items: seq<Value>, fs: seq<Field>, rest: string)
    requires items != [] && Printable(Array(items)) && WellFormed(Array(items)) && NamedItems(items)
    requires PrintableFields(fs) && FieldsWellFormed(fs) && NamedFields(fs)
    ensures ParseValue(Live("[" + Listed(items, " " + (Body(0, Object(fs), true) + rest))))
         == (Some(Object(NormFields(fs))), Live(rest))
  {
    hide ParseValue, ParseScalar, ParseObject, ParseItems, Match, Body, Listed, WellFormed;
    var tail := Body(0, Object(fs), true) + rest;
    ObjectBodyStarts(fs, rest);
    var inner := Listed(items, " " + tail);
    NoBlanks("[" + inner);
    OpenerHit("[", "", inner);
    ListedStarts(items, " " + tail);
    MissHere("]", inner);
    ListedParses(items, tail);
    MissHere("]", tail);
    PrintedObjectParses(0, fs, true, rest);
    SkippedArrayStep(Live("[" + inner), Live(inner), Live(inner), NormItems(items), Live(tail), Live(tail),
                     NormFields(fs), Live(rest));
  }

  lemma ObjectBodyStarts(fs: seq<Field>, rest: string)
    requires PrintableFields(fs)
    ensures var t := Body(0, Object(fs), true) + rest; AtToken(t) && t[0] == '{'
  {
  }

  lemma SkippedArrayStep(t: Stream, s1: Stream, s2: Stream, items: seq<Value>, s3: Stream, s4: Stream,
                         fs: seq<Field>, s5: Stream)
    requires ParseScalar(t) == (None, t) && PeekIs(t, '[') && Match("[", t) == (true, s1)
    requires Match("]", s1) == (false, s2) && ParseItems(s2) == (items, s3) && Match("]", s3) == (false, s4)
    requires ParseObject(s4) == (Some(fs), s5)
    ensures ParseValue(t) == (Some(Object(fs)), s5)
  {
    hide ParseScalar, ParseObject, ParseItems, Match;
  }

  // ---------------------------------------------------------------- envelopes

  const KEY_CLASS := "jsonClass"
  const KEY_SESSION_ID := "sessionId"
  const KEY_DATA := "data"
  const ENVELOP := "BackendMessage$Envelop"

  /** `Session::makeEnvelop`: the message is printed and put into the envelope as a string. */
  function MakeEnvelope(sessionId: nat, message: seq<Field>): seq<Field>
    requires PrintableFields(message)
  {
    Insert(Insert(Insert([], KEY_CLASS, String(ENVELOP)),
                  KEY_SESSION_ID, Number(sessionId as real)),
           KEY_DATA, String(PrintObject(message)))
  }

  lemma KeyOrder()
    ensures Less(KEY_DATA, KEY_CLASS) && Less(KEY_CLASS, KEY_SESSION_ID) && Less(KEY_DATA, KEY_SESSION_ID)
    ensures !Less(KEY_SESSION_ID, KEY_CLASS)
  {
    assert Less(KEY_CLASS, KEY_SESSION_ID) && Less(KEY_DATA, KEY_CLASS);
    LessIsTransitive(KEY_DATA, KEY_CLASS, KEY_SESSION_ID);
  }

  lemma KeysDiffer()
    ensures KEY_DATA != KEY_CLASS && KEY_DATA != KEY_SESSION_ID && KEY_CLASS != KEY_SESSION_ID
    ensures KEY_DATA != "" && KEY_CLASS != "" && KEY_SESSION_ID != ""
  {
    assert |KEY_CLASS| == 9 && |KEY_SESSION_ID| == 9 && |KEY_DATA| == 4;
    assert KEY_CLASS[0] != KEY_SESSION_ID[0];
  }

  lemma InsertEnvelope(c: Field, i: Field, d: Field)
    requires c.key == KEY_CLASS && i.key == KEY_SESSION_ID && d.key == KEY_DATA
    ensures Insert(Insert(Insert([], KEY_CLASS, c.value), KEY_SESSION_ID, i.value), KEY_DATA, d.value) == [d, c, i]
  {
    hide Less;
    KeyOrder();
    KeysDiffer();
    assert Insert([], KEY_CLASS, c.value) == [c];
    assert [c][1..] == [] && Insert([], KEY_SESSION_ID, i.value) == [i];
    assert Insert([c], KEY_SESSION_ID, i.value) == [c, i];
    assert Insert([c, i], KEY_DATA, d.value) == [d, c, i];
  }

  lemma EntriesAreNamed(c: Field, i: Field, d: Field)
    requires Named(c.value) && Named(i.value) && Named(d.value)
    requires c.key != "" && i.key != "" && d.key != ""
    ensures NamedFields([d, c, i])
  {
    assert [d, c, i][1..] == [c, i] && [c, i][1..] == [i] && [i][1..] == [];
    assert NamedFields([i]) && NamedFields([c, i]);
  }

  lemma EnvelopeEntries(sessionId: nat, message: seq<Field>)
    requires PrintableFields(message) && sessionId < 0x1_0000_0000
    ensures var e := MakeEnvelope(sessionId, message);
      PrintableFields(e) && CanonicalFields(e) && NamedFields(e)
    ensures MakeEnvelope(sessionId, message)
         == [Field(KEY_DATA, String(PrintObject(message))), Field(KEY_CLASS, String(ENVELOP)),
             Field(KEY_SESSION_ID, Number(sessionId as real))]
  {
    hide PrintObject, Insert, Less, NamedFields;
    var c, i := Field(KEY_CLASS, String(ENVELOP)), Field(KEY_SESSION_ID, Number(sessionId as real));
    var d := Field(KEY_DATA, String(PrintObject(message)));
    InsertEnvelope(c, i, d);
    var e := [d, c, i];
    KeysDiffer();
    EntriesAreNamed(c, i, d);
    KeyOrder();
    assert PlainNumber(sessionId as real);
    assert Sorted(e);
    assert forall k | 0 <= k < |e| :: Canonical(e[k].value);
    ValuedEach(e);
  }

  /** Wrapping is lossless: the envelope's text is read back entry by entry, and reading its data
      string gives the message, if and only if the message itself survives printing. */
  lemma EnvelopeIsLossless(sessionId: nat, message: seq<Field>)
    requires PrintableFields(message) && FieldsWellFormed(message) && sessionId < 0x1_0000_0000
    ensures PrintableFields(MakeEnvelope(sessionId, message))
    ensures var r := ReadObject(PrintObject(MakeEnvelope(sessionId, message)));
      r.Some?
      && Lookup(r.value, KEY_CLASS) == Some(String(ENVELOP))
      && Lookup(r.value, KEY_SESSION_ID) == Some(Number(sessionId as real))
      && exists data :: Lookup(r.value, KEY_DATA) == Some(String(data))
           && (ReadObject(data) == Some(message) <==> NamedFields(message) && ValuedFields(message))
  {
    hide ReadObject, PrintObject, NamedFields, ValuedFields;
    EnvelopeEntries(sessionId, message);
    var e := MakeEnvelope(sessionId, message);
    SurvivesExactly(e);
    SurvivesExactly(message);
    var data := PrintObject(message);
    assert e[1..] == [e[1], e[2]] && [e[1], e[2]][1..] == [e[2]];
    assert Lookup(e, KEY_DATA) == Some(String(data));
    assert Lookup(e, KEY_CLASS) == Lookup([e[1], e[2]], KEY_CLASS);
    assert Lookup(e, KEY_SESSION_ID) == Lookup([e[1], e[2]], KEY_SESSION_ID) == Lookup([e[2]], KEY_SESSION_ID);
  }
}
