/** The value tree that the JSON codec prints and parses.
    A character stands for one byte of the original text; nothing below depends on an upper bound,
    so every statement holds in particular for all byte strings. */
module JsonValue {
  import opened Wrappers

  /** One entry of an object. The original keeps a sorted `std::map`, so the entries of an
      object are a sequence ordered by key (see `Sorted`). */
  datatype Field = Field(key: string, value: Value)

  datatype Value =
    | Invalid
    | Null
    | Bool(b: bool)
    | Number(n: real)
    | String(s: string)
    | Array(items: seq<Value>)
    | Object(fields: seq<Field>)

  /** The order of `std::string` keys: lexicographic by byte. */
  predicate Less(a: string, b: string) {
    b != "" && (a == "" || a[0] < b[0] || (a[0] == b[0] && Less(a[1..], b[1..])))
  }

  ghost predicate Sorted(fs: seq<Field>) {
    forall i, j | 0 <= i < j < |fs| :: Less(fs[i].key, fs[j].key)
  }

  /** `value_map_[key] = v`: a new key goes to its place in the order, an old one gets a new value. */
  function Insert(fs: seq<Field>, k: string, v: Value): (r: seq<Field>) {
    if fs == [] then [Field(k, v)]
    else if fs[0].key == k then [Field(k, v)] + fs[1..]
    else if Less(k, fs[0].key) then [Field(k, v)] + fs
    else [fs[0]] + Insert(fs[1..], k, v)
  }

  /** The value stored under a key. */
  function Lookup(fs: seq<Field>, k: string): Option<Value> {
    if fs == [] then None
    else if fs[0].key == k then Some(fs[0].value)
    else Lookup(fs[1..], k)
  }

  /** Every object inside the value keeps its keys in strictly increasing order. */
  ghost predicate WellFormed(v: Value)
    decreases v, 0
  {
    match v
    case Array(items) => forall i | 0 <= i < |items| :: WellFormed(items[i])
    case Object(fields) => FieldsWellFormed(fields)
    case _ => true
  }

  ghost predicate FieldsWellFormed(fs: seq<Field>)
    decreases fs, 1
  {
    Sorted(fs) && forall i | 0 <= i < |fs| :: WellFormed(fs[i].value)
  }

  // ---------------------------------------------------------------- the key order

  lemma {:induction false} LessIsTotal(a: string, b: string)
    ensures a == b || Less(a, b) || Less(b, a)
  {
    if a != "" && b != "" && a[0] == b[0] {
      LessIsTotal(a[1..], b[1..]);
      assert a == [a[0]] + a[1..] && b == [b[0]] + b[1..];
    }
  }

  lemma {:induction false} LessIsTransitive(a: string, b: string, c: string)
    requires Less(a, b) && Less(b, c)
    ensures Less(a, c)
  {
    if a != "" && a[0] == b[0] == c[0] {
      LessIsTransitive(a[1..], b[1..], c[1..]);
    }
  }

  lemma {:induction false} LessIsIrreflexive(a: string)
    ensures !Less(a, a)
  {
    if a != "" {
      LessIsIrreflexive(a[1..]);
    }
  }

  // ---------------------------------------------------------------- insertion is a sorted map update

  lemma {:induction false} InsertKeys(fs: seq<Field>, k: string, v: Value)
    ensures forall f :: f in Insert(fs, k, v) ==> f == Field(k, v) || f in fs
  {
    if fs != [] && fs[0].key != k && !Less(k, fs[0].key) {
      InsertKeys(fs[1..], k, v);
    }
  }

  lemma {:induction false} InsertKeepsSorted(fs: seq<Field>, k: string, v: Value)
    requires Sorted(fs)
    ensures Sorted(Insert(fs, k, v))
  {
    if fs == [] || fs[0].key == k {
    } else if Less(k, fs[0].key) {
      forall j | 0 <= j < |fs| ensures Less(k, fs[j].key) {
        if j > 0 { LessIsTransitive(k, fs[0].key, fs[j].key); }
      }
    } else {
      LessIsTotal(fs[0].key, k);
      InsertKeepsSorted(fs[1..], k, v);
      InsertKeys(fs[1..], k, v);
      var r := Insert(fs[1..], k, v);
      forall j | 0 <= j < |r| ensures Less(fs[0].key, r[j].key) {
        assert r[j] in r;
        if r[j] != Field(k, v) {
          var i :| 0 <= i < |fs[1..]| && fs[1..][i] == r[j];
          assert fs[i + 1] == r[j];
        }
      }
    }
  }

  /** Insertion is a map update: the new key reads back, every other key is untouched. */
  lemma {:induction false} InsertThenLookup(fs: seq<Field>, k: string, v: Value, other: string)
    requires Sorted(fs)
    ensures Lookup(Insert(fs, k, v), other) == if other == k then Some(v) else Lookup(fs, other)
  {
    if fs == [] {
    } else if fs[0].key == k {
      assert ([Field(k, v)] + fs[1..])[1..] == fs[1..];
    } else if Less(k, fs[0].key) {
      assert ([Field(k, v)] + fs)[1..] == fs;
    } else {
      InsertThenLookup(fs[1..], k, v, other);
      var r := Insert(fs[1..], k, v);
      assert ([fs[0]] + r)[1..] == r;
    }
  }

  /** Inserting the entries of a sorted object in order only ever appends. */
  lemma {:induction false} InsertAppends(fs: seq<Field>, f: Field)
    requires Sorted(fs + [f])
    ensures Insert(fs, f.key, f.value) == fs + [f]
  {
    if fs != [] {
      var all := fs + [f];
      assert Less(all[0].key, all[|fs|].key);
      if fs[0].key == f.key { LessIsIrreflexive(f.key); }
      if Less(f.key, fs[0].key) {
        LessIsTransitive(f.key, fs[0].key, f.key);
        LessIsIrreflexive(f.key);
      }
      assert fs[1..] + [f] == all[1..];
      InsertAppends(fs[1..], f);
      assert [fs[0]] + (fs[1..] + [f]) == fs + [f];
    }
  }

  lemma InsertNext(acc: seq<Field>, f: Field, tail: seq<Field>)
    requires Sorted(acc + ([f] + tail))
    ensures Insert(acc, f.key, f.value) == acc + [f] && acc + ([f] + tail) == (acc + [f]) + tail
  {
    hide Less, Insert;
    var all := acc + ([f] + tail);
    forall i, j | 0 <= i < j < |acc + [f]| ensures Less((acc + [f])[i].key, (acc + [f])[j].key) {
      assert (acc + [f])[i] == all[i] && (acc + [f])[j] == all[j];
    }
    InsertAppends(acc, f);
  }
}
