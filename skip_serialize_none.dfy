/**
 * The `skip_serialize_none!` macro (src/lib.rs): it rewrites a struct's field
 * list, one field at a time, appending each processed field to those already
 * emitted, and marks every `Option<_>` field with
 * `skip_serializing_if = "Option::is_none"`; the struct derives serde's
 * `Serialize`/`Deserialize` with `rename_all = "camelCase"`. This module
 * models that rewriting and the document the derived serialiser emits.
 */
module SkipSerializeNone {
  import opened Wrappers

  /** A field as written in the macro call: its name and whether its type is `Option<_>`. */
  datatype FieldDecl = FieldDecl(name: string, isOption: bool)

  /** A field as the macro emits it: with the skip attribute or without. */
  datatype SerdeField = SerdeField(name: string, skipIfNone: bool)

  /**
   * The token muncher: `rest` is what is left of the field list, `acc` the
   * fields already emitted. The `Option<_>` rule is tried before the plain one.
   */
  function Munch(rest: seq<FieldDecl>, acc: seq<SerdeField>): (r: seq<SerdeField>)
    ensures |r| == |acc| + |rest|
    ensures r[..|acc|] == acc
    ensures forall i :: 0 <= i < |rest| ==> r[|acc| + i] == SerdeField(rest[i].name, rest[i].isOption)
    decreases |rest|
  {
    if rest == [] then acc
    else Munch(rest[1..], acc + [SerdeField(rest[0].name, rest[0].isOption)])
  }

  /** The whole macro: start with nothing emitted. */
  function Expand(decls: seq<FieldDecl>): (fields: seq<SerdeField>)
  {
    Munch(decls, [])
  }

  /** Fields keep their names and declaration order; exactly the `Option<_>` fields get the skip attribute. */
  lemma ExpandKeepsFields(decls: seq<FieldDecl>)
    ensures |Expand(decls)| == |decls|
    ensures forall i :: 0 <= i < |decls| ==>
      Expand(decls)[i].name == decls[i].name && (Expand(decls)[i].skipIfNone <==> decls[i].isOption)
  {
    var empty: seq<SerdeField> := [];
    var r := Munch(decls, empty);
    forall i | 0 <= i < |decls|
      ensures r[i] == SerdeField(decls[i].name, decls[i].isOption)
    {
      assert r[|empty| + i] == SerdeField(decls[i].name, decls[i].isOption);
    }
  }

  // ---------------------------------------------------------------------------
  // serde's `rename_all = "camelCase"` for field names

  function UpperAscii(c: char): char {
    if 'a' <= c <= 'z' then (c as int - 32) as char else c
  }

  function LowerAscii(c: char): char {
    if 'A' <= c <= 'Z' then (c as int + 32) as char else c
  }

  /**
   * serde's camelCase rule in one pass: every `_` is dropped, the first
   * character kept is lower-cased, and every later character that follows a
   * `_` is upper-cased (serde builds the PascalCase form, then lower-cases its
   * first character).
   */
  function CamelFrom(s: string, first: bool, capitalize: bool): string
    decreases |s|
  {
    if s == [] then []
    else if s[0] == '_' then CamelFrom(s[1..], first, true)
    else [if first then LowerAscii(s[0]) else if capitalize then UpperAscii(s[0]) else s[0]] + CamelFrom(s[1..], false, false)
  }

  /** The document key of a field. */
  function CamelCase(field: string): string
  {
    CamelFrom(field, true, false)
  }

  lemma {:induction false} CamelFromDropsUnderscores(s: string, first: bool, capitalize: bool)
    ensures '_' !in CamelFrom(s, first, capitalize)
    ensures |CamelFrom(s, first, capitalize)| == |s| - multiset(s)['_']
    decreases |s|
  {
    if s != [] {
      CamelFromDropsUnderscores(s[1..], first, true);
      CamelFromDropsUnderscores(s[1..], false, false);
      assert s == [s[0]] + s[1..];
      assert multiset(s) == multiset([s[0]]) + multiset(s[1..]);
    }
  }

  /** A key never contains `_`: the key is the field name with each `_` dropped and no other character added or removed. */
  lemma CamelCaseHasNoUnderscore(field: string)
    ensures '_' !in CamelCase(field)
    ensures |CamelCase(field)| == |field| - multiset(field)['_']
  {
    CamelFromDropsUnderscores(field, true, false);
  }

  /** A word of a snake_case name: lower-case ASCII letters only. */
  predicate LowerWord(w: string) {
    forall i :: 0 <= i < |w| ==> 'a' <= w[i] <= 'z'
  }

  lemma {:induction false} CamelFromLowerWord(w: string)
    requires LowerWord(w)
    ensures CamelFrom(w, false, false) == w
    decreases |w|
  {
    if w != [] {
      assert LowerWord(w[1..]) by {
        forall i | 0 <= i < |w[1..]|
          ensures 'a' <= w[1..][i] <= 'z'
        {
          assert w[1..][i] == w[i + 1];
        }
      }
      CamelFromLowerWord(w[1..]);
    }
  }

  lemma {:induction false} CamelFromConcat(a: string, b: string, first: bool, capitalize: bool)
    requires a != [] && '_' !in a
    ensures CamelFrom(a + b, first, capitalize) == CamelFrom(a, first, capitalize) + CamelFrom(b, false, false)
    decreases |a|
  {
    assert (a + b)[0] == a[0] && (a + b)[1..] == a[1..] + b;
    if |a| > 1 {
      CamelFromConcat(a[1..], b, false, false);
    } else {
      assert a[1..] + b == b;
    }
  }

  /** The first word of a name is kept as it is (`full` in `full_pkg`). */
  lemma CamelCaseFirstWord(w: string, rest: string)
    requires w != [] && LowerWord(w)
    ensures CamelCase(w + rest) == w + CamelFrom(rest, false, false)
  {
    CamelFromConcat(w, rest, true, false);
    CamelFromLowerWord(w[1..]);
  }

  /** Every later word loses its `_` and gains a capital (`_pkg` becomes `Pkg`). */
  lemma CamelCaseNextWord(w: string, rest: string)
    requires w != [] && LowerWord(w)
    ensures CamelFrom("_" + w + rest, false, false) == [UpperAscii(w[0])] + w[1..] + CamelFrom(rest, false, false)
  {
    assert ("_" + w + rest)[1..] == w + rest;
    CamelFromConcat(w, rest, false, true);
    CamelFromLowerWord(w[1..]);
  }

  /** A two-word field name becomes the first word followed by the capitalised second (`app_version` becomes `appVersion`). */
  lemma CamelCaseTwoWords(a: string, b: string)
    requires a != [] && LowerWord(a) && b != [] && LowerWord(b)
    ensures CamelCase(a + "_" + b) == a + [UpperAscii(b[0])] + b[1..]
  {
    CamelCaseFirstWord(a, "_" + b);
    CamelCaseNextWord(b, []);
    assert "_" + b + [] == "_" + b;
    assert a + "_" + b == a + ("_" + b);
  }

  /** A three-word field name becomes the first word followed by the other two capitalised (`pkg_file_name` becomes `pkgFileName`). */
  lemma CamelCaseThreeWords(a: string, b: string, c: string)
    requires a != [] && LowerWord(a) && b != [] && LowerWord(b) && c != [] && LowerWord(c)
    ensures CamelCase(a + "_" + b + "_" + c) == a + [UpperAscii(b[0])] + b[1..] + [UpperAscii(c[0])] + c[1..]
  {
    var tail := "_" + c;
    assert a + "_" + b + "_" + c == a + ("_" + b + tail);
    CamelCaseFirstWord(a, "_" + b + tail);
    CamelCaseNextWord(b, tail);
    CamelCaseNextWord(c, []);
    assert tail + [] == tail;
    assert CamelFrom(tail, false, false) == [UpperAscii(c[0])] + c[1..];
  }

  /** A Rust field name in snake_case: lower-case letters, each `_` followed by a letter, starting with a letter. */
  predicate IsSnakeCase(name: string) {
    |name| > 0 && 'a' <= name[0] <= 'z' && SnakeTail(name)
  }

  predicate SnakeTail(s: string) {
    forall i :: 0 <= i < |s| ==> SnakeAt(s, i)
  }

  /** Position `i` holds a letter, or a `_` with a letter after it. */
  predicate SnakeAt(s: string, i: nat)
    requires i < |s|
  {
    ('a' <= s[i] <= 'z') || (s[i] == '_' && i + 1 < |s| && 'a' <= s[i + 1] <= 'z')
  }

  /** Reading a camelCase key back as a field name: each capital becomes `_` and its lower-case form. */
  function SnakeCase(key: string): string
    decreases |key|
  {
    if key == [] then []
    else (if 'A' <= key[0] <= 'Z' then ['_', LowerAscii(key[0])] else [key[0]]) + SnakeCase(key[1..])
  }

  lemma SnakeTailDrop(s: string, k: nat)
    requires SnakeTail(s) && k <= |s|
    ensures SnakeTail(s[k..])
  {
    forall i | 0 <= i < |s[k..]|
      ensures SnakeAt(s[k..], i)
    {
      assert SnakeAt(s, i + k);
    }
  }

  lemma {:induction false} CamelTailRoundTrip(s: string)
    requires SnakeTail(s)
    ensures SnakeCase(CamelFrom(s, false, false)) == s
    decreases |s|
  {
    if s != [] {
      assert SnakeAt(s, 0);
      if s[0] == '_' {
        var c := s[1];
        var rest := s[2..];
        SnakeTailDrop(s, 2);
        CamelTailRoundTrip(rest);
        assert s[1..][1..] == rest;
        assert CamelFrom(s, false, false) == [UpperAscii(c)] + CamelFrom(rest, false, false);
        assert s == ['_', c] + rest;
      } else {
        SnakeTailDrop(s, 1);
        CamelTailRoundTrip(s[1..]);
        assert s == [s[0]] + s[1..];
      }
    }
  }

  /** The camelCase key of a snake_case name determines the name. */
  lemma CamelCaseRoundTrip(name: string)
    requires IsSnakeCase(name)
    ensures SnakeCase(CamelCase(name)) == name
  {
    SnakeTailDrop(name, 1);
    CamelTailRoundTrip(name[1..]);
    assert CamelCase(name) == [name[0]] + CamelFrom(name[1..], false, false);
    assert name == [name[0]] + name[1..];
  }

  /** Distinct snake_case names get distinct keys. */
  lemma CamelCaseInjective(a: string, b: string)
    requires IsSnakeCase(a) && IsSnakeCase(b) && a != b
    ensures CamelCase(a) != CamelCase(b)
  {
    CamelCaseRoundTrip(a);
    CamelCaseRoundTrip(b);
  }

  // ---------------------------------------------------------------------------
  // The serialised document

  /** The document values the record's fields are written as. */
  datatype Bson = BString(s: string) | BInt(i: int) | BBool(b: bool) | BNull

  /** A field's value: a plain value, or the content of an `Option`. */
  datatype FieldValue = Plain(v: Bson) | Opt(o: Option<Bson>)

  /** A document: its keys and values in the order they are written. */
  type Document = seq<(string, Bson)>

  /** A field is written unless it carries the skip attribute and holds `None`. */
  predicate Emitted(f: SerdeField, v: FieldValue) {
    !(f.skipIfNone && v == Opt(None))
  }

  /** The value a written field carries; an un-skipped `None` is written as null. */
  function Written(v: FieldValue): Bson {
    match v
    case Plain(b) => b
    case Opt(Some(b)) => b
    case Opt(None) => BNull
  }

  /** What the derived `Serialize` writes: each emitted field in turn, under its camelCase key. */
  function Serialize(fields: seq<SerdeField>, values: seq<FieldValue>): (doc: Document)
    requires |fields| == |values|
    decreases |fields|
  {
    if fields == [] then []
    else
      (if Emitted(fields[0], values[0]) then [(CamelCase(fields[0].name), Written(values[0]))] else [])
      + Serialize(fields[1..], values[1..])
  }

  /** Reading a key: the value under its first occurrence. */
  function Lookup(doc: Document, key: string): (r: Option<Bson>)
    ensures r.None? <==> forall k :: 0 <= k < |doc| ==> doc[k].0 != key
    ensures r.Some? ==> (key, r.value) in doc
    decreases |doc|
  {
    if doc == [] then None
    else if doc[0].0 == key then Some(doc[0].1)
    else
      var r := Lookup(doc[1..], key);
      assert forall k :: 1 <= k < |doc| ==> doc[k] == doc[1..][k - 1];
      r
  }

  /** No two fields share a camelCase key. */
  predicate DistinctKeys(fields: seq<SerdeField>) {
    forall i, j :: 0 <= i < j < |fields| ==> CamelCase(fields[i].name) != CamelCase(fields[j].name)
  }

  /** Distinct snake_case field names, hence (by `CamelCaseInjective`) distinct keys. */
  lemma DistinctNamesDistinctKeys(fields: seq<SerdeField>)
    requires forall i :: 0 <= i < |fields| ==> IsSnakeCase(fields[i].name)
    requires forall i, j :: 0 <= i < j < |fields| ==> fields[i].name != fields[j].name
    ensures DistinctKeys(fields)
  {
    forall i, j | 0 <= i < j < |fields|
      ensures CamelCase(fields[i].name) != CamelCase(fields[j].name)
    {
      CamelCaseInjective(fields[i].name, fields[j].name);
    }
  }

  /** Only the fields' keys occur in the document. */
  lemma {:induction false} SerializeOnlyFieldKeys(fields: seq<SerdeField>, values: seq<FieldValue>, key: string)
    requires |fields| == |values|
    requires forall i :: 0 <= i < |fields| ==> CamelCase(fields[i].name) != key
    ensures Lookup(Serialize(fields, values), key) == None
    decreases |fields|
  {
    if fields != [] {
      assert forall i :: 0 <= i < |fields| - 1 ==> fields[1..][i] == fields[i + 1];
      SerializeOnlyFieldKeys(fields[1..], values[1..], key);
    }
  }

  /**
   * Reading a field's key back gives its value when it was emitted and
   * nothing when it was skipped: a `None` behind the skip attribute leaves no
   * key at all, every other field is always present.
   */
  lemma {:induction false} LookupSerialized(fields: seq<SerdeField>, values: seq<FieldValue>, i: nat)
    requires |fields| == |values| && i < |fields|
    requires DistinctKeys(fields)
    ensures Lookup(Serialize(fields, values), CamelCase(fields[i].name)) ==
      if Emitted(fields[i], values[i]) then Some(Written(values[i])) else None
    decreases |fields|
  {
    var key := CamelCase(fields[i].name);
    var head := if Emitted(fields[0], values[0]) then [(CamelCase(fields[0].name), Written(values[0]))] else [];
    var doc := Serialize(fields, values);
    var tail := Serialize(fields[1..], values[1..]);
    assert doc == head + tail;
    assert DistinctKeys(fields[1..]) by {
      forall a, b | 0 <= a < b < |fields[1..]|
        ensures CamelCase(fields[1..][a].name) != CamelCase(fields[1..][b].name)
      {
        assert fields[1..][a] == fields[a + 1] && fields[1..][b] == fields[b + 1];
      }
    }
    if i == 0 {
      assert forall k :: 0 <= k < |fields| - 1 ==> fields[1..][k] == fields[k + 1];
      SerializeOnlyFieldKeys(fields[1..], values[1..], key);
      if !Emitted(fields[0], values[0]) {
        assert doc == tail;
      }
    } else {
      LookupSerialized(fields[1..], values[1..], i - 1);
      assert fields[1..][i - 1] == fields[i];
      assert CamelCase(fields[0].name) != key;
      if head != [] {
        assert doc[0].0 != key;
        assert doc[1..] == tail;
        assert Lookup(doc, key) == Lookup(tail, key);
      } else {
        assert doc == tail;
      }
    }
  }

  /** How many of the fields are emitted. */
  function EmittedCount(fields: seq<SerdeField>, values: seq<FieldValue>): nat
    requires |fields| == |values|
    decreases |fields|
  {
    if fields == [] then 0
    else (if Emitted(fields[0], values[0]) then 1 else 0) + EmittedCount(fields[1..], values[1..])
  }

  /**
   * An emitted field sits in the document right after the emitted fields
   * declared before it: the document lists the emitted fields in declaration
   * order, and nothing else.
   */
  lemma {:induction false} SerializeAt(fields: seq<SerdeField>, values: seq<FieldValue>, i: nat)
    requires |fields| == |values| && i < |fields| && Emitted(fields[i], values[i])
    ensures |Serialize(fields, values)| == EmittedCount(fields, values)
    ensures EmittedCount(fields[..i], values[..i]) < EmittedCount(fields, values)
    ensures Serialize(fields, values)[EmittedCount(fields[..i], values[..i])] == (CamelCase(fields[i].name), Written(values[i]))
    decreases |fields|
  {
    if i == 0 {
      SerializeLength(fields, values);
      assert fields[..0] == [] && values[..0] == [];
    } else {
      SerializeAt(fields[1..], values[1..], i - 1);
      assert fields[1..][i - 1] == fields[i] && values[1..][i - 1] == values[i];
      assert fields[..i][1..] == fields[1..][..i - 1];
      assert values[..i][1..] == values[1..][..i - 1];
      assert fields[..i][0] == fields[0] && values[..i][0] == values[0];
    }
  }

  lemma {:induction false} SerializeLength(fields: seq<SerdeField>, values: seq<FieldValue>)
    requires |fields| == |values|
    ensures |Serialize(fields, values)| == EmittedCount(fields, values)
    decreases |fields|
  {
    if fields != [] {
      SerializeLength(fields[1..], values[1..]);
    }
  }

  /** Of two emitted fields, the one declared first is written first. */
  lemma {:induction false} SerializeKeepsDeclarationOrder(fields: seq<SerdeField>, values: seq<FieldValue>, i: nat, j: nat)
    requires |fields| == |values| && i < j < |fields|
    requires Emitted(fields[i], values[i]) && Emitted(fields[j], values[j])
    ensures EmittedCount(fields[..i], values[..i]) < EmittedCount(fields[..j], values[..j])
    decreases j
  {
    var fj := fields[..j];
    var vj := values[..j];
    assert fj[i] == fields[i] && vj[i] == values[i];
    assert fj[..i] == fields[..i] && vj[..i] == values[..i];
    SerializeAt(fj, vj, i);
  }
}
