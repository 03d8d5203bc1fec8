/**
 JSON values and the struct codec that `#[derive(Serialize, Deserialize)]` generates, as a table:
 one row per field with its key, which values it accepts, and its default if it has one.
 Errors are not distinguished: a value decodes or it does not.
 */
module Json {
  import opened Wrappers

  datatype Json =
    | JNull
    | JBool(b: bool)
    | JNum(n: int)
    | JStr(s: string)
    | JArr(items: seq<Json>)
    | JObj(fields: seq<Field>)

  /** Objects keep their fields as written: in order, and possibly with repeated keys. */
  datatype Field = Field(key: string, value: Json)

  datatype Slot = Absent | One(value: Json) | Repeated

  function Get(fs: seq<Field>, key: string): Slot {
    if fs == [] then Absent
    else if fs[0].key != key then Get(fs[1..], key)
    else if Get(fs[1..], key).Absent? then One(fs[0].value)
    else Repeated
  }

  /** The field at `i` holds `v`, and no other field has its key. */
  predicate OnlyField(fs: seq<Field>, key: string, v: Json, i: int) {
    0 <= i < |fs| && fs[i] == Field(key, v) && forall j | 0 <= j < |fs| && j != i :: fs[j].key != key
  }

  /** What is found under a key: nothing, or the value of its only field. */
  lemma {:induction false} GetMeaning(fs: seq<Field>, key: string, v: Json)
    ensures Get(fs, key).Absent? <==> forall i | 0 <= i < |fs| :: fs[i].key != key
    ensures Get(fs, key) == One(v) <==> exists i :: OnlyField(fs, key, v, i)
  {
    if fs != [] {
      var rest := fs[1..];
      GetMeaning(rest, key, v);
      assert forall i | 0 < i < |fs| :: fs[i] == rest[i - 1];
      assert forall i | 0 <= i < |rest| :: rest[i] == fs[i + 1];
      if fs[0].key == key {
        OnlyFirst(fs, key, v);
      } else {
        OnlyLater(fs, key, v);
      }
    }
  }

  lemma OnlyFirst(fs: seq<Field>, key: string, v: Json)
    requires fs != [] && fs[0].key == key
    ensures (exists i :: OnlyField(fs, key, v, i))
       <==> fs[0].value == v && forall j | 0 <= j < |fs[1..]| :: fs[1..][j].key != key
  {
    assert forall j | 0 <= j < |fs| - 1 :: fs[1..][j] == fs[j + 1];
    if fs[0].value == v && forall j | 0 <= j < |fs[1..]| :: fs[1..][j].key != key {
      forall j | 0 < j < |fs| ensures fs[j].key != key {
        assert fs[j] == fs[1..][j - 1];
      }
      assert OnlyField(fs, key, v, 0);
    }
  }

  lemma OnlyLater(fs: seq<Field>, key: string, v: Json)
    requires fs != [] && fs[0].key != key
    ensures (exists i :: OnlyField(fs, key, v, i)) <==> exists i :: OnlyField(fs[1..], key, v, i)
  {
    var rest := fs[1..];
    assert forall j | 0 <= j < |rest| :: rest[j] == fs[j + 1];
    if exists i :: OnlyField(fs, key, v, i) {
      var i :| OnlyField(fs, key, v, i);
      assert OnlyField(rest, key, v, i - 1);
    }
    if exists i :: OnlyField(rest, key, v, i) {
      var i :| OnlyField(rest, key, v, i);
      forall j | 0 < j < |fs| && j != i + 1 ensures fs[j].key != key {
        assert fs[j] == rest[j - 1];
      }
      assert OnlyField(fs, key, v, i + 1);
    }
  }

  /** What a field's value must look like. */
  datatype Type = TBool | TString | TUsize | TStrings | TStringMap | TNested(accepts: Json -> bool)

  predicate Accepts(ty: Type, j: Json) {
    match ty
    case TBool => j.JBool?
    case TString => j.JStr?
    case TUsize => IsUsize(j)
    case TStrings => IsStrings(j)
    case TStringMap => IsStringMap(j)
    case TNested(accepts) => accepts(j)
  }

  /** A struct field; without a default, a missing key is an error. */
  datatype Spec = Spec(key: string, ty: Type, default: Option<Json>)

  /** A repeated key is an error (`duplicate field`), as is a value of the wrong type. */
  function DecodeField(f: Spec, fs: seq<Field>): Option<Json> {
    match Get(fs, f.key)
    case Absent => f.default
    case One(v) => if Accepts(f.ty, v) then Some(v) else None
    case Repeated => None
  }

  function DecodeFields(spec: seq<Spec>, fs: seq<Field>): (r: Option<seq<Json>>)
    ensures r.Some? ==> |r.value| == |spec|
  {
    if spec == [] then Some([])
    else
      match (DecodeField(spec[0], fs), DecodeFields(spec[1..], fs))
      case (Some(v), Some(vs)) => Some([v] + vs)
      case _ => None
  }

  function EncodeFields(spec: seq<Spec>, vs: seq<Json>): seq<Field>
    requires |vs| == |spec|
  {
    if spec == [] then [] else [Field(spec[0].key, vs[0])] + EncodeFields(spec[1..], vs[1..])
  }

  predicate DistinctKeys(spec: seq<Spec>) {
    forall i, j | 0 <= i < j < |spec| :: spec[i].key != spec[j].key
  }

  predicate Accepted(spec: seq<Spec>, vs: seq<Json>) {
    |vs| == |spec| && forall i | 0 <= i < |spec| :: Accepts(spec[i].ty, vs[i])
  }

  /** Decoding succeeds iff every field does, and then yields the fields one by one. */
  lemma {:induction false} DecodeFieldsPointwise(spec: seq<Spec>, fs: seq<Field>)
    ensures DecodeFields(spec, fs).Some? <==> forall i | 0 <= i < |spec| :: DecodeField(spec[i], fs).Some?
    ensures DecodeFields(spec, fs).Some? ==>
              && |DecodeFields(spec, fs).value| == |spec|
              && forall i | 0 <= i < |spec| :: DecodeFields(spec, fs).value[i] == DecodeField(spec[i], fs).value
  {
    if spec != [] {
      DecodeFieldsPointwise(spec[1..], fs);
      assert forall i | 0 < i < |spec| :: spec[i] == spec[1..][i - 1];
      if forall i | 0 <= i < |spec| :: DecodeField(spec[i], fs).Some? {
        forall i | 0 <= i < |spec| - 1 ensures DecodeField(spec[1..][i], fs).Some? {
          assert spec[1..][i] == spec[i + 1];
        }
      }
    }
  }

  lemma {:induction false} GetMissing(spec: seq<Spec>, vs: seq<Json>, key: string)
    requires |vs| == |spec| && forall i | 0 <= i < |spec| :: spec[i].key != key
    ensures Get(EncodeFields(spec, vs), key) == Absent
  {
    if spec != [] {
      assert forall i | 0 <= i < |spec| - 1 :: spec[1..][i] == spec[i + 1];
      assert EncodeFields(spec, vs)[1..] == EncodeFields(spec[1..], vs[1..]);
      GetMissing(spec[1..], vs[1..], key);
    }
  }

  lemma {:induction false} GetEncoded(spec: seq<Spec>, vs: seq<Json>, i: nat)
    requires |vs| == |spec| && DistinctKeys(spec) && i < |spec|
    ensures Get(EncodeFields(spec, vs), spec[i].key) == One(vs[i])
  {
    assert forall j | 0 <= j < |spec| - 1 :: spec[1..][j] == spec[j + 1];
    assert EncodeFields(spec, vs)[1..] == EncodeFields(spec[1..], vs[1..]);
    assert EncodeFields(spec, vs)[0] == Field(spec[0].key, vs[0]);
    if i == 0 {
      GetMissing(spec[1..], vs[1..], spec[0].key);
    } else {
      assert spec[0].key != spec[i].key;
      GetEncoded(spec[1..], vs[1..], i - 1);
      assert vs[1..][i - 1] == vs[i];
    }
  }

  /** Round trip for any struct with distinct keys. */
  lemma FieldsRoundTrip(spec: seq<Spec>, vs: seq<Json>)
    requires DistinctKeys(spec) && Accepted(spec, vs)
    ensures DecodeFields(spec, EncodeFields(spec, vs)) == Some(vs)
  {
    var fs := EncodeFields(spec, vs);
    forall i | 0 <= i < |spec| ensures DecodeField(spec[i], fs) == Some(vs[i]) {
      GetEncoded(spec, vs, i);
    }
    DecodeFieldsPointwise(spec, fs);
    assert DecodeFields(spec, fs).value == vs;
  }

  /** Decoding depends only on what is found under the keys of the table. */
  lemma {:induction false} DecodeSameSlots(spec: seq<Spec>, fs: seq<Field>, gs: seq<Field>)
    requires forall i | 0 <= i < |spec| :: DecodeField(spec[i], fs) == DecodeField(spec[i], gs)
    ensures DecodeFields(spec, fs) == DecodeFields(spec, gs)
  {
    if spec != [] {
      assert forall i | 0 <= i < |spec| - 1 :: spec[1..][i] == spec[i + 1];
      DecodeSameSlots(spec[1..], fs, gs);
    }
  }

  /** The fields of `fs` under the keys of the table: those of `vs` for the rows in `present`, none for the others. */
  predicate SomeOf(spec: seq<Spec>, fs: seq<Field>, vs: seq<Json>, present: set<int>)
    requires |vs| == |spec|
  {
    forall i | 0 <= i < |spec| :: Get(fs, spec[i].key) == if i in present then One(vs[i]) else Absent
  }

  /** For every subset of present keys, in any order, among any other fields: defaults overridden by what is present. */
  lemma DefaultsOverridden(spec: seq<Spec>, fs: seq<Field>, vs: seq<Json>, defaults: seq<Json>, present: set<int>)
    requires |defaults| == |spec| && forall i | 0 <= i < |spec| :: spec[i].default == Some(defaults[i])
    requires Accepted(spec, vs) && SomeOf(spec, fs, vs, present)
    ensures DecodeFields(spec, fs).Some? && |DecodeFields(spec, fs).value| == |spec|
    ensures forall i | 0 <= i < |spec| ::
              DecodeFields(spec, fs).value[i] == if i in present then vs[i] else defaults[i]
  {
    forall i | 0 <= i < |spec| ensures DecodeField(spec[i], fs) == Some(if i in present then vs[i] else defaults[i]) {
    }
    DecodeFieldsPointwise(spec, fs);
  }

  lemma {:induction false} GetInserted(a: seq<Field>, f: Field, b: seq<Field>, key: string)
    requires f.key != key
    ensures Get(a + [f] + b, key) == Get(a + b, key)
  {
    if a == [] {
      assert (a + [f] + b)[1..] == b && a + b == b;
    } else {
      assert (a + [f] + b)[1..] == a[1..] + [f] + b;
      assert (a + b)[1..] == a[1..] + b;
      GetInserted(a[1..], f, b, key);
    }
  }

  /** Two objects that differ in one row decode alike in the others. */
  lemma OneRowDiffers(spec: seq<Spec>, fs: seq<Field>, gs: seq<Field>, r: nat)
    requires r < |spec| && DecodeField(spec[r], fs).Some?
    requires forall i | 0 <= i < |spec| && i != r :: DecodeField(spec[i], gs) == DecodeField(spec[i], fs)
    ensures DecodeFields(spec, gs).Some? <==> DecodeFields(spec, fs).Some? && DecodeField(spec[r], gs).Some?
    ensures DecodeFields(spec, gs).Some? ==>
              var a, b := DecodeFields(spec, fs).value, DecodeFields(spec, gs).value;
              && a[r] == DecodeField(spec[r], fs).value && b[r] == DecodeField(spec[r], gs).value
              && forall i | 0 <= i < |spec| && i != r :: b[i] == a[i]
  {
    DecodeFieldsPointwise(spec, fs);
    DecodeFieldsPointwise(spec, gs);
  }

  /** A field inserted where its key was missing is the one found under it. */
  lemma {:induction false} GetInsertedKey(a: seq<Field>, f: Field, b: seq<Field>)
    requires Get(a + b, f.key).Absent?
    ensures Get(a + [f] + b, f.key) == One(f.value)
  {
    if a == [] {
      assert (a + [f] + b)[1..] == b && a + b == b;
    } else {
      assert (a + [f] + b)[1..] == a[1..] + [f] + b;
      assert (a + b)[1..] == a[1..] + b;
      GetInsertedKey(a[1..], f, b);
    }
  }

  /** Unknown keys, whatever they hold and wherever they stand, never matter. */
  lemma UnknownKeyIgnored(spec: seq<Spec>, a: seq<Field>, f: Field, b: seq<Field>)
    requires forall i | 0 <= i < |spec| :: spec[i].key != f.key
    ensures DecodeFields(spec, a + [f] + b) == DecodeFields(spec, a + b)
  {
    forall i | 0 <= i < |spec| ensures DecodeField(spec[i], a + [f] + b) == DecodeField(spec[i], a + b) {
      GetInserted(a, f, b, spec[i].key);
    }
    DecodeSameSlots(spec, a + [f] + b, a + b);
  }

  // ---------------------------------------------------------------- value types

  /** `usize` on a 64-bit target. */
  predicate IsUsize(j: Json) { j.JNum? && 0 <= j.n < 0x1_0000_0000_0000_0000 }

  predicate IsStrings(j: Json) { j.JArr? && forall i | 0 <= i < |j.items| :: j.items[i].JStr? }

  function Strings(ss: seq<string>): (j: Json)
    ensures IsStrings(j) && |j.items| == |ss|
  {
    JArr(seq(|ss|, i requires 0 <= i < |ss| => JStr(ss[i])))
  }

  function StringsOf(j: Json): seq<string>
    requires IsStrings(j)
  {
    seq(|j.items|, i requires 0 <= i < |j.items| => j.items[i].s)
  }

  lemma StringsBack(ss: seq<string>)
    ensures StringsOf(Strings(ss)) == ss
  {
  }

  // ---------------------------------------------------------------- string maps

  predicate IsStringMap(j: Json) { j.JObj? && forall i | 0 <= i < |j.fields| :: j.fields[i].value.JStr? }

  /** `HashMap<String, String>`: a repeated key is no error, the last value stays. */
  function StringMapOf(fs: seq<Field>): map<string, string>
    requires IsStringMap(JObj(fs))
  {
    if fs == [] then map[]
    else
      var last := fs[|fs| - 1];
      assert IsStringMap(JObj(fs[..|fs| - 1]));
      StringMapOf(fs[..|fs| - 1])[last.key := last.value.s]
  }

  /** The map holds, for every key, the value of its last field. */
  lemma {:induction false} StringMapMeaning(fs: seq<Field>, k: string, i: nat)
    requires IsStringMap(JObj(fs)) && i < |fs|
    ensures k in StringMapOf(fs) <==> exists j :: 0 <= j < |fs| && fs[j].key == k
    ensures (forall j | i < j < |fs| :: fs[j].key != fs[i].key) ==>
              fs[i].key in StringMapOf(fs) && fs[i].value == JStr(StringMapOf(fs)[fs[i].key])
  {
    var init, last := fs[..|fs| - 1], fs[|fs| - 1];
    assert forall j | 0 <= j < |init| :: init[j] == fs[j];
    assert last.value.JStr?;
    if init == [] {
    } else if i < |init| {
      StringMapMeaning(init, k, i);
      assert fs[|fs| - 1] == last;
    } else {
      StringMapMeaning(init, k, 0);
    }
    assert (exists j :: 0 <= j < |fs| && fs[j].key == k)
      <==> last.key == k || exists j :: 0 <= j < |init| && init[j].key == k;
  }

  /** The map's entries in the (arbitrary) order of iteration. */
  function MapFields(order: seq<string>, m: map<string, string>): seq<Field>
    requires forall k | k in order :: k in m
  {
    seq(|order|, i requires 0 <= i < |order| => Field(order[i], JStr(m[order[i]])))
  }

  predicate Enumerates(order: seq<string>, m: map<string, string>) {
    (set k | k in order) == m.Keys
  }

  lemma {:induction false} StringMapOfFields(order: seq<string>, m: map<string, string>)
    requires forall k | k in order :: k in m
    ensures IsStringMap(JObj(MapFields(order, m)))
    ensures StringMapOf(MapFields(order, m)) == map k | k in order :: m[k]
  {
    if order != [] {
      var init := order[..|order| - 1];
      StringMapOfFields(init, m);
      assert MapFields(order, m)[..|order| - 1] == MapFields(init, m);
      assert order == init + [order[|order| - 1]];
    }
  }

  lemma StringMapBack(order: seq<string>, m: map<string, string>)
    requires Enumerates(order, m)
    ensures forall k | k in order :: k in m
    ensures IsStringMap(JObj(MapFields(order, m))) && StringMapOf(MapFields(order, m)) == m
  {
    forall k | k in order ensures k in m {
      assert k in set k' | k' in order;
    }
    StringMapOfFields(order, m);
    forall k | k in m ensures k in order {
      assert k in set k' | k' in order;
    }
  }
}
