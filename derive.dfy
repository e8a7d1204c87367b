/**
 * The helpers of the `Serializable` derive macro, as functions on field
 * shapes: the names it binds each field to, the types it decodes each field
 * with, and how the generated code binds decoded fields to those names and
 * builds the struct or variant from them.
 */
module Derive {
  import opened Bytes
  import opened Types

  /** The decimal digits of n, as `format!("{}", n)` writes them. */
  function Decimal(n: nat): (r: string)
    ensures |r| > 0
    ensures forall i :: 0 <= i < |r| ==> '0' <= r[i] <= '9'
  {
    if n < 10 then [DigitChar(n)] else Decimal(n / 10) + [DigitChar(n % 10)]
  }

  function DigitChar(d: nat): (c: char)
    requires d < 10
  {
    "0123456789"[d]
  }

  /** The number a string of decimal digits spells. */
  function ParseDecimal(s: string): nat
  {
    if s == [] then 0
    else ParseDecimal(s[..|s| - 1]) * 10 + (if '0' <= s[|s| - 1] <= '9' then (s[|s| - 1] - '0') as nat else 0)
  }

  lemma {:induction false} ParseDecimalOfDecimal(n: nat)
    ensures ParseDecimal(Decimal(n)) == n
  {
    var r := Decimal(n);
    if n >= 10 {
      ParseDecimalOfDecimal(n / 10);
      assert r[..|r| - 1] == Decimal(n / 10);
    }
  }

  /** Distinct numbers print as distinct decimal strings. */
  lemma DecimalInjective(a: nat, b: nat)
    requires Decimal(a) == Decimal(b)
    ensures a == b
  {
    ParseDecimalOfDecimal(a);
    ParseDecimalOfDecimal(b);
  }

  /** The synthetic name the macro gives the i-th positional field: `f{i}`. */
  function PositionalName(i: nat): (r: Ident)
    ensures |r| >= 2 && r[0] == 'f' && forall j :: 1 <= j < |r| ==> '0' <= r[j] <= '9'
  {
    "f" + Decimal(i)
  }

  /** get_field_types: the declared type of each field, in declaration order. */
  function FieldTypes(f: Fields): (r: seq<Schema>)
    ensures forall i :: 0 <= i < |r| ==> r[i] < f
    ensures f.Named? ==> |r| == |f.named| && forall i :: 0 <= i < |r| ==> r[i] == f.named[i].ty
    ensures f.Unnamed? ==> r == f.unnamed
    ensures f.Unit? ==> r == []
  {
    match f
    case Named(fs) =>
      var r := seq(|fs|, i requires 0 <= i < |fs| => fs[i].ty);
      assert forall i :: 0 <= i < |r| ==> r[i] < f by {
        forall i | 0 <= i < |r| ensures r[i] < f {
          assert fs[i] in fs;
        }
      }
      r
    case Unnamed(ts) => ts
    case Unit => []
  }

  /**
   * get_field_names: the name each field is bound to, in declaration order.
   * It walks the same field list as get_field_types, so the i-th name and the
   * i-th type belong to the same field.
   */
  function FieldNames(f: Fields): (r: seq<Ident>)
    ensures |r| == |FieldTypes(f)|
    ensures f.Named? ==> forall i :: 0 <= i < |r| ==> r[i] == f.named[i].name
    ensures f.Unnamed? ==> forall i :: 0 <= i < |r| ==> r[i] == PositionalName(i)
  {
    match f
    case Named(fs) => seq(|fs|, i requires 0 <= i < |fs| => fs[i].name)
    case Unnamed(ts) => seq(|ts|, i requires 0 <= i < |ts| => PositionalName(i))
    case Unit => []
  }

  predicate Distinct(names: seq<Ident>) {
    forall i, j :: 0 <= i < j < |names| ==> names[i] != names[j]
  }

  /** The synthetic names f0, f1, ... of positional fields never clash. */
  lemma PositionalNamesDistinct(ts: seq<Schema>)
    ensures Distinct(FieldNames(Unnamed(ts)))
  {
    var names := FieldNames(Unnamed(ts));
    forall i, j | 0 <= i < j < |names| ensures names[i] != names[j] {
      if names[i] == names[j] {
        assert Decimal(i) == names[i][1..] == names[j][1..] == Decimal(j);
        DecimalInjective(i, j);
      }
    }
  }

  /**
   * The generated struct `deserialize` binds each field with `let` in the
   * scope of its own parameter `bytes`. A named field `bytes` that is not the
   * last field hides the input from the fields after it.
   */
  predicate InputNotShadowed(names: seq<Ident>) {
    forall j :: 0 <= j < |names| - 1 ==> names[j] != "bytes"
  }

  /** Positional fields are bound as f0, f1, ..., so they never hide the input. */
  lemma PositionalNamesKeepInput(ts: seq<Schema>)
    ensures InputNotShadowed(FieldNames(Unnamed(ts)))
  {
    var names := FieldNames(Unnamed(ts));
    forall j | 0 <= j < |names| - 1 ensures names[j] != "bytes" {
      assert names[j][0] == 'f';
    }
  }

  /**
   * The field binding a struct or variant value puts in scope: the generated
   * `serialize` reads `self.a` (named) or matches `Self::V(f0, f1)`; the
   * generated `deserialize` runs `let (a, len) = ...;` once per field.
   */
  type Env = map<Ident, Value>

  /**
   * The binding of names[i..] to vals[i..]. When a name repeats, the later
   * binding wins, as a later `let` shadows an earlier one.
   */
  function Bind(names: seq<Ident>, vals: seq<Value>, i: nat): Env
    requires |names| == |vals| && i <= |names|
    decreases |names| - i
  {
    if i == |names| then map[] else map[names[i] := vals[i]] + Bind(names, vals, i + 1)
  }

  /** With distinct names, looking up the j-th name gives the j-th value. */
  lemma {:induction false} BindLookup(names: seq<Ident>, vals: seq<Value>, i: nat, j: nat)
    requires |names| == |vals| && Distinct(names)
    requires i <= j < |names|
    ensures names[j] in Bind(names, vals, i) && Bind(names, vals, i)[names[j]] == vals[j]
    decreases |names| - i
  {
    if i < j {
      BindLookup(names, vals, i + 1, j);
    } else {
      BindOnlyLater(names, vals, i + 1, names[j]);
    }
  }

  /** Bind(names, vals, i) binds no name outside names[i..]. */
  lemma {:induction false} BindOnlyLater(names: seq<Ident>, vals: seq<Value>, i: nat, x: Ident)
    requires |names| == |vals| && i <= |names|
    requires forall m :: i <= m < |names| ==> names[m] != x
    ensures x !in Bind(names, vals, i)
    decreases |names| - i
  {
    if i < |names| {
      BindOnlyLater(names, vals, i + 1, x);
    }
  }

  /**
   * build_constructor: `Self { a, b, .. }`, `Self(f0, f1, ..)` or `Self`, and
   * the same with `Self::Variant`: the field values are read back from the
   * binding by name, in declaration order.
   */
  function Construct(names: seq<Ident>, env: Env): (r: seq<Value>)
    requires forall i :: 0 <= i < |names| ==> names[i] in env
    ensures |r| == |names|
    ensures forall i :: 0 <= i < |names| ==> r[i] == env[names[i]]
  {
    seq(|names|, i requires 0 <= i < |names| => env[names[i]])
  }

  /** Constructing from a binding of distinct names gives back the bound values. */
  lemma ConstructBind(names: seq<Ident>, vals: seq<Value>)
    requires |names| == |vals| && Distinct(names)
    ensures forall i :: 0 <= i < |names| ==> names[i] in Bind(names, vals, 0)
    ensures Construct(names, Bind(names, vals, 0)) == vals
  {
    forall j | 0 <= j < |names| ensures names[j] in Bind(names, vals, 0) && Bind(names, vals, 0)[names[j]] == vals[j] {
      BindLookup(names, vals, 0, j);
    }
  }

  /** The names Bind(names, vals, i) binds are exactly those of names[i..]. */
  lemma {:induction false} BindKeys(names: seq<Ident>, vals: seq<Value>, i: nat)
    requires |names| == |vals| && i <= |names|
    ensures forall x :: x in Bind(names, vals, i) <==> x in names[i..]
    decreases |names| - i
  {
    if i < |names| {
      BindKeys(names, vals, i + 1);
      assert names[i..] == [names[i]] + names[i + 1..];
    }
  }

  lemma SameMap(a: Env, b: Env)
    requires a.Keys == b.Keys && forall x | x in a :: a[x] == b[x]
    ensures a == b
  {
  }

  /**
   * A binding of exactly the (distinct) names is rebuilt by constructing the
   * values from it and binding them again.
   */
  lemma BindConstruct(names: seq<Ident>, env: Env)
    requires Distinct(names)
    requires forall x :: x in env <==> x in names
    ensures forall i :: 0 <= i < |names| ==> names[i] in env
    ensures Bind(names, Construct(names, env), 0) == env
  {
    assert forall i :: 0 <= i < |names| ==> names[i] in names;
    var vals := Construct(names, env);
    var b := Bind(names, vals, 0);
    assert b.Keys == env.Keys by {
      BindKeys(names, vals, 0);
      assert names[0..] == names;
    }
    forall x | x in b ensures b[x] == env[x] {
      var j :| 0 <= j < |names| && names[j] == x;
      BindLookup(names, vals, 0, j);
    }
    SameMap(b, env);
  }

  // ------------------------------------------------- the generated codecs

  /**
   * `Serializable::serialize` of the i-th field's type, as the generated
   * code calls it for field i.
   */
  type FieldEncoder = (nat, Value) -> seq<Byte>

  /** `<T as Serializable>::deserialize` of the i-th field's type T. */
  type FieldDecoder = (nat, seq<Byte>) -> Result<(Value, nat)>

  /** The decoder of field i of the k-th variant of an enum. */
  type VariantDecoder = (nat, nat, seq<Byte>) -> Result<(Value, nat)>

  /** No field decoder claims to have consumed more bytes than it was given. */
  ghost predicate FieldsConsume(dec: FieldDecoder) {
    forall i, d :: dec(i, d).Ok? ==> dec(i, d).value.1 <= |d|
  }

  ghost predicate VariantsConsume(dec: VariantDecoder) {
    forall k, i, d :: dec(k, i, d).Ok? ==> dec(k, i, d).value.1 <= |d|
  }

  /** The field decoders of the k-th variant. */
  function VariantFields(dec: VariantDecoder, k: nat): FieldDecoder {
    (i: nat, d: seq<Byte>) => dec(k, i, d)
  }

  /**
   * build_serialize_body from field i on: for each field in declaration
   * order, `bytes.extend(Serializable::serialize(&field))`, where vals[i] is
   * the value of the i-th field.
   */
  function SerializeFields(enc: FieldEncoder, vals: seq<Value>, i: nat): seq<Byte>
    requires i <= |vals|
    decreases |vals| - i
  {
    if i == |vals| then [] else enc(i, vals[i]) + SerializeFields(enc, vals, i + 1)
  }

  /**
   * build_deserialize_body from field i of count on: for each field in
   * declaration order, `let (name, len) = <T as Serializable>::deserialize(&bytes[offset..])?;
   * offset += len;`. On success: the values bound, in field order, and the
   * final offset.
   */
  function DeserializeFields(count: nat, dec: FieldDecoder, bytes: seq<Byte>, i: nat, offset: nat): (r: Result<(seq<Value>, nat)>)
    requires FieldsConsume(dec) && i <= count && offset <= |bytes|
    ensures r.Ok? ==> |r.value.0| == count - i && offset <= r.value.1 <= |bytes|
    decreases count - i
  {
    if i == count then Ok(([], offset))
    else
      match dec(i, bytes[offset..])
      case Err(err) => Err(err)
      case Ok((v, len)) =>
        match DeserializeFields(count, dec, bytes, i + 1, offset + len)
        case Err(err) => Err(err)
        case Ok((vals, end)) => Ok(([v] + vals, end))
  }

  /** The generated struct `serialize`: the field encodings, nothing else. */
  function EncodeStruct(enc: FieldEncoder, vals: seq<Value>): seq<Byte>
  {
    SerializeFields(enc, vals, 0)
  }

  /**
   * The generated `deserialize` of a struct with count fields: the fields
   * from offset 0, then `Self { a, b, .. }` (or `Self(f0, f1, ..)`, or `Self`).
   */
  function DecodeStruct(count: nat, dec: FieldDecoder, bytes: seq<Byte>): (r: Result<(Value, nat)>)
    requires FieldsConsume(dec)
    ensures r.Ok? ==> r.value.1 <= |bytes|
  {
    match DeserializeFields(count, dec, bytes, 0, 0)
    case Err(err) => Err(err)
    case Ok((vals, offset)) => Ok((RecordV(vals), offset))
  }

  /**
   * The generated enum `serialize` for the variant at position index:
   * `bytes.push(index)`, then the variant's fields.
   */
  function EncodeVariant(index: nat, enc: FieldEncoder, vals: seq<Value>): (r: seq<Byte>)
    requires index < 256
    ensures |r| >= 1 && r[0] == index && r[1..] == EncodeStruct(enc, vals)
  {
    [index] + SerializeFields(enc, vals, 0)
  }

  /**
   * The generated enum `deserialize`, where arity[k] is the number of fields
   * of the k-th variant: empty input is "Invalid data size"; the first byte
   * selects the variant ("Invalid variant index" when none is at that
   * position), whose fields are read from offset 1.
   */
  function DecodeEnum(arity: seq<nat>, dec: VariantDecoder, bytes: seq<Byte>): (r: Result<(Value, nat)>)
    requires VariantsConsume(dec)
    ensures r.Ok? ==> r.value.1 <= |bytes|
  {
    if |bytes| == 0 then Err(InvalidDataSize)
    else
      var index := bytes[0];
      if index >= |arity| then Err(InvalidVariantIndex)
      else
        match DeserializeFields(arity[index], VariantFields(dec, index), bytes, 0, 1)
        case Err(err) => Err(err)
        case Ok((vals, offset)) => Ok((VariantV(index, vals), offset))
  }

  // ------------------------------------------------------------------ layout

  /** Field encoders that agree on every field give the same serialization. */
  lemma {:induction false} SerializeFieldsAgree(e1: FieldEncoder, e2: FieldEncoder, vals: seq<Value>, i: nat)
    requires i <= |vals| && forall j :: i <= j < |vals| ==> e1(j, vals[j]) == e2(j, vals[j])
    ensures SerializeFields(e1, vals, i) == SerializeFields(e2, vals, i)
    decreases |vals| - i
  {
    if i < |vals| {
      SerializeFieldsAgree(e1, e2, vals, i + 1);
    }
  }

  /** Field decoders that agree on the fields read give the same deserialization. */
  lemma {:induction false} DeserializeFieldsAgree(count: nat, d1: FieldDecoder, d2: FieldDecoder, bytes: seq<Byte>, i: nat, offset: nat)
    requires FieldsConsume(d1) && FieldsConsume(d2) && i <= count && offset <= |bytes|
    requires forall j, d :: i <= j < count ==> d1(j, d) == d2(j, d)
    ensures DeserializeFields(count, d1, bytes, i, offset) == DeserializeFields(count, d2, bytes, i, offset)
    decreases count - i
  {
    if i < count && d1(i, bytes[offset..]).Ok? {
      var len := d1(i, bytes[offset..]).value.1;
      DeserializeFieldsAgree(count, d1, d2, bytes, i + 1, offset + len);
    }
  }

  /**
   * Reading the fields after one extra leading byte reads the same values
   * and ends one byte later.
   */
  lemma {:induction false} DeserializeFieldsShift(count: nat, dec: FieldDecoder, b: Byte, bytes: seq<Byte>, i: nat, offset: nat)
    requires FieldsConsume(dec) && i <= count && offset <= |bytes|
    ensures DeserializeFields(count, dec, [b] + bytes, i, offset + 1)
         == match DeserializeFields(count, dec, bytes, i, offset)
            case Ok((vals, end)) => Ok((vals, (end + 1) as nat))
            case Err(err) => Err(err)
    decreases count - i
  {
    assert ([b] + bytes)[offset + 1..] == bytes[offset..];
    if i < count && dec(i, bytes[offset..]).Ok? {
      var len := dec(i, bytes[offset..]).value.1;
      DeserializeFieldsShift(count, dec, b, bytes, i + 1, offset + len);
    }
  }

  /**
   * The derived enum layout: the variant's position byte, then exactly what
   * a struct with the variant's fields would be; decoding likewise reads the
   * byte and then the variant's fields as a struct.
   */
  lemma VariantIsTaggedStruct(arity: seq<nat>, dec: VariantDecoder, k: nat, bytes: seq<Byte>)
    requires VariantsConsume(dec) && k < |arity| && k < 256
    ensures FieldsConsume(VariantFields(dec, k))
    ensures DecodeEnum(arity, dec, [k] + bytes)
         == match DecodeStruct(arity[k], VariantFields(dec, k), bytes)
            case Ok((v, n)) => Ok((VariantV(k, v.fields), (n + 1) as nat))
            case Err(err) => Err(err)
  {
    DeserializeFieldsShift(arity[k], VariantFields(dec, k), k, bytes, 0, 0);
  }

  // ------------------------------------------------------------- round trip

  /**
   * Each field's `deserialize` reads back the field's value from its
   * `serialize` followed by anything, consuming exactly that serialization.
   */
  ghost predicate FieldsRoundTrip(enc: FieldEncoder, dec: FieldDecoder, vals: seq<Value>) {
    forall i, rest :: 0 <= i < |vals| ==> dec(i, enc(i, vals[i]) + rest) == Ok((vals[i], |enc(i, vals[i])| as nat))
  }

  /**
   * The generated field decodes from field i on, run over the generated
   * field encodings followed by anything, give back the field values and
   * stop right after the last field.
   */
  lemma {:induction false} DeserializeSerializedFields(enc: FieldEncoder, dec: FieldDecoder, vals: seq<Value>, i: nat,
                                                       data: seq<Byte>, offset: nat, rest: seq<Byte>)
    requires FieldsConsume(dec) && FieldsRoundTrip(enc, dec, vals) && i <= |vals|
    requires offset <= |data| && data[offset..] == SerializeFields(enc, vals, i) + rest
    ensures DeserializeFields(|vals|, dec, data, i, offset) == Ok((vals[i..], offset + |SerializeFields(enc, vals, i)|))
    decreases |vals| - i
  {
    if i < |vals| {
      var h := enc(i, vals[i]);
      var tail := SerializeFields(enc, vals, i + 1);
      assert data[offset..] == h + (tail + rest);
      var n: nat := |h|;
      assert dec(i, h + (tail + rest)) == Ok((vals[i], n));
      SkipPrefix(data, offset, h, tail + rest);
      DeserializeSerializedFields(enc, dec, vals, i + 1, data, offset + n, rest);
      assert [vals[i]] + vals[i + 1..] == vals[i..];
    } else {
      assert vals[i..] == [];
    }
  }

  /** Round trip of a generated struct codec; a unit struct encodes to nothing and consumes nothing. */
  lemma StructRoundTrip(enc: FieldEncoder, dec: FieldDecoder, vals: seq<Value>, rest: seq<Byte>)
    requires FieldsConsume(dec) && FieldsRoundTrip(enc, dec, vals)
    ensures DecodeStruct(|vals|, dec, EncodeStruct(enc, vals) + rest) == Ok((RecordV(vals), |EncodeStruct(enc, vals)|))
  {
    var data := SerializeFields(enc, vals, 0) + rest;
    assert data[0..] == data;
    DeserializeSerializedFields(enc, dec, vals, 0, data, 0, rest);
    assert vals[0..] == vals;
  }

  /**
   * Round trip of a generated enum codec: the k-th variant is written with
   * index byte k and read back as the k-th variant with the same fields.
   */
  lemma EnumRoundTrip(arity: seq<nat>, enc: FieldEncoder, dec: VariantDecoder, k: nat, vals: seq<Value>, rest: seq<Byte>)
    requires k < |arity| <= 256 && |vals| == arity[k]
    requires VariantsConsume(dec) && FieldsRoundTrip(enc, VariantFields(dec, k), vals)
    ensures DecodeEnum(arity, dec, EncodeVariant(k, enc, vals) + rest)
         == Ok((VariantV(k, vals), |EncodeVariant(k, enc, vals)|))
  {
    var data := [k] + SerializeFields(enc, vals, 0) + rest;
    assert data[1..] == SerializeFields(enc, vals, 0) + rest;
    DeserializeSerializedFields(enc, VariantFields(dec, k), vals, 0, data, 1, rest);
    assert vals[0..] == vals;
  }

  // --------------------------------------------------------------- canonical

  /**
   * What each field's `deserialize` accepts is a value ok accepts for that
   * field, read from exactly its own serialization.
   */
  ghost predicate FieldsCanonical(enc: FieldEncoder, dec: FieldDecoder, ok: (nat, Value) -> bool) {
    forall i, d :: dec(i, d).Ok? ==>
      dec(i, d).value.1 <= |d| && ok(i, dec(i, d).value.0) && enc(i, dec(i, d).value.0) == d[..dec(i, d).value.1]
  }

  /**
   * What the field decodes from field i on accept are values ok accepts, and
   * re-serializing them after any values pre of the fields before i gives
   * exactly the bytes read.
   */
  lemma {:induction false} DeserializedFieldsCanonical(count: nat, enc: FieldEncoder, dec: FieldDecoder, ok: (nat, Value) -> bool,
                                                       i: nat, pre: seq<Value>, data: seq<Byte>, offset: nat)
    requires FieldsConsume(dec) && FieldsCanonical(enc, dec, ok)
    requires i <= count && |pre| == i && offset <= |data|
    ensures DeserializeFields(count, dec, data, i, offset).Ok? ==>
      var (vals, end) := DeserializeFields(count, dec, data, i, offset).value;
      (forall j :: i <= j < count ==> ok(j, (pre + vals)[j])) &&
      SerializeFields(enc, pre + vals, i) == data[offset..end]
    decreases count - i
  {
    var r := DeserializeFields(count, dec, data, i, offset);
    if i < count && r.Ok? {
      var d := data[offset..];
      var (x, n) := dec(i, d).value;
      assert enc(i, x) == data[offset..offset + n];
      DeserializedFieldsCanonical(count, enc, dec, ok, i + 1, pre + [x], data, offset + n);
      var (vals, end) := r.value;
      var more := DeserializeFields(count, dec, data, i + 1, offset + n).value.0;
      var all := pre + vals;
      assert vals == [x] + more;
      assert all == (pre + [x]) + more;
      assert all[i] == x;
      assert SerializeFields(enc, all, i) == enc(i, x) + SerializeFields(enc, all, i + 1);
      assert data[offset..end] == data[offset..offset + n] + data[offset + n..end];
    }
  }

  /** A decoded struct has count fields that ok accepts, and re-encodes to the bytes consumed. */
  lemma StructCanonical(count: nat, enc: FieldEncoder, dec: FieldDecoder, ok: (nat, Value) -> bool, data: seq<Byte>)
    requires FieldsConsume(dec) && FieldsCanonical(enc, dec, ok)
    ensures DecodeStruct(count, dec, data).Ok? ==>
      var (v, n) := DecodeStruct(count, dec, data).value;
      v.RecordV? && |v.fields| == count && (forall i :: 0 <= i < count ==> ok(i, v.fields[i])) &&
      EncodeStruct(enc, v.fields) == data[..n]
  {
    DeserializedFieldsCanonical(count, enc, dec, ok, 0, [], data, 0);
    assert data[0..] == data;
    if DecodeStruct(count, dec, data).Ok? {
      var vals := DeserializeFields(count, dec, data, 0, 0).value.0;
      assert [] + vals == vals;
    }
  }

  /** The field encoders of the k-th variant, from those indexed by variant and field. */
  function VariantFieldEncoders(enc: (nat, nat, Value) -> seq<Byte>, k: nat): FieldEncoder {
    (i: nat, v: Value) => enc(k, i, v)
  }

  function VariantFieldChecks(ok: (nat, nat, Value) -> bool, k: nat): (nat, Value) -> bool {
    (i: nat, v: Value) => ok(k, i, v)
  }

  /**
   * A decoded enum value is the variant the first byte selects, holding as
   * many fields as that variant declares, each accepted by ok; re-encoding
   * it gives exactly the bytes consumed.
   */
  lemma EnumCanonical(arity: seq<nat>, enc: (nat, nat, Value) -> seq<Byte>, dec: VariantDecoder,
                      ok: (nat, nat, Value) -> bool, data: seq<Byte>)
    requires VariantsConsume(dec)
    requires forall k :: 0 <= k < |arity| ==>
      FieldsCanonical(VariantFieldEncoders(enc, k), VariantFields(dec, k), VariantFieldChecks(ok, k))
    ensures DecodeEnum(arity, dec, data).Ok? ==>
      var (v, n) := DecodeEnum(arity, dec, data).value;
      v.VariantV? && v.index == data[0] && v.index < |arity| && |v.fields| == arity[v.index] &&
      (forall i :: 0 <= i < |v.fields| ==> ok(v.index, i, v.fields[i])) &&
      EncodeVariant(v.index, VariantFieldEncoders(enc, v.index), v.fields) == data[..n]
  {
    if DecodeEnum(arity, dec, data).Ok? {
      var k := data[0];
      var fdec := VariantFields(dec, k);
      DeserializedFieldsCanonical(arity[k], VariantFieldEncoders(enc, k), fdec, VariantFieldChecks(ok, k), 0, [], data, 1);
      var (vals, end) := DeserializeFields(arity[k], fdec, data, 0, 1).value;
      assert [] + vals == vals;
      assert data[..end] == [data[0]] + data[1..end];
    }
  }

  /**
   * Enum decoding: empty input is "Invalid data size", a first byte at or
   * past the number of variants "Invalid variant index"; otherwise the
   * variant's first field error comes through, and a success consumes at
   * least the index byte.
   */
  lemma DecodeEnumOutcome(arity: seq<nat>, dec: VariantDecoder, bytes: seq<Byte>)
    requires VariantsConsume(dec)
    ensures |bytes| == 0 ==> DecodeEnum(arity, dec, bytes) == Err(InvalidDataSize)
    ensures |bytes| > 0 && bytes[0] >= |arity| ==> DecodeEnum(arity, dec, bytes) == Err(InvalidVariantIndex)
    ensures |bytes| > 0 && bytes[0] < |arity| && arity[bytes[0]] > 0 && dec(bytes[0], 0, bytes[1..]).Err? ==>
      DecodeEnum(arity, dec, bytes) == Err(dec(bytes[0], 0, bytes[1..]).error)
    ensures DecodeEnum(arity, dec, bytes).Ok? ==>
      DecodeEnum(arity, dec, bytes).value.0 == VariantV(bytes[0], DecodeEnum(arity, dec, bytes).value.0.fields) &&
      1 <= DecodeEnum(arity, dec, bytes).value.1
  {
  }

  // ------------------------------------------------ reading only what is needed

  /** Every field decoder is prefix-stable. */
  ghost predicate FieldsPrefixStable(dec: FieldDecoder) {
    forall i, d, q :: Settled(dec(i, d)) ==> dec(i, d + q) == dec(i, d)
  }

  ghost predicate VariantsPrefixStable(dec: VariantDecoder) {
    forall k, i, d, q :: Settled(dec(k, i, d)) ==> dec(k, i, d + q) == dec(k, i, d)
  }

  /** The generated field reads are prefix-stable when each field decoder is. */
  lemma {:induction false} FieldsExtend(count: nat, dec: FieldDecoder, bytes: seq<Byte>, i: nat, offset: nat, q: seq<Byte>)
    requires FieldsConsume(dec) && FieldsPrefixStable(dec) && i <= count && offset <= |bytes|
    requires Settled(DeserializeFields(count, dec, bytes, i, offset))
    ensures DeserializeFields(count, dec, bytes + q, i, offset) == DeserializeFields(count, dec, bytes, i, offset)
    decreases count - i
  {
    if i < count {
      assert (bytes + q)[offset..] == bytes[offset..] + q;
      var first := dec(i, bytes[offset..]);
      assert Settled(first);
      assert dec(i, bytes[offset..] + q) == first;
      if first.Ok? {
        FieldsExtend(count, dec, bytes, i + 1, offset + first.value.1, q);
      }
    }
  }

  lemma StructExtends(count: nat, dec: FieldDecoder, bytes: seq<Byte>, q: seq<Byte>)
    requires FieldsConsume(dec) && FieldsPrefixStable(dec) && Settled(DecodeStruct(count, dec, bytes))
    ensures DecodeStruct(count, dec, bytes + q) == DecodeStruct(count, dec, bytes)
  {
    FieldsExtend(count, dec, bytes, 0, 0, q);
  }

  lemma EnumExtends(arity: seq<nat>, dec: VariantDecoder, bytes: seq<Byte>, q: seq<Byte>)
    requires VariantsConsume(dec) && VariantsPrefixStable(dec) && Settled(DecodeEnum(arity, dec, bytes))
    ensures DecodeEnum(arity, dec, bytes + q) == DecodeEnum(arity, dec, bytes)
  {
    var index := bytes[0];
    if index < |arity| {
      var fields := VariantFields(dec, index);
      assert FieldsPrefixStable(fields) by {
        forall i, d, q' | Settled(fields(i, d)) ensures fields(i, d + q') == fields(i, d) {
          assert fields(i, d) == dec(index, i, d) && fields(i, d + q') == dec(index, i, d + q');
        }
      }
      FieldsExtend(arity[index], fields, bytes, 0, 1, q);
    }
  }
}
