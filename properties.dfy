/**
 * The laws the codec promises for every type, derived or hand-written:
 * decoding an encoding followed by anything gives the value back with the
 * encoding's length; whatever decodes is the encoding of a value of the
 * type and consumes exactly that encoding; a truncated encoding never
 * decodes. Also the layout of derived structs and enums.
 */
module Properties {
  import opened Bytes
  import opened Types
  import opened Primitives
  import opened Containers
  import opened Derive
  import opened Codec

  // ------------------------------------------------------------ consumption

  lemma DecoderConsumes(s: Schema)
    ensures Consumes(DecoderOf(s))
  {
  }

  lemma FieldDecoderConsumes(f: Fields)
    ensures FieldsConsume(FieldDecoderOf(f))
  {
  }

  lemma VariantDecoderConsumes(vs: seq<VariantDecl>)
    ensures VariantsConsume(VariantDecoderOf(vs))
  {
  }

  // -------------------------------------------------------------- round trip

  /**
   * The round-trip law: deserialize(serialize(v) ++ rest) == Ok((v, len(serialize(v)))).
   * Trailing bytes are ignored.
   */
  lemma {:induction false} RoundTrip(s: Schema, v: Value, rest: seq<Byte>)
    requires WellFormed(s) && Conforms(s, v)
    ensures Decode(s, Encode(s, v) + rest) == Ok((v, |Encode(s, v)|))
    decreases s, 1
  {
    match s
    case IntT(k) => IntRoundTrip(k, v.x, rest);
    case BoolT => BoolRoundTrip(v.b, rest);
    case SocketAddrT => SocketAddrRoundTrip(v.addr, rest);
    case StringT => StringRoundTrip(v.utf8, rest);
    case VecT(e) => VecValueRoundTrip(e, v.elems, rest);
    case ArrayT(n, e) => ArrayValueRoundTrip(n, e, v.elems, rest);
    case OptionT(e) => OptionValueRoundTrip(e, v, rest);
    case StructT(f) => StructValueRoundTrip(f, v.fields, rest);
    case EnumT(vs) => VariantRoundTrip(vs, v.index, v.fields, rest);
  }

  lemma {:induction false} VecValueRoundTrip(e: Schema, xs: seq<Value>, rest: seq<Byte>)
    requires WellFormed(VecT(e)) && Conforms(VecT(e), ListV(xs))
    ensures Decode(VecT(e), Encode(VecT(e), ListV(xs)) + rest) == Ok((ListV(xs), |Encode(VecT(e), ListV(xs))|))
    decreases VecT(e), 0
  {
    ElementsRoundTrip(e, xs);
    DecoderConsumes(e);
    VecRoundTrip(EncoderOf(e), DecoderOf(e), xs, rest);
  }

  lemma {:induction false} ArrayValueRoundTrip(n: nat, e: Schema, xs: seq<Value>, rest: seq<Byte>)
    requires WellFormed(ArrayT(n, e)) && Conforms(ArrayT(n, e), ListV(xs))
    ensures Decode(ArrayT(n, e), Encode(ArrayT(n, e), ListV(xs)) + rest)
         == Ok((ListV(xs), |Encode(ArrayT(n, e), ListV(xs))|))
    decreases ArrayT(n, e), 0
  {
    ElementsRoundTrip(e, xs);
    DecoderConsumes(e);
    ArrayRoundTrip(EncoderOf(e), DecoderOf(e), xs, rest);
  }

  lemma {:induction false} OptionValueRoundTrip(e: Schema, v: Value, rest: seq<Byte>)
    requires WellFormed(OptionT(e)) && Conforms(OptionT(e), v)
    ensures Decode(OptionT(e), Encode(OptionT(e), v) + rest) == Ok((v, |Encode(OptionT(e), v)|))
    decreases OptionT(e), 0
  {
    if v.SomeV? {
      forall r ensures DecoderOf(e)(EncoderOf(e)(v.inner) + r) == Ok((v.inner, |EncoderOf(e)(v.inner)| as nat)) {
        RoundTrip(e, v.inner, r);
      }
    }
    DecoderConsumes(e);
    OptionRoundTrip(EncoderOf(e), DecoderOf(e), v, rest);
  }

  lemma {:induction false} StructValueRoundTrip(f: Fields, vals: seq<Value>, rest: seq<Byte>)
    requires WellFormed(StructT(f)) && Conforms(StructT(f), RecordV(vals))
    ensures Decode(StructT(f), Encode(StructT(f), RecordV(vals)) + rest)
         == Ok((RecordV(vals), |Encode(StructT(f), RecordV(vals))|))
    decreases StructT(f), 0
  {
    FieldValuesRoundTrip(f, vals);
    FieldDecoderConsumes(f);
    StructRoundTrip(FieldEncoderOf(f), FieldDecoderOf(f), vals, rest);
  }

  /** Each element of a vector, array or option of e reads back through e's codec. */
  lemma {:induction false} ElementsRoundTrip(e: Schema, xs: seq<Value>)
    requires WellFormed(e) && forall i :: 0 <= i < |xs| ==> Conforms(e, xs[i])
    ensures forall i :: 0 <= i < |xs| ==> RoundTrips(EncoderOf(e), DecoderOf(e), xs[i])
    decreases e, 2
  {
    forall i, rest | 0 <= i < |xs|
      ensures DecoderOf(e)(EncoderOf(e)(xs[i]) + rest) == Ok((xs[i], |EncoderOf(e)(xs[i])| as nat))
    {
      RoundTrip(e, xs[i], rest);
    }
  }

  /** Each field of a struct of shape f reads back through its own type's codec. */
  lemma {:induction false} FieldValuesRoundTrip(f: Fields, vals: seq<Value>)
    requires FieldsWellFormed(f) && FieldsConform(f, vals)
    ensures FieldsRoundTrip(FieldEncoderOf(f), FieldDecoderOf(f), vals)
    decreases f, 2
  {
    forall i, rest | 0 <= i < |vals|
      ensures FieldDecoderOf(f)(i, FieldEncoderOf(f)(i, vals[i]) + rest)
           == Ok((vals[i], |FieldEncoderOf(f)(i, vals[i])| as nat))
    {
      RoundTrip(FieldTypes(f)[i], vals[i], rest);
    }
  }

  lemma {:induction false} VariantRoundTrip(vs: seq<VariantDecl>, k: nat, vals: seq<Value>, rest: seq<Byte>)
    requires WellFormed(EnumT(vs)) && Conforms(EnumT(vs), VariantV(k, vals))
    ensures Decode(EnumT(vs), Encode(EnumT(vs), VariantV(k, vals)) + rest)
         == Ok((VariantV(k, vals), |Encode(EnumT(vs), VariantV(k, vals))|))
    decreases EnumT(vs), 0
  {
    assert vs[k] in vs;
    var f := vs[k].fields;
    var enc := VariantFieldEncoders(VariantEncoderOf(vs), k);
    var dec := VariantFields(VariantDecoderOf(vs), k);
    forall i, r | 0 <= i < |vals|
      ensures dec(i, enc(i, vals[i]) + r) == Ok((vals[i], |enc(i, vals[i])| as nat))
    {
      RoundTrip(FieldTypes(f)[i], vals[i], r);
    }
    VariantDecoderConsumes(vs);
    EnumRoundTrip(Arity(vs), enc, VariantDecoderOf(vs), k, vals, rest);
  }

  // --------------------------------------------------------------- canonical

  /** The check that a decoded value is of type s, as element codecs take it. */
  function ConformsTo(s: Schema): Value -> bool {
    v => Conforms(s, v)
  }

  function FieldsConformTo(f: Fields): (nat, Value) -> bool {
    (i: nat, v: Value) => i < |FieldTypes(f)| && Conforms(FieldTypes(f)[i], v)
  }

  function VariantsConformTo(vs: seq<VariantDecl>): (nat, nat, Value) -> bool {
    (k: nat, i: nat, v: Value) => k < |vs| && i < |FieldTypes(vs[k].fields)| && Conforms(FieldTypes(vs[k].fields)[i], v)
  }

  /**
   * Whatever `deserialize` accepts is a value of the type, and it consumed
   * exactly that value's serialization: the encoding is canonical.
   */
  lemma {:induction false} DecodeCanonical(s: Schema, data: seq<Byte>)
    ensures Decode(s, data).Ok? ==>
      var (v, n) := Decode(s, data).value;
      Conforms(s, v) && Encode(s, v) == data[..n]
    decreases s, 1
  {
    match s
    case IntT(k) => DecodeIntOutcome(k, data);
    case BoolT => DecodeBoolOutcome(data);
    case SocketAddrT => DecodeSocketAddrOutcome(data);
    case StringT => DecodeStringOutcome(data);
    case VecT(e) => VecDecodeCanonical(e, data);
    case ArrayT(n, e) => ArrayDecodeCanonical(n, e, data);
    case OptionT(e) => OptionDecodeCanonical(e, data);
    case StructT(f) => StructDecodeCanonical(f, data);
    case EnumT(vs) => EnumDecodeCanonical(vs, data);
  }

  lemma {:induction false} ElementsCanonical(e: Schema)
    ensures Canonical(EncoderOf(e), DecoderOf(e), ConformsTo(e))
    decreases e, 2
  {
    forall d | DecoderOf(e)(d).Ok?
      ensures DecoderOf(e)(d).value.1 <= |d| && ConformsTo(e)(DecoderOf(e)(d).value.0)
           && EncoderOf(e)(DecoderOf(e)(d).value.0) == d[..DecoderOf(e)(d).value.1]
    {
      DecodeCanonical(e, d);
    }
  }

  lemma {:induction false} VecDecodeCanonical(e: Schema, data: seq<Byte>)
    ensures Decode(VecT(e), data).Ok? ==>
      var (v, n) := Decode(VecT(e), data).value;
      Conforms(VecT(e), v) && Encode(VecT(e), v) == data[..n]
    decreases VecT(e), 0
  {
    ElementsCanonical(e);
    DecoderConsumes(e);
    VecCanonical(EncoderOf(e), DecoderOf(e), ConformsTo(e), data);
  }

  lemma {:induction false} ArrayDecodeCanonical(len: nat, e: Schema, data: seq<Byte>)
    ensures Decode(ArrayT(len, e), data).Ok? ==>
      var (v, n) := Decode(ArrayT(len, e), data).value;
      Conforms(ArrayT(len, e), v) && Encode(ArrayT(len, e), v) == data[..n]
    decreases ArrayT(len, e), 0
  {
    ElementsCanonical(e);
    DecoderConsumes(e);
    ArrayCanonical(len, EncoderOf(e), DecoderOf(e), ConformsTo(e), data);
  }

  lemma {:induction false} OptionDecodeCanonical(e: Schema, data: seq<Byte>)
    ensures Decode(OptionT(e), data).Ok? ==>
      var (v, n) := Decode(OptionT(e), data).value;
      Conforms(OptionT(e), v) && Encode(OptionT(e), v) == data[..n]
    decreases OptionT(e), 0
  {
    ElementsCanonical(e);
    DecoderConsumes(e);
    OptionCanonical(EncoderOf(e), DecoderOf(e), ConformsTo(e), data);
  }

  lemma {:induction false} StructDecodeCanonical(f: Fields, data: seq<Byte>)
    ensures Decode(StructT(f), data).Ok? ==>
      var (v, n) := Decode(StructT(f), data).value;
      Conforms(StructT(f), v) && Encode(StructT(f), v) == data[..n]
    decreases StructT(f), 0
  {
    var enc, dec, ok := FieldEncoderOf(f), FieldDecoderOf(f), FieldsConformTo(f);
    forall i: nat, d | dec(i, d).Ok?
      ensures dec(i, d).value.1 <= |d| && ok(i, dec(i, d).value.0) && enc(i, dec(i, d).value.0) == d[..dec(i, d).value.1]
    {
      DecodeCanonical(FieldTypes(f)[i], d);
    }
    FieldDecoderConsumes(f);
    StructCanonical(|FieldTypes(f)|, enc, dec, ok, data);
  }

  lemma {:induction false} EnumDecodeCanonical(vs: seq<VariantDecl>, data: seq<Byte>)
    ensures Decode(EnumT(vs), data).Ok? ==>
      var (v, n) := Decode(EnumT(vs), data).value;
      Conforms(EnumT(vs), v) && Encode(EnumT(vs), v) == data[..n]
    decreases EnumT(vs), 0
  {
    var enc, dec, ok := VariantEncoderOf(vs), VariantDecoderOf(vs), VariantsConformTo(vs);
    forall k: nat, i: nat, d | dec(k, i, d).Ok?
      ensures dec(k, i, d).value.1 <= |d| && ok(k, i, dec(k, i, d).value.0)
           && enc(k, i, dec(k, i, d).value.0) == d[..dec(k, i, d).value.1]
    {
      assert vs[k] in vs;
      DecodeCanonical(FieldTypes(vs[k].fields)[i], d);
    }
    VariantDecoderConsumes(vs);
    EnumCanonical(Arity(vs), enc, dec, ok, data);
  }

  // ------------------------------------------------ reading only what is needed

  /**
   * `deserialize` reads only the bytes it consumes: once it returns a value,
   * or an error other than running out of input, appending bytes to its
   * input does not change what it returns.
   */
  lemma {:induction false} DecodeExtends(s: Schema, data: seq<Byte>, q: seq<Byte>)
    requires Settled(Decode(s, data))
    ensures Decode(s, data + q) == Decode(s, data)
    decreases s, 1
  {
    match s
    case IntT(k) => IntExtends(k, data, q);
    case BoolT => BoolExtends(data, q);
    case SocketAddrT => SocketAddrExtends(data, q);
    case StringT => StringExtends(data, q);
    case VecT(e) =>
      ElementsExtend(e);
      DecoderConsumes(e);
      VecExtends(DecoderOf(e), data, q);
    case ArrayT(n, e) =>
      ElementsExtend(e);
      DecoderConsumes(e);
      ArrayExtends(n, DecoderOf(e), data, q);
    case OptionT(e) =>
      ElementsExtend(e);
      DecoderConsumes(e);
      OptionExtends(DecoderOf(e), data, q);
    case StructT(f) =>
      FieldTypesExtend(f);
      FieldDecoderConsumes(f);
      StructExtends(|FieldTypes(f)|, FieldDecoderOf(f), data, q);
    case EnumT(vs) =>
      VariantTypesExtend(vs);
      VariantDecoderConsumes(vs);
      EnumExtends(Arity(vs), VariantDecoderOf(vs), data, q);
  }

  lemma {:induction false} ElementsExtend(e: Schema)
    ensures PrefixStable(DecoderOf(e))
    decreases e, 2
  {
    forall d, q | Settled(DecoderOf(e)(d)) ensures DecoderOf(e)(d + q) == DecoderOf(e)(d) {
      DecodeExtends(e, d, q);
    }
  }

  lemma {:induction false} FieldTypesExtend(f: Fields)
    ensures FieldsPrefixStable(FieldDecoderOf(f))
    decreases f, 2
  {
    var dec := FieldDecoderOf(f);
    forall i: nat, d, q | Settled(dec(i, d)) ensures dec(i, d + q) == dec(i, d) {
      if i < |FieldTypes(f)| {
        DecodeExtends(FieldTypes(f)[i], d, q);
      }
    }
  }

  lemma {:induction false} VariantTypesExtend(vs: seq<VariantDecl>)
    ensures VariantsPrefixStable(VariantDecoderOf(vs))
    decreases vs, 3
  {
    var dec := VariantDecoderOf(vs);
    forall k: nat, i: nat, d, q | Settled(dec(k, i, d)) ensures dec(k, i, d + q) == dec(k, i, d) {
      if k < |vs| && i < |FieldTypes(vs[k].fields)| {
        assert vs[k] in vs;
        DecodeExtends(FieldTypes(vs[k].fields)[i], d, q);
      }
    }
  }

  // ------------------------------------------------------------ corollaries

  /** Two values of a type with the same serialization are the same value. */
  lemma EncodeInjective(s: Schema, v: Value, w: Value)
    requires WellFormed(s) && Conforms(s, v) && Conforms(s, w)
    ensures Encode(s, v) == Encode(s, w) ==> v == w
  {
    if Encode(s, v) == Encode(s, w) {
      RoundTrip(s, v, []);
      RoundTrip(s, w, []);
      assert Encode(s, v) + [] == Encode(s, v);
    }
  }

  /**
   * No serialization is a proper prefix of another of the same type, so a
   * stream of values can be read back without separators.
   */
  lemma PrefixFree(s: Schema, v: Value, w: Value, r: seq<Byte>)
    requires WellFormed(s) && Conforms(s, v) && Conforms(s, w)
    requires Encode(s, w) == Encode(s, v) + r
    ensures r == [] && v == w
  {
    RoundTrip(s, v, r);
    RoundTrip(s, w, []);
    assert Encode(s, w) + [] == Encode(s, w);
  }

  /**
   * A successful decode of a prefix of v's serialization reads v and
   * consumes the whole serialization.
   */
  lemma DecodedPrefix(s: Schema, v: Value, p: seq<Byte>)
    requires WellFormed(s) && Conforms(s, v) && p <= Encode(s, v) && Decode(s, p).Ok?
    ensures Decode(s, p).value == (v, |Encode(s, v)|)
  {
    var w := Decode(s, p).value.0;
    var n := Decode(s, p).value.1;
    var e := Encode(s, v);
    DecodeCanonical(s, p);
    assert e == e[..n] + e[n..];
    PrefixFree(s, w, v, e[n..]);
  }

  /**
   * Cutting a serialization short always makes `deserialize` fail, and with
   * an error that says the input ran out ("Invalid data length", or "Invalid
   * data size" for an enum with no index byte): the prefix holds nothing
   * that is wrong in itself.
   */
  lemma TruncatedEncodingFails(s: Schema, v: Value, m: nat)
    requires WellFormed(s) && Conforms(s, v) && m < |Encode(s, v)|
    ensures Decode(s, Encode(s, v)[..m]).Err?
    ensures Decode(s, Encode(s, v)[..m]).error in {InvalidDataLength, InvalidDataSize}
  {
    var e := Encode(s, v);
    var p := e[..m];
    assert p + e[m..] == e;
    RoundTrip(s, v, []);
    assert e + [] == e;
    if Settled(Decode(s, p)) {
      DecodeExtends(s, p, e[m..]);
      assert false;
    }
  }

  // ------------------------------------------------------------------ layout

  /**
   * The derive macro emits the same code for `struct S { a: A, b: B }`,
   * `struct S(A, B)` and, with no fields, `struct S;`: only the field types,
   * in order, decide the wire format.
   */
  lemma FieldNamesDoNotMatter(f: Fields, g: Fields, vals: seq<Value>, data: seq<Byte>)
    requires FieldTypes(f) == FieldTypes(g)
    ensures Encode(StructT(f), RecordV(vals)) == Encode(StructT(g), RecordV(vals))
    ensures Decode(StructT(f), data) == Decode(StructT(g), data)
  {
    SerializeFieldsAgree(FieldEncoderOf(f), FieldEncoderOf(g), vals, 0);
    FieldDecoderConsumes(f);
    FieldDecoderConsumes(g);
    DeserializeFieldsAgree(|FieldTypes(f)|, FieldDecoderOf(f), FieldDecoderOf(g), data, 0, 0);
  }

  /**
   * A derived enum value is its variant's position as one byte followed by
   * the variant's fields laid out as a struct; it decodes as that struct
   * after the byte, tagged with the position.
   */
  lemma EnumLayout(vs: seq<VariantDecl>, k: nat, vals: seq<Value>, data: seq<Byte>)
    requires k < |vs| && k < 256
    ensures Encode(EnumT(vs), VariantV(k, vals)) == [k as Byte] + Encode(StructT(vs[k].fields), RecordV(vals))
    ensures Decode(EnumT(vs), [k as Byte] + data)
         == match Decode(StructT(vs[k].fields), data)
            case Ok((v, n)) => Ok((VariantV(k, v.fields), (n + 1) as nat))
            case Err(err) => Err(err)
  {
    var f := vs[k].fields;
    SerializeFieldsAgree(VariantFieldEncoders(VariantEncoderOf(vs), k), FieldEncoderOf(f), vals, 0);
    VariantDecoderConsumes(vs);
    FieldDecoderConsumes(f);
    VariantIsTaggedStruct(Arity(vs), VariantDecoderOf(vs), k, data);
    DeserializeFieldsAgree(|FieldTypes(f)|, VariantFields(VariantDecoderOf(vs), k), FieldDecoderOf(f), data, 0, 0);
  }

  /** A struct without fields (`struct S;`) takes no bytes and reads from any input. */
  lemma UnitStructIsEmpty(data: seq<Byte>)
    ensures Encode(StructT(Unit), RecordV([])) == []
    ensures Decode(StructT(Unit), data) == Ok((RecordV([]), 0))
  {
  }

  /**
   * The generated `deserialize` binds each decoded field to the field's name
   * (`f0, f1, ..` for positional fields) and the constructor reads them back
   * by name: for a well-formed shape this rebuilds the decoded values in
   * declaration order, which is the value Decode returns.
   */
  lemma ConstructorRebuildsFields(f: Fields, vals: seq<Value>)
    requires FieldsWellFormed(f) && |vals| == |FieldTypes(f)|
    ensures forall i :: 0 <= i < |vals| ==> FieldNames(f)[i] in Bind(FieldNames(f), vals, 0)
    ensures Construct(FieldNames(f), Bind(FieldNames(f), vals, 0)) == vals
  {
    ConstructBind(FieldNames(f), vals);
  }
}
