/**
 * The whole codec as an interpreter over static types. Rust picks the
 * `Serializable` implementation by the static type and instantiates the
 * generic ones (`Vec<T>`, `[T; L]`, `Option<T>`, derived structs and enums)
 * with the implementations of their element and field types; Encode and
 * Decode do the same by recursion on the Schema.
 */
module Codec {
  import opened Bytes
  import opened Utf8
  import opened Types
  import opened Primitives
  import opened Containers
  import opened Derive

  // ------------------------------------------------------------------ typing

  /**
   * What the compiler and the derive macro demand of a type: the named
   * fields of a struct or variant are distinct, and an enum has at most 256
   * variants, because its index is emitted as a `u8` literal. A struct also
   * has no named field `bytes` before its last field: such a field would
   * hide the generated `deserialize`'s input (see `Findings`).
   */
  predicate WellFormed(s: Schema)
    decreases s, 1
  {
    match s
    case VecT(e) => WellFormed(e)
    case ArrayT(_, e) => WellFormed(e)
    case OptionT(e) => WellFormed(e)
    case StructT(f) => FieldsWellFormed(f) && InputNotShadowed(FieldNames(f))
    case EnumT(vs) => |vs| <= 256 && forall vd | vd in vs :: FieldsWellFormed(vd.fields)
    case _ => true
  }

  predicate FieldsWellFormed(f: Fields)
    decreases f, 0
  {
    Distinct(FieldNames(f)) && forall i :: 0 <= i < |FieldTypes(f)| ==> WellFormed(FieldTypes(f)[i])
  }

  /**
   * v is a value of type s that the codec can write: integers in range,
   * valid addresses, valid UTF-8 strings, arrays of their declared length,
   * and strings and vectors whose length fits the 32-bit length prefix.
   */
  predicate Conforms(s: Schema, v: Value)
    decreases s, 1
  {
    match s
    case IntT(k) => v.IntV? && k.Holds(v.x)
    case BoolT => v.BoolV?
    case SocketAddrT => v.AddrV? && ValidSocketAddr(v.addr)
    case StringT => v.StrV? && |v.utf8| < U32Limit && ValidUtf8(v.utf8)
    case VecT(e) => v.ListV? && |v.elems| < U32Limit && forall i :: 0 <= i < |v.elems| ==> Conforms(e, v.elems[i])
    case ArrayT(n, e) => v.ListV? && |v.elems| == n && forall i :: 0 <= i < |v.elems| ==> Conforms(e, v.elems[i])
    case OptionT(e) => v.NoneV? || (v.SomeV? && Conforms(e, v.inner))
    case StructT(f) => v.RecordV? && FieldsConform(f, v.fields)
    case EnumT(vs) =>
      v.VariantV? && v.index < |vs| && (assert vs[v.index] in vs; FieldsConform(vs[v.index].fields, v.fields))
  }

  /** vals holds one value per field, each of its field's type. */
  predicate FieldsConform(f: Fields, vals: seq<Value>)
    decreases f, 0
  {
    |vals| == |FieldTypes(f)| && forall i :: 0 <= i < |vals| ==> Conforms(FieldTypes(f)[i], vals[i])
  }

  // ------------------------------------------------------------------ encode

  /**
   * `serialize` of a value of type s. Rust's static typing rules out a value
   * of another type; such a pair encodes to nothing here.
   */
  function Encode(s: Schema, v: Value): seq<Byte>
    decreases s, 0
  {
    match s
    case IntT(k) => if v.IntV? then EncodeInt(k, v.x) else []
    case BoolT => if v.BoolV? then EncodeBool(v.b) else []
    case SocketAddrT => if v.AddrV? then EncodeSocketAddr(v.addr) else []
    case StringT => if v.StrV? then EncodeString(v.utf8) else []
    case VecT(e) => if v.ListV? then EncodeVec(EncoderOf(e), v.elems) else []
    case ArrayT(_, e) => if v.ListV? then EncodeArray(EncoderOf(e), v.elems) else []
    case OptionT(e) => if v.SomeV? || v.NoneV? then EncodeOption(EncoderOf(e), v) else []
    case StructT(f) => if v.RecordV? then EncodeStruct(FieldEncoderOf(f), v.fields) else []
    case EnumT(vs) =>
      if v.VariantV? && v.index < |vs| && v.index < 256 then
        EncodeVariant(v.index, VariantFieldEncoders(VariantEncoderOf(vs), v.index), v.fields)
      else []
  }

  /** `T::serialize` for T the type s. */
  function EncoderOf(s: Schema): Encoder
    decreases s, 1
  {
    v => Encode(s, v)
  }

  /** `Serializable::serialize` of the i-th field's type, for each field of f. */
  function FieldEncoderOf(f: Fields): FieldEncoder
    decreases f, 2
  {
    (i: nat, v: Value) => if i < |FieldTypes(f)| then Encode(FieldTypes(f)[i], v) else []
  }

  /** `Serializable::serialize` of field i of the k-th variant, by variant and field position. */
  function VariantEncoderOf(vs: seq<VariantDecl>): (nat, nat, Value) -> seq<Byte>
    decreases vs, 3
  {
    (k: nat, i: nat, v: Value) =>
      if k < |vs| && i < |FieldTypes(vs[k].fields)| then
        assert vs[k] in vs;
        Encode(FieldTypes(vs[k].fields)[i], v)
      else []
  }

  // ------------------------------------------------------------------ decode

  /** `deserialize` for type s: the value and the number of bytes consumed. */
  function Decode(s: Schema, data: seq<Byte>): (r: Result<(Value, nat)>)
    ensures r.Ok? ==> r.value.1 <= |data|
    decreases s, 0
  {
    match s
    case IntT(k) =>
      (match DecodeInt(k, data)
       case Ok((x, n)) => Ok((IntV(x), n))
       case Err(e) => Err(e))
    case BoolT =>
      (match DecodeBool(data)
       case Ok((b, n)) => Ok((BoolV(b), n))
       case Err(e) => Err(e))
    case SocketAddrT =>
      (match DecodeSocketAddr(data)
       case Ok((a, n)) => Ok((AddrV(a), n))
       case Err(e) => Err(e))
    case StringT =>
      (match DecodeString(data)
       case Ok((t, n)) => Ok((StrV(t), n))
       case Err(e) => Err(e))
    case VecT(e) => DecodeVec(DecoderOf(e), data)
    case ArrayT(n, e) => DecodeArray(n, DecoderOf(e), data)
    case OptionT(e) => DecodeOption(DecoderOf(e), data)
    case StructT(f) => DecodeStruct(|FieldTypes(f)|, FieldDecoderOf(f), data)
    case EnumT(vs) => DecodeEnum(Arity(vs), VariantDecoderOf(vs), data)
  }

  /** `T::deserialize` for T the type s. */
  function DecoderOf(s: Schema): Decoder
    decreases s, 1
  {
    d => Decode(s, d)
  }

  /**
   * `<T as Serializable>::deserialize` of the i-th field's type, for each
   * field of f. The generated code never asks for a field past the last.
   */
  function FieldDecoderOf(f: Fields): FieldDecoder
    decreases f, 2
  {
    (i: nat, d: seq<Byte>) => if i < |FieldTypes(f)| then Decode(FieldTypes(f)[i], d) else Err(InvalidDataLength)
  }

  /** The field decoders of every variant, by variant and field position. */
  function VariantDecoderOf(vs: seq<VariantDecl>): VariantDecoder
    decreases vs, 3
  {
    (k: nat, i: nat, d: seq<Byte>) =>
      if k < |vs| && i < |FieldTypes(vs[k].fields)| then
        assert vs[k] in vs;
        Decode(FieldTypes(vs[k].fields)[i], d)
      else Err(InvalidVariantIndex)
  }

  /** The number of fields of each variant. */
  function Arity(vs: seq<VariantDecl>): (r: seq<nat>)
    ensures |r| == |vs| && forall k :: 0 <= k < |vs| ==> r[k] == |FieldTypes(vs[k].fields)|
  {
    seq(|vs|, k requires 0 <= k < |vs| => |FieldTypes(vs[k].fields)|)
  }
}
