/**
 * Two places where the code as written does not do what the rest of the
 * crate promises.
 *
 * `String::deserialize` computes the end of the text as `len + 4` in `u32`
 * arithmetic. For a length prefix of 2^32 - 4 or more that sum overflows:
 * with overflow checks on, the addition panics; with them off it wraps to
 * a number below 4, the length check passes, and slicing `data[4..w]` with
 * w < 4 panics. Either way a four-byte input makes the decoder panic
 * instead of returning "Invalid data length". Primitives.DecodeString is
 * the intended behaviour, which the rest of the model uses.
 *
 * The derived struct `deserialize` binds each field with
 * `let (name, len) = ...;` in the same scope as its parameter `bytes`. A
 * named field called `bytes` therefore replaces the input for every later
 * field, which then reads from the field's own value. The code compiles
 * when that field is a `Vec<u8>` or `[u8; N]`, and then panics, or fails,
 * on the struct's own serialization. Derive.DeserializeFields is the
 * intended behaviour; Codec.WellFormed excludes such structs, so the laws
 * of the model are stated for the structs the code handles as intended.
 */
module Findings {
  import opened Bytes
  import opened Utf8
  import opened Types
  import opened Primitives
  import opened Containers
  import opened Derive
  import opened Codec
  import opened Properties
  import opened Scenarios

  /** What a call does: panic, or return a result. */
  datatype Outcome<T> = Panic | Returned(result: Result<T>)

  /**
   * `String::deserialize` as written, with `len + 4` taken in `u32`;
   * overflowChecks tells whether the build panics on arithmetic overflow
   * (debug) or wraps (release).
   */
  function DecodeStringAsWritten(data: seq<Byte>, overflowChecks: bool): (o: Outcome<(seq<Byte>, nat)>)
    ensures o.Returned? && o.result.Ok? ==> o.result.value.1 <= |data|
  {
    if |data| < 4 then Returned(Err(InvalidDataLength))
    else
      var len := FromBigEndian(data[..4]);
      if len + 4 >= U32Limit && overflowChecks then Panic
      else
        var w := (len + 4) % U32Limit;
        if |data| < w then Returned(Err(InvalidDataLength))
        else if w < 4 then Panic
        else if !ValidUtf8(data[4..w]) then Returned(Err(InvalidUtf8))
        else Returned(Ok((data[4..w], w)))
  }

  /** A length prefix of 2^32 - 4 or more makes the decoder panic, in either build. */
  lemma OverflowingLengthPanics(data: seq<Byte>, overflowChecks: bool)
    requires |data| >= 4 && FromBigEndian(data[..4]) >= U32Limit - 4
    ensures DecodeStringAsWritten(data, overflowChecks) == Panic
  {
    var len := FromBigEndian(data[..4]);
    assert len < U32Limit by {
      SmallPowers();
    }
    assert (len + 4) % U32Limit == len + 4 - U32Limit;
  }

  /** The four bytes FF FF FF FF: the code as written panics, the intended decoder reports a short input. */
  lemma AllOnesPrefixPanics(overflowChecks: bool)
    ensures DecodeStringAsWritten([0xFF, 0xFF, 0xFF, 0xFF], overflowChecks) == Panic
    ensures DecodeString([0xFF, 0xFF, 0xFF, 0xFF]) == Err(InvalidDataLength)
  {
    var data: seq<Byte> := [0xFF, 0xFF, 0xFF, 0xFF];
    assert data[..4] == data;
    var one: seq<Byte> := [0xFF];
    var two: seq<Byte> := [0xFF, 0xFF];
    var three: seq<Byte> := [0xFF, 0xFF, 0xFF];
    assert one[..0] == [];
    assert FromBigEndian(one) == 0xFF;
    assert two[..1] == one;
    assert FromBigEndian(two) == 0xFFFF;
    assert three[..2] == two;
    assert FromBigEndian(three) == 0xFF_FFFF;
    assert data[..3] == three;
    assert FromBigEndian(data) == 0xFFFF_FFFF;
    OverflowingLengthPanics(data, overflowChecks);
  }

  /** Below the overflow, the code as written returns exactly what the intended decoder does. */
  lemma AsWrittenAgreesBelowOverflow(data: seq<Byte>, overflowChecks: bool)
    requires |data| < 4 || FromBigEndian(data[..4]) < U32Limit - 4
    ensures DecodeStringAsWritten(data, overflowChecks) == Returned(DecodeString(data))
  {
  }

  // ----------------------------------------------- a named field called `bytes`

  /**
   * What `&bytes[offset..]` reads once a field `bytes` of type `Vec<u8>` or
   * `[u8; N]` has been bound: that field's own bytes. Fields of other types
   * named `bytes` and followed by another field do not compile.
   */
  function ByteView(v: Value): (r: seq<Byte>)
    ensures v.ListV? && (forall i :: 0 <= i < |v.elems| ==> v.elems[i].IntV? && 0 <= v.elems[i].x < 0x100) ==>
      |r| == |v.elems| && forall i :: 0 <= i < |r| ==> v.elems[i] == IntV(r[i])
  {
    if v.ListV? && forall i :: 0 <= i < |v.elems| ==> v.elems[i].IntV? && 0 <= v.elems[i].x < 0x100 then
      seq(|v.elems|, i requires 0 <= i < |v.elems| => v.elems[i].x)
    else []
  }

  /**
   * The generated field reads from field i on, as written, for fields
   * called names and read by dec: once a field named `bytes` is bound, the
   * later fields read from its value, and slicing past its end panics.
   */
  function DeserializeFieldsAsWritten(names: seq<Ident>, dec: FieldDecoder, bytes: seq<Byte>, i: nat, offset: nat)
    : (o: Outcome<(seq<Value>, nat)>)
    requires i <= |names|
    ensures o.Returned? && o.result.Ok? ==> |o.result.value.0| == |names| - i
    decreases |names| - i
  {
    if i == |names| then Returned(Ok(([], offset)))
    else if offset > |bytes| then Panic
    else
      match dec(i, bytes[offset..])
      case Err(err) => Returned(Err(err))
      case Ok((v, len)) =>
        var input := if names[i] == "bytes" then ByteView(v) else bytes;
        match DeserializeFieldsAsWritten(names, dec, input, i + 1, offset + len)
        case Panic => Panic
        case Returned(Err(err)) => Returned(Err(err))
        case Returned(Ok((vals, end))) => Returned(Ok(([v] + vals, end)))
  }

  /** The generated struct `deserialize` as written. */
  function DecodeStructAsWritten(f: Fields, data: seq<Byte>): (o: Outcome<(Value, nat)>)
    ensures o.Returned? && o.result.Ok? ==> o.result.value.0.RecordV? && |o.result.value.0.fields| == |FieldTypes(f)|
  {
    match DeserializeFieldsAsWritten(FieldNames(f), FieldDecoderOf(f), data, 0, 0)
    case Panic => Panic
    case Returned(Err(err)) => Returned(Err(err))
    case Returned(Ok((vals, offset))) => Returned(Ok((RecordV(vals), offset)))
  }

  /** With no field `bytes` before the last, the reads as written are the intended ones. */
  lemma {:induction false} FieldsAsWrittenAgree(names: seq<Ident>, dec: FieldDecoder, bytes: seq<Byte>, i: nat, offset: nat)
    requires FieldsConsume(dec) && i <= |names| && offset <= |bytes|
    requires forall j :: i <= j < |names| - 1 ==> names[j] != "bytes"
    ensures DeserializeFieldsAsWritten(names, dec, bytes, i, offset)
         == Returned(DeserializeFields(|names|, dec, bytes, i, offset))
    decreases |names| - i
  {
    if i < |names| {
      var first := dec(i, bytes[offset..]);
      if first.Ok? && i + 1 < |names| {
        FieldsAsWrittenAgree(names, dec, bytes, i + 1, offset + first.value.1);
      }
    }
  }

  /** Every struct the model calls well-formed is decoded as intended by the code as written. */
  lemma StructAsWrittenAgrees(f: Fields, data: seq<Byte>)
    requires InputNotShadowed(FieldNames(f))
    ensures DecodeStructAsWritten(f, data) == Returned(Decode(StructT(f), data))
  {
    FieldDecoderConsumes(f);
    FieldsAsWrittenAgree(FieldNames(f), FieldDecoderOf(f), data, 0, 0);
  }

  /** `struct S { bytes: Vec<u8>, c: u8 }` */
  const ShadowingStruct: Schema := StructT(Named([NamedField("bytes", VecT(IntT(U8))), NamedField("c", IntT(U8))]))

  /** `S { bytes: vec![7], c: 9 }` */
  const ShadowingValue: Value := RecordV([ListV(ByteValues([7])), IntV(9)])

  lemma ShadowingValueConforms()
    ensures FieldsWellFormed(ShadowingStruct.fields) && Conforms(ShadowingStruct, ShadowingValue)
    ensures !WellFormed(ShadowingStruct)
  {
    var f, vals := ShadowingStruct.fields, ShadowingValue.fields;
    assert FieldTypes(f) == [VecT(IntT(U8)), IntT(U8)];
    assert FieldNames(f)[0] == "bytes";
    SmallPowers();
    assert vals[0].elems[0] == IntV(7);
  }

  lemma ShadowingEncoding()
    ensures FieldEncoderOf(ShadowingStruct.fields)(0, ShadowingValue.fields[0]) == [0, 0, 0, 1, 7]
    ensures Encode(ShadowingStruct, ShadowingValue) == [0, 0, 0, 1, 7, 9]
  {
    var f, vals := ShadowingStruct.fields, ShadowingValue.fields;
    var enc := FieldEncoderOf(f);
    assert FieldTypes(f) == [VecT(IntT(U8)), IntT(U8)];
    assert enc(0, vals[0]) == [0, 0, 0, 1, 7] by {
      ByteValuesEncode([7]);
      SmallLengthPrefix(1);
    }
    assert enc(1, vals[1]) == [9] by {
      SmallPowers();
    }
    assert SerializeFields(enc, vals, 1) == [9];
  }

  /**
   * S serializes `S { bytes: vec![7], c: 9 }` to 00 00 00 01 07 09. As
   * written, its `deserialize` then reads c at offset 5 of the one-byte
   * field `bytes` and panics; the intended decoder reads the value back.
   */
  lemma ShadowingFieldPanics()
    ensures FieldsWellFormed(ShadowingStruct.fields) && Conforms(ShadowingStruct, ShadowingValue)
    ensures !WellFormed(ShadowingStruct)
    ensures Encode(ShadowingStruct, ShadowingValue) == [0, 0, 0, 1, 7, 9]
    ensures DecodeStructAsWritten(ShadowingStruct.fields, [0, 0, 0, 1, 7, 9]) == Panic
    ensures Decode(ShadowingStruct, [0, 0, 0, 1, 7, 9]) == Ok((ShadowingValue, 6))
  {
    var f, vals := ShadowingStruct.fields, ShadowingValue.fields;
    var enc, dec := FieldEncoderOf(f), FieldDecoderOf(f);
    ShadowingValueConforms();
    ShadowingEncoding();
    var e: seq<Byte> := [0, 0, 0, 1, 7, 9];
    FieldValuesRoundTrip(f, vals);
    FieldDecoderConsumes(f);
    StructRoundTrip(enc, dec, vals, []);
    assert e + [] == e;
    assert dec(0, [0, 0, 0, 1, 7] + [9]) == Ok((vals[0], 5));
    assert e[0..] == [0, 0, 0, 1, 7] + [9];
    assert ByteView(vals[0]) == [7];
  }
}
