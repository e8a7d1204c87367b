/**
 * The types of the crate's own test suite, and what the laws say about the
 * values those tests write and read back.
 */
module Scenarios {
  import opened Bytes
  import opened Utf8
  import opened Types
  import opened Primitives
  import opened Containers
  import opened Derive
  import opened Codec
  import opened Properties

  /** "Hello world" as UTF-8. */
  const HelloWorld: seq<Byte> := [0x48, 0x65, 0x6C, 0x6C, 0x6F, 0x20, 0x77, 0x6F, 0x72, 0x6C, 0x64]

  /** `struct NamedTestStruct { a: u32, b: u16, c: String }` */
  const NamedTestStruct: Schema :=
    StructT(Named([NamedField("a", IntT(U32)), NamedField("b", IntT(U16)), NamedField("c", StringT)]))

  /** `struct UnnamedTestStruct(u32, u16, String)` */
  const UnnamedTestStruct: Schema := StructT(Unnamed([IntT(U32), IntT(U16), StringT]))

  /** `enum TestEnum { A(u32), B(u16), C(String), D, E { f: u32, g: u16, h: String } }` */
  const TestEnum: Schema :=
    EnumT([VariantDecl("A", Unnamed([IntT(U32)])),
           VariantDecl("B", Unnamed([IntT(U16)])),
           VariantDecl("C", Unnamed([StringT])),
           VariantDecl("D", Unit),
           VariantDecl("E", Named([NamedField("f", IntT(U32)), NamedField("g", IntT(U16)), NamedField("h", StringT)]))])

  lemma HelloWorldIsUtf8()
    ensures ValidUtf8(HelloWorld)
  {
    var s := HelloWorld;
    forall i | 0 <= i < |s| ensures s[i] < 0x80 { }
    AsciiIsValid(s);
  }

  /** A count below 256 is written as three zero bytes and the count. */
  lemma SmallLengthPrefix(n: nat)
    requires n < 0x100
    ensures LengthPrefix(n) == [0, 0, 0, n]
  {
    SmallPowers();
    assert ToBigEndian(n, 1) == [n];
    assert ToBigEndian(0, 1) == [0];
    assert ToBigEndian(0, 2) == [0, 0];
    assert ToBigEndian(0, 3) == [0, 0, 0];
  }

  const TestFields: seq<Value> := [IntV(0x12345678), IntV(0x9ABC), StrV(HelloWorld)]

  lemma TestIntBytes()
    ensures EncodeInt(U32, 0x12345678) == [0x12, 0x34, 0x56, 0x78]
    ensures EncodeInt(U16, 0x9ABC) == [0x9A, 0xBC]
  {
    SmallPowers();
    assert ToBigEndian(0x12, 1) == [0x12];
    assert ToBigEndian(0x1234, 2) == [0x12, 0x34];
    assert ToBigEndian(0x123456, 3) == [0x12, 0x34, 0x56];
    assert ToBigEndian(0x9A, 1) == [0x9A];
  }

  /** `UnnamedTestStruct(0x12345678, 0x9ABC, text)`: the u32 big-endian, the u16, then the string's own encoding. */
  lemma UnnamedTestStructLayoutWith(text: seq<Byte>)
    ensures Encode(UnnamedTestStruct, RecordV([IntV(0x12345678), IntV(0x9ABC), StrV(text)]))
         == [0x12, 0x34, 0x56, 0x78, 0x9A, 0xBC] + EncodeString(text)
  {
    var vals := [IntV(0x12345678), IntV(0x9ABC), StrV(text)];
    TestIntBytes();
    var enc := FieldEncoderOf(UnnamedTestStruct.fields);
    assert SerializeFields(enc, vals, 2) == EncodeString(text);
    assert SerializeFields(enc, vals, 1) == [0x9A, 0xBC] + EncodeString(text);
  }

  /** `UnnamedTestStruct(0x12345678, 0x9ABC, "Hello world")`: the u32 big-endian, the u16, the length-prefixed string. */
  lemma UnnamedTestStructLayout()
    ensures Encode(UnnamedTestStruct, RecordV(TestFields))
         == [0x12, 0x34, 0x56, 0x78, 0x9A, 0xBC, 0, 0, 0, 11] + HelloWorld
  {
    UnnamedTestStructLayoutWith(HelloWorld);
    SmallLengthPrefix(11);
    assert EncodeString(HelloWorld) == [0, 0, 0, 11] + HelloWorld;
  }

  /** The named test struct with the same field values has the same wire format. */
  lemma NamedTestStructLayout()
    ensures Encode(NamedTestStruct, RecordV(TestFields))
         == [0x12, 0x34, 0x56, 0x78, 0x9A, 0xBC, 0, 0, 0, 11] + HelloWorld
  {
    UnnamedTestStructLayout();
    FieldNamesDoNotMatter(NamedTestStruct.fields, UnnamedTestStruct.fields, TestFields, []);
  }

  lemma TestIntsInRange()
    ensures U32.Holds(0x12345678) && U16.Holds(0x9ABC)
  {
    SmallPowers();
  }

  lemma NamedFieldsWellFormed(f: Fields, x: Ident, y: Ident, z: Ident, tx: Schema, ty: Schema, tz: Schema)
    requires f == Named([NamedField(x, tx), NamedField(y, ty), NamedField(z, tz)])
    requires x != y && x != z && y != z
    requires WellFormed(tx) && WellFormed(ty) && WellFormed(tz)
    ensures FieldsWellFormed(f)
  {
    var names, ts := FieldNames(f), FieldTypes(f);
    assert names == [x, y, z];
    assert ts == [tx, ty, tz];
    forall i, j | 0 <= i < j < |names| ensures names[i] != names[j] {
      if i == 0 && j == 1 {} else if i == 0 {} else {}
    }
    forall i | 0 <= i < |ts| ensures WellFormed(ts[i]) {
      if i == 0 {} else if i == 1 {} else {}
    }
  }

  lemma UnnamedFieldsWellFormed(ts: seq<Schema>)
    requires forall i :: 0 <= i < |ts| ==> WellFormed(ts[i])
    ensures FieldsWellFormed(Unnamed(ts))
  {
    PositionalNamesDistinct(ts);
  }

  lemma TestFieldsOfTypes(f: Fields)
    requires FieldTypes(f) == [IntT(U32), IntT(U16), StringT]
    ensures FieldsConform(f, TestFields)
  {
    var ts := FieldTypes(f);
    assert Conforms(ts[0], TestFields[0]) && Conforms(ts[1], TestFields[1]) by {
      TestIntsInRange();
    }
    assert Conforms(ts[2], TestFields[2]) by {
      HelloWorldIsUtf8();
    }
    forall i | 0 <= i < |TestFields| ensures Conforms(ts[i], TestFields[i]) {
      assert i == 0 || i == 1 || i == 2;
    }
  }

  /** The test struct values are values of their types, so the round-trip law covers them. */
  lemma TestFieldsConform()
    ensures WellFormed(NamedTestStruct) && Conforms(NamedTestStruct, RecordV(TestFields))
    ensures WellFormed(UnnamedTestStruct) && Conforms(UnnamedTestStruct, RecordV(TestFields))
  {
    NamedFieldsWellFormed(NamedTestStruct.fields, "a", "b", "c", IntT(U32), IntT(U16), StringT);
    UnnamedFieldsWellFormed(UnnamedTestStruct.fields.unnamed);
    assert FieldTypes(NamedTestStruct.fields) == [IntT(U32), IntT(U16), StringT];
    TestFieldsOfTypes(NamedTestStruct.fields);
    TestFieldsOfTypes(UnnamedTestStruct.fields);
  }

  lemma TestEnumWellFormed()
    ensures WellFormed(TestEnum)
  {
    var vs := TestEnum.variants;
    UnnamedFieldsWellFormed([IntT(U32)]);
    UnnamedFieldsWellFormed([IntT(U16)]);
    UnnamedFieldsWellFormed([StringT]);
    NamedFieldsWellFormed(vs[4].fields, "f", "g", "h", IntT(U32), IntT(U16), StringT);
    forall vd | vd in vs ensures FieldsWellFormed(vd.fields) {
      assert vd == vs[0] || vd == vs[1] || vd == vs[2] || vd == vs[3] || vd == vs[4];
    }
  }

  /** `serialize_and_deserialize_named` and `_unnamed`: the value comes back and all 21 bytes are read. */
  lemma TestStructsRoundTrip()
    ensures Decode(NamedTestStruct, [0x12, 0x34, 0x56, 0x78, 0x9A, 0xBC, 0, 0, 0, 11] + HelloWorld)
         == Ok((RecordV(TestFields), 21))
    ensures Decode(UnnamedTestStruct, [0x12, 0x34, 0x56, 0x78, 0x9A, 0xBC, 0, 0, 0, 11] + HelloWorld)
         == Ok((RecordV(TestFields), 21))
  {
    var bytes := [0x12, 0x34, 0x56, 0x78, 0x9A, 0xBC, 0, 0, 0, 11] + HelloWorld;
    TestFieldsConform();
    NamedTestStructLayout();
    UnnamedTestStructLayout();
    assert bytes + [] == bytes;
    RoundTrip(NamedTestStruct, RecordV(TestFields), []);
    RoundTrip(UnnamedTestStruct, RecordV(TestFields), []);
  }

  /** `TestEnum::C("Hello world")`: the index byte 2, then the string. */
  lemma TestEnumCLayout()
    ensures Encode(TestEnum, VariantV(2, [StrV(HelloWorld)])) == [2, 0, 0, 0, 11] + HelloWorld
  {
    var vals := [StrV(HelloWorld)];
    EnumLayout(TestEnum.variants, 2, vals, []);
    SmallLengthPrefix(11);
    var enc := FieldEncoderOf(Unnamed([StringT]));
    assert SerializeFields(enc, vals, 1) == [];
    assert SerializeFields(enc, vals, 0) == [0, 0, 0, 11] + HelloWorld;
  }

  lemma TestEnumCConforms()
    ensures Conforms(TestEnum, VariantV(2, [StrV(HelloWorld)]))
  {
    var f := TestEnum.variants[2].fields;
    assert FieldsConform(f, [StrV(HelloWorld)]) by {
      HelloWorldIsUtf8();
      assert FieldTypes(f) == [StringT];
    }
  }

  /** `serialize_and_deserialize_enum`: the variant comes back and all 16 bytes are read. */
  lemma TestEnumRoundTrip()
    ensures Decode(TestEnum, [2, 0, 0, 0, 11] + HelloWorld) == Ok((VariantV(2, [StrV(HelloWorld)]), 16))
  {
    var v := VariantV(2, [StrV(HelloWorld)]);
    var bytes := [2, 0, 0, 0, 11] + HelloWorld;
    TestEnumWellFormed();
    TestEnumCConforms();
    TestEnumCLayout();
    assert bytes + [] == bytes;
    RoundTrip(TestEnum, v, []);
  }

  /** `struct TestStructWithVec { a: u32, b: u16, c: Vec<u8> }` */
  const VecTestStruct: Schema :=
    StructT(Named([NamedField("a", IntT(U32)), NamedField("b", IntT(U16)), NamedField("c", VecT(IntT(U8)))]))

  /** `vec![1, 2, 3, 4, 5, 6, 7, 8, 9]` */
  const NineBytes: seq<Byte> := [1, 2, 3, 4, 5, 6, 7, 8, 9]

  const VecTestElems: seq<Value> := ByteValues(NineBytes)

  const VecTestFields: seq<Value> := [IntV(0x12345678), IntV(0x9ABC), ListV(VecTestElems)]

  lemma VecTestFieldsConform()
    ensures WellFormed(VecTestStruct) && Conforms(VecTestStruct, RecordV(VecTestFields))
  {
    var f := VecTestStruct.fields;
    NamedFieldsWellFormed(f, "a", "b", "c", IntT(U32), IntT(U16), VecT(IntT(U8)));
    var ts := FieldTypes(f);
    assert ts == [IntT(U32), IntT(U16), VecT(IntT(U8))];
    assert Conforms(ts[0], VecTestFields[0]) && Conforms(ts[1], VecTestFields[1]) by {
      TestIntsInRange();
    }
    assert Conforms(ts[2], VecTestFields[2]) by {
      SmallPowers();
      forall i | 0 <= i < |VecTestElems| ensures Conforms(IntT(U8), VecTestElems[i]) {
        assert VecTestElems[i] == IntV(NineBytes[i]);
      }
    }
    forall i | 0 <= i < |VecTestFields| ensures Conforms(ts[i], VecTestFields[i]) {
      assert i == 0 || i == 1 || i == 2;
    }
  }

  /** `serialize_and_deserialize_vec`: the value comes back and the whole serialization is read. */
  lemma TestStructWithVecRoundTrip()
    ensures Decode(VecTestStruct, Encode(VecTestStruct, RecordV(VecTestFields)))
         == Ok((RecordV(VecTestFields), |Encode(VecTestStruct, RecordV(VecTestFields))|))
  {
    var bytes := Encode(VecTestStruct, RecordV(VecTestFields));
    VecTestFieldsConform();
    assert bytes + [] == bytes;
    RoundTrip(VecTestStruct, RecordV(VecTestFields), []);
  }

  /** Bytes as the `u8` values of a `Vec<u8>`. */
  function ByteValues(bs: seq<Byte>): seq<Value> {
    seq(|bs|, i requires 0 <= i < |bs| => IntV(bs[i]))
  }

  /** A `u8` element is its own byte, so the elements of a `Vec<u8>` are written as they are. */
  lemma {:induction false} ByteValuesEncode(bs: seq<Byte>)
    ensures EncodeEach(EncoderOf(IntT(U8)), ByteValues(bs)) == bs
  {
    if |bs| > 0 {
      assert ByteValues(bs)[0] == IntV(bs[0]) && ByteValues(bs)[1..] == ByteValues(bs[1..]);
      assert EncodeInt(U8, bs[0]) == [bs[0]] by {
        SmallPowers();
      }
      ByteValuesEncode(bs[1..]);
      assert bs == [bs[0]] + bs[1..];
    }
  }

  /** `TestStructWithVec(0x12345678, 0x9ABC, c)`: the u32 big-endian, the u16, then the vector's own encoding. */
  lemma TestStructWithVecLayoutWith(xs: seq<Value>)
    ensures Encode(VecTestStruct, RecordV([IntV(0x12345678), IntV(0x9ABC), ListV(xs)]))
         == [0x12, 0x34, 0x56, 0x78, 0x9A, 0xBC] + EncodeVec(EncoderOf(IntT(U8)), xs)
  {
    var vals := [IntV(0x12345678), IntV(0x9ABC), ListV(xs)];
    TestIntBytes();
    var enc := FieldEncoderOf(VecTestStruct.fields);
    assert SerializeFields(enc, vals, 2) == EncodeVec(EncoderOf(IntT(U8)), xs);
    assert SerializeFields(enc, vals, 1) == [0x9A, 0xBC] + EncodeVec(EncoderOf(IntT(U8)), xs);
  }

  /** `TestStructWithVec { a: 0x12345678, b: 0x9ABC, c: vec![1, ..., 9] }`: the integers, the count 9, the nine bytes. */
  lemma TestStructWithVecLayout()
    ensures Encode(VecTestStruct, RecordV(VecTestFields))
         == [0x12, 0x34, 0x56, 0x78, 0x9A, 0xBC, 0, 0, 0, 9, 1, 2, 3, 4, 5, 6, 7, 8, 9]
  {
    ByteValuesEncode(NineBytes);
    SmallLengthPrefix(9);
    assert EncodeVec(EncoderOf(IntT(U8)), VecTestElems) == [0, 0, 0, 9] + NineBytes;
    TestStructWithVecLayoutWith(VecTestElems);
  }
}
