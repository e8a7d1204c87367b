# Serializable: a verified model of the codec and the derive macro

The crate `serializable` turns Rust values into bytes and back through one trait with two methods:

- `serialize(&self) -> Vec<u8>`
- `deserialize(&[u8]) -> io::Result<(Self, usize)>`, where the `usize` is the number of bytes consumed.

It has hand-written implementations for the primitive types and the generic containers. A derive macro, `#[derive(Serializable)]`, generates the implementation for structs and enums.

This project models both halves in Dafny:

- the primitive and container codecs of `src/serializable.rs`;
- what the code emitted by the derive macro in `serializable_derive/src/lib.rs` does at run time.

It then proves the laws the trait implies for every type that does not refer to itself. A `Schema` is a finite tree, so a type that reaches itself through `Vec<Self>` has none, and the whole-type laws in `Properties` do not cover it. The `Containers` and `Derive` laws are stated for arbitrary element and field codecs, so they hold at each level of such a type as well.

Rust chooses an implementation by the static type of a value. The model does the same with a `Schema` (the static type) and a `Value`. `Codec.Encode` and `Codec.Decode` recurse on the schema. They plug each element and field type's codec into the generic `Vec<T>`, `[T; L]`, `Option<T>` and derived codecs, as monomorphisation does. There is one place where the model and the emitted code part ways. The generated struct `deserialize` binds each field in the scope of its own input parameter `bytes`, so a named field `bytes` before the last field hides that input. The model decodes such a struct as intended, `Codec.WellFormed` excludes it from the laws, and `Findings` models the code as written.

The modules:

- `Bytes`: bytes, and the big-endian layout of `to_be_bytes` and `from_be_bytes`.
- `Utf8`: well-formed UTF-8, the check `String::from_utf8` makes.
- `Types`: integer kinds, socket addresses, schemas, values, the decoder errors, and the per-value round-trip and canonicity predicates.
- `Primitives`: the integer, `bool`, `SocketAddr` and `String` codecs.
- `Containers`: the `Vec<T>`, `[T; L]` and `Option<T>` codecs, generic over the element codec.
- `Derive`:
  - the macro's helpers: `get_field_names`, `get_field_types`, `build_serialize_body`, `build_deserialize_body` and `build_constructor`;
  - the code its struct and enum templates emit.
- `Codec`: the whole codec as an interpreter over schemas, plus well-formedness and typing of values.
- `Properties`: for every well-formed, non-recursive type,
  - round trip;
  - canonicity;
  - injectivity;
  - prefix-freedom;
  - failure on truncated input, always with a short-input error;
  - prefix stability: a decoder reads only the bytes it consumes;
  - the layout of derived structs and enums.
- `Scenarios`: the crate's own test types and test values in `src/lib.rs`.
- `Imperative`: the loops of the source, as methods proved to compute the specification functions above. These are:
  - the `Vec` and array element loops;
  - the generated field-by-field serialize and deserialize code;
  - the enum dispatch.
- `Findings`: the code as written where it departs from the intended behaviour: `String::deserialize` with its 32-bit overflow, and the derived struct `deserialize` with a field named `bytes`.

## Model

| member | source | states |
|---|---|---|
| Bytes.FromToBigEndian | src/serializable.rs:187-204 | Reading back the w big-endian bytes of a number below 256^w gives the number back. |
| Bytes.ToFromBigEndian | src/serializable.rs:187-204 | Any w bytes are the big-endian bytes of the number they spell, so `from_be_bytes` loses nothing. |
| Bytes.BigEndianDigit | src/serializable.rs:187-191 | Byte j of the w-byte big-endian form of x is the base-256 digit of x of weight 256^(w-1-j). |
| Primitives.EncodeInt | src/serializable.rs:148-336 | `to_be_bytes` of every integer type gives exactly the type's width in bytes, whatever the value. |
| Primitives.DecodeInt | src/serializable.rs:148-336 | An integer `deserialize` never reports more bytes consumed than it was given. |
| Primitives.EncodeIntValue | src/serializable.rs:148-336 | Every integer `serialize` writes exactly width-many bytes, and they spell the value modulo 256^width, which is two's complement for signed types. |
| Primitives.DecodeIntOutcome | src/serializable.rs:148-336 | An integer `deserialize` fails exactly when fewer than width bytes are given, with "Invalid data length". Otherwise it consumes width bytes, the value is in the type's range, and re-serializing it gives exactly those bytes. |
| Primitives.IntRoundTrip | src/serializable.rs:148-336 | For every integer kind and every in-range value, deserializing its bytes followed by anything gives the value back, with width bytes consumed. |
| Primitives.EncodeBool | src/serializable.rs:378-383 | `bool` serializes to one byte, 1 for `true` and 0 for `false`, one of the two bytes `deserialize` accepts. |
| Primitives.DecodeBool | src/serializable.rs:385-402 | `bool::deserialize` never reports more bytes consumed than it was given. |
| Primitives.DecodeBoolOutcome | src/serializable.rs:385-402 | Empty input gives "Invalid data length" and a first byte above 1 gives "Invalid bool value". Decoding succeeds if and only if the first byte is 0 or 1, which give false and true with one byte consumed. |
| Primitives.BoolRoundTrip | src/serializable.rs:376-402 | `false` and `true` written as 0 and 1 read back, consuming one byte. |
| Primitives.SegmentsOfBytes | src/serializable.rs:60-69 | Pairing the big-endian bytes of 16-bit IPv6 segments gives the segments back. |
| Primitives.BytesOfSegments | src/serializable.rs:60-69 | An even number of bytes is the byte form of the segments read from it, and each segment is below 2^16. |
| Primitives.EncodeSocketAddr | src/serializable.rs:13-30 | A valid IPv4 socket address takes 7 bytes and an IPv6 one takes 19: a family byte, the address, then the port. |
| Primitives.DecodeSocketAddr | src/serializable.rs:32-80 | `SocketAddr::deserialize` never reports more bytes consumed than it was given. |
| Primitives.DecodeSocketAddrOutcome | src/serializable.rs:32-80 | Each error case of `SocketAddr::deserialize`: empty input gives "Invalid data length"; a family byte above 1 gives "Invalid address type"; family 0 succeeds if and only if there are at least 7 bytes, and family 1 if and only if there are at least 19; a success consumes 7 or 19 bytes and re-encodes to them. |
| Primitives.SocketAddrRoundTrip | src/serializable.rs:13-80 | Every valid socket address reads back from its serialization followed by anything. |
| Primitives.V4RoundTrip | src/serializable.rs:15-21 | An IPv4 address and port read back, consuming 7 bytes. |
| Primitives.V6RoundTrip | src/serializable.rs:22-28 | An IPv6 address and port read back, consuming 19 bytes. |
| Primitives.LengthPrefix | src/serializable.rs:87 | `(len as u32).to_be_bytes()` is four bytes that spell the length modulo 2^32: the cast truncates. |
| Primitives.LengthPrefixValue | src/serializable.rs:87 | A length below 2^32 written as a big-endian `u32` reads back as that length. |
| Primitives.PrefixOfLength | src/serializable.rs:99 | Any four bytes are the length prefix of the number they spell, and that number is below 2^32. |
| Primitives.EncodeString | src/serializable.rs:85-90 | A string's serialization is 4 bytes longer than its UTF-8 text. |
| Primitives.DecodeString | src/serializable.rs:92-112 | `String::deserialize` (the corrected decoder; see Findings) never reports more bytes consumed than it was given. |
| Primitives.DecodeStringOutcome | src/serializable.rs:92-112 | For the corrected decoder (see Findings): Fewer than 4 bytes, or fewer than the length prefix plus 4, gives "Invalid data length". Otherwise decoding succeeds if and only if the text is valid UTF-8, and the only other error is the UTF-8 one. A success returns the text after the prefix and consumes prefix-plus-4 bytes. |
| Primitives.StringRoundTrip | src/serializable.rs:85-112 | For the corrected decoder (see Findings): Every valid UTF-8 text shorter than 2^32 bytes reads back from its serialization followed by anything, consuming its length plus 4. |
| Utf8.LeadingCharLength | src/serializable.rs:108 | The UTF-8 sequence at the start of the input is at most 4 bytes long and never starts with C0, C1 or F5 to FF. An ASCII byte is a sequence of one. |
| Utf8.AsciiIsValid | src/serializable.rs:108 | Text made of bytes below 0x80 is accepted by `String::from_utf8`. |
| Primitives.IntExtends | src/serializable.rs:148-336 | Once an integer `deserialize` returns a value, appending bytes to its input does not change what it returns. |
| Primitives.BoolExtends | src/serializable.rs:385-402 | Once `bool::deserialize` returns a value or "Invalid bool value", appending bytes does not change what it returns. |
| Primitives.SocketAddrExtends | src/serializable.rs:32-80 | Once `SocketAddr::deserialize` returns an address or "Invalid address type", appending bytes does not change what it returns. |
| Primitives.StringExtends | src/serializable.rs:92-112 | Once `String::deserialize` returns a string or "Invalid UTF-8", appending bytes does not change what it returns. |
| Containers.EncodeEachAppend | src/serializable.rs:120-123 | The element loop appends each element's serialization in order: serializing xs followed by ys gives the serialization of xs followed by that of ys. |
| Containers.EncodeVec | src/serializable.rs:117-125 | A vector's serialization starts with four bytes that spell its element count modulo 2^32 (`self.len() as u32`). |
| Containers.EncodeArray | src/serializable.rs:424-426 | An array's serialization is a vector's serialization of the same elements without the 4-byte count. |
| Containers.EncodeOption | src/serializable.rs:443-455 | An option's serialization starts with one tag byte, 1 for `Some` and 0 for `None`. `Some` is followed by the payload's serialization, and `None` by nothing. |
| Containers.DecodeEach | src/serializable.rs:137-142 | A successful run of the element loop returns exactly count elements and ends between its start and the end of the input. |
| Containers.DecodeVec | src/serializable.rs:127-145 | `Vec<T>::deserialize` never reports more bytes consumed than it was given. |
| Containers.DecodeArray | src/serializable.rs:428-438 | `[T; L]::deserialize` never reports more bytes consumed than it was given. |
| Containers.DecodeOption | src/serializable.rs:457-474 | `Option<T>::deserialize` never reports more bytes consumed than it was given. |
| Containers.EachRoundTrip | src/serializable.rs:117-143 | The element loop, run over the concatenated serializations of elements that each round-trip, returns those elements. It stops right after the last one. |
| Containers.EachCanonical | src/serializable.rs:135-143 | Whatever the element loop accepts is a list of elements the element type accepts, and re-serializing them gives exactly the bytes read. |
| Containers.VecRoundTrip | src/serializable.rs:115-146 | A vector of fewer than 2^32 round-tripping elements reads back from its serialization followed by anything, consuming all of it. |
| Containers.VecCanonical | src/serializable.rs:115-146 | A decoded vector holds accepted elements, and its re-serialization is exactly the bytes consumed. |
| Containers.DecodeVecOutcome | src/serializable.rs:127-145 | Fewer than 4 bytes gives "Invalid data length". A zero count gives the empty vector after 4 bytes. With a positive count, the first element's error is returned. A success holds as many elements as the count says and consumes at least the 4 count bytes. |
| Containers.ArrayRoundTrip | src/serializable.rs:422-439 | An array of round-tripping elements reads back from its serialization followed by anything. The serialization carries no length. |
| Containers.ArrayCanonical | src/serializable.rs:422-439 | A decoded `[T; L]` holds L accepted elements, and its re-serialization is exactly the bytes consumed. |
| Containers.OptionRoundTrip | src/serializable.rs:441-474 | `None`, and `Some(x)` for a round-tripping x, read back from their serialization followed by anything. |
| Containers.OptionCanonical | src/serializable.rs:441-474 | A decoded option is `None` or `Some` of an accepted value, and its re-serialization is exactly the bytes consumed. |
| Containers.DecodeOptionOutcome | src/serializable.rs:457-474 | Empty input gives "Invalid data length". Tag 0 gives `None` after one byte. A tag above 1 gives "Invalid option type". Tag 1 gives `Some` of the payload with one more byte consumed, or the payload's error. |
| Containers.EachExtends | src/serializable.rs:135-143 | When every element read is unchanged by appended bytes once settled, so is the whole element loop, error included. |
| Containers.VecExtends | src/serializable.rs:127-145 | Once `Vec<T>::deserialize` returns a value or an error other than a short input, appending bytes does not change what it returns. |
| Containers.ArrayExtends | src/serializable.rs:428-438 | The same for `[T; L]::deserialize`. |
| Containers.OptionExtends | src/serializable.rs:457-474 | The same for `Option<T>::deserialize`. |
| Derive.Decimal | serializable_derive/src/lib.rs:27 | `format!("{}", i)` writes a non-empty string of decimal digits. |
| Derive.ParseDecimalOfDecimal | serializable_derive/src/lib.rs:27 | The decimal form of i spells i, so the synthetic names determine their positions. |
| Derive.DecimalInjective | serializable_derive/src/lib.rs:27 | Distinct positions get distinct decimal forms. |
| Derive.PositionalName | serializable_derive/src/lib.rs:27 | `format!("f{}", i)` is the letter f followed by at least one decimal digit. |
| Derive.PositionalNamesKeepInput | serializable_derive/src/lib.rs:24-32 | A positional field is never bound as `bytes`, so it never hides the generated `deserialize`'s input. |
| Derive.PositionalNamesDistinct | serializable_derive/src/lib.rs:24-32 | The names `f0`, `f1`, ... that `get_field_names` gives positional fields never clash. |
| Derive.FieldNames | serializable_derive/src/lib.rs:12-38 | `get_field_names` lists one name per field type: the declared names, or `f{i}` for the i-th positional field, or none. |
| Derive.BindLookup | serializable_derive/src/lib.rs:137-138 | After the generated `let (name, len) = ...;` statements with distinct names, each name holds the value decoded for its own field. |
| Derive.BindOnlyLater | serializable_derive/src/lib.rs:137-138 | The bindings made from field i on bind no name outside those fields. |
| Derive.BindKeys | serializable_derive/src/lib.rs:137-138 | The generated statements bind exactly the field names. |
| Derive.ConstructBind | serializable_derive/src/lib.rs:155-214 | Constructing from the bindings of distinct field names gives back the decoded values in order. |
| Derive.BindConstruct | serializable_derive/src/lib.rs:155-214 | Conversely, binding the constructed fields again rebuilds any binding of exactly those names. |
| Derive.SerializeFieldsAgree | serializable_derive/src/lib.rs:68-127 | The serialize body depends only on each field's encoder and value. The four `prepend_self`/`use_ref` forms and the `self.i`/`f{i}` forms therefore write the same bytes. |
| Derive.DeserializeFields | serializable_derive/src/lib.rs:129-153 | A successful deserialize body returns one value per remaining field and ends between its start and the end of the input. |
| Derive.DeserializeFieldsAgree | serializable_derive/src/lib.rs:129-153 | The deserialize body depends only on the decoders of the fields it reads. |
| Derive.DeserializeFieldsShift | serializable_derive/src/lib.rs:309-319 | Reading fields after one extra leading byte reads the same values and ends one byte later. |
| Derive.DeserializeSerializedFields | serializable_derive/src/lib.rs:129-153 | Run over the serialize body's bytes followed by anything, the deserialize body returns the field values and stops right after the last field. |
| Derive.DeserializedFieldsCanonical | serializable_derive/src/lib.rs:129-153 | Whatever the deserialize body accepts are values each field's type accepts, and serializing them again gives exactly the bytes read. |
| Derive.DecodeStruct | serializable_derive/src/lib.rs:234-238 | A generated struct `deserialize` never reports more bytes consumed than it was given. |
| Derive.EncodeVariant | serializable_derive/src/lib.rs:297-304 | A variant's serialization is its index byte followed by its fields serialized as a struct. |
| Derive.StructRoundTrip | serializable_derive/src/lib.rs:221-241 | A derived struct reads back from its serialization followed by anything, consuming exactly its serialization. A unit struct takes no bytes. |
| Derive.StructCanonical | serializable_derive/src/lib.rs:221-241 | A decoded derived struct has one accepted value per field, and re-serializes to exactly the bytes consumed. |
| Derive.DecodeEnum | serializable_derive/src/lib.rs:306-324 | A generated enum `deserialize` never reports more bytes consumed than it was given. |
| Derive.DecodeEnumOutcome | serializable_derive/src/lib.rs:306-324 | Empty input gives "Invalid data size", and a first byte with no variant at that position gives "Invalid variant index". Otherwise the selected variant's first field error is returned. A success is the variant the first byte names and consumes at least that byte. |
| Derive.VariantIsTaggedStruct | serializable_derive/src/lib.rs:293-324 | Decoding an enum value whose first byte is k is decoding the k-th variant's fields as a struct from the next byte, tagged with k and one byte longer. |
| Derive.EnumRoundTrip | serializable_derive/src/lib.rs:242-327 | The k-th variant is written with index byte k and reads back as the k-th variant with the same fields, consuming exactly its serialization. |
| Derive.EnumCanonical | serializable_derive/src/lib.rs:242-327 | A decoded enum value is the variant its first byte selects, with as many accepted fields as that variant declares, and it re-serializes to exactly the bytes consumed. |
| Derive.FieldsExtend | serializable_derive/src/lib.rs:137-138 | When each field decoder is unchanged by appended bytes once settled, so is the generated field-by-field read, first error included. |
| Derive.StructExtends | serializable_derive/src/lib.rs:234-238 | Once a generated struct `deserialize` settles, appending bytes does not change what it returns. |
| Derive.EnumExtends | serializable_derive/src/lib.rs:306-324 | Once a generated enum `deserialize` returns a value, "Invalid variant index" or a field's own error other than a short input, appending bytes does not change what it returns. |
| Codec.Decode | src/serializable.rs:8 | `deserialize`, for every non-recursive type, never reports more bytes consumed than it was given. |
| Properties.DecoderConsumes | src/serializable.rs:8 | Each non-recursive type's decoder, taken as a function, consumes at most its input. |
| Properties.FieldDecoderConsumes | serializable_derive/src/lib.rs:137 | Each field decoder consumes at most its input, so `offset += len` stays in bounds. |
| Properties.VariantDecoderConsumes | serializable_derive/src/lib.rs:317-319 | Each variant's field decoders consume at most their input. |
| Properties.RoundTrip | src/serializable.rs:3-9 | For every well-formed, non-recursive type and every value of it, deserializing the serialization followed by anything gives the value back and consumes exactly the serialization. |
| Properties.VecValueRoundTrip | src/serializable.rs:115-146 | The round-trip law for `Vec<T>`, given the law for T. |
| Properties.ArrayValueRoundTrip | src/serializable.rs:422-439 | The round-trip law for `[T; L]`, given the law for T. |
| Properties.OptionValueRoundTrip | src/serializable.rs:441-474 | The round-trip law for `Option<T>`, given the law for T. |
| Properties.StructValueRoundTrip | serializable_derive/src/lib.rs:221-241 | The round-trip law for derived structs, given the law for each field type. |
| Properties.VariantRoundTrip | serializable_derive/src/lib.rs:242-327 | The round-trip law for derived enums, given the law for each variant's field types. |
| Properties.ElementsRoundTrip | src/serializable.rs:120-123 | Every element of a container of T round-trips through T's codec. |
| Properties.FieldValuesRoundTrip | serializable_derive/src/lib.rs:137 | Every field of a derived struct round-trips through its own type's codec. |
| Properties.DecodeCanonical | src/serializable.rs:3-9 | For every non-recursive type, whatever `deserialize` accepts is a value of the type. Re-serializing it gives exactly the bytes consumed, so every accepted input is the unique serialization of its value. |
| Properties.ElementsCanonical | src/serializable.rs:139 | T's decoder, used as the element decoder, is canonical for values of T. |
| Properties.VecDecodeCanonical | src/serializable.rs:127-145 | Canonicity for `Vec<T>`. |
| Properties.ArrayDecodeCanonical | src/serializable.rs:428-438 | Canonicity for `[T; L]`. |
| Properties.OptionDecodeCanonical | src/serializable.rs:457-474 | Canonicity for `Option<T>`. |
| Properties.StructDecodeCanonical | serializable_derive/src/lib.rs:234-238 | Canonicity for derived structs. |
| Properties.EnumDecodeCanonical | serializable_derive/src/lib.rs:306-324 | Canonicity for derived enums. |
| Properties.DecodeExtends | src/serializable.rs:3-9 | For every non-recursive type, once `deserialize` returns a value or an error other than "Invalid data length" or "Invalid data size", appending bytes to its input does not change what it returns: it reads only what it consumes. |
| Properties.ElementsExtend | src/serializable.rs:139 | T's decoder, used as the element decoder, is unchanged by appended bytes once settled. |
| Properties.FieldTypesExtend | serializable_derive/src/lib.rs:137 | Each field's decoder is unchanged by appended bytes once settled. |
| Properties.VariantTypesExtend | serializable_derive/src/lib.rs:317-319 | Each variant field's decoder is unchanged by appended bytes once settled. |
| Properties.EncodeInjective | src/serializable.rs:3-9 | Two values of a non-recursive type with the same serialization are equal. |
| Properties.PrefixFree | src/serializable.rs:3-9 | No value's serialization is a proper prefix of another's of the same non-recursive type, so values can be concatenated without separators. |
| Properties.DecodedPrefix | src/serializable.rs:3-9 | For a non-recursive type, if `deserialize` succeeds on a prefix of v's serialization, it reads v and that prefix is the whole serialization. |
| Properties.TruncatedEncodingFails | src/serializable.rs:3-9 | For a non-recursive type, cutting a serialization short always makes `deserialize` return an error. The error is "Invalid data length", or "Invalid data size" for an enum cut before its index byte, never an error about the bytes present. |
| Properties.FieldNamesDoNotMatter | serializable_derive/src/lib.rs:68-153 | Structs with the same field types in the same order, named or positional, have the same serialize and deserialize. |
| Properties.EnumLayout | serializable_derive/src/lib.rs:293-324 | A derived enum value is its variant's position as one byte, then the variant's fields laid out as a struct. It decodes as that struct after the byte. |
| Properties.UnitStructIsEmpty | serializable_derive/src/lib.rs:122-125 | A unit struct serializes to nothing and deserializes from any input, consuming nothing. |
| Properties.ConstructorRebuildsFields | serializable_derive/src/lib.rs:155-214 | For a well-formed field list, binding the decoded values to the field names and running the constructor rebuilds the values in declaration order, as `Decode` returns them. |
| Scenarios.HelloWorldIsUtf8 | src/lib.rs:22 | "Hello world" is valid UTF-8. |
| Scenarios.TestIntBytes | src/lib.rs:22 | 0x12345678 as `u32` is 12 34 56 78, and 0x9ABC as `u16` is 9A BC. |
| Scenarios.UnnamedTestStructLayout | src/lib.rs:30-36 | The positional test struct serializes to its 6 integer bytes, the length 11, and the text. |
| Scenarios.NamedTestStructLayout | src/lib.rs:11-23 | The named test struct has the same 21 bytes. |
| Scenarios.TestFieldsConform | src/lib.rs:11-34 | Both test structs are well-formed, and the test values are values of their types. |
| Scenarios.TestStructsRoundTrip | src/lib.rs:19-39 | `serialize_and_deserialize_named` and `_unnamed`: the 21 bytes read back as the test value, and all 21 are consumed. |
| Scenarios.TestEnumWellFormed | src/lib.rs:53-61 | `TestEnum` is a well-formed enum. |
| Scenarios.TestEnumCLayout | src/lib.rs:65-66 | `TestEnum::C("Hello world")` is the byte 2, the length 11 and the text. |
| Scenarios.TestEnumRoundTrip | src/lib.rs:62-70 | `serialize_and_deserialize_enum`: the 16 bytes read back as `TestEnum::C("Hello world")`, and all are consumed. |
| Scenarios.VecTestFieldsConform | src/lib.rs:72-82 | `TestStructWithVec` is well-formed, and the test value is a value of it. |
| Scenarios.TestStructWithVecRoundTrip | src/lib.rs:79-87 | `serialize_and_deserialize_vec`: the serialization reads back as the test value and is consumed entirely. |
| Scenarios.SmallLengthPrefix | src/serializable.rs:87 | A length below 256 is written as three zero bytes and the length. |
| Scenarios.ByteValuesEncode | src/serializable.rs:225-229 | The `u8` elements of a `Vec<u8>` are written as the bytes themselves. |
| Scenarios.TestStructWithVecLayoutWith | src/lib.rs:72-78 | `TestStructWithVec` is its u32 and u16 in big-endian order, then the vector's own serialization. |
| Scenarios.TestStructWithVecLayout | src/lib.rs:72-87 | `TestStructWithVec { a: 0x12345678, b: 0x9ABC, c: vec![1, ..., 9] }` is 12 34 56 78 9A BC, then 00 00 00 09, then the bytes 1 to 9. |
| Imperative.SerializeSocketAddr | src/serializable.rs:13-30 | The pushes and extends of `SocketAddr::serialize` build exactly the specified encoding. |
| Imperative.SerializeString | src/serializable.rs:85-90 | `String::serialize` builds the length prefix followed by the text. |
| Imperative.SerializeVec | src/serializable.rs:117-125 | The loop of `Vec<T>::serialize` builds the count followed by each element's serialization, in order. |
| Imperative.DecodeElements | src/serializable.rs:135-143 | The element loop, with its early return on the first error, computes the element-decoding specification, outcome and offset both. |
| Imperative.DeserializeVec | src/serializable.rs:127-145 | `Vec<T>::deserialize` computes `Containers.DecodeVec`. |
| Imperative.DeserializeArray | src/serializable.rs:428-438 | `[T; L]::deserialize` computes `Containers.DecodeArray`. |
| Imperative.SerializeOption | src/serializable.rs:443-455 | `Option<T>::serialize` pushes the tag and then the payload. |
| Imperative.SerializeStruct | serializable_derive/src/lib.rs:229-233 | The generated `bytes.extend` sequence builds the struct encoding. |
| Imperative.SerializeVariant | serializable_derive/src/lib.rs:297-304 | The generated enum `serialize` pushes the variant index and then the fields. |
| Imperative.DeserializeFieldsFrom | serializable_derive/src/lib.rs:137-138 | The generated `let ... ?; offset += len;` sequence computes the field-decoding specification, including its first error. |
| Imperative.DeserializeStruct | serializable_derive/src/lib.rs:234-238 | The generated struct `deserialize` computes `Derive.DecodeStruct`. |
| Imperative.DeserializeEnum | serializable_derive/src/lib.rs:306-324 | The generated enum `deserialize` computes `Derive.DecodeEnum`. |
| Findings.DecodeStringAsWritten | src/serializable.rs:99-109 | `String::deserialize` with `len + 4` taken in `u32`, in both debug and release builds. When it returns a success, the bytes consumed are within the input. |
| Findings.OverflowingLengthPanics | src/serializable.rs:99-109 | With four or more bytes and a length prefix of 2^32 - 4 or more, the code as written panics in either build. |
| Findings.AllOnesPrefixPanics | src/serializable.rs:99-109 | On FF FF FF FF the code as written panics, while the intended decoder reports "Invalid data length". |
| Findings.AsWrittenAgreesBelowOverflow | src/serializable.rs:99-109 | For every shorter input, or any length prefix below 2^32 - 4, the code as written returns exactly what `Primitives.DecodeString` does. |
| Findings.ByteView | serializable_derive/src/lib.rs:137 | After `let (bytes, len) = ...;` binds a `Vec<u8>` or `[u8; N]` field, `&bytes[offset..]` reads that field's own bytes, in order. |
| Findings.DeserializeFieldsAsWritten | serializable_derive/src/lib.rs:137-138 | The generated field reads as written, where a field named `bytes` replaces the input of the reads after it. A success yields one value per remaining field. |
| Findings.DecodeStructAsWritten | serializable_derive/src/lib.rs:234-238 | The generated struct `deserialize` as written. A success is a record with one value per field. |
| Findings.FieldsAsWrittenAgree | serializable_derive/src/lib.rs:137-138 | With no field named `bytes` before the last one, the reads as written return exactly what the intended reads return, and never panic. |
| Findings.StructAsWrittenAgrees | serializable_derive/src/lib.rs:234-238 | For every struct the model calls well-formed, the code as written decodes exactly as `Codec.Decode` does. |
| Findings.ShadowingValueConforms | serializable_derive/src/lib.rs:12-66 | `struct S { bytes: Vec<u8>, c: u8 }` has distinct field names that compile, and `S { bytes: vec![7], c: 9 }` is a value of it. `Codec.WellFormed` rejects S. |
| Findings.ShadowingEncoding | serializable_derive/src/lib.rs:229-233 | `S { bytes: vec![7], c: 9 }` serializes to 00 00 00 01 07 09. |
| Findings.ShadowingFieldPanics | serializable_derive/src/lib.rs:234-238 | On 00 00 00 01 07 09, S's `deserialize` as written panics when it slices the one-byte field `bytes` at offset 5. The intended decoder reads the value back and consumes all 6 bytes. |

## Left out

- `f64` and `f32` (src/serializable.rs:338-374): floating point is not modelled. Their byte layout is that of `u64` and `u32` of the bit pattern.
- `SystemTime` (src/serializable.rs:405-420): the clock type is not modelled.
- IPv6 flow information and scope id: `deserialize` sets both to 0 and `serialize` does not write them. The model's IPv6 address has neither, so its round trip is exact only for addresses whose flow information and scope id are 0.
- `[T; L]::deserialize` (src/serializable.rs:429-434) calls `assume_init()` on uninitialised memory, which is undefined behaviour as soon as it runs. `ret[i] = item` then drops the uninitialised old element on every iteration, on the success path too, for element types with drop glue (`String`, `Vec`, derived types holding them). An early error also drops the partly filled array. The model builds the element sequence instead. So `Containers.ArrayRoundTrip`, `Properties.ArrayValueRoundTrip` and the other array laws describe the source only for element types without drop glue (integers, `bool`, `SocketAddr`, and arrays and options of these). For other element types the source's behaviour is undefined.
- `union`s: the macro refuses them with a panic at compile time.
- The token-stream plumbing (`syn` parsing, `quote!`, spans, `proc_macro` entry) is not modelled. The model gives the run-time meaning of the code the macro emits.
- Codec.Encode: a value of the wrong type for its schema encodes to nothing. Rust's typing rules such pairs out, and every law requires `Conforms`.
- Codec.Conforms: strings and vectors of 2^32 or more elements are excluded, because `len() as u32` truncates the length prefix. `Primitives.LengthPrefix` still writes the length modulo 2^32.
- Codec.WellFormed: requires three things:
  - distinct field names, which the compiler enforces;
  - at most 256 variants, because the emitted variant index is a `u8` literal;
  - no named struct field `bytes` before the last field. Such a struct compiles when that field is a `Vec<u8>` or `[u8; N]`, and its generated `deserialize` then reads the later fields from that field's value (see Findings). The laws below are therefore not stated for it.
- Properties.RoundTrip: stated for non-recursive types only. A self-referential type, one that reaches itself through `Vec<Self>` such as `struct Tree { v: u8, kids: Vec<Tree> }` or `enum Expr { Lit(u8), List(Vec<Expr>) }`, has no `Schema`, because `Schema` is an inductive datatype, so this law does not cover it. The generic `Containers` and `Derive` laws it is built from quantify over arbitrary element and field codecs and apply at each level of such a type.
- Codec.Decode: stated for non-recursive types only. A self-referential type, one that reaches itself through `Vec<Self>` such as `struct Tree { v: u8, kids: Vec<Tree> }` or `enum Expr { Lit(u8), List(Vec<Expr>) }`, has no `Schema`, because `Schema` is an inductive datatype, so this law does not cover it. The generic `Containers` and `Derive` laws it is built from quantify over arbitrary element and field codecs and apply at each level of such a type.
- Properties.DecoderConsumes: stated for non-recursive types only. A self-referential type, one that reaches itself through `Vec<Self>` such as `struct Tree { v: u8, kids: Vec<Tree> }` or `enum Expr { Lit(u8), List(Vec<Expr>) }`, has no `Schema`, because `Schema` is an inductive datatype, so this law does not cover it. The generic `Containers` and `Derive` laws it is built from quantify over arbitrary element and field codecs and apply at each level of such a type.
- Properties.DecodeCanonical: stated for non-recursive types only. A self-referential type, one that reaches itself through `Vec<Self>` such as `struct Tree { v: u8, kids: Vec<Tree> }` or `enum Expr { Lit(u8), List(Vec<Expr>) }`, has no `Schema`, because `Schema` is an inductive datatype, so this law does not cover it. The generic `Containers` and `Derive` laws it is built from quantify over arbitrary element and field codecs and apply at each level of such a type.
- Properties.DecodeExtends: stated for non-recursive types only. A self-referential type, one that reaches itself through `Vec<Self>` such as `struct Tree { v: u8, kids: Vec<Tree> }` or `enum Expr { Lit(u8), List(Vec<Expr>) }`, has no `Schema`, because `Schema` is an inductive datatype, so this law does not cover it. The generic `Containers` and `Derive` laws it is built from quantify over arbitrary element and field codecs and apply at each level of such a type.
- Properties.EncodeInjective: stated for non-recursive types only. A self-referential type, one that reaches itself through `Vec<Self>` such as `struct Tree { v: u8, kids: Vec<Tree> }` or `enum Expr { Lit(u8), List(Vec<Expr>) }`, has no `Schema`, because `Schema` is an inductive datatype, so this law does not cover it. The generic `Containers` and `Derive` laws it is built from quantify over arbitrary element and field codecs and apply at each level of such a type.
- Properties.PrefixFree: stated for non-recursive types only. A self-referential type, one that reaches itself through `Vec<Self>` such as `struct Tree { v: u8, kids: Vec<Tree> }` or `enum Expr { Lit(u8), List(Vec<Expr>) }`, has no `Schema`, because `Schema` is an inductive datatype, so this law does not cover it. The generic `Containers` and `Derive` laws it is built from quantify over arbitrary element and field codecs and apply at each level of such a type.
- Properties.DecodedPrefix: stated for non-recursive types only. A self-referential type, one that reaches itself through `Vec<Self>` such as `struct Tree { v: u8, kids: Vec<Tree> }` or `enum Expr { Lit(u8), List(Vec<Expr>) }`, has no `Schema`, because `Schema` is an inductive datatype, so this law does not cover it. The generic `Containers` and `Derive` laws it is built from quantify over arbitrary element and field codecs and apply at each level of such a type.
- Properties.TruncatedEncodingFails: stated for non-recursive types only. A self-referential type, one that reaches itself through `Vec<Self>` such as `struct Tree { v: u8, kids: Vec<Tree> }` or `enum Expr { Lit(u8), List(Vec<Expr>) }`, has no `Schema`, because `Schema` is an inductive datatype, so this law does not cover it. The generic `Containers` and `Derive` laws it is built from quantify over arbitrary element and field codecs and apply at each level of such a type.
- Properties.RoundTrip: holds of the intended struct decoder. For a struct with a field named `bytes` before the last field, the code as written panics or fails instead (`Findings.ShadowingFieldPanics`), and `Codec.WellFormed` excludes such structs.
- Properties.StructValueRoundTrip: the same restriction, through `Codec.WellFormed`.
- Properties.FieldNamesDoNotMatter: compares the intended decoders. As written, a named field `bytes` before the last field changes what the later fields read, so there the names do matter.
- Other field names the generated code cannot bear are not modelled, because they do not compile:
  - a struct field named `offset` (`offset += len` on the field's value) or `len` (`len` bound twice by one `let`);
  - an enum variant field named `bytes`, which shadows the `Vec` being built in the generated `serialize`.
- Codec.FieldDecoderOf: a field index past the last field returns an error. The generated code never asks for one.
- Error values are modelled by their message kind only. `io::ErrorKind` is always `InvalidData`, and the formatted UTF-8 error detail is dropped.
- `String::from_utf8` is modelled by the well-formedness rules of RFC 3629 (`Utf8.ValidUtf8`). The standard library's error position is not modelled.
- Values are compared structurally, as the tests' `PartialEq` derives do.

## Findings

| source | as written | input that shows it | evidently intended | confidence | as-written member | corrected member |
|---|---|---|---|---|---|---|
| src/serializable.rs:99-109 | `String::deserialize` computes the end of the text as `len + 4` in `u32`. For a prefix of 2^32 - 4 or more, that sum overflows. With overflow checks, the addition panics. Without them, it wraps below 4, passes the length check, and the slice `data[4..w]` panics. | the four bytes FF FF FF FF | the error "Invalid data length", as for any other prefix longer than the input | high; not executed | Findings.AllOnesPrefixPanics | Primitives.DecodeStringOutcome |
| serializable_derive/src/lib.rs:137-138 | The generated struct `deserialize` binds each field with `let (name, len) = ...;` in the scope of its parameter `bytes`. A named field `bytes` before the last field shadows the input, so the later fields read from that field's own value. | `struct S { bytes: Vec<u8>, c: u8 }` with `S { bytes: vec![7], c: 9 }`, serialized as 00 00 00 01 07 09 | every field read from the input, so the value reads back and all 6 bytes are consumed | high; not executed | Findings.ShadowingFieldPanics | Derive.StructRoundTrip |
