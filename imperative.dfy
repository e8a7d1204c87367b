/**
 * The codecs as the source writes them: a byte vector grown with `push` and
 * `extend`, and decode loops that advance a read offset and collect the
 * elements. Each method is proved to compute its specification function.
 */
module Imperative {
  import opened Bytes
  import opened Types
  import opened Primitives
  import opened Containers
  import opened Derive

  /** Puts the values collected so far in front of the outcome of the rest of a decode loop. */
  function Prepend(ret: seq<Value>, r: Result<(seq<Value>, nat)>): Result<(seq<Value>, nat)> {
    match r
    case Ok((more, end)) => Ok((ret + more, end))
    case Err(err) => Err(err)
  }

  lemma PrependNothing(r: Result<(seq<Value>, nat)>)
    ensures Prepend([], r) == r
  {
    if r.Ok? {
      assert [] + r.value.0 == r.value.0;
    }
  }

  lemma PrependOne(ret: seq<Value>, x: Value, r: Result<(seq<Value>, nat)>)
    ensures Prepend(ret, Prepend([x], r)) == Prepend(ret + [x], r)
  {
    if r.Ok? {
      assert ret + ([x] + r.value.0) == ret + [x] + r.value.0;
    }
  }

  /** One turn of the element loop: an error ends it, a value goes in front of the rest. */
  lemma DecodeEachStep(dec: Decoder, count: nat, data: seq<Byte>, read: nat)
    requires Consumes(dec) && read <= |data| && count > 0
    ensures dec(data[read..]).Err? ==> DecodeEach(dec, count, data, read) == Err(dec(data[read..]).error)
    ensures dec(data[read..]).Ok? ==>
      var (x, n) := dec(data[read..]).value;
      read + n <= |data| &&
      DecodeEach(dec, count, data, read) == Prepend([x], DecodeEach(dec, count - 1, data, read + n))
  {
  }

  /** One turn of an element loop that has collected taken so far, with left elements to go. */
  lemma ElementLoopStep(dec: Decoder, len: nat, data: seq<Byte>, start: nat, taken: seq<Value>, left: nat, offset: nat)
    requires Consumes(dec) && start <= |data| && offset <= |data| && left > 0
    requires DecodeEach(dec, len, data, start) == Prepend(taken, DecodeEach(dec, left, data, offset))
    ensures dec(data[offset..]).Err? ==> DecodeEach(dec, len, data, start) == Err(dec(data[offset..]).error)
    ensures dec(data[offset..]).Ok? ==>
      var (x, n) := dec(data[offset..]).value;
      offset + n <= |data| &&
      DecodeEach(dec, len, data, start) == Prepend(taken + [x], DecodeEach(dec, left - 1, data, offset + n))
  {
    DecodeEachStep(dec, left, data, offset);
    if dec(data[offset..]).Ok? {
      var (x, n) := dec(data[offset..]).value;
      PrependOne(taken, x, DecodeEach(dec, left - 1, data, offset + n));
    }
  }

  /** One field of the generated field reads: an error ends them, a value goes in front of the rest. */
  lemma DeserializeFieldsStep(count: nat, dec: FieldDecoder, bytes: seq<Byte>, i: nat, offset: nat)
    requires FieldsConsume(dec) && i < count && offset <= |bytes|
    ensures dec(i, bytes[offset..]).Err? ==> DeserializeFields(count, dec, bytes, i, offset) == Err(dec(i, bytes[offset..]).error)
    ensures dec(i, bytes[offset..]).Ok? ==>
      var (x, n) := dec(i, bytes[offset..]).value;
      offset + n <= |bytes| &&
      DeserializeFields(count, dec, bytes, i, offset) == Prepend([x], DeserializeFields(count, dec, bytes, i + 1, offset + n))
  {
  }

  // ------------------------------------------------------------- primitives

  /** `SocketAddr::serialize`: push the family byte, extend with the octets, then the port. */
  method SerializeSocketAddr(a: SocketAddr) returns (vec: seq<Byte>)
    requires ValidSocketAddr(a)
    ensures vec == EncodeSocketAddr(a)
  {
    vec := [];
    match a {
      case V4(octets, port) =>
        vec := vec + [0];
        vec := vec + octets;
        vec := vec + ToBigEndian(port, 2);
      case V6(segments, port) =>
        vec := vec + [1];
        vec := vec + SegmentBytes(segments);
        vec := vec + ToBigEndian(port, 2);
    }
  }

  /** `String::serialize`: extend with the 32-bit length, then with the bytes. */
  method SerializeString(s: seq<Byte>) returns (vec: seq<Byte>)
    ensures vec == EncodeString(s)
  {
    vec := [];
    vec := vec + LengthPrefix(|s|);
    vec := vec + s;
  }

  // ------------------------------------------------------------- containers

  /** `Vec<T>::serialize`: the 32-bit count, then each element's serialization in turn. */
  method SerializeVec(enc: Encoder, xs: seq<Value>) returns (ret: seq<Byte>)
    ensures ret == EncodeVec(enc, xs)
  {
    ret := LengthPrefix(|xs|);
    var i := 0;
    while i < |xs|
      invariant 0 <= i <= |xs|
      invariant ret + EncodeEach(enc, xs[i..]) == EncodeVec(enc, xs)
    {
      assert xs[i..][1..] == xs[i + 1..];
      ret := ret + enc(xs[i]);
      i := i + 1;
    }
    assert xs[i..] == [];
  }

  /**
   * The element loop of `Vec<T>::deserialize` and `[T; L]::deserialize`: count element decodes, each
   * from where the previous one stopped, pushing each element; the first
   * error is returned.
   */
  method DecodeElements(dec: Decoder, count: nat, data: seq<Byte>, start: nat) returns (r: Result<(seq<Value>, nat)>)
    requires Consumes(dec) && start <= |data|
    ensures r == DecodeEach(dec, count, data, start)
  {
    var ret: seq<Value> := [];
    var read: nat := start;
    var left := count;
    PrependNothing(DecodeEach(dec, count, data, start));
    while left > 0
      invariant read <= |data|
      invariant DecodeEach(dec, count, data, start) == Prepend(ret, DecodeEach(dec, left, data, read))
    {
      ElementLoopStep(dec, count, data, start, ret, left, read);
      match dec(data[read..]) {
        case Err(err) =>
          return Err(err);
        case Ok((item, itemLen)) =>
          ret := ret + [item];
          read := read + itemLen;
          left := left - 1;
      }
    }
    assert ret + [] == ret;
    return Ok((ret, read));
  }

  /** `Vec<T>::deserialize`: read the 32-bit count, then that many elements from byte 4 on. */
  method DeserializeVec(dec: Decoder, data: seq<Byte>) returns (r: Result<(Value, nat)>)
    requires Consumes(dec)
    ensures r == DecodeVec(dec, data)
  {
    if |data| < 4 {
      return Err(InvalidDataLength);
    }
    var len := FromBigEndian(data[..4]);
    var items := DecodeElements(dec, len, data, 4);
    match items {
      case Err(err) => r := Err(err);
      case Ok((ret, read)) => r := Ok((ListV(ret), read));
    }
  }

  /**
   * `[T; L]::deserialize`: L elements, each decoded from where the previous
   * one stopped, collected in order; the uninitialised buffer the source
   * fills slot by slot is the sequence the element loop builds.
   */
  method DeserializeArray(len: nat, dec: Decoder, data: seq<Byte>) returns (r: Result<(Value, nat)>)
    requires Consumes(dec)
    ensures r == DecodeArray(len, dec, data)
  {
    var items := DecodeElements(dec, len, data, 0);
    match items {
      case Err(err) => r := Err(err);
      case Ok((ret, offset)) => r := Ok((ListV(ret), offset));
    }
  }

  /** `Option<T>::serialize`: push the tag, then extend with the payload when there is one. */
  method SerializeOption(enc: Encoder, v: Value) returns (ret: seq<Byte>)
    ensures ret == EncodeOption(enc, v)
  {
    ret := [];
    if v.SomeV? {
      ret := ret + [1];
      ret := ret + enc(v.inner);
    } else {
      ret := ret + [0];
    }
  }

  // ---------------------------------------------------- derived struct/enum

  /** The generated struct `serialize`: `bytes.extend(..)` once per field, in order. */
  method SerializeStruct(enc: FieldEncoder, vals: seq<Value>) returns (bytes: seq<Byte>)
    ensures bytes == EncodeStruct(enc, vals)
  {
    bytes := [];
    for i := 0 to |vals|
      invariant bytes + SerializeFields(enc, vals, i) == EncodeStruct(enc, vals)
    {
      bytes := bytes + enc(i, vals[i]);
    }
  }

  /** The generated enum `serialize` for the variant at position index: push the index, then the fields. */
  method SerializeVariant(index: nat, enc: FieldEncoder, vals: seq<Value>) returns (bytes: seq<Byte>)
    requires index < 256
    ensures bytes == EncodeVariant(index, enc, vals)
  {
    bytes := [index];
    for i := 0 to |vals|
      invariant bytes + SerializeFields(enc, vals, i) == EncodeVariant(index, enc, vals)
    {
      bytes := bytes + enc(i, vals[i]);
    }
  }

  /**
   * The generated field reads: from `offset` on, `let (f, len) = ..?;
   * offset += len;` for each of the count fields.
   */
  method DeserializeFieldsFrom(count: nat, dec: FieldDecoder, bytes: seq<Byte>, start: nat) returns (r: Result<(seq<Value>, nat)>)
    requires FieldsConsume(dec) && start <= |bytes|
    ensures r == DeserializeFields(count, dec, bytes, 0, start)
  {
    var vals: seq<Value> := [];
    var offset: nat := start;
    PrependNothing(DeserializeFields(count, dec, bytes, 0, start));
    for i := 0 to count
      invariant offset <= |bytes|
      invariant DeserializeFields(count, dec, bytes, 0, start) == Prepend(vals, DeserializeFields(count, dec, bytes, i, offset))
    {
      DeserializeFieldsStep(count, dec, bytes, i, offset);
      match dec(i, bytes[offset..]) {
        case Err(err) =>
          return Err(err);
        case Ok((v, len)) =>
          PrependOne(vals, v, DeserializeFields(count, dec, bytes, i + 1, offset + len));
          vals := vals + [v];
          offset := offset + len;
      }
    }
    assert vals + [] == vals;
    return Ok((vals, offset));
  }

  /** The generated struct `deserialize`: the fields from offset 0, then the constructor. */
  method DeserializeStruct(count: nat, dec: FieldDecoder, bytes: seq<Byte>) returns (r: Result<(Value, nat)>)
    requires FieldsConsume(dec)
    ensures r == DecodeStruct(count, dec, bytes)
  {
    var fields := DeserializeFieldsFrom(count, dec, bytes, 0);
    match fields {
      case Err(err) => r := Err(err);
      case Ok((vals, offset)) => r := Ok((RecordV(vals), offset));
    }
  }

  /**
   * The generated enum `deserialize`: reject empty input, select the variant
   * by the first byte, read its fields from offset 1.
   */
  method DeserializeEnum(arity: seq<nat>, dec: VariantDecoder, bytes: seq<Byte>) returns (r: Result<(Value, nat)>)
    requires VariantsConsume(dec)
    ensures r == DecodeEnum(arity, dec, bytes)
  {
    if |bytes| == 0 {
      return Err(InvalidDataSize);
    }
    var index := bytes[0];
    if index as nat >= |arity| {
      return Err(InvalidVariantIndex);
    }
    var fields := DeserializeFieldsFrom(arity[index], VariantFields(dec, index as nat), bytes, 1);
    match fields {
      case Err(err) => r := Err(err);
      case Ok((vals, offset)) => r := Ok((VariantV(index as nat, vals), offset));
    }
  }
}
