/**
 * The entities the codec works on: the static types a value can have (the
 * primitives and containers that implement `Serializable`, and the struct and
 * enum shapes the derive macro accepts), the values themselves, and the
 * errors a decoder reports.
 */
module Types {
  import opened Bytes

  /** A Rust identifier. */
  type Ident = string

  /** The ten fixed-width integer types with a `Serializable` implementation. */
  datatype IntKind = U8 | U16 | U32 | U64 | U128 | I8 | I16 | I32 | I64 | I128
  {
    /** Width in bytes. */
    function Width(): nat {
      match this
      case U8 | I8 => 1
      case U16 | I16 => 2
      case U32 | I32 => 4
      case U64 | I64 => 8
      case U128 | I128 => 16
    }

    predicate IsSigned() {
      I8? || I16? || I32? || I64? || I128?
    }

    /** x is a value of this integer type (two's complement range when signed). */
    predicate Holds(x: int) {
      if IsSigned() then -(Pow256(Width()) / 2) <= x < Pow256(Width()) / 2
      else 0 <= x < Pow256(Width())
    }
  }

  /**
   * `std::net::SocketAddr`. An IPv4 address is its four octets; an IPv6
   * address is its eight 16-bit segments (`Ipv6Addr::new`). The IPv6 flow
   * information and scope id are not part of the model.
   */
  datatype SocketAddr =
    | V4(octets: seq<Byte>, port: nat)
    | V6(segments: seq<nat>, port: nat)

  predicate ValidSocketAddr(a: SocketAddr) {
    a.port < 0x1_0000 &&
    match a
    case V4(octets, _) => |octets| == 4
    case V6(segments, _) => |segments| == 8 && forall i :: 0 <= i < 8 ==> segments[i] < 0x1_0000
  }

  /** A field of a struct or enum variant with braces: `name: ty`. */
  datatype NamedField = NamedField(name: Ident, ty: Schema)

  /** The three field shapes of `syn::Fields`: `{ a: T, .. }`, `(T, ..)` and none. */
  datatype Fields =
    | Named(named: seq<NamedField>)
    | Unnamed(unnamed: seq<Schema>)
    | Unit

  /** One variant of an enum, in declaration order. */
  datatype VariantDecl = VariantDecl(name: Ident, fields: Fields)

  /**
   * The static type of a serialized value. A schema is a finite tree, so a
   * derived type that reaches itself through `Vec<Self>` has none.
   */
  datatype Schema =
    | IntT(kind: IntKind)
    | BoolT
    | SocketAddrT
    | StringT
    | VecT(elem: Schema)
    | ArrayT(len: nat, elem: Schema)
    | OptionT(elem: Schema)
    | StructT(fields: Fields)
    | EnumT(variants: seq<VariantDecl>)

  /** A value of some Schema. Struct and variant fields are in declaration order. */
  datatype Value =
    | IntV(x: int)
    | BoolV(b: bool)
    | AddrV(addr: SocketAddr)
    | StrV(utf8: seq<Byte>)
    | ListV(elems: seq<Value>)
    | NoneV
    | SomeV(inner: Value)
    | RecordV(fields: seq<Value>)
    | VariantV(index: nat, fields: seq<Value>)

  /** The `std::io::Error` messages the decoders produce (all of kind InvalidData). */
  datatype DecodeError =
    | InvalidDataLength     // "Invalid data length"
    | InvalidBoolValue      // "Invalid bool value"
    | InvalidAddressType    // "Invalid address type"
    | InvalidUtf8           // "Invalid utf8 string format ..."
    | InvalidOptionType     // "Invalid option type"
    | InvalidDataSize       // "Invalid data size" (derived enums, empty input)
    | InvalidVariantIndex   // "Invalid variant index"

  /** `std::io::Result`. */
  datatype Result<T> = Ok(value: T) | Err(error: DecodeError)

  /** The errors that only say the input ran out before the value did. */
  predicate ShortInput(e: DecodeError) {
    e == InvalidDataLength || e == InvalidDataSize
  }

  /** A value, or an error about the bytes themselves rather than their number. */
  predicate Settled<T>(r: Result<T>) {
    r.Ok? || !ShortInput(r.error)
  }

  /** `T::serialize`, for whatever type T a generic implementation is instantiated with. */
  type Encoder = Value -> seq<Byte>

  /** `T::deserialize`: the value and the number of bytes consumed. */
  type Decoder = seq<Byte> -> Result<(Value, nat)>

  /** dec never claims to have consumed more bytes than it was given. */
  ghost predicate Consumes(dec: Decoder) {
    forall d :: dec(d).Ok? ==> dec(d).value.1 <= |d|
  }

  /**
   * The contract of the `Serializable` trait for one value: deserializing its
   * serialization followed by any further bytes gives the value back and
   * reports the serialization's length as consumed.
   */
  ghost predicate RoundTrips(enc: Encoder, dec: Decoder, x: Value) {
    forall rest :: dec(enc(x) + rest) == Ok((x, |enc(x)|))
  }

  /**
   * dec reads only the bytes it needs: once its outcome on d is settled,
   * bytes appended to d do not change it.
   */
  ghost predicate PrefixStable(dec: Decoder) {
    forall d, q :: Settled(dec(d)) ==> dec(d + q) == dec(d)
  }

  /**
   * The converse: whatever dec accepts is a value ok accepts, and it was read
   * from exactly its own serialization.
   */
  ghost predicate Canonical(enc: Encoder, dec: Decoder, ok: Value -> bool) {
    forall d :: dec(d).Ok? ==>
      dec(d).value.1 <= |d| && ok(dec(d).value.0) && enc(dec(d).value.0) == d[..dec(d).value.1]
  }
}
