/**
 * The hand-written `Serializable` implementations for atomic types: the
 * fixed-width integers, `bool`, `SocketAddr` and `String`. Each decoder
 * returns the value and the number of bytes it consumed, and ignores any
 * bytes after those.
 */
module Primitives {
  import opened Bytes
  import opened Utf8
  import opened Types

  // ---------------------------------------------------------------- integers

  /** `to_be_bytes` of x as the integer type k: w bytes, two's complement when signed. */
  function EncodeInt(k: IntKind, x: int): (r: seq<Byte>)
    ensures |r| == k.Width()
  {
    ToBigEndian(x % Pow256(k.Width()), k.Width())
  }

  /** The bytes spell out x modulo 256^w, which is x itself when x is not negative. */
  lemma EncodeIntValue(k: IntKind, x: int)
    ensures FromBigEndian(EncodeInt(k, x)) == x % Pow256(k.Width())
  {
    FromToBigEndian(x % Pow256(k.Width()), k.Width());
  }

  /** Reads the unsigned number u of w bytes as a value of k (two's complement when signed). */
  function AsKind(k: IntKind, u: nat): int {
    if k.IsSigned() && u >= Pow256(k.Width()) / 2 then u - Pow256(k.Width()) else u
  }

  /** `from_be_bytes` on the first w bytes, after the length check. */
  function DecodeInt(k: IntKind, data: seq<Byte>): (r: Result<(int, nat)>)
    ensures r.Ok? ==> r.value.1 <= |data|
  {
    if |data| < k.Width() then Err(InvalidDataLength)
    else Ok((AsKind(k, FromBigEndian(data[..k.Width()])), k.Width()))
  }

  /**
   * Decoding fails, with "Invalid data length", exactly when fewer than w
   * bytes are left; otherwise it yields a value of the type whose encoding
   * is exactly the w bytes read.
   */
  lemma DecodeIntOutcome(k: IntKind, data: seq<Byte>)
    ensures DecodeInt(k, data).Err? <==> |data| < k.Width()
    ensures DecodeInt(k, data).Err? ==> DecodeInt(k, data).error == InvalidDataLength
    ensures DecodeInt(k, data).Ok? ==> var (x, n) := DecodeInt(k, data).value;
      n == k.Width() && k.Holds(x) && EncodeInt(k, x) == data[..n]
  {
    if |data| >= k.Width() {
      var w := k.Width();
      var u := FromBigEndian(data[..w]);
      var x := AsKind(k, u);
      assert k.Holds(x) by {
        HalfPow(w);
      }
      assert EncodeInt(k, x) == data[..w] by {
        ModOfShifted(x, u, Pow256(w));
        ToFromBigEndian(data[..w]);
      }
    }
  }

  lemma HalfPow(w: nat)
    requires w > 0
    ensures Pow256(w) == 2 * (Pow256(w) / 2)
  {
  }

  /** x is congruent to u modulo p, and u is in [0, p): so x % p is u. */
  lemma ModOfShifted(x: int, u: nat, p: nat)
    requires p > 0 && u < p && (x == u || x == u - p)
    ensures x % p == u
  {
  }

  /** Decoding the encoding of x, followed by anything, gives back x and its width. */
  lemma IntRoundTrip(k: IntKind, x: int, rest: seq<Byte>)
    requires k.Holds(x)
    ensures DecodeInt(k, EncodeInt(k, x) + rest) == Ok((x, k.Width()))
  {
    var w := k.Width();
    var e := EncodeInt(k, x);
    assert (e + rest)[..w] == e;
    EncodeIntValue(k, x);
    HalfPow(w);
    var u := x % Pow256(w);
    if x >= 0 {
      ModOfShifted(x, x, Pow256(w));
    } else {
      ModOfShifted(x, x + Pow256(w), Pow256(w));
    }
    assert AsKind(k, u) == x;
  }

  // -------------------------------------------------------------------- bool

  /** One byte: 1 for true, 0 for false, the only two bytes the decoder accepts. */
  function EncodeBool(b: bool): (r: seq<Byte>)
    ensures |r| == 1 && r[0] <= 1 && (r[0] == 1 <==> b)
  {
    if b then [1] else [0]
  }

  /** One byte, which must be 0 (false) or 1 (true). */
  function DecodeBool(data: seq<Byte>): (r: Result<(bool, nat)>)
    ensures r.Ok? ==> r.value.1 <= |data|
  {
    if |data| < 1 then Err(InvalidDataLength)
    else if data[0] == 0 then Ok((false, 1))
    else if data[0] == 1 then Ok((true, 1))
    else Err(InvalidBoolValue)
  }

  /** Empty input is "Invalid data length", a first byte above 1 "Invalid bool value"; 0 and 1 decode. */
  lemma DecodeBoolOutcome(data: seq<Byte>)
    ensures |data| == 0 ==> DecodeBool(data) == Err(InvalidDataLength)
    ensures |data| > 0 && data[0] > 1 ==> DecodeBool(data) == Err(InvalidBoolValue)
    ensures DecodeBool(data).Ok? <==> |data| > 0 && data[0] <= 1
    ensures DecodeBool(data).Ok? ==> var (b, n) := DecodeBool(data).value;
      n == 1 && EncodeBool(b) == data[..1]
  {
  }

  lemma BoolRoundTrip(b: bool, rest: seq<Byte>)
    ensures DecodeBool(EncodeBool(b) + rest) == Ok((b, 1))
  {
  }

  // ------------------------------------------------------------- SocketAddr

  /** `Ipv6Addr::octets`: each 16-bit segment as two big-endian bytes. */
  function SegmentBytes(segments: seq<nat>): (r: seq<Byte>)
    ensures |r| == 2 * |segments|
  {
    if segments == [] then [] else ToBigEndian(segments[0], 2) + SegmentBytes(segments[1..])
  }

  /** The segments `u16::from_be_bytes` reads from consecutive byte pairs. */
  function Segments(octets: seq<Byte>): (r: seq<nat>)
    ensures |r| == |octets| / 2
  {
    if |octets| < 2 then [] else [FromBigEndian(octets[..2])] + Segments(octets[2..])
  }

  lemma {:induction false} SegmentsOfBytes(segments: seq<nat>)
    requires forall i :: 0 <= i < |segments| ==> segments[i] < 0x1_0000
    ensures Segments(SegmentBytes(segments)) == segments
  {
    if segments != [] {
      var b := SegmentBytes(segments);
      assert b[..2] == ToBigEndian(segments[0], 2);
      assert b[2..] == SegmentBytes(segments[1..]);
      FromToBigEndian(segments[0], 2);
      SegmentsOfBytes(segments[1..]);
    }
  }

  lemma {:induction false} BytesOfSegments(octets: seq<Byte>)
    requires |octets| % 2 == 0
    ensures SegmentBytes(Segments(octets)) == octets
    ensures forall i :: 0 <= i < |Segments(octets)| ==> Segments(octets)[i] < 0x1_0000
  {
    if |octets| >= 2 {
      ToFromBigEndian(octets[..2]);
      BytesOfSegments(octets[2..]);
      assert octets == octets[..2] + octets[2..];
    }
  }

  /** A family byte (0 for V4, 1 for V6), the address octets, then the port in big-endian. */
  function EncodeSocketAddr(a: SocketAddr): (r: seq<Byte>)
    ensures ValidSocketAddr(a) ==> |r| == (if a.V4? then 7 else 19)
  {
    match a
    case V4(octets, port) => [0] + octets + ToBigEndian(port, 2)
    case V6(segments, port) => [1] + SegmentBytes(segments) + ToBigEndian(port, 2)
  }

  function DecodeSocketAddr(data: seq<Byte>): (r: Result<(SocketAddr, nat)>)
    ensures r.Ok? ==> r.value.1 <= |data|
  {
    if |data| < 1 then Err(InvalidDataLength)
    else if data[0] == 0 then
      if |data| < 7 then Err(InvalidDataLength)
      else Ok((V4(data[1..5], FromBigEndian(data[5..7])), 7))
    else if data[0] == 1 then
      if |data| < 19 then Err(InvalidDataLength)
      else Ok((V6(Segments(data[1..17]), FromBigEndian(data[17..19])), 19))
    else Err(InvalidAddressType)
  }

  /**
   * The family byte must be 0 or 1 ("Invalid address type"), and 7 (V4) or
   * 19 (V6) bytes must be present ("Invalid data length"). What decodes is a
   * valid address whose encoding is exactly the bytes read.
   */
  lemma DecodeSocketAddrOutcome(data: seq<Byte>)
    ensures |data| == 0 ==> DecodeSocketAddr(data) == Err(InvalidDataLength)
    ensures |data| > 0 && data[0] > 1 ==> DecodeSocketAddr(data) == Err(InvalidAddressType)
    ensures |data| > 0 && data[0] == 0 ==> (DecodeSocketAddr(data).Ok? <==> |data| >= 7)
    ensures |data| > 0 && data[0] == 1 ==> (DecodeSocketAddr(data).Ok? <==> |data| >= 19)
    ensures DecodeSocketAddr(data).Err? ==> DecodeSocketAddr(data).error in {InvalidDataLength, InvalidAddressType}
    ensures DecodeSocketAddr(data).Ok? ==> var (a, n) := DecodeSocketAddr(data).value;
      ValidSocketAddr(a) && n == (if a.V4? then 7 else 19) && n <= |data| && EncodeSocketAddr(a) == data[..n]
  {
    if |data| >= 7 && data[0] == 0 {
      ToFromBigEndian(data[5..7]);
      assert data[..7] == [data[0]] + data[1..5] + data[5..7];
    } else if |data| >= 19 && data[0] == 1 {
      ToFromBigEndian(data[17..19]);
      BytesOfSegments(data[1..17]);
      assert data[..19] == [data[0]] + data[1..17] + data[17..19];
    }
  }

  lemma SocketAddrRoundTrip(a: SocketAddr, rest: seq<Byte>)
    requires ValidSocketAddr(a)
    ensures DecodeSocketAddr(EncodeSocketAddr(a) + rest) == Ok((a, |EncodeSocketAddr(a)|))
  {
    if a.V4? {
      V4RoundTrip(a, rest);
    } else {
      V6RoundTrip(a, rest);
    }
  }

  lemma V4RoundTrip(a: SocketAddr, rest: seq<Byte>)
    requires a.V4? && ValidSocketAddr(a)
    ensures DecodeSocketAddr(EncodeSocketAddr(a) + rest) == Ok((a, 7))
  {
    var port := ToBigEndian(a.port, 2);
    var e := [0] + a.octets + port + rest;
    assert EncodeSocketAddr(a) + rest == e;
    assert e[0] == 0 && |e| >= 7 && e[1..5] == a.octets;
    assert FromBigEndian(e[5..7]) == a.port by {
      assert e[5..7] == port;
      FromToBigEndian(a.port, 2);
    }
  }

  lemma V6RoundTrip(a: SocketAddr, rest: seq<Byte>)
    requires a.V6? && ValidSocketAddr(a)
    ensures DecodeSocketAddr(EncodeSocketAddr(a) + rest) == Ok((a, 19))
  {
    var seg, port := SegmentBytes(a.segments), ToBigEndian(a.port, 2);
    var e := [1] + seg + port + rest;
    assert EncodeSocketAddr(a) + rest == e;
    assert e[0] == 1 && |e| >= 19;
    assert Segments(e[1..17]) == a.segments by {
      assert e[1..17] == seg;
      SegmentsOfBytes(a.segments);
    }
    assert FromBigEndian(e[17..19]) == a.port by {
      assert e[17..19] == port;
      FromToBigEndian(a.port, 2);
    }
  }

  // ------------------------------------------------------------------ String

  /** `(len as u32).to_be_bytes()`: a 4-byte length, truncated to 32 bits as the cast does. */
  function LengthPrefix(n: nat): (r: seq<Byte>)
    ensures |r| == 4 && FromBigEndian(r) == n % U32Limit
  {
    SmallPowers();
    FromToBigEndian(n % U32Limit, 4);
    ToBigEndian(n % U32Limit, 4)
  }

  lemma LengthPrefixValue(n: nat)
    requires n < U32Limit
    ensures FromBigEndian(LengthPrefix(n)) == n
  {
    FromToBigEndian(n, 4);
  }

  /** Any 4 bytes are the length prefix of the number they spell out. */
  lemma PrefixOfLength(s: seq<Byte>)
    requires |s| == 4
    ensures FromBigEndian(s) < U32Limit && LengthPrefix(FromBigEndian(s)) == s
  {
    var n := FromBigEndian(s);
    SmallPowers();
    assert n < U32Limit && n % U32Limit == n;
    ToFromBigEndian(s);
  }

  /** The byte length of the UTF-8 text as 4 big-endian bytes, then the bytes. */
  function EncodeString(utf8: seq<Byte>): (r: seq<Byte>)
    ensures |r| == 4 + |utf8|
  {
    LengthPrefix(|utf8|) + utf8
  }

  function DecodeString(data: seq<Byte>): (r: Result<(seq<Byte>, nat)>)
    ensures r.Ok? ==> r.value.1 <= |data|
  {
    if |data| < 4 then Err(InvalidDataLength)
    else
      var len := FromBigEndian(data[..4]);
      if |data| < len + 4 then Err(InvalidDataLength)
      else if !ValidUtf8(data[4..len + 4]) then Err(InvalidUtf8)
      else Ok((data[4..len + 4], len + 4))
  }

  /**
   * A missing or short prefix, or fewer text bytes than the prefix announces,
   * is "Invalid data length"; text that is not UTF-8 is rejected. What
   * decodes is valid UTF-8 of fewer than 2^32 bytes whose encoding is exactly
   * the bytes read.
   */
  lemma DecodeStringOutcome(data: seq<Byte>)
    ensures |data| < 4 ==> DecodeString(data) == Err(InvalidDataLength)
    ensures |data| >= 4 && |data| < FromBigEndian(data[..4]) + 4 ==> DecodeString(data) == Err(InvalidDataLength)
    ensures |data| >= 4 && FromBigEndian(data[..4]) + 4 <= |data| ==>
      (DecodeString(data).Ok? <==> ValidUtf8(data[4..FromBigEndian(data[..4]) + 4]))
    ensures DecodeString(data).Err? ==> DecodeString(data).error in {InvalidDataLength, InvalidUtf8}
    ensures DecodeString(data).Ok? ==> var (s, n) := DecodeString(data).value;
      n == |s| + 4 && n <= |data| && |s| < U32Limit && ValidUtf8(s) && EncodeString(s) == data[..n]
  {
    if |data| >= 4 {
      var len := FromBigEndian(data[..4]);
      if len + 4 <= |data| {
        PrefixOfLength(data[..4]);
        assert data[..len + 4] == data[..4] + data[4..len + 4];
      }
    }
  }

  lemma StringRoundTrip(s: seq<Byte>, rest: seq<Byte>)
    requires |s| < U32Limit && ValidUtf8(s)
    ensures DecodeString(EncodeString(s) + rest) == Ok((s, |s| + 4))
  {
    ConcatSlices(LengthPrefix(|s|), s, rest);
    LengthPrefixValue(|s|);
  }

  // ------------------------------------------------ reading only what is needed

  /*
   * Every decoder looks at a prefix of its input only. So once it has
   * produced a value, or an error that is not about running out of bytes,
   * appending bytes changes nothing. Only "Invalid data length" can turn into
   * something else when more bytes arrive.
   */

  lemma IntExtends(k: IntKind, data: seq<Byte>, q: seq<Byte>)
    requires Settled(DecodeInt(k, data))
    ensures DecodeInt(k, data + q) == DecodeInt(k, data)
  {
    assert (data + q)[..k.Width()] == data[..k.Width()];
  }

  lemma BoolExtends(data: seq<Byte>, q: seq<Byte>)
    requires Settled(DecodeBool(data))
    ensures DecodeBool(data + q) == DecodeBool(data)
  {
  }

  lemma SocketAddrExtends(data: seq<Byte>, q: seq<Byte>)
    requires Settled(DecodeSocketAddr(data))
    ensures DecodeSocketAddr(data + q) == DecodeSocketAddr(data)
  {
    if |data| >= 7 && data[0] == 0 {
      assert (data + q)[1..5] == data[1..5] && (data + q)[5..7] == data[5..7];
    } else if |data| >= 19 && data[0] == 1 {
      assert (data + q)[1..17] == data[1..17] && (data + q)[17..19] == data[17..19];
    }
  }

  lemma StringExtends(data: seq<Byte>, q: seq<Byte>)
    requires Settled(DecodeString(data))
    ensures DecodeString(data + q) == DecodeString(data)
  {
    assert (data + q)[..4] == data[..4];
    var len := FromBigEndian(data[..4]);
    assert (data + q)[4..len + 4] == data[4..len + 4];
  }
}
