/**
 * The generic `Serializable` implementations of the containers: `Vec<T>`,
 * `[T; L]` and `Option<T>`. Rust instantiates each with the element type's
 * own `serialize` and `deserialize`; here those are the parameters `enc` and
 * `dec`, so everything below holds for every element type at once.
 */
module Containers {
  import opened Bytes
  import opened Types
  import opened Primitives

  // ------------------------------------------------------------------ encode

  /** The element encodings of xs, concatenated in order. */
  function EncodeEach(enc: Encoder, xs: seq<Value>): seq<Byte>
  {
    if |xs| == 0 then [] else enc(xs[0]) + EncodeEach(enc, xs[1..])
  }

  /** `Vec<T>`: the element count as 4 big-endian bytes, then each element. */
  function EncodeVec(enc: Encoder, xs: seq<Value>): (r: seq<Byte>)
    ensures |r| >= 4 && FromBigEndian(r[..4]) == |xs| % U32Limit
  {
    var prefix := LengthPrefix(|xs|);
    assert (prefix + EncodeEach(enc, xs))[..4] == prefix;
    prefix + EncodeEach(enc, xs)
  }

  /** `[T; L]`: the elements, with no prefix. */
  function EncodeArray(enc: Encoder, xs: seq<Value>): (r: seq<Byte>)
    ensures EncodeVec(enc, xs) == LengthPrefix(|xs|) + r
  {
    EncodeEach(enc, xs)
  }

  /** `Option<T>`: tag 1 followed by the payload for Some, tag 0 alone for None. */
  function EncodeOption(enc: Encoder, v: Value): (r: seq<Byte>)
    ensures |r| >= 1 && r[0] <= 1 && (r[0] == 1 <==> v.SomeV?)
    ensures v.SomeV? ==> r[1..] == enc(v.inner)
    ensures !v.SomeV? ==> |r| == 1
  {
    if v.SomeV? then [1] + enc(v.inner) else [0]
  }

  /** The element loop appends: encoding xs then ys is encoding xs + ys. */
  lemma {:induction false} EncodeEachAppend(enc: Encoder, xs: seq<Value>, ys: seq<Value>)
    ensures EncodeEach(enc, xs + ys) == EncodeEach(enc, xs) + EncodeEach(enc, ys)
    decreases |xs|
  {
    if |xs| == 0 {
      assert xs + ys == ys;
    } else {
      assert (xs + ys)[0] == xs[0] && (xs + ys)[1..] == xs[1..] + ys;
      EncodeEachAppend(enc, xs[1..], ys);
    }
  }

  // ------------------------------------------------------------------ decode

  /**
   * `count` element decodes, the first at data[offset..] and each next one
   * where the previous one stopped; the first failure is returned as is.
   * On success: the elements and the offset after the last one.
   */
  function DecodeEach(dec: Decoder, count: nat, data: seq<Byte>, offset: nat): (r: Result<(seq<Value>, nat)>)
    requires Consumes(dec) && offset <= |data|
    ensures r.Ok? ==> |r.value.0| == count && offset <= r.value.1 <= |data|
    decreases count
  {
    if count == 0 then Ok(([], offset))
    else
      var first := dec(data[offset..]);
      if first.Err? then Err(first.error)
      else
        var rest := DecodeEach(dec, count - 1, data, offset + first.value.1);
        if rest.Err? then rest
        else Ok(([first.value.0] + rest.value.0, rest.value.1))
  }

  /** `Vec<T>`: fewer than 4 bytes is "Invalid data length"; else count, then the elements. */
  function DecodeVec(dec: Decoder, data: seq<Byte>): (r: Result<(Value, nat)>)
    requires Consumes(dec)
    ensures r.Ok? ==> r.value.1 <= |data|
  {
    if |data| < 4 then Err(InvalidDataLength)
    else
      match DecodeEach(dec, FromBigEndian(data[..4]), data, 4)
      case Err(err) => Err(err)
      case Ok((xs, read)) => Ok((ListV(xs), read))
  }

  /** `[T; L]`: L elements from offset 0. */
  function DecodeArray(len: nat, dec: Decoder, data: seq<Byte>): (r: Result<(Value, nat)>)
    requires Consumes(dec)
    ensures r.Ok? ==> r.value.1 <= |data|
  {
    match DecodeEach(dec, len, data, 0)
    case Err(err) => Err(err)
    case Ok((xs, offset)) => Ok((ListV(xs), offset))
  }

  /**
   * `Option<T>`: empty input is "Invalid data length", tag 0 is None, tag 1
   * is Some of the payload after it, any other tag "Invalid option type".
   */
  function DecodeOption(dec: Decoder, data: seq<Byte>): (r: Result<(Value, nat)>)
    requires Consumes(dec)
    ensures r.Ok? ==> r.value.1 <= |data|
  {
    if |data| < 1 then Err(InvalidDataLength)
    else if data[0] == 0 then Ok((NoneV, 1))
    else if data[0] == 1 then
      match dec(data[1..])
      case Err(err) => Err(err)
      case Ok((x, len)) => Ok((SomeV(x), len + 1))
    else Err(InvalidOptionType)
  }

  // ------------------------------------------------------------- round trip

  /**
   * The element loop reads back each element in turn, when each element's
   * own decoding reads back its encoding followed by anything.
   */
  lemma {:induction false} EachRoundTrip(enc: Encoder, dec: Decoder, xs: seq<Value>, data: seq<Byte>, offset: nat, rest: seq<Byte>)
    requires Consumes(dec) && forall i :: 0 <= i < |xs| ==> RoundTrips(enc, dec, xs[i])
    requires offset <= |data| && data[offset..] == EncodeEach(enc, xs) + rest
    ensures DecodeEach(dec, |xs|, data, offset) == Ok((xs, offset + |EncodeEach(enc, xs)|))
    decreases |xs|
  {
    if |xs| > 0 {
      var x, ys := xs[0], xs[1..];
      var h, tail := enc(x), EncodeEach(enc, ys);
      assert EncodeEach(enc, xs) == h + tail by {
        EncodeEachCons(enc, x, ys);
        ConsSplit(xs);
      }
      assert dec(data[offset..]) == Ok((x, |h| as nat)) by {
        assert data[offset..] == h + (tail + rest);
        assert RoundTrips(enc, dec, x);
      }
      SkipPrefix(data, offset, h, tail + rest);
      assert forall i :: 0 <= i < |ys| ==> RoundTrips(enc, dec, ys[i]) by {
        forall i | 0 <= i < |ys| ensures RoundTrips(enc, dec, ys[i]) {
          assert ys[i] == xs[i + 1];
        }
      }
      EachRoundTrip(enc, dec, ys, data, offset + |h|, rest);
      assert |EncodeEach(enc, xs)| == |h| + |tail|;
      DecodeEachCons(dec, data, offset, xs, |h|, (offset + |h| + |tail|) as nat);
    } else {
      assert xs == [];
    }
  }

  /** The converse of DecodeEachOk: the first element, then the rest from where it stopped. */
  lemma DecodeEachCons(dec: Decoder, data: seq<Byte>, offset: nat, xs: seq<Value>, n: nat, end: nat)
    requires Consumes(dec) && offset <= |data| && |xs| > 0 && dec(data[offset..]) == Ok((xs[0], n))
    requires offset + n <= |data| && DecodeEach(dec, |xs| - 1, data, offset + n) == Ok((xs[1..], end))
    ensures DecodeEach(dec, |xs|, data, offset) == Ok((xs, end))
  {
    ConsSplit(xs);
  }

  lemma ConsSplit(xs: seq<Value>)
    requires |xs| > 0
    ensures [xs[0]] + xs[1..] == xs
  {
  }

  lemma VecRoundTrip(enc: Encoder, dec: Decoder, xs: seq<Value>, rest: seq<Byte>)
    requires Consumes(dec) && forall i :: 0 <= i < |xs| ==> RoundTrips(enc, dec, xs[i])
    requires |xs| < U32Limit
    ensures DecodeVec(dec, EncodeVec(enc, xs) + rest) == Ok((ListV(xs), |EncodeVec(enc, xs)|))
  {
    var prefix := LengthPrefix(|xs|);
    var body := EncodeEach(enc, xs);
    var data := prefix + body + rest;
    assert data[..4] == prefix;
    assert data[4..] == body + rest;
    LengthPrefixValue(|xs|);
    EachRoundTrip(enc, dec, xs, data, 4, rest);
  }

  lemma ArrayRoundTrip(enc: Encoder, dec: Decoder, xs: seq<Value>, rest: seq<Byte>)
    requires Consumes(dec) && forall i :: 0 <= i < |xs| ==> RoundTrips(enc, dec, xs[i])
    ensures DecodeArray(|xs|, dec, EncodeArray(enc, xs) + rest) == Ok((ListV(xs), |EncodeArray(enc, xs)|))
  {
    var data := EncodeEach(enc, xs) + rest;
    assert data[0..] == data;
    EachRoundTrip(enc, dec, xs, data, 0, rest);
  }

  lemma OptionRoundTrip(enc: Encoder, dec: Decoder, v: Value, rest: seq<Byte>)
    requires Consumes(dec) && (v.NoneV? || (v.SomeV? && RoundTrips(enc, dec, v.inner)))
    ensures DecodeOption(dec, EncodeOption(enc, v) + rest) == Ok((v, |EncodeOption(enc, v)|))
  {
    if v.SomeV? {
      var data := [1] + enc(v.inner) + rest;
      assert data[1..] == enc(v.inner) + rest;
    }
  }

  // --------------------------------------------------------------- canonical

  /**
   * What the element loop decodes are values ok accepts, and re-encoding
   * them gives exactly the bytes the loop consumed.
   */
  lemma {:induction false} EachCanonical(enc: Encoder, dec: Decoder, ok: Value -> bool, count: nat, data: seq<Byte>, offset: nat, xs: seq<Value>, end: nat)
    requires Consumes(dec) && Canonical(enc, dec, ok) && offset <= |data|
    requires DecodeEach(dec, count, data, offset) == Ok((xs, end))
    ensures offset <= end <= |data|
    ensures (forall i :: 0 <= i < |xs| ==> ok(xs[i])) && EncodeEach(enc, xs) == data[offset..end]
    decreases count
  {
    if count > 0 {
      DecodeEachOk(dec, count, data, offset, xs, end);
      var d := data[offset..];
      var x, n := dec(d).value.0, dec(d).value.1;
      assert ok(x) && enc(x) == d[..n] && n <= |d|;
      var ys := xs[1..];
      EachCanonical(enc, dec, ok, count - 1, data, offset + n, ys, end);
      assert EncodeEach(enc, xs) == data[offset..end] by {
        var head, tail := data[offset..offset + n], data[offset + n..end];
        assert enc(x) == head by {
          TakeOfDrop(data, offset, n);
        }
        AdjacentSlices(data, offset, offset + n, end);
      }
      forall i | 0 <= i < |xs| ensures ok(xs[i]) {
        if i > 0 {
          assert xs[i] == ys[i - 1];
        }
      }
    }
  }

  /** A successful element loop decoded its first element, then the rest from where that one stopped. */
  lemma DecodeEachOk(dec: Decoder, count: nat, data: seq<Byte>, offset: nat, xs: seq<Value>, end: nat)
    requires Consumes(dec) && offset <= |data| && count > 0 && DecodeEach(dec, count, data, offset) == Ok((xs, end))
    ensures dec(data[offset..]).Ok? && |xs| > 0 && xs[0] == dec(data[offset..]).value.0
    ensures var n := dec(data[offset..]).value.1;
      offset + n <= |data| && DecodeEach(dec, count - 1, data, offset + n) == Ok((xs[1..], end))
  {
    var (x, n) := dec(data[offset..]).value;
    var rest := DecodeEach(dec, count - 1, data, offset + n);
    assert xs == [x] + rest.value.0;
    assert xs[1..] == rest.value.0;
  }

  lemma EncodeEachCons(enc: Encoder, x: Value, ys: seq<Value>)
    ensures EncodeEach(enc, [x] + ys) == enc(x) + EncodeEach(enc, ys)
  {
    assert ([x] + ys)[0] == x && ([x] + ys)[1..] == ys;
  }

  /**
   * A decoded `Vec<T>` has fewer than 2^32 elements that ok accepts, and
   * re-encoding it gives exactly the bytes consumed.
   */
  lemma VecCanonical(enc: Encoder, dec: Decoder, ok: Value -> bool, data: seq<Byte>)
    requires Consumes(dec) && Canonical(enc, dec, ok)
    ensures DecodeVec(dec, data).Ok? ==>
      var (v, n) := DecodeVec(dec, data).value;
      v.ListV? && |v.elems| < U32Limit && (forall i :: 0 <= i < |v.elems| ==> ok(v.elems[i])) &&
      EncodeVec(enc, v.elems) == data[..n]
  {
    if DecodeVec(dec, data).Ok? {
      var count := FromBigEndian(data[..4]);
      var (xs, read) := DecodeEach(dec, count, data, 4).value;
      EachCanonical(enc, dec, ok, count, data, 4, xs, read);
      PrefixOfLength(data[..4]);
      assert data[..read] == data[..4] + data[4..read];
    }
  }

  /** A decoded `[T; L]` has L elements that ok accepts, and re-encodes to the bytes consumed. */
  lemma ArrayCanonical(len: nat, enc: Encoder, dec: Decoder, ok: Value -> bool, data: seq<Byte>)
    requires Consumes(dec) && Canonical(enc, dec, ok)
    ensures DecodeArray(len, dec, data).Ok? ==>
      var (v, n) := DecodeArray(len, dec, data).value;
      v.ListV? && |v.elems| == len && (forall i :: 0 <= i < |v.elems| ==> ok(v.elems[i])) &&
      EncodeArray(enc, v.elems) == data[..n]
  {
    if DecodeArray(len, dec, data).Ok? {
      var (xs, read) := DecodeEach(dec, len, data, 0).value;
      EachCanonical(enc, dec, ok, len, data, 0, xs, read);
      assert data[0..read] == data[..read];
    }
  }

  /** A decoded `Option<T>` is None, or Some of a value ok accepts; it re-encodes to the bytes consumed. */
  lemma OptionCanonical(enc: Encoder, dec: Decoder, ok: Value -> bool, data: seq<Byte>)
    requires Consumes(dec) && Canonical(enc, dec, ok)
    ensures DecodeOption(dec, data).Ok? ==>
      var (v, n) := DecodeOption(dec, data).value;
      (v.NoneV? || (v.SomeV? && ok(v.inner))) && EncodeOption(enc, v) == data[..n]
  {
    if DecodeOption(dec, data).Ok? && data[0] == 1 {
      var (x, len) := dec(data[1..]).value;
      assert data[..len + 1] == [1] + data[1..][..len];
    }
  }

  // ---------------------------------------------------------------- outcomes

  /**
   * `Vec<T>` decoding: fewer than 4 bytes is "Invalid data length"; a count
   * of 0 gives the empty vector after 4 bytes; otherwise a failing first
   * element fails the whole decode with its error.
   */
  lemma DecodeVecOutcome(dec: Decoder, data: seq<Byte>)
    requires Consumes(dec)
    ensures |data| < 4 ==> DecodeVec(dec, data) == Err(InvalidDataLength)
    ensures |data| >= 4 && FromBigEndian(data[..4]) == 0 ==> DecodeVec(dec, data) == Ok((ListV([]), 4))
    ensures |data| >= 4 && FromBigEndian(data[..4]) > 0 && dec(data[4..]).Err? ==>
      DecodeVec(dec, data) == Err(dec(data[4..]).error)
    ensures DecodeVec(dec, data).Ok? ==>
      DecodeVec(dec, data).value.0.ListV? && |DecodeVec(dec, data).value.0.elems| == FromBigEndian(data[..4]) &&
      4 <= DecodeVec(dec, data).value.1
  {
  }

  /**
   * `Option<T>` decoding: empty input is "Invalid data length", tag 0 is
   * (None, 1), a tag above 1 is "Invalid option type", and under tag 1 the
   * payload's error or length (plus the tag) comes through.
   */
  lemma DecodeOptionOutcome(dec: Decoder, data: seq<Byte>)
    requires Consumes(dec)
    ensures |data| == 0 ==> DecodeOption(dec, data) == Err(InvalidDataLength)
    ensures |data| > 0 && data[0] == 0 ==> DecodeOption(dec, data) == Ok((NoneV, 1))
    ensures |data| > 0 && data[0] > 1 ==> DecodeOption(dec, data) == Err(InvalidOptionType)
    ensures |data| > 0 && data[0] == 1 ==>
      (DecodeOption(dec, data).Ok? <==> dec(data[1..]).Ok?) &&
      (dec(data[1..]).Err? ==> DecodeOption(dec, data).error == dec(data[1..]).error) &&
      (dec(data[1..]).Ok? ==> DecodeOption(dec, data).value == (SomeV(dec(data[1..]).value.0), dec(data[1..]).value.1 + 1))
  {
  }

  // ------------------------------------------------ reading only what is needed

  /**
   * With a prefix-stable element decoder, the element loop is prefix-stable:
   * once its outcome is settled, bytes appended after the input change nothing.
   */
  lemma {:induction false} EachExtends(dec: Decoder, count: nat, data: seq<Byte>, offset: nat, q: seq<Byte>)
    requires Consumes(dec) && PrefixStable(dec) && offset <= |data|
    requires Settled(DecodeEach(dec, count, data, offset))
    ensures DecodeEach(dec, count, data + q, offset) == DecodeEach(dec, count, data, offset)
    decreases count
  {
    if count > 0 {
      assert (data + q)[offset..] == data[offset..] + q;
      var first := dec(data[offset..]);
      if first.Ok? {
        EachExtends(dec, count - 1, data, offset + first.value.1, q);
      }
    }
  }

  lemma VecExtends(dec: Decoder, data: seq<Byte>, q: seq<Byte>)
    requires Consumes(dec) && PrefixStable(dec) && Settled(DecodeVec(dec, data))
    ensures DecodeVec(dec, data + q) == DecodeVec(dec, data)
  {
    assert (data + q)[..4] == data[..4];
    EachExtends(dec, FromBigEndian(data[..4]), data, 4, q);
  }

  lemma ArrayExtends(len: nat, dec: Decoder, data: seq<Byte>, q: seq<Byte>)
    requires Consumes(dec) && PrefixStable(dec) && Settled(DecodeArray(len, dec, data))
    ensures DecodeArray(len, dec, data + q) == DecodeArray(len, dec, data)
  {
    EachExtends(dec, len, data, 0, q);
  }

  lemma OptionExtends(dec: Decoder, data: seq<Byte>, q: seq<Byte>)
    requires Consumes(dec) && PrefixStable(dec) && Settled(DecodeOption(dec, data))
    ensures DecodeOption(dec, data + q) == DecodeOption(dec, data)
  {
    assert (data + q)[1..] == data[1..] + q;
  }
}
