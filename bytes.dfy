/**
 * Bytes and the big-endian layout every fixed-width integer of the codec uses
 * (Rust's `to_be_bytes` / `from_be_bytes`).
 */
module Bytes {

  type Byte = b: int | 0 <= b < 256

  /** 2^32: one more than the largest value of a Rust `u32`. */
  const U32Limit: nat := 0x1_0000_0000

  /** 256^w, the number of distinct values w bytes can hold. */
  function Pow256(w: nat): (r: nat)
    ensures r > 0
  {
    if w == 0 then 1 else 256 * Pow256(w - 1)
  }

  /** The widths the codec uses: one, two, three and four bytes. */
  lemma SmallPowers()
    ensures Pow256(1) == 0x100 && Pow256(2) == 0x1_0000 && Pow256(3) == 0x100_0000 && Pow256(4) == U32Limit
  {
    assert Pow256(1) == 0x100;
    assert Pow256(2) == 0x1_0000;
    assert Pow256(3) == 0x100_0000;
  }

  /** The w low-order base-256 digits of x, most significant first. */
  function ToBigEndian(x: nat, w: nat): (r: seq<Byte>)
    ensures |r| == w
  {
    if w == 0 then [] else ToBigEndian(x / 256, w - 1) + [x % 256]
  }

  /** The number whose base-256 digits, most significant first, are s. */
  function FromBigEndian(s: seq<Byte>): (r: nat)
    ensures r < Pow256(|s|)
  {
    if s == [] then 0
    else
      var hi := FromBigEndian(s[..|s| - 1]);
      assert hi <= Pow256(|s| - 1) - 1;
      assert hi * 256 <= Pow256(|s|) - 256;
      hi * 256 + s[|s| - 1]
  }

  /** Decoding the big-endian bytes of x gives x back, when x fits in w bytes. */
  lemma {:induction false} FromToBigEndian(x: nat, w: nat)
    requires x < Pow256(w)
    ensures FromBigEndian(ToBigEndian(x, w)) == x
  {
    if w > 0 {
      var t := ToBigEndian(x / 256, w - 1);
      assert ToBigEndian(x, w)[..w - 1] == t;
      FromToBigEndian(x / 256, w - 1);
    }
  }

  /** Re-encoding the number that w bytes spell out gives those bytes back. */
  lemma {:induction false} ToFromBigEndian(s: seq<Byte>)
    ensures ToBigEndian(FromBigEndian(s), |s|) == s
  {
    if s != [] {
      var n := |s|;
      var hi := FromBigEndian(s[..n - 1]);
      var x := hi * 256 + s[n - 1];
      assert x / 256 == hi && x % 256 == s[n - 1];
      ToFromBigEndian(s[..n - 1]);
      assert s == s[..n - 1] + [s[n - 1]];
    }
  }

  /** The j-th byte of ToBigEndian(x, w) is the base-256 digit of weight 256^(w-1-j). */
  lemma {:induction false} BigEndianDigit(x: nat, w: nat, j: nat)
    requires j < w
    ensures ToBigEndian(x, w)[j] == (x / Pow256(w - 1 - j)) % 256
  {
    if j < w - 1 {
      BigEndianDigit(x / 256, w - 1, j);
      DivDiv(x, 256, Pow256(w - 2 - j));
    }
  }

  lemma DivDiv(x: nat, a: nat, b: nat)
    requires a > 0 && b > 0
    ensures x / a / b == x / (a * b)
  {
    var q, r2, r1 := x / a / b, (x / a) % b, x % a;
    Recompose(x, a, b, q, r2, r1);
    var d, r := a * b, r2 * a + r1;
    DivUnique(x, d, q, r);
  }

  /** x is q * (a * b) plus a remainder below a * b, from its two successive divisions. */
  lemma Recompose(x: nat, a: nat, b: nat, q: nat, r2: nat, r1: nat)
    requires a > 0 && b > 0 && q == x / a / b && r2 == (x / a) % b && r1 == x % a
    ensures a * b > 0 && x == q * (a * b) + (r2 * a + r1) && r2 * a + r1 < a * b
  {
    MulAddDistrib(q, b, r2, a);
    MulLeq(r2, b - 1, a);
    MulPred(b, a);
  }

  lemma MulAddDistrib(q: nat, b: nat, r: nat, a: nat)
    ensures (q * b + r) * a == q * (a * b) + r * a
  {
  }

  lemma MulPred(b: nat, a: nat)
    requires b > 0
    ensures (b - 1) * a == a * b - a
  {
  }

  lemma MulLeq(x: nat, y: nat, a: nat)
    requires x <= y
    ensures x * a <= y * a
  {
  }

  lemma DivUnique(x: nat, d: nat, q: nat, r: nat)
    requires d > 0 && r < d && x == q * d + r
    ensures x / d == q
  {
    var q0, r0 := x / d, x % d;
    assert x == q0 * d + r0 && 0 <= r0 < d;
    if q0 > q {
      MulAtLeast(q0 - q - 1, d);
      assert false;
    } else if q0 < q {
      MulAtLeast(q - q0 - 1, d);
      assert false;
    }
  }

  lemma MulAtLeast(k: nat, d: nat)
    ensures k * d >= 0
  {
  }

  /** After skipping h at offset, what follows it is left. */
  lemma SkipPrefix(data: seq<Byte>, offset: nat, h: seq<Byte>, tail: seq<Byte>)
    requires offset <= |data| && data[offset..] == h + tail
    ensures offset + |h| <= |data| && data[offset + |h|..] == tail
  {
    assert data[offset + |h|..] == data[offset..][|h|..];
  }

  /** Two adjacent slices of data make up the slice that spans both. */
  lemma AdjacentSlices(data: seq<Byte>, i: nat, j: nat, k: nat)
    requires i <= j <= k <= |data|
    ensures data[i..j] + data[j..k] == data[i..k]
  {
  }

  /** The first n bytes after offset are the slice from offset to offset + n. */
  lemma TakeOfDrop(data: seq<Byte>, offset: nat, n: nat)
    requires offset + n <= |data|
    ensures data[offset..][..n] == data[offset..offset + n]
  {
  }

  /** In a + b + rest, a is the first |a| bytes and b the |b| bytes after it. */
  lemma ConcatSlices(a: seq<Byte>, b: seq<Byte>, rest: seq<Byte>)
    ensures (a + b + rest)[..|a|] == a
    ensures (a + b + rest)[|a|..|a| + |b|] == b
  {
  }
}
