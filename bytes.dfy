/** Bytes, fixed-width unsigned integers and their big-endian encodings
    (Rust's `u64::to_be_bytes` and `u32::to_be_bytes`). */
module Bytes {

  type Byte = b: int | 0 <= b < 256

  const U32_LIMIT: nat := 0x1_0000_0000
  const U64_LIMIT: nat := 0x1_0000_0000_0000_0000

  /** Rust's `u32::MAX`. */
  const U32_MAX: nat := U32_LIMIT - 1

  type U64 = n: nat | n < U64_LIMIT

  /** 256 to the power `w`: the number of values `w` bytes can hold. */
  function Pow256(w: nat): (p: nat)
    ensures p >= 1
  {
    if w == 0 then 1 else 256 * Pow256(w - 1)
  }

  /** The `width` low-order bytes of `n`, most significant first. */
  function ToBigEndian(n: nat, width: nat): (s: seq<Byte>)
    ensures |s| == width
  {
    if width == 0 then [] else ToBigEndian(n / 256, width - 1) + [n % 256]
  }

  /** The number a big-endian byte string denotes. */
  function FromBigEndian(s: seq<Byte>): nat
  {
    if s == [] then 0 else FromBigEndian(s[..|s| - 1]) * 256 + s[|s| - 1]
  }

  /** `x.to_be_bytes()` for a `u64`. */
  function Be64(n: U64): (s: seq<Byte>)
    ensures |s| == 8
  {
    ToBigEndian(n, 8)
  }

  /** `x.to_be_bytes()` for a `u32`. */
  function Be32(n: nat): (s: seq<Byte>)
    requires n < U32_LIMIT
    ensures |s| == 4
  {
    ToBigEndian(n, 4)
  }

  /** `n as u32`: Rust's truncating cast keeps the low 32 bits. */
  function TruncateToU32(n: nat): (r: nat)
    ensures r < U32_LIMIT
    ensures n < U32_LIMIT ==> r == n
  {
    n % U32_LIMIT
  }

  lemma Pow256Values()
    ensures Pow256(4) == U32_LIMIT && Pow256(8) == U64_LIMIT
  {
  }

  /** A string of `|s|` bytes denotes a number that fits in `|s|` bytes. */
  lemma {:induction false} FromBigEndianBound(s: seq<Byte>)
    ensures FromBigEndian(s) < Pow256(|s|)
  {
    if s != [] {
      var init := s[..|s| - 1];
      FromBigEndianBound(init);
      assert FromBigEndian(init) + 1 <= Pow256(|init|);
      calc {
        FromBigEndian(s);
      ==
        FromBigEndian(init) * 256 + s[|s| - 1];
      <
        FromBigEndian(init) * 256 + 256;
      ==
        (FromBigEndian(init) + 1) * 256;
      <=
        Pow256(|init|) * 256;
      }
    }
  }

  /** Decoding undoes encoding for every number that fits the width. */
  lemma {:induction false} BigEndianRoundTrip(n: nat, width: nat)
    requires n < Pow256(width)
    ensures FromBigEndian(ToBigEndian(n, width)) == n
  {
    if width > 0 {
      var s, q, r := ToBigEndian(n, width), n / 256, n % 256;
      var init := ToBigEndian(q, width - 1);
      assert s == init + [r];
      assert s[..|s| - 1] == init;
      DivBelow(n, 256, Pow256(width - 1));
      BigEndianRoundTrip(q, width - 1);
      DivMod(n, 256);
      calc {
        FromBigEndian(s);
        FromBigEndian(init) * 256 + r;
        q * 256 + r;
        n;
      }
    }
  }

  /** Encoding undoes decoding: every byte string is the encoding of what it denotes. */
  lemma {:induction false} BigEndianOfDecoded(s: seq<Byte>)
    ensures ToBigEndian(FromBigEndian(s), |s|) == s
  {
    if s != [] {
      var init := s[..|s| - 1];
      var n := FromBigEndian(s);
      assert n / 256 == FromBigEndian(init) && n % 256 == s[|s| - 1];
      BigEndianOfDecoded(init);
      assert s == init + [s[|s| - 1]];
    }
  }

  /** Byte `i` of the encoding is digit `width - 1 - i` of `n` in base 256:
      the most significant byte comes first. */
  lemma {:induction false} BigEndianDigit(n: nat, width: nat, i: nat)
    requires i < width
    ensures ToBigEndian(n, width)[i] == (n / Pow256(width - 1 - i)) % 256
  {
    if i < width - 1 {
      BigEndianDigit(n / 256, width - 1, i);
      DivDiv(n, 256, Pow256(width - 2 - i));
    }
  }

  lemma DivDiv(n: nat, a: nat, b: nat)
    requires a > 0 && b > 0
    ensures n / a / b == n / (a * b)
  {
    var x := n / a;
    var q, r, r0 := x / b, x % b, n % a;
    DivMod(n, a);
    DivMod(x, b);
    var m := r * a + r0;
    MulDistributes(q * b, r, a);
    MulAssociates(q, b, a);
    assert n == q * (a * b) + m;
    MulMonotone(r, b - 1, a);
    MulDistributes(b, -1, a);
    DivUnique(n, a * b, q, m);
  }

  lemma DivBelow(n: nat, d: nat, p: nat)
    requires d > 0 && n < d * p
    ensures n / d < p
  {
    DivMod(n, d);
    if n / d >= p {
      MulMonotone(p, n / d, d);
    }
  }

  lemma DivMod(n: nat, d: nat)
    requires d > 0
    ensures n == (n / d) * d + n % d && 0 <= n % d < d
  {
  }

  lemma MulAssociates(x: int, y: int, z: int)
    ensures (x * y) * z == x * (z * y)
  {
  }

  lemma MulDistributes(x: int, y: int, z: int)
    ensures (x + y) * z == x * z + y * z
  {
  }

  lemma MulMonotone(x: nat, y: nat, z: nat)
    requires x <= y
    ensures x * z <= y * z
  {
  }

  lemma DivUnique(n: nat, d: nat, q: nat, m: nat)
    requires d > 0 && m < d && n == q * d + m
    ensures n / d == q
  {
    var q', m' := n / d, n % d;
    assert q' * d + m' == q * d + m;
    if q' < q {
      MulMonotone(q' + 1, q, d);
      MulDistributes(q', 1, d);
    } else if q < q' {
      MulMonotone(q + 1, q', d);
      MulDistributes(q, 1, d);
    }
  }

  lemma AppendAssociates<T>(a: seq<T>, b: seq<T>, c: seq<T>)
    ensures (a + b) + c == a + (b + c)
  {
  }
}
