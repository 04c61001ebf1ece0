/** Bytes on the wire: the little-endian u64 codec of `struct.pack('<Q')` /
    `struct.unpack('<Q')`, and what a blocking `read(n)` returns from a stream. */
module Wire {

  type byte = b: int | 0 <= b < 256

  /** 2^64: one more than the largest value of a u64 field. */
  const U64_BOUND: int := 0x1_0000_0000_0000_0000

  type u64 = x: int | 0 <= x < 0x1_0000_0000_0000_0000

  /** 2^63: `read(n)` and `seek(n)` convert their argument to a signed 64-bit
      C integer (`ssize_t`, `off_t`) and raise `OverflowError` from here on. */
  const I64_BOUND: int := 0x8000_0000_0000_0000

  /** What `f.tell()` reports: a non-negative `off_t`. */
  type FileSize = x: int | 0 <= x < 0x8000_0000_0000_0000

  /** 256^n, the number of values n bytes can hold. */
  function Pow256(n: nat): (r: nat)
    ensures r >= 1
  {
    if n == 0 then 1 else 256 * Pow256(n - 1)
  }

  lemma {:induction false} Pow256Eight()
    ensures Pow256(8) == U64_BOUND
  {
    assert Pow256(2) == 0x1_0000;
    assert Pow256(4) == 0x1_0000_0000;
    assert Pow256(6) == 0x1_0000_0000_0000;
  }

  /** x written in exactly n bytes, least significant byte first. */
  function EncodeLE(x: nat, n: nat): (r: seq<byte>)
    requires x < Pow256(n)
    ensures |r| == n
  {
    if n == 0 then []
    else
      assert x / 256 < Pow256(n - 1);
      [x % 256] + EncodeLE(x / 256, n - 1)
  }

  /** The number whose little-endian digits in base 256 are s. */
  function DecodeLE(s: seq<byte>): nat
  {
    if s == [] then 0 else s[0] + 256 * DecodeLE(s[1..])
  }

  /** n bytes hold a number below 256^n. */
  lemma {:induction false} DecodeLEBound(s: seq<byte>)
    ensures DecodeLE(s) < Pow256(|s|)
  {
    if s != [] {
      DecodeLEBound(s[1..]);
      assert s[0] + 256 * DecodeLE(s[1..]) <= 255 + 256 * (Pow256(|s| - 1) - 1);
    }
  }

  lemma {:induction false} MulGrows(d: int, k: int)
    requires d > 0 && k >= 1
    ensures d * k >= d
  {
    if k > 1 {
      MulGrows(d, k - 1);
      assert d * k == d * (k - 1) + d;
    }
  }

  lemma {:induction false} DivUnique(x: int, d: int, q: int, r: int)
    requires d > 0 && 0 <= r < d && x == d * q + r
    ensures x / d == q && x % d == r
  {
    var q', r' := x / d, x % d;
    assert x == d * q' + r';
    if q > q' {
      assert d * q == d * (q - q') + d * q';
      MulGrows(d, q - q');
    } else if q < q' {
      assert d * q' == d * (q' - q) + d * q;
      MulGrows(d, q' - q);
    }
  }

  lemma {:induction false} DivDiv(x: nat, p: nat)
    requires p > 0
    ensures x / 256 / p == x / (256 * p)
  {
    var q, r := x / 256, x % 256;
    var a, b := q / p, q % p;
    assert q == p * a + b;
    assert x == 256 * q + r;
    assert x == (256 * p) * a + (256 * b + r);
    DivUnique(x, 256 * p, a, 256 * b + r);
  }

  /** Byte i of the encoding is digit i of x in base 256: little-endian order. */
  lemma {:induction false} EncodeLEDigit(x: nat, n: nat, i: nat)
    requires x < Pow256(n) && i < n
    ensures EncodeLE(x, n)[i] == x / Pow256(i) % 256
  {
    if i > 0 {
      assert x / 256 < Pow256(n - 1);
      EncodeLEDigit(x / 256, n - 1, i - 1);
      DivDiv(x, Pow256(i - 1));
    }
  }

  lemma {:induction false} DecodeEncodeLE(x: nat, n: nat)
    requires x < Pow256(n)
    ensures DecodeLE(EncodeLE(x, n)) == x
  {
    if n > 0 {
      var s := EncodeLE(x, n);
      assert x / 256 < Pow256(n - 1);
      assert s[1..] == EncodeLE(x / 256, n - 1);
      DecodeEncodeLE(x / 256, n - 1);
    }
  }

  lemma {:induction false} EncodeDecodeLE(s: seq<byte>)
    ensures DecodeLE(s) < Pow256(|s|) && EncodeLE(DecodeLE(s), |s|) == s
  {
    DecodeLEBound(s);
    if s != [] {
      var x := DecodeLE(s);
      assert x == s[0] + 256 * DecodeLE(s[1..]);
      assert x % 256 == s[0] && x / 256 == DecodeLE(s[1..]);
      EncodeDecodeLE(s[1..]);
    }
  }

  /** `struct.pack('<Q', x)`. */
  function EncodeU64(x: u64): (r: seq<byte>)
    ensures |r| == 8
  {
    Pow256Eight();
    EncodeLE(x, 8)
  }

  /** The eight bytes are the base-256 digits of x, least significant first. */
  lemma {:induction false} U64Digits(x: u64)
    ensures forall i :: 0 <= i < 8 ==> EncodeU64(x)[i] == x / Pow256(i) % 256
  {
    Pow256Eight();
    forall i | 0 <= i < 8 ensures EncodeU64(x)[i] == x / Pow256(i) % 256 {
      EncodeLEDigit(x, 8, i);
    }
  }

  /** `struct.unpack('<Q', s)`. */
  function DecodeU64(s: seq<byte>): u64
    requires |s| == 8
  {
    DecodeLEBound(s);
    Pow256Eight();
    DecodeLE(s)
  }

  /** Decoding an encoded u64 gives the value back. */
  lemma {:induction false} U64RoundTrip(x: u64)
    ensures DecodeU64(EncodeU64(x)) == x
  {
    Pow256Eight();
    DecodeEncodeLE(x, 8);
  }

  /** Every 8 bytes are the encoding of the u64 they decode to. */
  lemma {:induction false} U64BytesRoundTrip(s: seq<byte>)
    requires |s| == 8
    ensures EncodeU64(DecodeU64(s)) == s
  {
    Pow256Eight();
    EncodeDecodeLE(s);
  }

  function Min(a: int, b: int): int { if a <= b then a else b }

  /** What a blocking `read(n)` returns from a stream holding `data` whose
      cursor is at `pos`: n bytes when that many remain, otherwise whatever is
      left before the end of the stream (a short read). */
  function Read(data: seq<byte>, pos: nat, n: nat): (r: seq<byte>)
    ensures |r| == (if pos >= |data| then 0 else Min(n, |data| - pos))
    ensures |r| == n <==> n == 0 || pos + n <= |data|
  {
    if pos >= |data| then []
    else if pos + n <= |data| then data[pos..pos + n]
    else data[pos..]
  }

  /** A read returns the stream's bytes from the cursor on, in order. */
  lemma ReadBytes(data: seq<byte>, pos: nat, n: nat)
    ensures var r := Read(data, pos, n);
      forall i :: 0 <= i < |r| ==> r[i] == data[pos + i]
  {
  }
}
