/**
 * Byte-level vocabulary shared by every module: the `byte` type (Rust `u8`),
 * an optional value, ASCII literals as bytes and big-endian integers.
 */
module Bytes {

  type byte = x: int | 0 <= x < 256

  datatype Option<+T> = None | Some(value: T)

  /** The byte of an ASCII character (every literal the server emits is ASCII). */
  function AsciiByte(c: char): byte {
    c as int % 256
  }

  function Pow2(k: nat): (r: nat)
    ensures r >= 1
  {
    if k == 0 then 1 else 2 * Pow2(k - 1)
  }

  /** The bitwise exclusive or of the k low-order bits of a and b, bit by bit. */
  function XorBits(a: nat, b: nat, k: nat): (r: nat)
    ensures r < Pow2(k)
  {
    if k == 0 then 0 else 2 * XorBits(a / 2, b / 2, k - 1) + (a + b) % 2
  }

  /** The k low-order bits of a. */
  function LowBits(a: nat, k: nat): nat {
    if k == 0 then 0 else 2 * LowBits(a / 2, k - 1) + a % 2
  }

  /** Bitwise exclusive or of two bytes (Rust `^` on `u8`). */
  const BYTE_BITS: nat := 8

  function Xor(a: byte, b: byte): byte {
    assert Pow2(BYTE_BITS) == 256;
    XorBits(a, b, BYTE_BITS)
  }

  /** `0x80 | b`: the byte with its top bit set. */
  function SetTopBit(b: byte): byte {
    if b >= 0x80 then b else b + 0x80
  }

  /** Taking the exclusive or with b twice leaves the low bits of a. */
  lemma {:induction false} XorBitsTwice(a: nat, b: nat, k: nat)
    ensures XorBits(XorBits(a, b, k), b, k) == LowBits(a, k)
  {
    if k > 0 {
      var x := XorBits(a / 2, b / 2, k - 1);
      var c := XorBits(a, b, k);
      assert c == 2 * x + (a + b) % 2;
      Halves(x, (a + b) % 2);
      ParitySum(a, b);
      assert XorBits(c, b, k) == 2 * XorBits(x, b / 2, k - 1) + a % 2;
      XorBitsTwice(a / 2, b / 2, k - 1);
      assert LowBits(a, k) == 2 * LowBits(a / 2, k - 1) + a % 2;
    }
  }

  lemma Halves(x: nat, bit: nat)
    requires bit < 2
    ensures (2 * x + bit) / 2 == x && (2 * x + bit) % 2 == bit
  {
  }

  lemma ParitySum(a: nat, b: nat)
    ensures ((a + b) % 2 + b) % 2 == a % 2
  {
  }

  /** A number below 2^k is its own k low-order bits. */
  lemma {:induction false} LowBitsSmall(a: nat, k: nat)
    requires a < Pow2(k)
    ensures LowBits(a, k) == a
  {
    if k > 0 {
      LowBitsSmall(a / 2, k - 1);
    }
  }

  /** XOR with the same byte twice is the identity. */
  lemma XorTwice(a: byte, b: byte)
    ensures Xor(Xor(a, b), b) == a
  {
    assert Pow2(BYTE_BITS) == 256;
    XorBitsTwice(a, b, BYTE_BITS);
    LowBitsSmall(a, BYTE_BITS);
  }

  /** A string literal as the bytes `b"..."` would give in the source. */
  function Ascii(s: string): (r: seq<byte>)
    ensures |r| == |s|
    ensures forall i :: 0 <= i < |s| ==> r[i] == AsciiByte(s[i])
  {
    seq(|s|, i requires 0 <= i < |s| => AsciiByte(s[i]))
  }

  function Pow256(n: nat): (r: nat)
    ensures r >= 1
  {
    if n == 0 then 1 else 256 * Pow256(n - 1)
  }

  /** The value of `s` read as a big-endian unsigned integer. */
  function BigEndian(s: seq<byte>): (r: nat)
    ensures r < Pow256(|s|)
  {
    if s == [] then 0 else BigEndian(s[..|s| - 1]) * 256 + s[|s| - 1]
  }

  /** The `n` low-order bytes of `v`, most significant first. */
  function ToBigEndian(v: nat, n: nat): (r: seq<byte>)
    ensures |r| == n
  {
    if n == 0 then [] else ToBigEndian(v / 256, n - 1) + [v % 256]
  }

  /** Writing `v` in `n` bytes and reading it back gives `v` when it fits. */
  lemma {:induction false} BigEndianRoundTrip(v: nat, n: nat)
    requires v < Pow256(n)
    ensures BigEndian(ToBigEndian(v, n)) == v
  {
    if n > 0 {
      var s := ToBigEndian(v, n);
      assert s[..n - 1] == ToBigEndian(v / 256, n - 1);
      BigEndianRoundTrip(v / 256, n - 1);
    }
  }

  /**
   * The `for i in (0..n).rev()` loop pushing `(v >> (8 * i)) & 0xff`: the n
   * low-order bytes of v, most significant first.
   */
  method AppendBigEndian(prefix: seq<byte>, v: nat, n: nat) returns (out: seq<byte>)
    ensures out == prefix + ToBigEndian(v, n)
  {
    ghost var s := ToBigEndian(v, n);
    out := prefix;
    var i := n;
    while i > 0
      invariant 0 <= i <= n
      invariant out == prefix + s[..n - i]
    {
      i := i - 1;
      ToBigEndianAt(v, n, n - 1 - i);
      assert s[..n - i] == s[..n - 1 - i] + [s[n - 1 - i]];
      out := out + [(v / Pow256(i)) % 256];
    }
    assert s[..n] == s;
  }

  /** Byte i of ToBigEndian(v, n) is `(v >> (8 * (n - 1 - i))) & 0xff`. */
  lemma {:induction false} ToBigEndianAt(v: nat, n: nat, i: nat)
    requires i < n
    ensures ToBigEndian(v, n)[i] == (v / Pow256(n - 1 - i)) % 256
  {
    var s := ToBigEndian(v, n);
    if i < n - 1 {
      assert s[i] == ToBigEndian(v / 256, n - 1)[i];
      ToBigEndianAt(v / 256, n - 1, i);
      DivDiv(v, n - 2 - i);
    } else {
      assert Pow256(n - 1 - i) == 1;
    }
  }

  /** Division is determined by the bracketing q * d <= v < q * d + d. */
  lemma DivUnique(v: nat, d: nat, q: nat)
    requires d > 0 && q * d <= v < q * d + d
    ensures v / d == q
  {
    var q' := v / d;
    assert v == q' * d + v % d;
    if q' < q {
      MulLeft(q' + 1, q, d);
    } else if q' > q {
      MulLeft(q + 1, q', d);
    }
  }

  lemma MulLeft(a: nat, b: nat, d: nat)
    requires a <= b
    ensures a * d <= b * d
  {
    assert b * d == a * d + (b - a) * d;
  }

  lemma DivDiv(v: nat, k: nat)
    ensures v / 256 / Pow256(k) == v / Pow256(k + 1)
  {
    var p := Pow256(k);
    var q := v / 256 / p;
    var r1 := v % 256;
    var r2 := (v / 256) % p;
    assert v / 256 == q * p + r2;
    assert v == (q * p + r2) * 256 + r1;
    calc {
      (q * p + r2) * 256 + r1;
      q * (p * 256) + (r2 * 256 + r1);
    }
    assert r2 * 256 + r1 < p * 256 by {
      assert r2 <= p - 1;
      assert r2 * 256 <= (p - 1) * 256;
    }
    DivUnique(v, p * 256, q);
  }
}
