/**
 * SHA-1 (section 6.1 of FIPS 180-4) and Base64 (section 4 of RFC 4648) as
 * used for the WebSocket accept key (crates/utils/crypto.rs). The websocket
 * crate carries private copies of both functions with the same code; they are
 * modelled here once.
 *
 * SHA-1 words are `bv32`, so `+` wraps modulo 2^32 exactly as `wrapping_add`.
 * In Base64 the 24-bit group `a << 16 | b << 8 | c` and its sextets
 * `(t >> 18) & 0x3F`, ... are written with multiplication, division and modulo.
 */
module Crypto {
  import opened Bytes

  type word = bv32

  // ---------------------------------------------------------------------------
  // SHA-1: padding
  // ---------------------------------------------------------------------------

  /** Number of zero bytes pushed after 0x80 until the length is 56 modulo 64. */
  function PadZeroCount(n: nat): (k: nat)
    ensures k < 64 && (n + 1 + k) % 64 == 56
  {
    (119 - n % 64) % 64
  }

  function Zeros(k: nat): (r: seq<byte>)
    ensures |r| == k && forall i :: 0 <= i < k ==> r[i] == 0
  {
    seq(k, i => 0)
  }

  /** The padded message: input, 0x80, zeros, then the 64-bit big-endian bit length. */
  function Pad(input: seq<byte>): seq<byte>
    requires |input| * 8 < Pow256(8)
  {
    input + [0x80] + Zeros(PadZeroCount(|input|)) + ToBigEndian(|input| * 8, 8)
  }

  /**
   * The padded message is a whole number of 64-byte blocks, 9 to 72 bytes longer
   * than the input, and ends with the bit length that reads back as `8 * |input|`.
   */
  lemma PadSpec(input: seq<byte>)
    requires |input| * 8 < Pow256(8)
    ensures var m := Pad(input);
      && |m| % 64 == 0
      && |input| + 9 <= |m| <= |input| + 72
      && m[..|input|] == input
      && m[|input|] == 0x80
      && (forall i :: |input| < i < |m| - 8 ==> m[i] == 0)
      && BigEndian(m[|m| - 8..]) == |input| * 8
  {
    var n := |input|;
    var k := PadZeroCount(n);
    PadLength(n);
    var m := Pad(input);
    assert |m| == n + 9 + k;
    assert m[..n] == input;
    assert m[n] == 0x80;
    assert forall i :: n < i < |m| - 8 ==> m[i] == Zeros(k)[i - n - 1];
    assert m[|m| - 8..] == ToBigEndian(n * 8, 8);
    BigEndianRoundTrip(n * 8, 8);
  }

  /** The padded message is a whole number of 64-byte blocks. */
  lemma PadBlocks(input: seq<byte>)
    requires |input| * 8 < Pow256(8)
    ensures |Pad(input)| % 64 == 0 && 64 * (|Pad(input)| / 64) == |Pad(input)|
  {
    PadLength(|input|);
    assert |Pad(input)| == |input| + 9 + PadZeroCount(|input|);
  }

  lemma PadLength(n: nat)
    ensures (n + 9 + PadZeroCount(n)) % 64 == 0
  {
    var k := PadZeroCount(n);
    assert (n + 1 + k) % 64 == 56;
  }

  // ---------------------------------------------------------------------------
  // SHA-1: message schedule
  // ---------------------------------------------------------------------------

  /** Word i of a 64-byte block, big-endian. */
  function BlockWord(block: seq<byte>, i: nat): word
    requires |block| == 64 && i < 16
  {
    ((block[4 * i] as bv32) << 24) | ((block[4 * i + 1] as bv32) << 16)
      | ((block[4 * i + 2] as bv32) << 8) | (block[4 * i + 3] as bv32)
  }

  /** Schedule word i >= 16 from W[i-3], W[i-8], W[i-14] and W[i-16]. */
  function Expand(w3: word, w8: word, w14: word, w16: word): word {
    (w3 ^ w8 ^ w14 ^ w16).RotateLeft(1)
  }

  /** The first n words of the schedule W of a block. */
  function Schedule(block: seq<byte>, n: nat): (w: seq<word>)
    requires |block| == 64 && n <= 80
    ensures |w| == n
  {
    if n == 0 then []
    else
      var p := Schedule(block, n - 1);
      var i := n - 1;
      p + [if i < 16 then BlockWord(block, i)
           else Expand(p[i - 3], p[i - 8], p[i - 14], p[i - 16])]
  }

  lemma {:induction false} SchedulePrefix(block: seq<byte>, m: nat, n: nat)
    requires |block| == 64 && m <= n <= 80
    ensures Schedule(block, n)[..m] == Schedule(block, m)
    decreases n
  {
    if m < n {
      SchedulePrefix(block, m, n - 1);
      assert Schedule(block, n)[..n - 1] == Schedule(block, n - 1);
    }
  }

  /** W[0..16] are the block's words and W[i] = rotl1(W[i-3]^W[i-8]^W[i-14]^W[i-16]) after. */
  lemma ScheduleSpec(block: seq<byte>)
    requires |block| == 64
    ensures var w := Schedule(block, 80);
      && (forall i :: 0 <= i < 16 ==> w[i] == BlockWord(block, i))
      && (forall i :: 16 <= i < 80 ==> w[i] == Expand(w[i - 3], w[i - 8], w[i - 14], w[i - 16]))
  {
    var w := Schedule(block, 80);
    forall i | 0 <= i < 80
      ensures i < 16 ==> w[i] == BlockWord(block, i)
      ensures i >= 16 ==> w[i] == Expand(w[i - 3], w[i - 8], w[i - 14], w[i - 16])
    {
      SchedulePrefix(block, i + 1, 80);
      SchedulePrefix(block, i, 80);
      assert w[i] == Schedule(block, i + 1)[i];
    }
  }

  // ---------------------------------------------------------------------------
  // SHA-1: compression
  // ---------------------------------------------------------------------------

  /** Five 32-bit words: the hash state h0..h4, or the working variables a..e. */
  datatype Words = Words(a: word, b: word, c: word, d: word, e: word)

  const H0: Words := Words(0x67452301, 0xEFCDAB89, 0x98BADCFE, 0x10325476, 0xC3D2E1F0)

  /** f_t of FIPS 180-4 section 4.1.1: Ch, Parity, Maj, Parity by blocks of 20 rounds. */
  function RoundF(i: nat, b: word, c: word, d: word): word {
    if i < 20 then (b & c) | (!b & d)
    else if i < 40 then b ^ c ^ d
    else if i < 60 then (b & c) | (b & d) | (c & d)
    else b ^ c ^ d
  }

  /** K_t of FIPS 180-4 section 4.2.1. */
  function RoundK(i: nat): word {
    if i < 20 then 0x5A827999
    else if i < 40 then 0x6ED9EBA1
    else if i < 60 then 0x8F1BBCDC
    else 0xCA62C1D6
  }

  /** One round: e, d, c, b, a = d, c, rotl30(b), a, T. */
  function Round(s: Words, i: nat, wi: word): Words {
    Words(RoundTemp(s, i, wi), s.a, s.b.RotateLeft(30), s.c, s.d)
  }

  /** T = rotl5(a) + f(b, c, d) + e + K + W[i], each addition modulo 2^32. */
  function RoundTemp(s: Words, i: nat, wi: word): word {
    s.a.RotateLeft(5) + RoundF(i, s.b, s.c, s.d) + s.e + RoundK(i) + wi
  }

  /** The working variables after the first n rounds. */
  function Rounds(s: Words, w: seq<word>, n: nat): Words
    requires n <= |w|
  {
    if n == 0 then s else Round(Rounds(s, w, n - 1), n - 1, w[n - 1])
  }

  function AddWords(h: Words, s: Words): Words {
    Words(h.a + s.a, h.b + s.b, h.c + s.c, h.d + s.d, h.e + s.e)
  }

  /** The hash state after one 64-byte block. */
  function Compress(h: Words, block: seq<byte>): Words
    requires |block| == 64
  {
    var w := Schedule(block, 80);
    AddWords(h, Rounds(h, w, |w|))
  }

  /** The hash state after the first n blocks of `msg`. */
  function HashBlocks(h: Words, msg: seq<byte>, n: nat): Words
    requires 64 * n <= |msg|
  {
    if n == 0 then h else Compress(HashBlocks(h, msg, n - 1), msg[64 * (n - 1)..64 * n])
  }

  /** `w.to_be_bytes()`. */
  function WordBytes(w: word): (r: seq<byte>)
    ensures |r| == 4
  {
    [(w >> 24) as int, ((w >> 16) & 0xFF) as int, ((w >> 8) & 0xFF) as int, (w & 0xFF) as int]
  }

  /** The 20-byte digest: h0..h4, each big-endian. */
  function DigestBytes(h: Words): (r: seq<byte>)
    ensures |r| == 20
  {
    WordBytes(h.a) + WordBytes(h.b) + WordBytes(h.c) + WordBytes(h.d) + WordBytes(h.e)
  }

  function Sha1(input: seq<byte>): (r: seq<byte>)
    requires |input| * 8 < Pow256(8)
    ensures |r| == 20
  {
    PadBlocks(input);
    var m := Pad(input);
    DigestBytes(HashBlocks(H0, m, |m| / 64))
  }

  // ---------------------------------------------------------------------------
  // SHA-1: the imperative digest
  // ---------------------------------------------------------------------------

  /** The padding loops of `sha1`: push 0x80, zeros up to 56 mod 64, then the bit length. */
  method PadMessage(input: seq<byte>) returns (msg: seq<byte>)
    requires |input| * 8 < Pow256(8)
    ensures msg == Pad(input)
  {
    var bitLen := |input| * 8;
    msg := input + [0x80];
    while |msg| % 64 != 56
      invariant |input| + 1 <= |msg| <= |input| + 1 + PadZeroCount(|input|)
      invariant msg == input + [0x80] + Zeros(|msg| - |input| - 1)
      decreases |input| + 1 + PadZeroCount(|input|) - |msg|
    {
      msg := msg + [0];
    }
    assert msg == input + [0x80] + Zeros(PadZeroCount(|input|));
    msg := AppendBigEndian(msg, bitLen, 8);
  }

  /** The schedule loops: W[0..16] from the block, then the 64 expanded words. */
  method FillSchedule(w: array<word>, chunk: seq<byte>)
    requires w.Length == 80 && |chunk| == 64
    modifies w
    ensures w[..] == Schedule(chunk, 80)
  {
    for i := 0 to 16
      invariant w[..i] == Schedule(chunk, i)
    {
      w[i] := BlockWord(chunk, i);
      assert w[..i + 1] == w[..i] + [w[i]];
    }
    ExpandSchedule(w, chunk);
  }

  /** The second schedule loop: W[16..80] expanded from the words before them. */
  method ExpandSchedule(w: array<word>, chunk: seq<byte>)
    requires w.Length == 80 && |chunk| == 64 && w[..16] == Schedule(chunk, 16)
    modifies w
    ensures w[..] == Schedule(chunk, 80)
  {
    for i := 16 to 80
      invariant w[..i] == Schedule(chunk, i)
    {
      w[i] := Expand(w[i - 3], w[i - 8], w[i - 14], w[i - 16]);
      assert w[..i + 1] == w[..i] + [w[i]];
    }
    assert w[..] == w[..80];
  }

  /** The 80 rounds over one chunk's schedule, then the wrapping adds into h0..h4. */
  method CompressChunk(h: Words, w: array<word>) returns (h': Words)
    requires w.Length == 80
    ensures h' == AddWords(h, Rounds(h, w[..], w.Length))
  {
    var a, b, c, d, e := h.a, h.b, h.c, h.d, h.e;
    for i := 0 to w.Length
      invariant Words(a, b, c, d, e) == Rounds(h, w[..], i)
    {
      var temp := RoundTemp(Words(a, b, c, d, e), i, w[i]);
      e := d;
      d := c;
      c := b.RotateLeft(30);
      b := a;
      a := temp;
    }
    h' := AddWords(h, Words(a, b, c, d, e));
  }

  lemma BlockInside(n: nat, len: nat)
    requires n < len / 64
    ensures 64 * n + 64 <= len
  {
  }

  /** One iteration of the chunk loop: fill the schedule, then compress. */
  method HashChunk(h: Words, chunk: seq<byte>, w: array<word>) returns (h': Words)
    requires |chunk| == 64 && w.Length == 80
    modifies w
    ensures h' == Compress(h, chunk)
  {
    FillSchedule(w, chunk);
    h' := CompressChunk(h, w);
  }

  /** sha1: padding, then per 64-byte chunk the schedule, 80 rounds and the wrapping adds. */
  method Sha1Digest(input: seq<byte>) returns (digest: seq<byte>)
    requires |input| * 8 < Pow256(8)
    ensures |digest| == 20
    ensures digest == Sha1(input)
  {
    var msg := PadMessage(input);
    PadBlocks(input);
    var h := H0;
    var w := new word[80];
    for n := 0 to |msg| / 64
      invariant h == HashBlocks(H0, msg, n)
    {
      BlockInside(n, |msg|);
      var chunk := msg[64 * n..64 * n + 64];
      h := HashChunk(h, chunk, w);
      assert HashBlocks(H0, msg, n + 1) == Compress(HashBlocks(H0, msg, n), chunk);
    }
    assert msg == Pad(input) && h == HashBlocks(H0, msg, |msg| / 64);
    digest := WordBytes(h.a) + WordBytes(h.b) + WordBytes(h.c) + WordBytes(h.d) + WordBytes(h.e);
    assert digest == DigestBytes(h);
  }

  // ---------------------------------------------------------------------------
  // Base64
  // ---------------------------------------------------------------------------

  /** Characters of the standard alphabet: `A`-`Z`, `a`-`z`, `0`-`9`, `+` and `/`. */
  predicate InAlphabet(c: char) {
    ('A' <= c <= 'Z') || ('a' <= c <= 'z') || ('0' <= c <= '9') || c == '+' || c == '/'
  }

  /** Entry s of the 64-character table of base64_encode. */
  function AlphabetChar(s: nat): (c: char)
    requires s < 64
    ensures InAlphabet(c) && c != '='
  {
    if s < 26 then (65 + s) as char
    else if s < 52 then (97 + s - 26) as char
    else if s < 62 then (48 + s - 52) as char
    else if s == 62 then '+'
    else '/'
  }

  /** The 24-bit group `a << 16 | b << 8 | c`. */
  function Triple(a: byte, b: byte, c: byte): (t: nat)
    ensures t < 16777216
  {
    a * 65536 + b * 256 + c
  }

  /** Sextet k (0 = most significant) of a 24-bit group: `(t >> (18 - 6k)) & 0x3F`. */
  function Sextet(t: nat, k: nat): (r: nat)
    requires k < 4
    ensures r < 64
  {
    if k == 0 then t / 262144 % 64
    else if k == 1 then t / 4096 % 64
    else if k == 2 then t / 64 % 64
    else t % 64
  }

  /** The four characters of one full 3-byte group. */
  function EncodeGroup(a: byte, b: byte, c: byte): (r: string)
    ensures |r| == 4 && forall i :: 0 <= i < 4 ==> InAlphabet(r[i])
  {
    var t := Triple(a, b, c);
    [AlphabetChar(Sextet(t, 0)), AlphabetChar(Sextet(t, 1)),
     AlphabetChar(Sextet(t, 2)), AlphabetChar(Sextet(t, 3))]
  }

  /** base64_encode: full groups front to back, then a padded tail of 1 or 2 bytes. */
  function Base64(src: seq<byte>): (r: string)
    ensures |r| % 4 == 0 && (src == [] <==> r == [])
    ensures forall i :: 0 <= i < |r| ==> InAlphabet(r[i]) || r[i] == '='
    decreases |src|
  {
    if |src| >= 3 then
      var head, tail := EncodeGroup(src[0], src[1], src[2]), Base64(src[3..]);
      assert forall i :: 4 <= i < 4 + |tail| ==> (head + tail)[i] == tail[i - 4];
      assert |head + tail| == 4 + |tail| && (4 + |tail|) % 4 == |tail| % 4;
      head + tail
    else if |src| == 1 then EncodeGroup(src[0], 0, 0)[..2] + "=="
    else if |src| == 2 then EncodeGroup(src[0], src[1], 0)[..3] + "="
    else ""
  }

  /** The four sextets of a group are its bits, most significant first. */
  lemma SextetsRecombine(t: nat)
    requires t < 16777216
    ensures Sextet(t, 0) * 262144 + Sextet(t, 1) * 4096 + Sextet(t, 2) * 64 + Sextet(t, 3) == t
  {
    var u := t / 64;
    var v := u / 64;
    var x := v / 64;
    assert t == u * 64 + t % 64;
    assert u == v * 64 + u % 64;
    assert v == x * 64 + v % 64;
    assert x < 64;
    assert v == t / 4096;
    assert x == t / 262144;
  }

  /** Encoding distributes over concatenation at a group boundary. */
  lemma {:induction false} Base64Append(a: seq<byte>, b: seq<byte>)
    requires |a| % 3 == 0
    ensures Base64(a + b) == Base64(a) + Base64(b)
    decreases |a|
  {
    if |a| > 0 {
      assert (a + b)[3..] == a[3..] + b;
      Base64Append(a[3..], b);
    } else {
      assert a + b == b;
    }
  }

  /** The output has 4 * ceil(n / 3) characters. */
  lemma {:induction false} Base64Length(src: seq<byte>)
    ensures |Base64(src)| == 4 * ((|src| + 2) / 3)
    decreases |src|
  {
    if |src| >= 3 {
      ModThree(|src|);
      Base64Length(src[3..]);
      assert |Base64(src)| == 4 + |Base64(src[3..])|;
    } else if |src| == 1 {
      assert |Base64(src)| == 4;
    } else if |src| == 2 {
      assert |Base64(src)| == 4;
    }
  }

  /**
   * Every character is from the alphabet except the padding: `==` when
   * n mod 3 = 1, `=` when n mod 3 = 2, none otherwise.
   */
  lemma {:induction false} Base64Padding(src: seq<byte>)
    ensures var r := Base64(src);
      var pad := PadCount(|src|);
      && |r| >= pad
      && (forall i :: 0 <= i < |r| - pad ==> InAlphabet(r[i]))
      && (forall i :: |r| - pad <= i < |r| ==> r[i] == '=')
    decreases |src|
  {
    var r := Base64(src);
    if |src| >= 3 {
      ModThree(|src|);
      var rest := src[3..];
      var pad := PadCount(|src|);
      assert pad == PadCount(|rest|);
      Base64Padding(rest);
      var g := EncodeGroup(src[0], src[1], src[2]);
      var tail := Base64(rest);
      assert r == g + tail;
      forall i | 0 <= i < |r| - pad
        ensures InAlphabet(r[i])
      {
        if i >= 4 {
          assert r[i] == tail[i - 4];
        }
      }
      forall i | |r| - pad <= i < |r|
        ensures r[i] == '='
      {
        assert r[i] == tail[i - 4];
      }
    } else if |src| == 1 {
      var g := EncodeGroup(src[0], 0, 0);
      assert r == g[..2] + "==";
    } else if |src| == 2 {
      var g := EncodeGroup(src[0], src[1], 0);
      assert r == g[..3] + "=";
    }
  }

  /** The number of `=` characters for an input of n bytes. */
  function PadCount(n: nat): nat {
    if n % 3 == 1 then 2 else if n % 3 == 2 then 1 else 0
  }

  lemma ModThree(n: nat)
    requires n >= 3
    ensures (n - 3) % 3 == n % 3 && (n - 3 + 2) / 3 + 1 == (n + 2) / 3
  {
  }

  /** A 20-byte SHA-1 digest encodes to 28 characters ending in exactly one `=`. */
  lemma Base64OfDigest(digest: seq<byte>)
    requires |digest| == 20
    ensures |Base64(digest)| == 28
    ensures Base64(digest)[27] == '=' && Base64(digest)[26] != '='
  {
    assert (|digest| + 2) / 3 == 7 && |digest| % 3 == 2;
    Base64Length(digest);
    Base64Padding(digest);
    assert InAlphabet(Base64(digest)[26]);
  }

  lemma Base64Step(src: seq<byte>, i: nat)
    requires i % 3 == 0 && i + 3 <= |src|
    ensures Base64(src[..i + 3]) == Base64(src[..i]) + EncodeGroup(src[i], src[i + 1], src[i + 2])
  {
    var g := src[i..i + 3];
    Base64Append(src[..i], g);
    assert src[..i + 3] == src[..i] + g;
    Base64OneGroup(g);
    assert g[0] == src[i] && g[1] == src[i + 1] && g[2] == src[i + 2];
  }

  lemma Base64OneGroup(g: seq<byte>)
    requires |g| == 3
    ensures Base64(g) == EncodeGroup(g[0], g[1], g[2])
  {
    assert Base64(g[3..]) == [];
  }

  /** The tail of base64_encode: one or two leftover bytes become a padded group. */
  method EncodeTail(rest: seq<byte>) returns (tail: string)
    requires |rest| < 3
    ensures tail == Base64(rest)
  {
    tail := [];
    if |rest| == 1 {
      var t := Triple(rest[0], 0, 0);
      tail := [AlphabetChar(t / 262144 % 64), AlphabetChar(t / 4096 % 64), '=', '='];
    } else if |rest| == 2 {
      var t := Triple(rest[0], rest[1], 0);
      tail := [AlphabetChar(t / 262144 % 64), AlphabetChar(t / 4096 % 64),
               AlphabetChar(t / 64 % 64), '='];
    }
  }

  /** The loop body of base64_encode: the four characters of one group pushed. */
  method PushGroup(out: string, a: byte, b: byte, c: byte) returns (out': string)
    ensures out' == out + EncodeGroup(a, b, c)
  {
    var t := Triple(a, b, c);
    out' := out + [AlphabetChar(t / 262144 % 64), AlphabetChar(t / 4096 % 64),
                   AlphabetChar(t / 64 % 64), AlphabetChar(t % 64)];
  }

  /** base64_encode with its `while i + 3 <= len` loop and the tail cases. */
  method Base64Encode(src: seq<byte>) returns (out: string)
    ensures out == Base64(src)
  {
    out := "";
    var i := 0;
    while i + 3 <= |src|
      invariant i <= |src| && i % 3 == 0
      invariant out == Base64(src[..i])
    {
      ModThree(i + 3);
      out := PushGroup(out, src[i], src[i + 1], src[i + 2]);
      Base64Step(src, i);
      i := i + 3;
    }
    var tail := EncodeTail(src[i..]);
    out := out + tail;
    Base64Append(src[..i], src[i..]);
    assert src[..i] + src[i..] == src;
  }
}
