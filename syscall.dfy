/**
 * The numeric helpers of crates/syscall/lib.rs: decimal formatting into a
 * 20-byte buffer, the bytes `write_isize` emits, the 16-bit byte-order swap
 * and the timespec splits of `ppoll_timeout` and `nanosleep_ns`.
 */
module Syscall {
  import opened Bytes

  const USIZE_MAX: nat := 0xFFFF_FFFF_FFFF_FFFF

  const ZERO: byte := 48
  const MINUS: byte := 45

  predicate IsDigit(b: byte) {
    ZERO <= b <= ZERO + 9
  }

  function Pow10(k: nat): (r: nat)
    ensures r >= 1
  {
    if k == 0 then 1 else 10 * Pow10(k - 1)
  }

  /** The decimal digits of n, most significant first; `0` for zero. */
  function Decimal(n: nat): (r: seq<byte>)
    ensures |r| >= 1 && forall i :: 0 <= i < |r| ==> IsDigit(r[i])
  {
    if n < 10 then [ZERO + n] else Decimal(n / 10) + [ZERO + n % 10]
  }

  /** The value of a run of ASCII digits, most significant first. */
  function DigitsValue(s: seq<byte>): nat
    requires forall i :: 0 <= i < |s| ==> IsDigit(s[i])
  {
    if s == [] then 0
    else
      var last := s[|s| - 1];
      assert IsDigit(last);
      DigitsValue(s[..|s| - 1]) * 10 + (last - ZERO)
  }

  /** Reading the digits back gives n, and only zero is written with a leading `0`. */
  lemma {:induction false} DecimalValue(n: nat)
    ensures DigitsValue(Decimal(n)) == n
    ensures (Decimal(n)[0] == ZERO) <==> n == 0
  {
    if n >= 10 {
      DecimalValue(n / 10);
      var d := Decimal(n);
      assert d[..|d| - 1] == Decimal(n / 10);
    }
  }

  /** Decimal(n) has at most k digits exactly when n < 10^k. */
  lemma {:induction false} DecimalLength(n: nat, k: nat)
    ensures |Decimal(n)| <= k <==> (n < Pow10(k) && k >= 1)
  {
    if n >= 10 && k >= 1 {
      DecimalLength(n / 10, k - 1);
    } else if n >= 10 {
      assert |Decimal(n)| >= 1;
    } else if k >= 2 {
      assert Pow10(k) == 10 * Pow10(k - 1);
    }
  }

  lemma DecimalFitsUsize(n: nat)
    requires n <= USIZE_MAX
    ensures |Decimal(n)| <= 20
  {
    assert Pow10(5) == 100_000;
    assert Pow10(10) == 10_000_000_000;
    assert Pow10(15) == 1_000_000_000_000_000;
    assert Pow10(20) == 100_000_000_000_000_000_000;
    DecimalLength(n, 20);
  }

  /** The digits the first loop of format_usize writes: least significant first. */
  function LowDigits(n: nat): (r: seq<byte>)
  {
    if n == 0 then [] else [ZERO + n % 10] + LowDigits(n / 10)
  }

  function Reverse<T>(s: seq<T>): (r: seq<T>)
    ensures |r| == |s| && forall k :: 0 <= k < |s| ==> r[k] == s[|s| - 1 - k]
  {
    if s == [] then [] else Reverse(s[1..]) + [s[0]]
  }

  /** For n > 0 the low-first digits reversed are the decimal representation. */
  lemma {:induction false} LowDigitsReversed(n: nat)
    requires n > 0
    ensures Reverse(LowDigits(n)) == Decimal(n)
  {
    if n >= 10 {
      LowDigitsReversed(n / 10);
      assert LowDigits(n)[1..] == LowDigits(n / 10);
    } else {
      assert LowDigits(n / 10) == [];
    }
  }

  /**
   * format_usize: the first `len` bytes are the decimal digits of n, the rest
   * of the 20-byte buffer stays zero.
   */
  method FormatUsize(n: nat) returns (buf: seq<byte>, len: nat)
    requires n <= USIZE_MAX
    ensures |buf| == 20 && 1 <= len <= 20
    ensures buf[..len] == Decimal(n)
    ensures forall k :: len <= k < 20 ==> buf[k] == 0
  {
    var a := new byte[20](_ => 0);
    if n == 0 {
      a[0] := ZERO;
      assert a[..][..1] == [ZERO];
      return a[..], 1;
    }
    LowDigitsReversed(n);
    var i := WriteLowDigits(a, n);
    ReverseInPlace(a, i);
    assert a[..][..i] == a[..i] == Decimal(n);
    assert forall k :: i <= k < 20 ==> a[..][k] == a[k] == 0;
    return a[..], i;
  }

  lemma LowDigitsFit(n: nat)
    requires 0 < n <= USIZE_MAX
    ensures |LowDigits(n)| <= 20
  {
    DecimalFitsUsize(n);
    LowDigitsReversed(n);
  }

  /** The digit loop of format_usize: a[i] = '0' + num % 10 while num > 0. */
  method WriteLowDigits(a: array<byte>, n: nat) returns (i: nat)
    requires a.Length == 20 && 0 < n <= USIZE_MAX
    requires forall k :: 0 <= k < 20 ==> a[k] == 0
    modifies a
    ensures i <= 20 && a[..i] == LowDigits(n)
    ensures forall k :: i <= k < 20 ==> a[k] == 0
  {
    LowDigitsFit(n);
    ghost var low := LowDigits(n);
    var num := n;
    i := 0;
    while num > 0
      invariant i + |LowDigits(num)| == |low| <= 20
      invariant a[..i] + LowDigits(num) == low
      invariant forall k :: i <= k < 20 ==> a[k] == 0
    {
      var d: byte := ZERO + num % 10;
      assert LowDigits(num) == [d] + LowDigits(num / 10);
      a[i] := d;
      assert a[..i + 1] == a[..i] + [d];
      num := num / 10;
      i := i + 1;
    }
    assert a[..i] + [] == low;
  }

  /** The swap loop of format_usize: reverses a[..len] in place. */
  method ReverseInPlace(a: array<byte>, len: nat)
    requires len <= a.Length
    modifies a
    ensures a[..len] == Reverse(old(a[..len]))
    ensures forall k :: len <= k < a.Length ==> a[k] == old(a[k])
  {
    ghost var s := a[..len];
    var j := 0;
    while j < len / 2
      invariant 0 <= j <= len / 2
      invariant forall k :: 0 <= k < j ==> a[k] == s[len - 1 - k] && a[len - 1 - k] == s[k]
      invariant forall k :: j <= k < len - j ==> a[k] == s[k]
      invariant forall k :: len <= k < a.Length ==> a[k] == old(a[k])
    {
      var tmp := a[j];
      a[j] := a[len - 1 - j];
      a[len - 1 - j] := tmp;
      j := j + 1;
    }
    assert a[..len] == Reverse(s);
  }

  /**
   * The bytes write_isize sends: `-` and the digits of |n| for negative n,
   * only the digits otherwise. For i64::MIN the negation wraps back to
   * i64::MIN, whose cast to usize is 2^63 = |n|, so |n| is right there too.
   */
  method WriteIsize(n: int) returns (out: seq<byte>)
    requires -0x8000_0000_0000_0000 <= n < 0x8000_0000_0000_0000
    ensures n < 0 ==> out == [MINUS] + Decimal(-n)
    ensures n >= 0 ==> out == Decimal(n)
  {
    out := [];
    var m := n;
    if m < 0 {
      out := out + [MINUS];
      m := -m;
    }
    var buf, len := FormatUsize(m);
    out := out + buf[..len];
  }

  /** The sign is the only non-digit and the digits read back as |n|. */
  lemma WriteIsizeValue(n: int, out: seq<byte>)
    requires (n < 0 ==> out == [MINUS] + Decimal(-n)) && (n >= 0 ==> out == Decimal(n))
    ensures |out| >= 1 && ((out[0] == MINUS) <==> n < 0)
    ensures var digits := if n < 0 then out[1..] else out;
      (forall i :: 0 <= i < |digits| ==> IsDigit(digits[i]))
      && DigitsValue(digits) == (if n < 0 then -n else n)
  {
    if n < 0 {
      SignedDigits(-n, out);
    } else {
      DecimalValue(n);
      assert IsDigit(out[0]);
    }
  }

  lemma SignedDigits(m: nat, out: seq<byte>)
    requires out == [MINUS] + Decimal(m)
    ensures |out| >= 2 && out[0] == MINUS && out[1..] == Decimal(m)
    ensures DigitsValue(out[1..]) == m
  {
    assert out[1..] == Decimal(m);
    DecimalValue(m);
  }

  // ---------------------------------------------------------------------------
  // Byte order (x86-64 is little-endian, so to_be and from_be swap bytes)
  // ---------------------------------------------------------------------------

  type u16 = x: int | 0 <= x < 0x1_0000

  function Swap16(x: u16): u16 {
    (x % 256) * 256 + x / 256
  }

  /** The two bytes of a 16-bit value, high * 256 + low, are recovered by / and %. */
  lemma Split16(high: nat, low: nat)
    requires high < 256 && low < 256
    ensures (high * 256 + low) / 256 == high && (high * 256 + low) % 256 == low
  {
    DivUnique(high * 256 + low, 256, high);
  }

  /** Swapping twice gives the value back. */
  lemma Swap16Twice(x: u16)
    ensures Swap16(x) % 256 == x / 256 && Swap16(x) / 256 == x % 256
    ensures Swap16(Swap16(x)) == x
  {
    Split16(x % 256, x / 256);
    Split16(x / 256, x % 256);
  }

  /** htons: the value whose little-endian bytes in memory are x's big-endian bytes. */
  function Htons(x: u16): (r: u16)
    ensures r % 256 == x / 256 && r / 256 == x % 256
  {
    Swap16Twice(x);
    Swap16(x)
  }

  /** ntohs: the inverse conversion, also a byte swap. */
  function Ntohs(x: u16): (r: u16)
    ensures r % 256 == x / 256 && r / 256 == x % 256
  {
    Swap16Twice(x);
    Swap16(x)
  }

  /** In memory (low byte first) Htons(x) holds the two bytes of x in network order. */
  lemma HtonsWireOrder(x: u16)
    ensures [Htons(x) % 256, Htons(x) / 256] == ToBigEndian(x, 2)
  {
    assert ToBigEndian(x, 2) == [x / 256 % 256, x % 256];
  }

  lemma NtohsHtons(x: u16)
    ensures Ntohs(Htons(x)) == x && Htons(Ntohs(x)) == x
  {
    Swap16Twice(x);
  }

  // ---------------------------------------------------------------------------
  // Timespec splits
  // ---------------------------------------------------------------------------

  datatype Timespec = Timespec(sec: int, nsec: int)

  /** Rust `/` on i64: rounds toward zero. */
  function TruncDiv(a: int, b: nat): (q: int)
    requires b > 0
    ensures a >= 0 ==> 0 <= a - b * q < b
    ensures a < 0 ==> 0 <= b * q - a < b
  {
    if a >= 0 then a / b else -((-a) / b)
  }

  /** Rust `%` on i64: the remainder has the sign of the dividend. */
  function TruncMod(a: int, b: nat): (r: int)
    requires b > 0
    ensures a == TruncDiv(a, b) * b + r
    ensures a >= 0 ==> 0 <= r < b
    ensures a < 0 ==> -(b as int) < r <= 0
  {
    a - TruncDiv(a, b) * b
  }

  /** The timespec `[ms / 1000, (ms % 1000) * 1_000_000]` of ppoll_timeout. */
  function PpollTimespec(ms: int): (ts: Timespec)
    ensures ts.sec * 1000 + ts.nsec / 1_000_000 == ms
    ensures ts.nsec % 1_000_000 == 0
    ensures ms >= 0 ==> ts.sec >= 0 && 0 <= ts.nsec < 1_000_000_000
    ensures ms < 0 ==> ts.sec <= 0 && -1_000_000_000 < ts.nsec <= 0
  {
    Timespec(TruncDiv(ms, 1000), TruncMod(ms, 1000) * 1_000_000)
  }

  /** The timespec `[nanos / 10^9, nanos % 10^9]` of nanosleep_ns. */
  function NanosleepTimespec(nanos: nat): (ts: Timespec)
    ensures ts.sec * 1_000_000_000 + ts.nsec == nanos
    ensures ts.sec >= 0 && 0 <= ts.nsec < 1_000_000_000
  {
    Timespec(nanos / 1_000_000_000, nanos % 1_000_000_000)
  }
}
