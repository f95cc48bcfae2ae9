/**
 * HTTP header lookup and the WebSocket frame codec of RFC 6455 section 5.2
 * (crates/utils/parsing.rs). The websocket crate carries a private copy of the
 * header lookup (`find_header_val`) with the same code; it is modelled here once.
 *
 * Bit operations on a byte are written arithmetically: `b & 0x80 != 0` is
 * `b >= 0x80`, `b & 0x0f` is `b % 16`, `b & 0x7f` is `b % 128`, `x << 8 | b`
 * is `x * 256 + b` and `i & 3` is `i % 4`.
 */
module Parsing {
  import opened Bytes

  const CR: byte := 13
  const LF: byte := 10
  const COLON: byte := 58
  const SPACE: byte := 32

  // ---------------------------------------------------------------------------
  // Header lookup
  // ---------------------------------------------------------------------------

  /** `name` occurs at `i` and at least one byte of `req` follows it (the scan's bound). */
  predicate MatchesAt(req: seq<byte>, name: seq<byte>, i: nat) {
    i + |name| < |req| && req[i..i + |name|] == name
  }

  /** The first index at or after `from` where the scan finds `name`. */
  function FirstMatch(req: seq<byte>, name: seq<byte>, from: nat): (r: Option<nat>)
    ensures r.Some? ==> from <= r.value && r.value + |name| < |req|
    decreases |req| - from
  {
    if from + |name| >= |req| then None
    else if req[from..from + |name|] == name then Some(from)
    else FirstMatch(req, name, from + 1)
  }

  predicate IsSeparator(b: byte) {
    b == COLON || b == SPACE
  }

  /** The end of the run of `:` and ` ` bytes that starts at `j`. */
  function SkipSeparators(req: seq<byte>, j: nat): (r: nat)
    requires j <= |req|
    ensures j <= r <= |req|
    decreases |req| - j
  {
    if j < |req| && IsSeparator(req[j]) then SkipSeparators(req, j + 1) else j
  }

  predicate CrLfAt(req: seq<byte>, m: nat) {
    m + 1 < |req| && req[m] == CR && req[m + 1] == LF
  }

  /** Where the value starting at `k` stops: the first CR LF, else one byte before the end. */
  function LineEnd(req: seq<byte>, k: nat): (r: nat)
    requires k <= |req|
    ensures k <= r <= |req|
    decreases |req| - k
  {
    if k + 1 < |req| then
      if CrLfAt(req, k) then k else LineEnd(req, k + 1)
    else k
  }

  /** The value `find_header_value(req, name)` returns. */
  function HeaderValue(req: seq<byte>, name: seq<byte>): (r: Option<seq<byte>>)
    ensures r.Some? ==> |r.value| <= |req|
  {
    match FirstMatch(req, name, 0)
    case None => None
    case Some(i) =>
      var j := SkipSeparators(req, i + |name|);
      var k := LineEnd(req, j);
      Some(req[j..k])
  }

  /** find_header_value: the scan, the separator skip and the CR LF search as three loops. */
  method FindHeaderValue(req: seq<byte>, name: seq<byte>) returns (r: Option<seq<byte>>)
    ensures r == HeaderValue(req, name)
  {
    var i := 0;
    while i + |name| < |req|
      invariant FirstMatch(req, name, 0) == FirstMatch(req, name, i)
      decreases |req| - i
    {
      if req[i..i + |name|] == name {
        var j := i + |name|;
        while j < |req| && (req[j] == COLON || req[j] == SPACE)
          invariant i + |name| <= j <= |req|
          invariant SkipSeparators(req, i + |name|) == SkipSeparators(req, j)
        {
          j := j + 1;
        }
        var k := j;
        while k + 1 < |req|
          invariant j <= k <= |req|
          invariant LineEnd(req, j) == LineEnd(req, k)
        {
          if req[k] == CR && req[k + 1] == LF {
            break;
          }
          k := k + 1;
        }
        return Some(req[j..k]);
      }
      i := i + 1;
    }
    return None;
  }

  lemma {:induction false} FirstMatchIsFirst(req: seq<byte>, name: seq<byte>, from: nat)
    ensures FirstMatch(req, name, from).None? ==>
              forall i :: from <= i ==> !MatchesAt(req, name, i)
    ensures FirstMatch(req, name, from).Some? ==>
              var i := FirstMatch(req, name, from).value;
              from <= i && MatchesAt(req, name, i) &&
              forall i' :: from <= i' < i ==> !MatchesAt(req, name, i')
    decreases |req| - from
  {
    if from + |name| < |req| && req[from..from + |name|] != name {
      FirstMatchIsFirst(req, name, from + 1);
    }
  }

  lemma {:induction false} SkipSeparatorsSpec(req: seq<byte>, j: nat)
    requires j <= |req|
    ensures j <= SkipSeparators(req, j) <= |req|
    ensures forall m :: j <= m < SkipSeparators(req, j) ==> IsSeparator(req[m])
    ensures SkipSeparators(req, j) < |req| ==> !IsSeparator(req[SkipSeparators(req, j)])
    decreases |req| - j
  {
    if j < |req| && IsSeparator(req[j]) {
      SkipSeparatorsSpec(req, j + 1);
    }
  }

  lemma {:induction false} LineEndSpec(req: seq<byte>, k: nat)
    requires k <= |req|
    ensures k <= LineEnd(req, k) <= |req|
    ensures forall m :: k <= m < LineEnd(req, k) ==> !CrLfAt(req, m)
    ensures CrLfAt(req, LineEnd(req, k)) ||
            LineEnd(req, k) == if k + 1 < |req| then |req| - 1 else k
    decreases |req| - k
  {
    if k + 1 < |req| && !CrLfAt(req, k) {
      LineEndSpec(req, k + 1);
    }
  }

  /**
   * `name` first occurs at `i`, `j` ends the run of `:`/` ` after it, and `k`
   * is the first CR LF at or after `j`, or, with none, one byte before the end.
   */
  predicate ValueBounds(req: seq<byte>, name: seq<byte>, i: nat, j: nat, k: nat) {
    && MatchesAt(req, name, i)
    && (forall i' :: 0 <= i' < i ==> !MatchesAt(req, name, i'))
    && i + |name| <= j <= k <= |req|
    && (forall m :: i + |name| <= m < j ==> IsSeparator(req[m]))
    && (j < |req| ==> !IsSeparator(req[j]))
    && (forall m :: j <= m < k ==> !CrLfAt(req, m))
    && (CrLfAt(req, k) || k == if j + 1 < |req| then |req| - 1 else j)
  }

  /**
   * The lookup succeeds exactly when the name occurs (case-sensitively, anywhere)
   * with at least one byte after it; the value is then `req[j..k]` for the
   * ValueBounds `i`, `j`, `k`; with no CR LF the value loses the buffer's last byte.
   */
  lemma HeaderValueSpec(req: seq<byte>, name: seq<byte>)
    ensures HeaderValue(req, name).None? <==> forall i :: !MatchesAt(req, name, i)
    ensures HeaderValue(req, name).Some? ==>
      exists i: nat, j: nat, k: nat ::
        ValueBounds(req, name, i, j, k) && HeaderValue(req, name).value == req[j..k]
  {
    FirstMatchIsFirst(req, name, 0);
    if FirstMatch(req, name, 0).Some? {
      var i := FirstMatch(req, name, 0).value;
      var j := SkipSeparators(req, i + |name|);
      SkipSeparatorsSpec(req, i + |name|);
      var k := LineEnd(req, j);
      LineEndSpec(req, j);
      assert HeaderValue(req, name).value == req[j..k];
      assert ValueBounds(req, name, i, j, k);
    }
  }

  // ---------------------------------------------------------------------------
  // Frames
  // ---------------------------------------------------------------------------

  /** `(bytes_consumed, fin, opcode, payload)` of parse_websocket_frame. */
  datatype Frame = Frame(total: nat, fin: bool, opcode: byte, payload: seq<byte>)

  /** Masking of RFC 6455 section 5.3: byte i is XORed with key byte i mod 4. */
  function Unmask(data: seq<byte>, key: seq<byte>): (r: seq<byte>)
    requires |key| == 4
    ensures |r| == |data|
  {
    seq(|data|, i requires 0 <= i < |data| => Xor(data[i], key[i % 4]))
  }

  /** Masking is its own inverse. */
  lemma UnmaskTwice(data: seq<byte>, key: seq<byte>)
    requires |key| == 4
    ensures Unmask(Unmask(data, key), key) == data
  {
    forall i | 0 <= i < |data|
      ensures Unmask(Unmask(data, key), key)[i] == data[i]
    {
      XorTwice(data[i], key[i % 4]);
    }
  }

  lemma BigEndianTwo(s: seq<byte>)
    requires |s| == 2
    ensures BigEndian(s) == (s[0] as int) * 256 + s[1]
  {
    assert s[..1][..0] == [];
  }

  /** Size of the extended payload length field selected by the 7-bit length. */
  function ExtLenSize(b2: byte): nat {
    if b2 % 128 == 126 then 2 else if b2 % 128 == 127 then 8 else 0
  }

  /** The payload length the header announces (the extended field must be present). */
  function PayloadLength(buf: seq<byte>): nat
    requires 2 <= |buf| && 2 + ExtLenSize(buf[1]) <= |buf|
  {
    var ext := ExtLenSize(buf[1]);
    if ext == 0 then buf[1] % 128 else BigEndian(buf[2..2 + ext])
  }

  /** The two header bytes and the extended length field are present. */
  predicate HeaderComplete(buf: seq<byte>) {
    2 <= |buf| && 2 + ExtLenSize(buf[1]) <= |buf|
  }

  /** One past the last byte of the frame the header announces. */
  function FrameEnd(buf: seq<byte>): nat
    requires HeaderComplete(buf)
  {
    PayloadOffset(buf[1]) + PayloadLength(buf)
  }

  /** The payload bytes, unmasked with the key just before them when the MASK bit is set. */
  function FramePayload(buf: seq<byte>): (r: seq<byte>)
    requires HeaderComplete(buf) && FrameEnd(buf) <= |buf|
    ensures |r| == PayloadLength(buf)
  {
    var pos := PayloadOffset(buf[1]);
    var data := buf[pos..FrameEnd(buf)];
    if buf[1] >= 0x80 then Unmask(data, buf[pos - 4..pos]) else data
  }

  /**
   * The frame at the front of `buf`, or None while it is incomplete: a frame is
   * returned exactly when every byte its header announces is present, and it
   * never claims more bytes than the buffer holds.
   */
  function ParseFrame(buf: seq<byte>): (r: Option<Frame>)
    ensures r.Some? <==> HeaderComplete(buf) && FrameEnd(buf) <= |buf|
    ensures r.Some? ==> r.value.total <= |buf| && |r.value.payload| == PayloadLength(buf)
  {
    if !HeaderComplete(buf) || |buf| < FrameEnd(buf) then None
    else Some(Frame(FrameEnd(buf), buf[0] >= 0x80, buf[0] % 16, FramePayload(buf)))
  }

  /** The length part of parse_websocket_frame: the 7-bit value, or the 2-byte or 8-byte field. */
  method ReadPayloadLength(buf: seq<byte>) returns (complete: bool, payloadLen: nat, pos: nat)
    requires |buf| >= 2
    ensures complete == (2 + ExtLenSize(buf[1]) <= |buf|)
    ensures complete ==> pos == 2 + ExtLenSize(buf[1]) && payloadLen == PayloadLength(buf)
  {
    payloadLen := buf[1] % 128;
    pos := 2;
    if payloadLen == 126 {
      if |buf| < pos + 2 {
        return false, payloadLen, pos;
      }
      payloadLen := (buf[pos] as int) * 256 + buf[pos + 1];
      BigEndianTwo(buf[2..4]);
      pos := pos + 2;
    } else if payloadLen == 127 {
      if |buf| < pos + 8 {
        return false, payloadLen, pos;
      }
      payloadLen := 0;
      for n := 0 to 8
        invariant pos == 2 + n
        invariant payloadLen == BigEndian(buf[2..pos])
      {
        assert buf[2..pos + 1][..pos - 2] == buf[2..pos];
        payloadLen := payloadLen * 256 + buf[pos];
        pos := pos + 1;
      }
    }
    complete := true;
  }

  /** The `payload[i] ^= key[i & 3]` loop, in place. */
  method UnmaskInPlace(payload: array<byte>, key: seq<byte>)
    requires |key| == 4
    modifies payload
    ensures payload[..] == Unmask(old(payload[..]), key)
  {
    ghost var data := payload[..];
    for i := 0 to payload.Length
      invariant payload[..i] == Unmask(data, key)[..i]
      invariant payload[i..] == data[i..]
    {
      payload[i] := Xor(payload[i], key[i % 4]);
    }
  }

  /**
   * The header announces so many bytes that `pos + payload_len` passes 2^64, the
   * width of a usize on a 64-bit target. parse_websocket_frame then panics: the
   * addition overflows in a debug build, and in a release build the wrapped
   * total passes the length check and the slice `buf[pos..pos + payload_len]`,
   * whose end lies before its start, panics.
   */
  predicate FrameOverflows(buf: seq<byte>) {
    HeaderComplete(buf) && PayloadOffset(buf[1]) <= |buf| && FrameEnd(buf) >= Pow256(8)
  }

  /**
   * parse_websocket_frame: returns `(bytes_consumed, fin, opcode, payload)` of a
   * complete frame; `panics` is set where the source panics instead of returning.
   */
  method ParseWebsocketFrame(buf: seq<byte>) returns (r: Option<Frame>, panics: bool)
    ensures panics == FrameOverflows(buf)
    ensures !panics ==> r == ParseFrame(buf)
  {
    panics := false;
    if |buf| < 2 {
      return None, false;
    }
    var b1, b2 := buf[0], buf[1];
    var fin := b1 >= 0x80;
    var opcode := b1 % 16;
    var masked := b2 >= 0x80;
    var complete, payloadLen, pos := ReadPayloadLength(buf);
    if !complete {
      return None, false;
    }
    assert HeaderComplete(buf);
    var maskKeyPos := pos;
    if masked {
      if |buf| < pos + 4 {
        return None, false;
      }
      pos := pos + 4;
    }
    assert pos == PayloadOffset(b2);
    if pos + payloadLen >= Pow256(8) {
      // frame_total does not fit in a usize
      return None, true;
    }
    var frameTotal := pos + payloadLen;
    assert frameTotal == FrameEnd(buf);
    if |buf| < frameTotal {
      return None, false;
    }
    var payload := CopyPayload(buf, pos, payloadLen, masked);
    return Some(Frame(frameTotal, fin, opcode, payload)), false;
  }

  /** Copy the payload out of the buffer and unmask it in place when MASK is set. */
  method CopyPayload(buf: seq<byte>, pos: nat, payloadLen: nat, masked: bool) returns (payload: seq<byte>)
    requires HeaderComplete(buf) && pos == PayloadOffset(buf[1]) && payloadLen == PayloadLength(buf)
    requires masked == (buf[1] >= 0x80) && pos + payloadLen <= |buf|
    ensures payload == FramePayload(buf)
  {
    var a := new byte[payloadLen](i requires 0 <= i < payloadLen => buf[pos + i]);
    assert a[..] == buf[pos..pos + payloadLen];
    if masked {
      UnmaskInPlace(a, buf[pos - 4..pos]);
    }
    payload := a[..];
  }

  /** Offset of the payload: header, extended length, then the mask key when masked. */
  function PayloadOffset(b2: byte): nat {
    2 + ExtLenSize(b2) + (if b2 >= 0x80 then 4 else 0)
  }

  /**
   * FIN is bit 7 of byte 0 and the opcode its low nibble; the frame occupies
   * header, extended length, mask key and payload, and never more than the buffer.
   */
  lemma ParseFrameHeader(buf: seq<byte>)
    requires ParseFrame(buf).Some?
    ensures var f := ParseFrame(buf).value;
      && f.fin == (buf[0] >= 0x80)
      && f.opcode == buf[0] % 16 && f.opcode < 16
      && f.total == PayloadOffset(buf[1]) + |f.payload| <= |buf|
  {
  }

  /**
   * The payload length of RFC 6455 section 5.2: a 7-bit value below 126 is used
   * directly, 126 selects the next 2 bytes and 127 the next 8, big-endian.
   */
  lemma ParseFrameLength(buf: seq<byte>)
    requires ParseFrame(buf).Some?
    ensures var n := |ParseFrame(buf).value.payload|;
      && (buf[1] % 128 < 126 ==> n == buf[1] % 128)
      && (buf[1] % 128 == 126 ==> n == (buf[2] as int) * 256 + buf[3])
      && (buf[1] % 128 == 127 ==> n == BigEndian(buf[2..10]))
  {
    if buf[1] % 128 == 126 {
      BigEndianTwo(buf[2..4]);
    }
  }

  /**
   * A masked payload byte i is the wire byte XOR key[i mod 4] (RFC 6455 section
   * 5.3, the key sitting just before the payload); an unmasked payload is copied.
   */
  lemma ParseFramePayload(buf: seq<byte>)
    requires ParseFrame(buf).Some?
    ensures var f := ParseFrame(buf).value;
      var pos := PayloadOffset(buf[1]);
      && (buf[1] >= 0x80 ==> forall i :: 0 <= i < |f.payload| ==>
            f.payload[i] == Xor(buf[pos + i], buf[pos - 4 + i % 4]))
      && (buf[1] < 0x80 ==> f.payload == buf[pos..f.total])
  {
  }

  /** Bytes after the frame do not change what is parsed. */
  lemma ParseFrameIgnoresTail(buf: seq<byte>, rest: seq<byte>)
    requires ParseFrame(buf).Some?
    ensures ParseFrame(buf[..ParseFrame(buf).value.total] + rest) == ParseFrame(buf)
  {
    var n := FrameEnd(buf);
    var b := buf[..n] + rest;
    var ext := ExtLenSize(buf[1]);
    var pos := PayloadOffset(buf[1]);
    assert 2 + ext <= pos <= n <= |buf|;
    assert b[..n] == buf[..n];
    assert b[0] == buf[0] && b[1] == buf[1];
    SameSlice(b, buf, n, 2, 2 + ext);
    assert HeaderComplete(b) && PayloadLength(b) == PayloadLength(buf) && FrameEnd(b) == n;
    SameSlice(b, buf, n, pos, n);
    if buf[1] >= 0x80 {
      SameSlice(b, buf, n, pos - 4, pos);
    }
    assert FramePayload(b) == FramePayload(buf);
  }

  /**
   * Only the 8-byte length field can overflow, and only with a length within 14
   * of 2^64; such a frame is never returned from a buffer that fits in memory.
   */
  lemma OverflowNeedsHugeLength(buf: seq<byte>)
    requires FrameOverflows(buf)
    ensures buf[1] % 128 == 127 && PayloadLength(buf) >= Pow256(8) - 14
    ensures |buf| < Pow256(8) ==> ParseFrame(buf) == None
  {
    assert Pow256(2) == 65536;
    assert Pow256(8) == 0x1_0000_0000_0000_0000;
  }

  /** An overflowing header stays overflowing whatever bytes follow it. */
  lemma OverflowExtends(buf: seq<byte>, more: seq<byte>)
    requires FrameOverflows(buf)
    ensures FrameOverflows(buf + more)
  {
    var b := buf + more;
    var ext := ExtLenSize(buf[1]);
    assert b[..|buf|] == buf;
    SameSlice(b, buf, |buf|, 2, 2 + ext);
  }

  /** A masked binary frame header announcing 2^64 - 1 bytes, then its mask key. */
  const HUGE_FRAME: seq<byte> := [0x82, 0xFF, 0xFF, 0xFF, 0xFF, 0xFF, 0xFF, 0xFF, 0xFF, 0xFF, 1, 2, 3, 4]

  /**
   * These 14 bytes make parse_websocket_frame panic: the total it computes,
   * 14 + (2^64 - 1), wraps to 13.
   */
  lemma HugeFrameOverflows()
    ensures FrameOverflows(HUGE_FRAME)
    ensures FrameEnd(HUGE_FRAME) - Pow256(8) == 13 < PayloadOffset(HUGE_FRAME[1])
  {
    assert Pow256(8) == 0x1_0000_0000_0000_0000;
    assert HUGE_FRAME[2..10] == seq(8, _ => 0xFF);
    BigEndianAllOnes(8);
  }

  /** n bytes of 0xFF read as the largest n-byte value. */
  lemma {:induction false} BigEndianAllOnes(n: nat)
    ensures BigEndian(seq(n, _ => 0xFF)) == Pow256(n) - 1
  {
    if n > 0 {
      assert seq(n, _ => 0xFF)[..n - 1] == seq(n - 1, _ => 0xFF);
      BigEndianAllOnes(n - 1);
    }
  }

  /** Sequences that agree up to n agree on every slice below n. */
  lemma SameSlice(x: seq<byte>, y: seq<byte>, n: nat, i: nat, j: nat)
    requires n <= |x| && n <= |y| && x[..n] == y[..n] && i <= j <= n
    ensures x[i..j] == y[i..j]
  {
    assert x[i..j] == x[..n][i..j];
    assert y[i..j] == y[..n][i..j];
  }

  /** A frame is never returned before all its bytes are present. */
  lemma ParseFrameNeedsWholeFrame(buf: seq<byte>, k: nat)
    requires ParseFrame(buf).Some? && k < ParseFrame(buf).value.total
    ensures ParseFrame(buf[..k]) == None
  {
    if k >= 2 {
      var b := buf[..k];
      var ext := ExtLenSize(buf[1]);
      if k >= 2 + ext {
        assert b[2..2 + ext] == buf[2..2 + ext];
      }
    }
  }

  // ---------------------------------------------------------------------------
  // Frame building
  // ---------------------------------------------------------------------------

  /** The length field: 1 byte below 126, 126 + 2 bytes below 65536, else 127 + 8 bytes. */
  function LengthField(l: nat): (r: seq<byte>)
    requires l < Pow256(8)
    ensures |r| >= 1 && r[0] < 0x80
  {
    if l < 126 then [l]
    else if l < 65536 then [126] + ToBigEndian(l, 2)
    else [127] + ToBigEndian(l, 8)
  }

  /** build_websocket_frame: FIN set, never masked, then the payload verbatim. */
  function BuildFrame(opcode: byte, payload: seq<byte>): (r: seq<byte>)
    requires |payload| < Pow256(8)
    ensures |r| > |payload| + 1 && r[0] >= 0x80 && r[1] < 0x80
    ensures r[|r| - |payload|..] == payload
  {
    [SetTopBit(opcode)] + LengthField(|payload|) + payload
  }

  /** build_websocket_frame with its Vec pushes and the `for i in (0..8).rev()` loop. */
  method BuildWebsocketFrame(opcode: byte, payload: seq<byte>) returns (out: seq<byte>)
    requires |payload| < Pow256(8)
    ensures out == BuildFrame(opcode, payload)
  {
    out := [SetTopBit(opcode)];
    var l := |payload|;
    if l < 126 {
      out := out + [l];
    } else if l < 65536 {
      out := out + [126];
      out := out + [(l / 256) % 256];
      out := out + [l % 256];
      assert ToBigEndian(l, 2) == [(l / 256) % 256, l % 256];
    } else {
      out := out + [127];
      out := AppendBigEndian(out, l, 8);
    }
    out := out + payload;
  }

  /**
   * Parsing what build_websocket_frame produced gives back a final frame with the
   * same opcode and payload, whatever follows it in the buffer.
   */
  lemma ParseBuildRoundTrip(opcode: byte, payload: seq<byte>, rest: seq<byte>)
    requires opcode < 16 && |payload| < Pow256(8)
    ensures var frame := BuildFrame(opcode, payload);
      ParseFrame(frame + rest) == Some(Frame(|frame|, true, opcode, payload))
  {
    var frame := BuildFrame(opcode, payload);
    var buf := frame + rest;
    var l := |payload|;
    var field := LengthField(l);
    var h := |field| + 1;
    assert buf[0] == SetTopBit(opcode) == 0x80 + opcode;
    assert buf[1] == field[0] && buf[1] < 0x80;
    assert buf[2..h] == field[1..];
    LengthFieldReadBack(l, buf[1], buf);
    assert HeaderComplete(buf) && PayloadOffset(buf[1]) == h;
    assert FrameEnd(buf) == |frame| <= |buf|;
    assert FramePayload(buf) == buf[h..h + l] == payload;
  }

  /**
   * A frame as a client sends it (RFC 6455 section 5.2): FIN bit and opcode,
   * the MASK bit with the same length field, the 4-byte key, then the payload
   * masked with the key.
   */
  function ClientFrame(fin: bool, opcode: byte, key: seq<byte>, payload: seq<byte>): (r: seq<byte>)
    requires opcode < 16 && |key| == 4 && |payload| < Pow256(8)
    ensures |r| == 1 + |LengthField(|payload|)| + 4 + |payload|
  {
    var field := LengthField(|payload|);
    [if fin then opcode + 0x80 else opcode] + [field[0] + 0x80] + field[1..] + key + Unmask(payload, key)
  }

  /** The length field read back by the parser: its size and the length it announces. */
  lemma LengthFieldReadBack(l: nat, b1: byte, buf: seq<byte>)
    requires l < Pow256(8) && b1 % 128 == LengthField(l)[0]
    requires |buf| >= 1 + |LengthField(l)| && buf[1] == b1
    requires buf[2..1 + |LengthField(l)|] == LengthField(l)[1..]
    ensures ExtLenSize(b1) == |LengthField(l)| - 1
    ensures PayloadLength(buf) == l
  {
    var field := LengthField(l);
    if 126 <= l < 65536 {
      BigEndianRoundTrip(l, 2);
      assert field[1..] == ToBigEndian(l, 2);
    } else if l >= 65536 {
      BigEndianRoundTrip(l, 8);
      assert field[1..] == ToBigEndian(l, 8);
    }
  }

  /** Parsing a client frame recovers FIN, opcode and the unmasked payload. */
  lemma ParseClientFrame(fin: bool, opcode: byte, key: seq<byte>, payload: seq<byte>, rest: seq<byte>)
    requires opcode < 16 && |key| == 4 && |payload| < Pow256(8)
    ensures var frame := ClientFrame(fin, opcode, key, payload);
      ParseFrame(frame + rest) == Some(Frame(|frame|, fin, opcode, payload))
  {
    var frame := ClientFrame(fin, opcode, key, payload);
    var buf := frame + rest;
    var l := |payload|;
    var h := |LengthField(l)| + 1;
    ClientFrameBytes(fin, opcode, key, payload, rest);
    LengthFieldReadBack(l, buf[1], buf);
    assert HeaderComplete(buf) && PayloadOffset(buf[1]) == h + 4;
    assert FrameEnd(buf) == |frame| <= |buf|;
    UnmaskTwice(payload, key);
    assert FramePayload(buf) == payload;
  }

  /** Where the parts of a client frame sit in a buffer that starts with it. */
  lemma ClientFrameBytes(fin: bool, opcode: byte, key: seq<byte>, payload: seq<byte>, rest: seq<byte>)
    requires opcode < 16 && |key| == 4 && |payload| < Pow256(8)
    ensures var buf := ClientFrame(fin, opcode, key, payload) + rest;
      var field := LengthField(|payload|);
      var h := |field| + 1;
      && |buf| >= h + 4 + |payload|
      && buf[0] == (if fin then opcode + 0x80 else opcode)
      && buf[1] == field[0] + 0x80 && buf[1] % 128 == field[0]
      && buf[2..h] == field[1..]
      && buf[h..h + 4] == key
      && buf[h + 4..h + 4 + |payload|] == Unmask(payload, key)
  {
    var buf := ClientFrame(fin, opcode, key, payload) + rest;
    var field := LengthField(|payload|);
    var h := |field| + 1;
    assert buf[2..h] == field[1..];
    assert buf[h..h + 4] == key;
    assert buf[h + 4..h + 4 + |payload|] == Unmask(payload, key);
  }
}
