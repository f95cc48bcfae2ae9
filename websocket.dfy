/**
 * The WebSocket endpoint (crates/websocket/lib.rs): the opening handshake of
 * RFC 6455 section 4.2.2, the welcome frame, and the buffered frame loop that
 * echoes data frames, reassembles fragmented messages, answers pings and stops
 * on close. The crate's private find_header_val, sha1 and base64_encode are the
 * same code as the utils functions and are modelled by FindHeaderValue,
 * Sha1Digest and Base64Encode.
 *
 * The loop's local state (buf_acc, frag_opcode, frag_payload) is the value
 * WsState; one received chunk takes it to an Outcome listing the frames sent.
 */
module WebSocket {
  import opened Bytes
  import opened Crypto
  import opened Parsing

  // ---------------------------------------------------------------------------
  // Opening handshake
  // ---------------------------------------------------------------------------

  const WS_GUID: seq<byte> := Ascii("258EAFA5-E914-47DA-95CA-C5AB0DC85B11")
  const KEY_HEADER: seq<byte> := Ascii("Sec-WebSocket-Key")
  const RESPONSE_HEAD: seq<byte> :=
    Ascii("HTTP/1.1 101 Switching Protocols\r\nUpgrade: websocket\r\nConnection: Upgrade\r\nSec-WebSocket-Accept: ")
  const CRLF_CRLF: seq<byte> := Ascii("\r\n\r\n")

  /** The key with its leading 0x20 bytes removed. */
  function TrimLeading(s: seq<byte>): (r: seq<byte>)
    ensures |r| <= |s|
  {
    if s != [] && s[0] == SPACE then TrimLeading(s[1..]) else s
  }

  /** The key with its trailing 0x20 bytes removed. */
  function TrimTrailing(s: seq<byte>): (r: seq<byte>)
    ensures |r| <= |s|
  {
    if s != [] && s[|s| - 1] == SPACE then TrimTrailing(s[..|s| - 1]) else s
  }

  /** TrimLeading removes a run of spaces from the front and stops at a non-space. */
  lemma {:induction false} TrimLeadingSpec(s: seq<byte>)
    ensures var r := TrimLeading(s);
      && |r| <= |s| && r == s[|s| - |r|..]
      && (forall m :: 0 <= m < |s| - |r| ==> s[m] == SPACE)
      && (r == [] || r[0] != SPACE)
  {
    if s != [] && s[0] == SPACE {
      TrimLeadingSpec(s[1..]);
      var r := TrimLeading(s);
      assert r == s[1..][|s| - 1 - |r|..];
      forall m | 0 <= m < |s| - |r|
        ensures s[m] == SPACE
      {
        if m > 0 {
          assert s[m] == s[1..][m - 1];
        }
      }
    }
  }

  /** TrimTrailing removes a run of spaces from the end and stops at a non-space. */
  lemma {:induction false} TrimTrailingSpec(s: seq<byte>)
    ensures var r := TrimTrailing(s);
      && |r| <= |s| && r == s[..|r|]
      && (forall m :: |r| <= m < |s| ==> s[m] == SPACE)
      && (r == [] || r[|r| - 1] != SPACE)
  {
    if s != [] && s[|s| - 1] == SPACE {
      var t := s[..|s| - 1];
      TrimTrailingSpec(t);
      var r := TrimTrailing(s);
      assert r == t[..|r|];
      forall m | |r| <= m < |s|
        ensures s[m] == SPACE
      {
        if m < |s| - 1 {
          assert s[m] == t[m];
        }
      }
    }
  }

  /** The key with the 0x20 bytes at both ends removed. */
  function TrimKey(s: seq<byte>): seq<byte> {
    TrimTrailing(TrimLeading(s))
  }

  /** Only spaces (0x20) are trimmed, at both ends; everything between is kept. */
  lemma TrimKeySpec(s: seq<byte>)
    ensures var r := TrimKey(s);
      var i := |s| - |TrimLeading(s)|;
      && i + |r| <= |s| && r == s[i..i + |r|]
      && (forall m :: 0 <= m < i ==> s[m] == SPACE)
      && (forall m :: i + |r| <= m < |s| ==> s[m] == SPACE)
      && (r == [] || (r[0] != SPACE && r[|r| - 1] != SPACE))
  {
    var left := TrimLeading(s);
    TrimLeadingSpec(s);
    var r := TrimTrailing(left);
    TrimTrailingSpec(left);
    var i := |s| - |left|;
    assert r == s[i..i + |r|];
    forall m | i + |r| <= m < |s|
      ensures s[m] == SPACE
    {
      assert s[m] == left[m - i];
    }
  }

  /** The two `while` loops that trim the key. */
  method TrimKeyBytes(key: seq<byte>) returns (t: seq<byte>)
    ensures t == TrimKey(key)
  {
    t := key;
    while t != [] && t[0] == SPACE
      invariant TrimLeading(t) == TrimLeading(key)
    {
      t := t[1..];
    }
    ghost var left := t;
    while t != [] && t[|t| - 1] == SPACE
      invariant TrimTrailing(t) == TrimTrailing(left)
    {
      t := t[..|t| - 1];
    }
  }

  /** The request may not be so long that SHA-1's 64-bit bit length overflows. */
  predicate KeyFits(key: seq<byte>) {
    (|key| + |WS_GUID|) * 8 < Pow256(8)
  }

  /** The Sec-WebSocket-Accept value: base64(sha1(trim(key) ++ GUID)). */
  function AcceptValue(key: seq<byte>): (r: string)
    requires KeyFits(key)
    ensures |r| == 28 && r[27] == '=' && r[26] != '='
  {
    var t := TrimKey(key);
    Base64OfDigest(Sha1(t + WS_GUID));
    Base64(Sha1(t + WS_GUID))
  }

  /** The accept computation of accept_and_run. */
  method ComputeAccept(key: seq<byte>) returns (accept: string)
    requires KeyFits(key)
    ensures accept == AcceptValue(key)
  {
    var keyTrim := TrimKeyBytes(key);
    var combined := keyTrim + WS_GUID;
    var digest := Sha1Digest(combined);
    accept := Base64Encode(digest);
  }

  /** The 101 response carrying the accept value. */
  function SwitchingProtocols(accept: string): seq<byte> {
    RESPONSE_HEAD + Ascii(accept) + CRLF_CRLF
  }

  /** The first payload sent after the handshake. */
  const WELCOME_TITLE: string := "\r\n\U{1b}[1;32m=== Async NoStd Terminal ===\U{1b}[0m\r\n"
  const WELCOME_TEXT: string := WELCOME_TITLE + WELCOME_BODY
  const WELCOME_BODY: string :=
    "\r\n\U{1b}[1;36mWelcome to the no_std async runtime!\U{1b}[0m\r\n"
    + "\r\nFeatures:\r\n"
    + "  \U{1b}[33m*\U{1b}[0m Lock-free task scheduler (Treiber stack)\r\n"
    + "  \U{1b}[33m*\U{1b}[0m Multi-threaded workers with TLS\r\n"
    + "  \U{1b}[33m*\U{1b}[0m ppoll-based async I/O\r\n"
    + "  \U{1b}[33m*\U{1b}[0m 31KB binary (stripped)\r\n"
    + "\r\n\U{1b}[90mType anything and it will be echoed back...\U{1b}[0m\r\n"
    + "\r\n$ "
  const WELCOME: seq<byte> := Ascii(WELCOME_TEXT)

  /** What accept_and_run sends before its frame loop. */
  datatype Opening = NoKey | Opened(sent: seq<byte>)

  function Handshake(request: seq<byte>): Opening
    requires KeyFits(request)
  {
    match HeaderValue(request, KEY_HEADER)
    case None => NoKey
    case Some(key) =>
      Opened(SwitchingProtocols(AcceptValue(key)) + BuildFrame(2, WELCOME))
  }

  /** send_ws_payload's frame: FIN + binary (0x82), the length field, the payload. */
  method SendWsPayload(payload: seq<byte>) returns (frame: seq<byte>)
    requires |payload| < Pow256(8)
    ensures frame == BuildFrame(2, payload)
  {
    frame := BuildWebsocketFrame(2, payload);
  }

  /**
   * The start of accept_and_run: nothing is sent without a Sec-WebSocket-Key;
   * otherwise the 101 response, then the welcome frame.
   */
  method AcceptAndOpen(request: seq<byte>) returns (r: Opening)
    requires KeyFits(request)
    ensures r == Handshake(request)
  {
    var keyBytes := FindHeaderValue(request, KEY_HEADER);
    if keyBytes.None? {
      return NoKey;
    }
    var accept := ComputeAccept(keyBytes.value);
    var resp := RESPONSE_HEAD + Ascii(accept) + CRLF_CRLF;
    var welcome := SendWsPayload(WELCOME);
    r := Opened(resp + welcome);
  }

  /**
   * The shape of what is sent on a successful handshake: the fixed 101 head,
   * the 28-character accept value, an empty line, then one final binary frame
   * carrying `welcome`.
   */
  predicate OpenedShape(sent: seq<byte>, accept: string, welcome: seq<byte>) {
    var n := |RESPONSE_HEAD|;
    && |sent| >= n + 32
    && sent[..n] == RESPONSE_HEAD
    && sent[n..n + 28] == Ascii(accept)
    && sent[n + 28..n + 32] == CRLF_CRLF
    && ParseFrame(sent[n + 32..]) == Some(Frame(|sent| - n - 32, true, 2, welcome))
  }

  /**
   * Nothing is sent exactly when the request has no Sec-WebSocket-Key header;
   * otherwise the 101 response carries the accept value of the trimmed key and
   * is followed by the welcome frame.
   */
  lemma HandshakeLayout(request: seq<byte>)
    requires KeyFits(request)
    ensures Handshake(request).NoKey? <==> HeaderValue(request, KEY_HEADER).None?
    ensures Handshake(request).Opened? ==>
      OpenedShape(Handshake(request).sent, AcceptValue(HeaderValue(request, KEY_HEADER).value), WELCOME)
  {
    if HeaderValue(request, KEY_HEADER).Some? {
      var key := HeaderValue(request, KEY_HEADER).value;
      var sent := Handshake(request).sent;
      WelcomeFrame();
      assert sent == SwitchingProtocols(AcceptValue(key)) + BuildFrame(2, WELCOME);
      OpenedLayout(AcceptValue(key), WELCOME, sent);
    }
  }

  lemma OpenedLayout(accept: string, welcome: seq<byte>, sent: seq<byte>)
    requires |accept| == 28 && |welcome| < Pow256(8)
    requires sent == SwitchingProtocols(accept) + BuildFrame(2, welcome)
    ensures OpenedShape(sent, accept, welcome)
  {
    var frame := BuildFrame(2, welcome);
    var n := |RESPONSE_HEAD|;
    SplitFour(RESPONSE_HEAD, Ascii(accept), CRLF_CRLF, frame);
    assert sent[n + 32..] == frame + [];
    ParseBuildRoundTrip(2, welcome, []);
  }

  /** The welcome frame parses back as a final binary frame carrying WELCOME. */
  lemma WelcomeFrame()
    ensures |WELCOME| < Pow256(8)
    ensures ParseFrame(BuildFrame(2, WELCOME)) == Some(Frame(|BuildFrame(2, WELCOME)|, true, 2, WELCOME))
  {
    assert |WELCOME| < 65536 < Pow256(8) == 0x1_0000_0000_0000_0000;
    ParseBuildRoundTrip(2, WELCOME, []);
    assert BuildFrame(2, WELCOME) + [] == BuildFrame(2, WELCOME);
  }

  lemma SplitFour(a: seq<byte>, b: seq<byte>, c: seq<byte>, d: seq<byte>)
    ensures var s := a + b + c + d;
      && s[..|a|] == a && s[|a|..|a| + |b|] == b
      && s[|a| + |b|..|a| + |b| + |c|] == c && s[|a| + |b| + |c|..] == d
  {
  }

  // ---------------------------------------------------------------------------
  // The frame loop
  // ---------------------------------------------------------------------------

  /** buf_acc, frag_opcode and frag_payload between two receives. */
  datatype WsState = WsState(buf: seq<byte>, fragOpcode: Option<byte>, fragPayload: seq<byte>)

  /**
   * The state after a receive, the frames sent meanwhile, and whether the
   * connection ended: a close frame, an empty receive, or a frame header whose
   * length makes the parser panic, which ends the whole server process.
   */
  datatype Outcome = Outcome(state: WsState, sent: seq<seq<byte>>, closed: bool)

  /** Every buffer is a Vec, so the bytes held fit in a usize. */
  predicate Fits(st: WsState) {
    |st.buf| + |st.fragPayload| < Pow256(8)
  }

  /** frag_opcode only ever records a data opcode. */
  predicate ValidFrag(st: WsState) {
    st.fragOpcode == None || st.fragOpcode == Some(1) || st.fragOpcode == Some(2)
  }

  /** Frames sent before `o`'s ones. */
  function After(sent: seq<seq<byte>>, o: Outcome): Outcome {
    Outcome(o.state, sent + o.sent, o.closed)
  }

  /**
   * Handling one decoded frame, its bytes already drained from `st.buf`:
   * continuation, data, close, ping, or ignored.
   */
  function OnFrame(st: WsState, f: Frame): (r: Outcome)
    requires |st.fragPayload| + |f.payload| < Pow256(8)
    ensures r.state.buf == st.buf
    ensures |r.state.fragPayload| <= |st.fragPayload| + |f.payload|
    ensures |r.sent| <= 1 && (r.closed ==> r.sent == [])
    ensures ValidFrag(st) ==> ValidFrag(r.state)
  {
    if f.opcode == 0 then
      if st.fragOpcode.None? then Outcome(st, [], false)
      else
        var full := st.fragPayload + f.payload;
        if f.fin then
          var op := st.fragOpcode.value;
          Outcome(st.(fragOpcode := None, fragPayload := []),
                  if op == 1 || op == 2 then [BuildFrame(2, full)] else [], false)
        else Outcome(st.(fragPayload := full), [], false)
    else if f.opcode == 1 || f.opcode == 2 then
      if f.fin then Outcome(st, [BuildFrame(2, f.payload)], false)
      else Outcome(st.(fragOpcode := Some(f.opcode), fragPayload := f.payload), [], false)
    else if f.opcode == 8 then Outcome(st, [], true)
    else if f.opcode == 9 then Outcome(st, [BuildFrame(0xA, f.payload)], false)
    else Outcome(st, [], false)
  }

  /**
   * The inner loop: handle complete frames from the front of the buffer until
   * none is left; a header whose length overflows ends everything at once.
   */
  function Drain(st: WsState): (r: Outcome)
    requires Fits(st)
    ensures |r.state.buf| + |r.state.fragPayload| <= |st.buf| + |st.fragPayload|
    ensures ValidFrag(st) ==> ValidFrag(r.state)
    decreases |st.buf|
  {
    if FrameOverflows(st.buf) then Outcome(st, [], true)
    else match ParseFrame(st.buf)
    case None => Outcome(st, [], false)
    case Some(f) =>
      ParseFrameHeader(st.buf);
      var o := OnFrame(st.(buf := st.buf[f.total..]), f);
      if o.closed then o else After(o.sent, Drain(o.state))
  }

  /** One iteration of the outer loop: an empty receive closes, else append and drain. */
  function Step(st: WsState, chunk: seq<byte>): (r: Outcome)
    requires Fits(st.(buf := st.buf + chunk))
    ensures chunk == [] ==> r.closed && r.sent == []
    ensures |r.state.buf| + |r.state.fragPayload| <= |st.buf| + |chunk| + |st.fragPayload|
    ensures ValidFrag(st) ==> ValidFrag(r.state)
  {
    if chunk == [] then Outcome(st, [], true) else Drain(st.(buf := st.buf + chunk))
  }

  /**
   * The handling of one frame in accept_and_run, after `buf_acc.drain`:
   * fragment bookkeeping and echo, close, pong, or nothing.
   */
  method HandleFrame(st: WsState, f: Frame) returns (r: Outcome)
    requires |st.fragPayload| + |f.payload| < Pow256(8)
    ensures r == OnFrame(st, f)
  {
    var fragOpcode, fragPayload := st.fragOpcode, st.fragPayload;
    var sent: seq<seq<byte>> := [];
    if f.opcode == 0 {
      if fragOpcode.None? {
        return Outcome(st, sent, false);
      }
      fragPayload := fragPayload + f.payload;
      if f.fin {
        var op := fragOpcode.value;
        fragOpcode := None;
        var full := fragPayload;
        fragPayload := [];
        if op == 1 || op == 2 {
          var frame := SendWsPayload(full);
          sent := sent + [frame];
        }
      }
      return Outcome(WsState(st.buf, fragOpcode, fragPayload), sent, false);
    }
    if f.opcode == 1 || f.opcode == 2 {
      if f.fin {
        var frame := SendWsPayload(f.payload);
        sent := sent + [frame];
      } else {
        fragOpcode := Some(f.opcode);
        fragPayload := f.payload;
      }
      return Outcome(WsState(st.buf, fragOpcode, fragPayload), sent, false);
    }
    if f.opcode == 8 {
      return Outcome(st, sent, true);
    }
    if f.opcode == 9 {
      var pong := BuildWebsocketFrame(0xA, f.payload);
      sent := sent + [pong];
    }
    return Outcome(st, sent, false);
  }

  lemma AfterAfter(a: seq<seq<byte>>, b: seq<seq<byte>>, o: Outcome)
    ensures After(a, After(b, o)) == After(a + b, o)
  {
    assert a + (b + o.sent) == (a + b) + o.sent;
  }

  /** The body of accept_and_run's receive loop for one chunk. */
  method ReceiveChunk(st: WsState, chunk: seq<byte>) returns (r: Outcome)
    requires Fits(st.(buf := st.buf + chunk))
    ensures r == Step(st, chunk)
  {
    if |chunk| == 0 {
      return Outcome(st, [], true);
    }
    var bufAcc := st.buf + chunk;
    var fragOpcode := st.fragOpcode;
    var fragPayload := st.fragPayload;
    var sent: seq<seq<byte>> := [];
    ghost var start := WsState(bufAcc, fragOpcode, fragPayload);
    while true
      invariant Fits(WsState(bufAcc, fragOpcode, fragPayload))
      invariant After(sent, Drain(WsState(bufAcc, fragOpcode, fragPayload))) == Drain(start)
      decreases |bufAcc|
    {
      ghost var cur := WsState(bufAcc, fragOpcode, fragPayload);
      var parsed, panics := ParseWebsocketFrame(bufAcc);
      if panics {
        // the panic handler ends the process
        assert sent + [] == sent;
        return Outcome(WsState(bufAcc, fragOpcode, fragPayload), sent, true);
      }
      if parsed.None? {
        break;
      }
      var f := parsed.value;
      ParseFrameHeader(bufAcc);
      bufAcc := bufAcc[f.total..];
      var o := HandleFrame(WsState(bufAcc, fragOpcode, fragPayload), f);
      assert Drain(cur) == if o.closed then o else After(o.sent, Drain(o.state));
      AfterAfter(sent, o.sent, Drain(o.state));
      sent := sent + o.sent;
      if o.closed {
        return Outcome(o.state, sent, true);
      }
      fragOpcode, fragPayload := o.state.fragOpcode, o.state.fragPayload;
    }
    r := Outcome(WsState(bufAcc, fragOpcode, fragPayload), sent, false);
  }

  // ---------------------------------------------------------------------------
  // Properties of the frame loop
  // ---------------------------------------------------------------------------

  /** `o` with `more` appended to the bytes it left in the buffer. */
  function Extend(o: Outcome, more: seq<byte>): Outcome {
    o.(state := o.state.(buf := o.state.buf + more))
  }

  /** The handling of a frame does not look at the bytes still buffered. */
  lemma OnFrameAnyBuf(st: WsState, f: Frame, more: seq<byte>)
    requires |st.fragPayload| + |f.payload| < Pow256(8)
    ensures OnFrame(st.(buf := st.buf + more), f) == Extend(OnFrame(st, f), more)
  {
  }

  /** A continuation frame while no fragmented message is open is dropped, in any state. */
  lemma StrayContinuationIgnored(st: WsState, f: Frame)
    requires |st.fragPayload| + |f.payload| < Pow256(8)
    requires f.opcode == 0 && st.fragOpcode.None?
    ensures OnFrame(st, f) == Outcome(st, [], false)
  {
  }

  /** A non-final continuation frame adds its payload to the open message and sends nothing. */
  lemma ContinuationAppends(st: WsState, f: Frame)
    requires |st.fragPayload| + |f.payload| < Pow256(8)
    requires f.opcode == 0 && st.fragOpcode.Some? && !f.fin
    ensures OnFrame(st, f) == Outcome(st.(fragPayload := st.fragPayload + f.payload), [], false)
  {
  }

  /**
   * A final continuation frame closes the open message and, when it began as
   * text or binary, echoes everything gathered as one binary frame.
   */
  lemma FinalContinuation(st: WsState, f: Frame)
    requires |st.fragPayload| + |f.payload| < Pow256(8)
    requires f.opcode == 0 && st.fragOpcode.Some? && f.fin
    ensures var r := OnFrame(st, f);
      && r.state == st.(fragOpcode := None, fragPayload := [])
      && !r.closed
      && r.sent == if st.fragOpcode.value in {1, 2} then [BuildFrame(2, st.fragPayload + f.payload)] else []
  {
  }

  /**
   * A final text or binary frame is echoed as a binary frame, whatever message
   * is open; a non-final one opens a new message, dropping any open one.
   */
  lemma DataFrame(st: WsState, f: Frame)
    requires |st.fragPayload| + |f.payload| < Pow256(8)
    requires f.opcode == 1 || f.opcode == 2
    ensures f.fin ==> OnFrame(st, f) == Outcome(st, [BuildFrame(2, f.payload)], false)
    ensures !f.fin ==>
      OnFrame(st, f) == Outcome(st.(fragOpcode := Some(f.opcode), fragPayload := f.payload), [], false)
  {
  }

  /**
   * A close frame ends the connection with no reply, a ping is answered with a
   * pong carrying its payload, and every other opcode is ignored; none of them
   * touches the open message.
   */
  lemma ControlFrame(st: WsState, f: Frame)
    requires |st.fragPayload| + |f.payload| < Pow256(8)
    requires f.opcode !in {0, 1, 2}
    ensures f.opcode == 8 ==> OnFrame(st, f) == Outcome(st, [], true)
    ensures f.opcode == 9 ==> OnFrame(st, f) == Outcome(st, [BuildFrame(0xA, f.payload)], false)
    ensures f.opcode != 8 && f.opcode != 9 ==> OnFrame(st, f) == Outcome(st, [], false)
  {
  }

  /**
   * Drain stops only at a buffer holding no complete frame (unless a close
   * frame ended the connection), and what it leaves is the unread end of what
   * it was given.
   */
  lemma {:induction false} DrainLeavesPartial(st: WsState)
    requires Fits(st)
    ensures var r := Drain(st);
      && |r.state.buf| <= |st.buf| && r.state.buf == st.buf[|st.buf| - |r.state.buf|..]
      && (!r.closed ==> ParseFrame(r.state.buf) == None)
    decreases |st.buf|
  {
    if FrameOverflows(st.buf) {
      assert Drain(st) == Outcome(st, [], true);
    } else {
      match ParseFrame(st.buf)
      case None =>
        assert Drain(st) == Outcome(st, [], false);
      case Some(f) =>
        ParseFrameHeader(st.buf);
        var o := OnFrame(st.(buf := st.buf[f.total..]), f);
        if !o.closed {
          DrainLeavesPartial(o.state);
          var r := Drain(o.state);
          assert Drain(st) == After(o.sent, r);
          assert r.state.buf == st.buf[|st.buf| - |r.state.buf|..];
        } else {
          assert Drain(st) == o;
        }
    }
  }

  /**
   * Bytes arriving later do not change how the frames already complete are
   * handled: draining `buf ++ more` handles what draining `buf` handles, then
   * carries on with the leftover followed by `more`.
   */
  lemma {:induction false} DrainAppend(st: WsState, more: seq<byte>)
    requires Fits(st.(buf := st.buf + more))
    ensures var r := Drain(st);
      Drain(st.(buf := st.buf + more)) ==
        if r.closed then Extend(r, more)
        else After(r.sent, Drain(r.state.(buf := r.state.buf + more)))
    decreases |st.buf|
  {
    if FrameOverflows(st.buf) {
      OverflowExtends(st.buf, more);
      return;
    }
    match ParseFrame(st.buf)
    case None =>
      var d := Drain(st.(buf := st.buf + more));
      assert [] + d.sent == d.sent;
    case Some(f) =>
      DrainFirstExtended(st, f, more);
      DrainFirst(st, f);
      var o := OnFrame(st.(buf := st.buf[f.total..]), f);
      if !o.closed {
        DrainAppend(o.state, more);
        var r := Drain(o.state);
        if !r.closed {
          AfterAfter(o.sent, r.sent, Drain(r.state.(buf := r.state.buf + more)));
        }
      }
  }

  /** The first frame of `buf` is also the first frame of `buf ++ more`, and is handled alike. */
  lemma DrainFirstExtended(st: WsState, f: Frame, more: seq<byte>)
    requires Fits(st.(buf := st.buf + more)) && ParseFrame(st.buf) == Some(f)
    ensures f.total <= |st.buf| && |st.fragPayload| + |f.payload| < Pow256(8)
    ensures var o := OnFrame(st.(buf := st.buf[f.total..]), f);
      Drain(st.(buf := st.buf + more)) ==
        if o.closed then Extend(o, more) else After(o.sent, Drain(Extend(o, more).state))
  {
    ParseFrameHeader(st.buf);
    var big := st.(buf := st.buf + more);
    ParseFrameIgnoresTail(st.buf, st.buf[f.total..] + more);
    assert st.buf[..f.total] + (st.buf[f.total..] + more) == big.buf;
    assert big.buf[f.total..] == st.buf[f.total..] + more;
    DrainFirst(big, f);
    OnFrameAnyBuf(st.(buf := st.buf[f.total..]), f, more);
  }

  /**
   * A byte stream may be cut into receives anywhere: receiving `a` then `b`
   * sends the same frames, and ends in the same state, as receiving `a ++ b`
   * at once.
   */
  lemma StepSplit(st: WsState, a: seq<byte>, b: seq<byte>)
    requires a != [] && b != [] && Fits(st.(buf := st.buf + a + b))
    ensures Fits(st.(buf := st.buf + a))
    ensures var r := Step(st, a);
      && (!r.closed ==> Fits(r.state.(buf := r.state.buf + b)))
      && Step(st, a + b) == if r.closed then Extend(r, b) else After(r.sent, Step(r.state, b))
  {
    assert st.buf + (a + b) == st.buf + a + b;
    DrainAppend(st.(buf := st.buf + a), b);
  }

  /** The state between messages: nothing buffered, no fragmented message open. */
  const IDLE: WsState := WsState([], None, [])

  lemma DrainIdle()
    ensures Drain(IDLE) == Outcome(IDLE, [], false)
  {
    assert ParseFrame([]) == None;
  }

  /**
   * The 14-byte header of a masked frame announcing 2^64 - 1 bytes makes the
   * frame parser panic, which ends the server: nothing is sent and nothing
   * after it is handled, in any state of the loop.
   */
  lemma HugeFrameEnds(st: WsState, rest: seq<byte>)
    requires st.buf == [] && |st.fragPayload| < 0x1_0000_0000 && |rest| < 0x1_0000_0000
    ensures Fits(st.(buf := HUGE_FRAME + rest))
    ensures Step(st, HUGE_FRAME + rest) == Outcome(st.(buf := HUGE_FRAME + rest), [], true)
  {
    HugeFrameOverflows();
    OverflowExtends(HUGE_FRAME, rest);
    assert st.buf + (HUGE_FRAME + rest) == HUGE_FRAME + rest;
    assert Pow256(8) == 0x1_0000_0000_0000_0000;
  }

  /** A frame whose payload is below 2^32 bytes takes at most 14 bytes more than the payload. */
  lemma SmallFrame(l: nat)
    requires l < 0x1_0000_0000
    ensures l < Pow256(8) && |LengthField(l)| <= 9
    ensures Pow256(8) == 0x1_0000_0000_0000_0000
  {
    assert Pow256(4) == 0x1_0000_0000;
    assert Pow256(8) == 0x1_0000_0000_0000_0000;
  }

  /** Drain on a buffer that starts with a complete frame: handle it, then go on unless closed. */
  lemma DrainFirst(st: WsState, f: Frame)
    requires Fits(st) && ParseFrame(st.buf) == Some(f)
    ensures f.total <= |st.buf| && |st.fragPayload| + |f.payload| < Pow256(8)
    ensures var o := OnFrame(st.(buf := st.buf[f.total..]), f);
      Drain(st) == if o.closed then o else After(o.sent, Drain(o.state))
  {
    ParseFrameHeader(st.buf);
  }

  /** A complete text or binary message from the client is echoed back as one binary frame. */
  lemma EchoMessage(opcode: byte, key: seq<byte>, payload: seq<byte>)
    requires (opcode == 1 || opcode == 2) && |key| == 4 && |payload| < 0x1_0000_0000
    ensures var chunk := ClientFrame(true, opcode, key, payload);
      Fits(IDLE.(buf := chunk))
      && Step(IDLE, chunk) == Outcome(IDLE, [BuildFrame(2, payload)], false)
  {
    SmallFrame(|payload|);
    var chunk := ClientFrame(true, opcode, key, payload);
    var st := IDLE.(buf := chunk);
    var f := Frame(|chunk|, true, opcode, payload);
    ParseClientFrame(true, opcode, key, payload, []);
    assert chunk + [] == chunk;
    assert IDLE.(buf := IDLE.buf + chunk) == st;
    DrainFirst(st, f);
    assert chunk[f.total..] == [];
    var o := OnFrame(IDLE, f);
    assert o == Outcome(IDLE, [BuildFrame(2, payload)], false);
    DrainIdle();
    assert Drain(st) == After(o.sent, Drain(IDLE));
  }

  /**
   * A message split into a first data frame and a final continuation frame is
   * echoed once, as one binary frame carrying both payloads.
   */
  lemma FragmentedEcho(opcode: byte, key: seq<byte>, first: seq<byte>, last: seq<byte>)
    requires (opcode == 1 || opcode == 2) && |key| == 4
    requires |first| < 0x1_0000_0000 && |last| < 0x1_0000_0000
    ensures var chunk := ClientFrame(false, opcode, key, first) + ClientFrame(true, 0, key, last);
      Fits(IDLE.(buf := chunk))
      && Step(IDLE, chunk) == Outcome(IDLE, [BuildFrame(2, first + last)], false)
  {
    SmallFrame(|first|);
    SmallFrame(|last|);
    var c1 := ClientFrame(false, opcode, key, first);
    var c2 := ClientFrame(true, 0, key, last);
    assert IDLE.(buf := IDLE.buf + (c1 + c2)) == IDLE.(buf := c1 + c2);
    FirstFragment(opcode, key, first, c2);
    FinalFragment(opcode, key, first, last);
  }

  /** A non-final data frame opens a fragmented message and sends nothing. */
  lemma FirstFragment(opcode: byte, key: seq<byte>, first: seq<byte>, rest: seq<byte>)
    requires (opcode == 1 || opcode == 2) && |key| == 4
    requires |first| < 0x1_0000_0000 && |rest| < 0x1_0000_0000_0000
    ensures var chunk := ClientFrame(false, opcode, key, first) + rest;
      Fits(IDLE.(buf := chunk))
      && Drain(IDLE.(buf := chunk)) == Drain(WsState(rest, Some(opcode), first))
  {
    SmallFrame(|first|);
    var c1 := ClientFrame(false, opcode, key, first);
    var st1 := IDLE.(buf := c1 + rest);
    var f1 := Frame(|c1|, false, opcode, first);
    ParseClientFrame(false, opcode, key, first, rest);
    DrainFirst(st1, f1);
    assert (c1 + rest)[|c1|..] == rest;
    var o1 := OnFrame(IDLE.(buf := rest), f1);
    var st2 := WsState(rest, Some(opcode), first);
    assert o1 == Outcome(st2, [], false);
    assert [] + Drain(st2).sent == Drain(st2).sent;
  }

  /** The final continuation frame completes the message, which is echoed as one frame. */
  lemma FinalFragment(opcode: byte, key: seq<byte>, first: seq<byte>, last: seq<byte>)
    requires (opcode == 1 || opcode == 2) && |key| == 4
    requires |first| < 0x1_0000_0000 && |last| < 0x1_0000_0000
    ensures var c2 := ClientFrame(true, 0, key, last);
      Fits(WsState(c2, Some(opcode), first))
      && Drain(WsState(c2, Some(opcode), first)) == Outcome(IDLE, [BuildFrame(2, first + last)], false)
  {
    SmallFrame(|first|);
    SmallFrame(|last|);
    var c2 := ClientFrame(true, 0, key, last);
    var st2 := WsState(c2, Some(opcode), first);
    var f2 := Frame(|c2|, true, 0, last);
    ParseClientFrame(true, 0, key, last, []);
    assert c2 + [] == c2;
    DrainFirst(st2, f2);
    assert c2[|c2|..] == [];
    var o2 := OnFrame(st2.(buf := []), f2);
    assert o2 == Outcome(IDLE, [BuildFrame(2, first + last)], false);
    DrainIdle();
    assert Drain(st2) == After(o2.sent, Drain(IDLE));
  }

  /** A ping is answered by a pong frame carrying the ping's payload. */
  lemma PingPong(key: seq<byte>, payload: seq<byte>)
    requires |key| == 4 && |payload| < 0x1_0000_0000
    ensures var chunk := ClientFrame(true, 9, key, payload);
      Fits(IDLE.(buf := chunk))
      && Step(IDLE, chunk) == Outcome(IDLE, [BuildFrame(0xA, payload)], false)
  {
    SmallFrame(|payload|);
    var chunk := ClientFrame(true, 9, key, payload);
    var st := IDLE.(buf := chunk);
    var f := Frame(|chunk|, true, 9, payload);
    ParseClientFrame(true, 9, key, payload, []);
    assert chunk + [] == chunk;
    assert IDLE.(buf := IDLE.buf + chunk) == st;
    DrainFirst(st, f);
    assert chunk[f.total..] == [];
    var o := OnFrame(IDLE, f);
    assert o == Outcome(IDLE, [BuildFrame(0xA, payload)], false);
    DrainIdle();
    assert Drain(st) == After(o.sent, Drain(IDLE));
  }

  /**
   * A close frame ends the connection at once: nothing is sent in reply and
   * the bytes after it are never handled.
   */
  lemma CloseEnds(st: WsState, key: seq<byte>, payload: seq<byte>, rest: seq<byte>)
    requires st.buf == [] && |key| == 4 && |payload| < 0x1_0000_0000
    requires |st.fragPayload| < 0x1_0000_0000 && |rest| < 0x1_0000_0000
    ensures var chunk := ClientFrame(true, 8, key, payload) + rest;
      Fits(st.(buf := chunk))
      && Step(st, chunk) == Outcome(st.(buf := rest), [], true)
  {
    SmallFrame(|payload|);
    var frame := ClientFrame(true, 8, key, payload);
    var big := st.(buf := frame + rest);
    assert st.buf + (frame + rest) == frame + rest;
    var f := Frame(|frame|, true, 8, payload);
    ParseClientFrame(true, 8, key, payload, rest);
    DrainFirst(big, f);
    assert (frame + rest)[|frame|..] == rest;
  }

  /**
   * Frames without the mask bit are accepted too: an unmasked text frame is
   * echoed like a masked one.
   */
  lemma UnmaskedAccepted(payload: seq<byte>)
    requires |payload| < 0x1_0000_0000
    ensures var chunk := BuildFrame(1, payload);
      Fits(IDLE.(buf := chunk))
      && Step(IDLE, chunk) == Outcome(IDLE, [BuildFrame(2, payload)], false)
  {
    SmallFrame(|payload|);
    var chunk := BuildFrame(1, payload);
    var st := IDLE.(buf := chunk);
    ParseBuildRoundTrip(1, payload, []);
    assert chunk + [] == chunk;
    assert IDLE.(buf := IDLE.buf + chunk) == st;
    var f := Frame(|chunk|, true, 1, payload);
    DrainFirst(st, f);
    assert chunk[f.total..] == [];
    var o := OnFrame(IDLE, f);
    assert o == Outcome(IDLE, [BuildFrame(2, payload)], false);
    DrainIdle();
    assert Drain(st) == After(o.sent, Drain(IDLE));
  }
}
