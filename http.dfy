/**
 * The HTTP side of the server (crates/http/lib.rs): the response header block
 * with a decimal Content-Length, and the routing of the first read of a
 * connection to the index page, the WebSocket handler or a 404.
 */
module Http {
  import opened Bytes
  import opened Syscall

  /** Size of the single read `handle_http_connection` examines. */
  const READ_SIZE: nat := 1024

  /** The header block: status line, Content-Type, Content-Length, blank line. */
  function Headers(status: seq<byte>, contentType: seq<byte>, contentLen: nat): seq<byte> {
    Ascii("HTTP/1.1 ") + status + Ascii("\r\nContent-Type: ") + contentType
      + Ascii("\r\nContent-Length: ") + Decimal(contentLen) + Ascii("\r\n\r\n")
  }

  /**
   * http_response_headers. Its digit loop and swap reversal are the same code
   * as format_usize, whose model FormatUsize they share.
   */
  method HttpResponseHeaders(status: seq<byte>, contentType: seq<byte>, contentLen: nat)
    returns (v: seq<byte>)
    requires contentLen <= USIZE_MAX
    ensures v == Headers(status, contentType, contentLen)
  {
    v := [];
    v := v + Ascii("HTTP/1.1 ");
    assert v == Ascii("HTTP/1.1 ");
    v := v + status;
    v := v + Ascii("\r\nContent-Type: ");
    v := v + contentType;
    v := v + Ascii("\r\nContent-Length: ");
    var buf, i := FormatUsize(contentLen);
    v := v + buf[..i];
    v := v + Ascii("\r\n\r\n");
  }

  /**
   * The block starts with the status line, ends with an empty line, and the
   * Content-Length field just before it holds digits, without a leading zero
   * unless the length is zero, whose value is the content length.
   */
  lemma HeadersLayout(status: seq<byte>, contentType: seq<byte>, contentLen: nat)
    ensures var h := Headers(status, contentType, contentLen);
      var d := Decimal(contentLen);
      var e := |h| - 4;
      && |h| >= |d| + 22
      && h[..9 + |status|] == Ascii("HTTP/1.1 ") + status
      && h[e..] == Ascii("\r\n\r\n")
      && h[e - |d| - 18..e - |d|] == Ascii("\r\nContent-Length: ")
      && (forall i :: e - |d| <= i < e ==> IsDigit(h[i]))
      && DigitsValue(h[e - |d|..e]) == contentLen
      && (h[e - |d|] == ZERO <==> contentLen == 0)
  {
    DecimalValue(contentLen);
    var h := Headers(status, contentType, contentLen);
    var d := Decimal(contentLen);
    var e := |h| - 4;
    var front := Ascii("HTTP/1.1 ") + status + Ascii("\r\nContent-Type: ") + contentType;
    assert h == front + Ascii("\r\nContent-Length: ") + d + Ascii("\r\n\r\n");
    assert h[e - |d|..e] == d;
    assert h[e - |d| - 18..e - |d|] == Ascii("\r\nContent-Length: ");
  }

  // ---------------------------------------------------------------------------
  // Routing
  // ---------------------------------------------------------------------------

  predicate StartsWith(buf: seq<byte>, prefix: seq<byte>) {
    |prefix| <= |buf| && buf[..|prefix|] == prefix
  }

  datatype Route = Index | WebSocket | NotFound

  /** The if/else chain of handle_http_connection over the first read. */
  function RouteOf(req: seq<byte>): (r: Route)
    ensures r != NotFound ==> StartsWith(req, Ascii("GET /"))
  {
    if StartsWith(req, Ascii("GET / ")) || StartsWith(req, Ascii("GET /HTTP"))
       || StartsWith(req, Ascii("GET / HTTP"))
    then Index
    else if StartsWith(req, Ascii("GET /term ")) || StartsWith(req, Ascii("GET /term"))
            || StartsWith(req, Ascii("GET /ws ")) || StartsWith(req, Ascii("GET /ws"))
    then WebSocket
    else NotFound
  }

  lemma StartsWithLonger(buf: seq<byte>, short: seq<byte>, long: seq<byte>)
    requires |short| <= |long| && long[..|short|] == short
    requires StartsWith(buf, long)
    ensures StartsWith(buf, short)
  {
    assert buf[..|short|] == buf[..|long|][..|short|];
  }

  /**
   * The index page is served exactly for `GET / ` and `GET /HTTP` (a request
   * starting `GET / HTTP` already starts `GET / `); the WebSocket handler gets
   * every other request starting `GET /term` or `GET /ws`, a bare prefix match.
   */
  lemma RouteByPrefix(req: seq<byte>)
    ensures RouteOf(req) == Index <==>
      StartsWith(req, Ascii("GET / ")) || StartsWith(req, Ascii("GET /HTTP"))
    ensures RouteOf(req) == WebSocket <==>
      !StartsWith(req, Ascii("GET / ")) && !StartsWith(req, Ascii("GET /HTTP"))
      && (StartsWith(req, Ascii("GET /term")) || StartsWith(req, Ascii("GET /ws")))
  {
    if StartsWith(req, Ascii("GET / HTTP")) {
      StartsWithLonger(req, Ascii("GET / "), Ascii("GET / HTTP"));
    }
    if StartsWith(req, Ascii("GET /term ")) {
      StartsWithLonger(req, Ascii("GET /term"), Ascii("GET /term "));
    }
    if StartsWith(req, Ascii("GET /ws ")) {
      StartsWithLonger(req, Ascii("GET /ws"), Ascii("GET /ws "));
    }
  }

  /** `GET /wsx` is routed to the WebSocket handler. */
  lemma WsxIsWebSocket(rest: seq<byte>)
    ensures RouteOf(Ascii("GET /wsx") + rest) == WebSocket
  {
    var req := Ascii("GET /wsx") + rest;
    assert req[..7] == Ascii("GET /ws");
    assert req[5] != AsciiByte(' ') && req[5] != AsciiByte('H');
    RouteByPrefix(req);
  }

  // ---------------------------------------------------------------------------
  // One connection
  // ---------------------------------------------------------------------------

  /** What the server does with a connection; the socket is closed in every case. */
  datatype Reply =
    | CloseOnly                 // empty first read: no response
    | Send(response: seq<byte>) // one response, then close
    | Upgrade                   // accept_and_run takes over, then close

  const NOT_FOUND_BODY: seq<byte> := Ascii("Not Found\n")

  /** handle_http_connection on its first read, with INDEX_HTML as a parameter. */
  function HandleRequest(req: seq<byte>, indexHtml: seq<byte>): (r: Reply)
    requires |req| <= READ_SIZE
    ensures r == CloseOnly <==> req == []
    ensures r == Upgrade <==> req != [] && RouteOf(req) == WebSocket
  {
    if req == [] then CloseOnly
    else match RouteOf(req)
      case Index =>
        Send(Headers(Ascii("200 OK"), Ascii("text/html; charset=utf-8"), |indexHtml|) + indexHtml)
      case WebSocket => Upgrade
      case NotFound =>
        Send(Headers(Ascii("404 Not Found"), Ascii("text/plain"), |NOT_FOUND_BODY|) + NOT_FOUND_BODY)
  }

  /** handle_http_connection: route the first read and build the response bytes. */
  method HandleHttpConnection(req: seq<byte>, indexHtml: seq<byte>) returns (r: Reply)
    requires |req| <= READ_SIZE && |indexHtml| <= USIZE_MAX
    ensures r == HandleRequest(req, indexHtml)
  {
    if req == [] {
      return CloseOnly;
    }
    if StartsWith(req, Ascii("GET / ")) || StartsWith(req, Ascii("GET /HTTP"))
       || StartsWith(req, Ascii("GET / HTTP")) {
      var resp := HttpResponseHeaders(Ascii("200 OK"), Ascii("text/html; charset=utf-8"), |indexHtml|);
      resp := resp + indexHtml;
      r := Send(resp);
    } else if StartsWith(req, Ascii("GET /term ")) || StartsWith(req, Ascii("GET /term"))
              || StartsWith(req, Ascii("GET /ws ")) || StartsWith(req, Ascii("GET /ws")) {
      r := Upgrade;
    } else {
      var body := NOT_FOUND_BODY;
      var resp := HttpResponseHeaders(Ascii("404 Not Found"), Ascii("text/plain"), |body|);
      resp := resp + body;
      r := Send(resp);
    }
  }

  /**
   * Every response is a header block whose Content-Length is the length of the
   * body that follows it: INDEX_HTML with 200 OK, `Not Found\n` (10 bytes)
   * with 404.
   */
  lemma ResponseFraming(req: seq<byte>, indexHtml: seq<byte>)
    requires |req| <= READ_SIZE
    ensures HandleRequest(req, indexHtml) == CloseOnly <==> req == []
    ensures HandleRequest(req, indexHtml) == Upgrade <==> req != [] && RouteOf(req) == WebSocket
    ensures HandleRequest(req, indexHtml).Send? ==>
      exists status: seq<byte>, contentType: seq<byte>, body: seq<byte> ::
        && HandleRequest(req, indexHtml).response == Headers(status, contentType, |body|) + body
        && (RouteOf(req) == Index ==> status == Ascii("200 OK") && body == indexHtml)
        && (RouteOf(req) == NotFound ==> status == Ascii("404 Not Found") && |body| == 10)
  {
    var r := HandleRequest(req, indexHtml);
    if r.Send? {
      if RouteOf(req) == Index {
        var ct := Ascii("text/html; charset=utf-8");
        assert r.response == Headers(Ascii("200 OK"), ct, |indexHtml|) + indexHtml;
      } else {
        var ct := Ascii("text/plain");
        assert r.response == Headers(Ascii("404 Not Found"), ct, |NOT_FOUND_BODY|) + NOT_FOUND_BODY;
      }
    }
  }
}
