/** The content store and the request handler of the page server: the
    document's representations are computed once (an MD5-based ETag, a gzip
    body, the raw body and both lengths), and every request is answered from
    them by a total decision on two request headers. MD5 and gzip are library
    code outside this model and are passed in as uninterpreted functions. */
module Server {
  import opened Octets
  import opened Http

  /** The precomputed representations of the document; never changed after
      NewAppState builds it. */
  datatype AppState = AppState(
    etag: Bytes,
    compressedContentLength: nat,
    uncompressedContentLength: nat,
    compressedContent: Bytes,
    uncompressedContent: Bytes)

  /** Each stored length is the length of the body it describes. */
  predicate Consistent(s: AppState) {
    && s.compressedContentLength == |s.compressedContent|
    && s.uncompressedContentLength == |s.uncompressedContent|
  }

  const QUOTE: byte := 34

  /** The digest an ETag carries: the text between its two quotes, read as
      lower-case hex. */
  function EtagDigest(etag: Bytes): Option<Bytes> {
    if |etag| >= 2 && etag[0] == QUOTE && etag[|etag| - 1] == QUOTE
    then HexDecode(etag[1..|etag| - 1])
    else None
  }

  /** Builds the store from the document's bytes. */
  function NewAppState(content: Bytes, md5: Bytes -> Digest, gzip: Bytes -> Bytes): (s: AppState)
    ensures Consistent(s)
    ensures s.uncompressedContent == content && s.compressedContent == gzip(content)
    ensures |s.etag| == 34 && s.etag[0] == QUOTE && s.etag[33] == QUOTE
    ensures IsLowerHex(s.etag[1..33])
    ensures EtagDigest(s.etag) == Some(md5(content))
  {
    var digest := md5(content);
    var etag := [QUOTE] + Hex(digest) + [QUOTE];
    assert etag[1..33] == Hex(digest);
    HexRoundTrip(digest);
    var compressed := gzip(content);
    AppState(etag, |compressed|, |content|, compressed, content)
  }

  /** The ETag depends on the content only through its digest, and different
      digests always give different ETags. */
  lemma EtagIdentifiesDigest(c1: Bytes, c2: Bytes, md5: Bytes -> Digest,
                             gzip1: Bytes -> Bytes, gzip2: Bytes -> Bytes)
    ensures NewAppState(c1, md5, gzip1).etag == NewAppState(c2, md5, gzip2).etag
            <==> md5(c1) == md5(c2)
  {
  }

  // ---------------------------------------------------------------------------
  // Request handling

  const TEXT_HTML: Bytes := FromAscii("text/html")
  const REVALIDATE: Bytes := FromAscii("public, max-age=3600, must-revalidate")
  const GZIP: Bytes := FromAscii("gzip")

  /** The `If-None-Match` header is present and equals the ETag, ASCII letters
      compared without regard to case. */
  predicate EtagMatches(req: Request, state: AppState) {
    match GetHeader(req.headers, "if-none-match")
    case None => false
    case Some(v) => EqIgnoreAsciiCase(v, state.etag)
  }

  /** The `Accept-Encoding` header is present, converts to text, and contains
      `gzip` anywhere in it. */
  predicate UseCompression(req: Request) {
    match GetHeader(req.headers, "accept-encoding")
    case None => false
    case Some(v) => IsVisibleAscii(v) && Contains(v, GZIP)
  }

  /** Answers one request from the store. Total: every request gets a 304 or
      a 200. */
  function HandleRequest(req: Request, state: AppState): (r: Response)
    ensures r.status == NOT_MODIFIED <==> EtagMatches(req, state)
    ensures r.status == NOT_MODIFIED || r.status == OK
  {
    if EtagMatches(req, state) then
      Response(NOT_MODIFIED, [], [])
    else
      var compress := UseCompression(req);
      var headers := [
        Header("content-type", TEXT_HTML),
        Header("cache-control", REVALIDATE),
        Header("etag", state.etag),
        Header("content-length",
               Decimal(if compress then state.compressedContentLength
                       else state.uncompressedContentLength))];
      var headers := if compress then headers + [Header("content-encoding", GZIP)] else headers;
      Response(OK, headers, if compress then state.compressedContent else state.uncompressedContent)
  }

  /** A matching validator gets a bare 304, whatever `Accept-Encoding` says. */
  lemma NotModifiedWhenEtagMatches(req: Request, state: AppState)
    requires EtagMatches(req, state)
    ensures HandleRequest(req, state) == Response(NOT_MODIFIED, [], [])
  {
  }

  /** Otherwise the response is a 200 carrying the fixed headers, the store's
      ETag, and the representation `Accept-Encoding` selects; `Content-Encoding`
      is present exactly when the compressed body is sent. */
  lemma FullResponseUnlessEtagMatches(req: Request, state: AppState)
    requires !EtagMatches(req, state)
    ensures var r := HandleRequest(req, state);
      && r.status == OK
      && GetHeader(r.headers, "content-type") == Some(TEXT_HTML)
      && GetHeader(r.headers, "cache-control") == Some(REVALIDATE)
      && GetHeader(r.headers, "etag") == Some(state.etag)
      && (GetHeader(r.headers, "content-encoding").Some? <==> UseCompression(req))
      && (UseCompression(req) ==> GetHeader(r.headers, "content-encoding") == Some(GZIP)
                                  && r.body == state.compressedContent)
      && (!UseCompression(req) ==> r.body == state.uncompressedContent)
  {
    var r := HandleRequest(req, state);
    assert r.headers[0].name == "content-type";
    assert r.headers[1].name == "cache-control";
    assert r.headers[2].name == "etag";
    assert r.headers[3].name == "content-length";
    assert |r.headers| == 4 || r.headers[4].name == "content-encoding";
  }

  /** For a store whose lengths match its bodies, `Content-Length` is the
      decimal length of the body actually sent, and reads back as that length. */
  lemma ContentLengthMatchesBody(req: Request, state: AppState)
    requires Consistent(state) && !EtagMatches(req, state)
    ensures var r := HandleRequest(req, state);
      && GetHeader(r.headers, "content-length") == Some(Decimal(|r.body|))
      && ParseDecimal(GetHeader(r.headers, "content-length").value) == Some(|r.body|)
  {
    var r := HandleRequest(req, state);
    assert r.headers[3].name == "content-length";
    DecimalRoundTrip(|r.body|);
  }

  /** Compression is chosen exactly when `Accept-Encoding` is present, is
      visible text, and has `gzip` at some offset. */
  lemma CompressionChoice(req: Request)
    ensures UseCompression(req) <==>
            && GetHeader(req.headers, "accept-encoding").Some?
            && IsVisibleAscii(GetHeader(req.headers, "accept-encoding").value)
            && exists i: nat :: OccursAt(GetHeader(req.headers, "accept-encoding").value, GZIP, i)
  {
    var h := GetHeader(req.headers, "accept-encoding");
    if h.Some? {
      ContainsIff(h.value, GZIP);
    }
  }

  /** A validator that is not the store's ETag (here one of a different
      length) is answered with the whole, unmodified document. */
  lemma DifferentEtagServesFullBody(content: Bytes, md5: Bytes -> Digest, gzip: Bytes -> Bytes)
    ensures var state := NewAppState(content, md5, gzip);
      var r := HandleRequest(Get([Header("if-none-match", FromAscii("\"different-etag\""))]), state);
      r.status == OK && r.body == content
  {
  }

  /** The comparison ignores case: the upper-cased ETag still revalidates. */
  lemma UpperCaseEtagStillMatches(state: AppState, others: seq<Header>)
    ensures HandleRequest(Get([Header("if-none-match", AsciiUpper(state.etag))] + others), state).status
            == NOT_MODIFIED
  {
  }

  /** `gzip;q=0` (a client refusing gzip) still selects the compressed body,
      because the header is searched for the substring `gzip`. */
  lemma GzipWithQualityZeroIsCompressed()
    ensures UseCompression(Get([Header("accept-encoding", FromAscii("gzip;q=0"))]))
  {
  }

  /** An `Accept-Encoding` value that is not visible text selects the raw body
      even when it contains `gzip`. */
  lemma NonTextAcceptEncodingIsUncompressed()
    ensures !UseCompression(Get([Header("accept-encoding", [0x80] + GZIP)]))
  {
    var v: Bytes := [0x80] + GZIP;
    assert !(32 <= v[0] < 127 || v[0] == 9);
  }

  /** The revalidation round trip, for any document: a plain GET returns the
      document, a GET echoing the ETag of that response returns an empty 304,
      and a GET accepting gzip returns the compressed body. */
  lemma RevalidationRoundTrip(content: Bytes, md5: Bytes -> Digest, gzip: Bytes -> Bytes)
    ensures
      var state := NewAppState(content, md5, gzip);
      var first := HandleRequest(Get([]), state);
      && first.status == OK
      && GetHeader(first.headers, "content-type") == Some(TEXT_HTML)
      && GetHeader(first.headers, "cache-control") == Some(REVALIDATE)
      && first.body == content
      && GetHeader(first.headers, "etag").Some?
      && HandleRequest(Get([Header("if-none-match", GetHeader(first.headers, "etag").value)]), state)
         == Response(NOT_MODIFIED, [], [])
      && var third := HandleRequest(Get([Header("accept-encoding", GZIP)]), state);
      && GetHeader(third.headers, "content-encoding") == Some(GZIP)
      && third.body == gzip(content)
  {
    var state := NewAppState(content, md5, gzip);
    assert GetHeader(Get([]).headers, "if-none-match") == None;
    FullResponseUnlessEtagMatches(Get([]), state);
    var second := Get([Header("if-none-match", state.etag)]);
    assert GetHeader(second.headers, "if-none-match") == Some(state.etag);
    NotModifiedWhenEtagMatches(second, state);
    var third := Get([Header("accept-encoding", GZIP)]);
    assert GetHeader(third.headers, "accept-encoding") == Some(GZIP);
    assert GetHeader(third.headers, "if-none-match") == None;
    assert GZIP[..4] == GZIP;
    FullResponseUnlessEtagMatches(third, state);
  }

  /** The ETag caching test's document, `<html><body>ETag Test Content</body></html>`:
      the first GET gets a 200 with the document and an ETag, and echoing that
      ETag gets a 304 with no headers and an empty body. */
  lemma RevalidationScenario(md5: Bytes -> Digest, gzip: Bytes -> Bytes)
    ensures
      var content := FromAscii("<html><body>ETag Test Content</body></html>");
      var state := NewAppState(content, md5, gzip);
      var first := HandleRequest(Get([]), state);
      && first.status == OK && first.body == content
      && GetHeader(first.headers, "content-type") == Some(TEXT_HTML)
      && GetHeader(first.headers, "cache-control") == Some(REVALIDATE)
      && GetHeader(first.headers, "etag").Some?
      && HandleRequest(Get([Header("if-none-match", GetHeader(first.headers, "etag").value)]), state)
         == Response(NOT_MODIFIED, [], [])
  {
    RevalidationRoundTrip(FromAscii("<html><body>ETag Test Content</body></html>"), md5, gzip);
  }

  // ---------------------------------------------------------------------------
  // Socket buffer sizing at start-up

  const MIN_SEND_BUFFER: nat := 16 * 1024
  const MAX_SEND_BUFFER: nat := 1024 * 1024
  const RECV_BUFFER: nat := 16 * 1024

  /** Twice the document length, clamped to [16 KiB, 1 MiB]. */
  function SendBufferSize(uncompressedLength: nat): (n: nat)
    ensures MIN_SEND_BUFFER <= n <= MAX_SEND_BUFFER
    ensures MIN_SEND_BUFFER <= 2 * uncompressedLength <= MAX_SEND_BUFFER ==> n == 2 * uncompressedLength
    ensures n < 0x1_0000_0000
  {
    var doubled := uncompressedLength * 2;
    if doubled < MIN_SEND_BUFFER then MIN_SEND_BUFFER
    else if doubled > MAX_SEND_BUFFER then MAX_SEND_BUFFER
    else doubled
  }

  function Distance(a: int, b: int): nat {
    if a < b then b - a else a - b
  }

  /** The send buffer is the size in [16 KiB, 1 MiB] nearest to twice the
      document length. */
  lemma SendBufferSizeIsNearest(uncompressedLength: nat, m: nat)
    requires MIN_SEND_BUFFER <= m <= MAX_SEND_BUFFER
    ensures Distance(SendBufferSize(uncompressedLength), 2 * uncompressedLength)
            <= Distance(m, 2 * uncompressedLength)
  {
  }

  datatype SocketBuffers = SocketBuffers(send: nat, recv: nat)

  /** The listening socket's buffer sizes for a store: twice the document
      length, raised to 16 KiB or lowered to 1 MiB when outside that range, and
      a fixed 16 KiB receive size. */
  function SocketBufferSizes(state: AppState): (b: SocketBuffers)
    ensures var doubled := 2 * state.uncompressedContentLength;
      && (doubled < MIN_SEND_BUFFER ==> b.send == MIN_SEND_BUFFER)
      && (MIN_SEND_BUFFER <= doubled <= MAX_SEND_BUFFER ==> b.send == doubled)
      && (MAX_SEND_BUFFER < doubled ==> b.send == MAX_SEND_BUFFER)
    ensures b.recv == RECV_BUFFER
  {
    SocketBuffers(SendBufferSize(state.uncompressedContentLength), RECV_BUFFER)
  }
}
