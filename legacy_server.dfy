/** The older inline handler kept in the library root: it ignores the
    request, answers with the raw document, a one-year immutable cache policy
    and a short ETag made of the first eight hex digits of the MD5 digest. */
module LegacyServer {
  import opened Octets
  import opened Http
  import Server

  datatype AppState = AppState(htmlContent: Bytes)

  const IMMUTABLE: Bytes := FromAscii("public, max-age=31536000, immutable")

  /** At most the first `n` elements of `s`, as taking `n` characters does. */
  function Take(s: Bytes, n: nat): Bytes {
    if |s| <= n then s else s[..n]
  }

  /** The short ETag: the first eight hex digits of the digest, quoted. */
  function ShortEtag(content: Bytes, md5: Bytes -> Digest): (etag: Bytes)
    ensures |etag| == 10 && etag[0] == Server.QUOTE && etag[9] == Server.QUOTE
    ensures etag[1..9] == Hex(md5(content)[..4])
    ensures Server.EtagDigest(etag) == Some(md5(content)[..4])
  {
    var digest := md5(content);
    var etag := [Server.QUOTE] + Take(Hex(digest), 8) + [Server.QUOTE];
    HexPrefix(digest, 4);
    assert etag[1..9] == Hex(digest)[..8];
    HexRoundTrip(digest[..4]);
    etag
  }

  /** The response: always produced, whatever the request. */
  function HandleRequest(req: Request, state: AppState, md5: Bytes -> Digest): (r: Response)
    ensures r.status == OK && r.body == state.htmlContent
  {
    Response(OK,
             [Header("content-type", Server.TEXT_HTML),
              Header("cache-control", IMMUTABLE),
              Header("etag", ShortEtag(state.htmlContent, md5))],
             state.htmlContent)
  }

  /** Every response carries `text/html`, the immutable cache policy and the
      short ETag, and returns the document byte for byte. */
  lemma ResponseHeaders(req: Request, state: AppState, md5: Bytes -> Digest)
    ensures var r := HandleRequest(req, state, md5);
      && GetHeader(r.headers, "content-type") == Some(Server.TEXT_HTML)
      && GetHeader(r.headers, "cache-control") == Some(IMMUTABLE)
      && GetHeader(r.headers, "etag") == Some(ShortEtag(state.htmlContent, md5))
      && GetHeader(r.headers, "content-encoding") == None
      && r.body == state.htmlContent
  {
    var r := HandleRequest(req, state, md5);
    assert r.headers[0].name == "content-type";
    assert r.headers[1].name == "cache-control";
    assert r.headers[2].name == "etag";
  }

  /** The request is never read: any two requests get the same response. */
  lemma IgnoresRequest(req1: Request, req2: Request, state: AppState, md5: Bytes -> Digest)
    ensures HandleRequest(req1, state, md5) == HandleRequest(req2, state, md5)
  {
  }

  /** The short ETag's digits are the first eight digits of the full ETag the
      content store computes for the same document. */
  lemma ShortEtagIsPrefixOfFullEtag(content: Bytes, md5: Bytes -> Digest, gzip: Bytes -> Bytes)
    ensures ShortEtag(content, md5)[1..9] == Server.NewAppState(content, md5, gzip).etag[1..9]
  {
  }
}
