/** Answering a cross-origin request (Escc.Web/CorsHeaders.cs): the `Origin` request header
    is checked against an allow-list of origins (section 7 of RFC 6454), ignoring case and
    with `:*` standing for any port, and an allowed origin is echoed back in the
    `Access-Control-Allow-Origin` response header (section 3.2 of the WHATWG Fetch
    Standard). */
module CrossOrigin {
  import opened Wrappers
  import opened Text
  import opened Headers

  /** The request header naming the page's origin. */
  const OriginHeader := "Origin"

  /** The response header that allows the origin. */
  const AllowOriginHeader := "Access-Control-Allow-Origin"

  /** The two headers are distinct whatever their case. */
  lemma HeaderNamesDiffer()
    ensures ToLower(OriginHeader) != ToLower(AllowOriginHeader)
  {
    assert |ToLower(OriginHeader)| == 6;
  }

  /** `:` is the last colon when only digits follow it. */
  lemma ColonBeforeDigitsIsLast(origin: string, i: int)
    requires 0 <= i < |origin| && origin[i] == ':' && AllDigits(origin[i + 1..])
    ensures LastIndexOf(origin, ':') == i
  {
  }

  /** The match of `:[0-9]+$` replaced with `:*`: an origin ending in a colon and one or
      more digits, with the digits replaced by `*`; nothing for any other origin. */
  function PortWildcard(origin: string): (r: Option<string>)
    ensures (r.Some? <==>
      exists i :: 0 <= i < |origin| - 1 && origin[i] == ':' && AllDigits(origin[i + 1..]))
    ensures (forall i :: 0 <= i < |origin| - 1 && origin[i] == ':' && AllDigits(origin[i + 1..]) ==>
      r == Some(origin[..i] + ":*"))
  {
    var k := LastIndexOf(origin, ':');
    assert forall i :: 0 <= i < |origin| - 1 && origin[i] == ':' && AllDigits(origin[i + 1..]) ==> k == i by {
      forall i | 0 <= i < |origin| - 1 && origin[i] == ':' && AllDigits(origin[i + 1..]) {
        ColonBeforeDigitsIsLast(origin, i);
      }
    }
    if 0 <= k < |origin| - 1 && AllDigits(origin[k + 1..]) then Some(origin[..k] + ":*") else None
  }

  /** `IsAllowedOrigin(allowedOrigins, requestOrigin)`: the lower-cased origin is in the
      list, compared exactly, or it ends in a port number and the list holds it with `:*`
      for the port. */
  function IsAllowedOrigin(allowedOrigins: seq<string>, requestOrigin: string): (allowed: bool)
    ensures (allowed <==>
      var lower := ToLower(requestOrigin);
      || lower in allowedOrigins
      || exists i :: 0 <= i < |lower| - 1 && lower[i] == ':' && AllDigits(lower[i + 1..]) && lower[..i] + ":*" in allowedOrigins)
  {
    var lower := ToLower(requestOrigin);
    var wildcard := PortWildcard(lower);
    lower in allowedOrigins || (wildcard.Some? && wildcard.value in allowedOrigins)
  }

  /** Origins that differ only in case are treated alike. */
  lemma AllowedIgnoringCase(allowedOrigins: seq<string>, a: string, b: string)
    requires ToLower(a) == ToLower(b)
    ensures IsAllowedOrigin(allowedOrigins, a) == IsAllowedOrigin(allowedOrigins, b)
  {
  }

  /** An allowed origin is echoed back: the response's allow-origin header, after the
      update, for the request's `Origin` value. */
  predicate AllowsOrigin(origin: Option<string>, allowedOrigins: seq<string>)
  {
    origin.Some? && origin.value != [] && IsAllowedOrigin(allowedOrigins, origin.value)
  }

  /** `CorsHeaders`, over `NameValueCollection`s, with the policy reduced to its list of
      origins. */
  class CorsHeaders {
    const requestHeaders: HeaderCollection
    const responseHeaders: HeaderCollection
    const origins: seq<string>

    /** The constructor after its null checks. */
    constructor(requestHeaders: HeaderCollection, responseHeaders: HeaderCollection, origins: seq<string>)
      ensures this.requestHeaders == requestHeaders && this.responseHeaders == responseHeaders
      ensures this.origins == origins
    {
      this.requestHeaders := requestHeaders;
      this.responseHeaders := responseHeaders;
      this.origins := origins;
    }

    /** `new CorsHeaders(requestHeaders, responseHeaders, corsPolicy)`: each null argument, in
        that order, is an `ArgumentNullException`. */
    static method Create(requestHeaders: HeaderCollection?, responseHeaders: HeaderCollection?,
                         corsPolicy: Option<seq<string>>) returns (r: Result<CorsHeaders>)
      ensures requestHeaders == null ==> r == Err(ArgumentNull("requestHeaders"))
      ensures requestHeaders != null && responseHeaders == null ==> r == Err(ArgumentNull("responseHeaders"))
      ensures (requestHeaders != null && responseHeaders != null && corsPolicy.None? ==>
        r == Err(ArgumentNull("corsPolicy")))
      ensures (r.Ok? <==> requestHeaders != null && responseHeaders != null && corsPolicy.Some?)
      ensures (r.Ok? ==>
        && fresh(r.value)
        && r.value.requestHeaders == requestHeaders && r.value.responseHeaders == responseHeaders
        && r.value.origins == corsPolicy.value)
    {
      if requestHeaders == null {
        return Err(ArgumentNull("requestHeaders"));
      }
      if responseHeaders == null {
        return Err(ArgumentNull("responseHeaders"));
      }
      if corsPolicy.None? {
        return Err(ArgumentNull("corsPolicy"));
      }
      var c := new CorsHeaders(requestHeaders, responseHeaders, corsPolicy.value);
      return Ok(c);
    }

    /** `UpdateHeaders()`: the response ends with an allow-origin header exactly when the
        request names an allowed origin, holding that origin as the request spelled it; no
        other response header changes. */
    method UpdateHeaders()
      requires responseHeaders.Valid()
      modifies responseHeaders
      ensures responseHeaders.Valid()
      ensures (var key := ToLower(AllowOriginHeader);
        && (key in responseHeaders.values <==> AllowsOrigin(old(requestHeaders.Get(OriginHeader)), origins))
        && (key in responseHeaders.values ==>
              responseHeaders.values[key] == [old(requestHeaders.Get(OriginHeader)).value])
        && responseHeaders.values - {key} == old(responseHeaders.values) - {key})
    {
      ghost var origin := requestHeaders.Get(OriginHeader);
      ghost var key := ToLower(AllowOriginHeader);
      responseHeaders.Remove(AllowOriginHeader);
      HeaderNamesDiffer();
      assert requestHeaders.Get(OriginHeader) == origin;
      var requestOrigin := requestHeaders.Get(OriginHeader);
      if requestOrigin.None? || requestOrigin.value == [] {
        return;
      }
      var allowedOrigin := IsAllowedOrigin(origins, requestOrigin.value);
      if allowedOrigin {
        responseHeaders.Add(AllowOriginHeader, requestOrigin.value);
        assert Values(old(responseHeaders.values) - {key}, AllowOriginHeader) == [];
        assert [] + [requestOrigin.value] == [requestOrigin.value];
      }
    }
  }
}
