/** The simpler cross-origin check (Escc.Web/Cors.cs): the lower-cased origin must be in
    the policy's list exactly, with no port wildcard, and an allowed origin is added to the
    response without removing any allow-origin header already there. */
module Cors {
  import opened Wrappers
  import opened Text
  import opened Headers
  import opened CrossOrigin

  /** The response headers after an origin is echoed back: its value follows any the
      allow-origin header already has. */
  function WithAllowedOrigin(response: map<string, seq<string>>, origin: string): map<string, seq<string>>
  {
    response[ToLower(AllowOriginHeader) := Values(response, AllowOriginHeader) + [origin]]
  }

  /** `ApplyPolicy(requestHeaders, responseHeaders, corsPolicy)`, with the policy reduced to
      its list of origins: each null argument, in that order, is an
      `ArgumentNullException`; otherwise the origin is echoed back exactly when it is
      present and its lower-case form is listed. */
  method ApplyPolicy(requestHeaders: HeaderCollection?, responseHeaders: HeaderCollection?,
                     corsPolicy: Option<seq<string>>) returns (error: Option<Exception>)
    requires responseHeaders != null ==> responseHeaders.Valid()
    modifies responseHeaders
    ensures responseHeaders != null ==> responseHeaders.Valid()
    ensures (error ==
      if requestHeaders == null then Some(ArgumentNull("requestHeaders"))
      else if responseHeaders == null then Some(ArgumentNull("responseHeaders"))
      else if corsPolicy.None? then Some(ArgumentNull("corsPolicy"))
      else None)
    ensures error.Some? && responseHeaders != null ==> responseHeaders.values == old(responseHeaders.values)
    ensures (error.None? ==>
      var origin := old(requestHeaders.Get(OriginHeader));
      responseHeaders.values ==
        if origin.Some? && origin.value != [] && ToLower(origin.value) in corsPolicy.value
        then WithAllowedOrigin(old(responseHeaders.values), origin.value)
        else old(responseHeaders.values))
  {
    if requestHeaders == null {
      return Some(ArgumentNull("requestHeaders"));
    }
    if responseHeaders == null {
      return Some(ArgumentNull("responseHeaders"));
    }
    if corsPolicy.None? {
      return Some(ArgumentNull("corsPolicy"));
    }
    var requestOrigin := requestHeaders.Get(OriginHeader);
    if requestOrigin.None? || requestOrigin.value == [] {
      return None;
    }
    var allowedOrigin := ToLower(requestOrigin.value) in corsPolicy.value;
    if allowedOrigin {
      responseHeaders.Add(AllowOriginHeader, requestOrigin.value);
    }
    return None;
  }

  /** Echoing an origin back never removes a header or a value: every header keeps its
      values, and the allow-origin header ends with the origin. */
  lemma WithAllowedOriginKeeps(response: map<string, seq<string>>, origin: string)
    ensures (var r := WithAllowedOrigin(response, origin);
      var key := ToLower(AllowOriginHeader);
      && (forall k :: k in response ==> k in r && response[k] <= r[k])
      && key in r && |r[key]| > 0 && r[key][|r[key]| - 1] == origin)
  {
  }

  /** The first unit test, for any lower-case origin: a request from a listed origin gets
      it back as the allow-origin header. */
  method MatchingOriginAddsAllowedHeader(origin: string) returns (header: Option<string>)
    requires origin != [] && ToLower(origin) == origin
    ensures header == Some(origin)
  {
    HeaderNamesDiffer();
    ToLowerIdempotent(OriginHeader);
    var request := new HeaderCollection(map[ToLower(OriginHeader) := [origin]]);
    var response := new HeaderCollection(map[]);
    var _ := ApplyPolicy(request, response, Some([origin]));
    header := response.Get(AllowOriginHeader);
  }

  /** The second unit test: a request from an origin that is not listed gets no
      allow-origin header. */
  method UnmatchedOriginDoesNotAddAllowedHeader(origin: string, listed: string) returns (header: Option<string>)
    requires origin != [] && ToLower(origin) != listed
    ensures header == None
  {
    ToLowerIdempotent(OriginHeader);
    var request := new HeaderCollection(map[ToLower(OriginHeader) := [origin]]);
    var response := new HeaderCollection(map[]);
    var _ := ApplyPolicy(request, response, Some([listed]));
    header := response.Get(AllowOriginHeader);
  }
}
