/** The older cross-origin check (Cors.cs): the same exact, lower-cased match as `Cors`,
    with the request and response reduced to their header collections. */
module LegacyCors {
  import opened Wrappers
  import opened Text
  import opened Headers
  import opened CrossOrigin
  import opened Cors

  /** `AllowCrossOriginRequest(request, response, allowedOrigins)`: a null request or
      response is an `ArgumentNullException`; a request with no `Origin` changes nothing;
      otherwise a null list is an `ArgumentNullException` from copying it, and an origin
      whose lower-case form is listed is echoed back. */
  method AllowCrossOriginRequest(request: HeaderCollection?, response: HeaderCollection?,
                                 allowedOrigins: Option<seq<string>>) returns (error: Option<Exception>)
    requires response != null ==> response.Valid()
    modifies response
    ensures response != null ==> response.Valid()
    ensures request == null ==> error == Some(ArgumentNull("request"))
    ensures request != null && response == null ==> error == Some(ArgumentNull("response"))
    ensures (request != null && response != null ==>
      var origin := old(request.Get(OriginHeader));
      && (error.Some? <==> origin.Some? && origin.value != [] && allowedOrigins.None?)
      && (error.Some? ==> error.value == ArgumentNull("collection"))
      && response.values ==
           if origin.Some? && origin.value != [] && allowedOrigins.Some? && ToLower(origin.value) in allowedOrigins.value
           then WithAllowedOrigin(old(response.values), origin.value)
           else old(response.values))
  {
    if request == null {
      return Some(ArgumentNull("request"));
    }
    if response == null {
      return Some(ArgumentNull("response"));
    }
    var requestOrigin := request.Get(OriginHeader);
    if requestOrigin.None? || requestOrigin.value == [] {
      return None;
    }
    if allowedOrigins.None? {
      return Some(ArgumentNull("collection"));
    }
    var allowedOrigin := ToLower(requestOrigin.value) in allowedOrigins.value;
    if allowedOrigin {
      response.Add(AllowOriginHeader, requestOrigin.value);
    }
    return None;
  }

  /** Without an `Origin` header nothing is checked, so even a null list is no error. */
  method NoOriginNoError() returns (error: Option<Exception>, added: Option<string>)
    ensures error == None && added == None
  {
    HeaderNamesDiffer();
    var request := new HeaderCollection(map[]);
    var response := new HeaderCollection(map[]);
    error := AllowCrossOriginRequest(request, response, None);
    added := response.Get(AllowOriginHeader);
  }
}
