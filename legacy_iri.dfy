/** The static protect and expire helpers of the older `Iri` class (Iri.cs). They do what
    `UrlProtector` and `UrlExpirer` do, with two differences: the salt is read from the
    application's configuration on every hash, and the hash parameter is appended to the
    query text as it stands instead of to a rebuilt query. The query helpers they use
    (`SplitQueryString`, `PrepareUrlForNewQueryStringParameter`) are shared with module `Iri`. */
module LegacyIri {
  import opened Wrappers
  import opened Text
  import opened Uris
  import opened QueryStrings
  import opened Iri
  import opened UrlProtection
  import opened Timestamps

  /** `CreateUrlHash(hashThis)`: `saltSetting` is the `Salt` setting of the configuration
      section, `None` when the section or the setting is missing. A missing or empty salt
      throws `ConfigurationErrorsException`; otherwise the text is hashed as
      `UrlProtector` hashes it. */
  function CreateUrlHashWithConfig(hashThis: string, saltSetting: Option<string>, digest: Digest): (r: Result<string>)
    ensures r.Err? <==> saltSetting.None? || saltSetting.value == []
    ensures r.Err? ==> r.error == ConfigurationErrors
    ensures r.Ok? ==> r.value == CreateUrlHash(hashThis, saltSetting.value, digest)
    ensures r.Ok? ==> forall i :: 0 <= i < |r.value| ==> IsAlphanumeric(r.value[i])
  {
    if saltSetting.None? || saltSetting.value == [] then Err(ConfigurationErrors)
    else Ok(CreateUrlHash(hashThis, saltSetting.value, digest))
  }

  /** `ProtectQueryString(urlToProtect, hashParameter)` as written: `hashParameter=hash` is
      appended to the query text of the URL, the hash taken of that text. */
  function ProtectQueryStringAsWritten(urlToProtect: Option<Uri>, hashParameter: string, saltSetting: Option<string>, digest: Digest): (r: Result<Uri>)
    ensures urlToProtect.None? ==> r == Err(ArgumentNull("urlToProtect"))
    ensures urlToProtect.Some? && urlToProtect.value.Relative? ==> r == Err(Argument(""))
    ensures (urlToProtect.Some? && urlToProtect.value.Absolute? && (saltSetting.None? || saltSetting.value == [])) ==>
      r == Err(ConfigurationErrors)
    ensures r.Ok? ==> (urlToProtect.Some? && urlToProtect.value.Absolute? &&
      var u := urlToProtect.value.abs;
      r.value == Absolute(AddParameter(u, hashParameter, CreateUrlHash(u.query, saltSetting.value, digest))))
  {
    match urlToProtect
    case None => Err(ArgumentNull("urlToProtect"))
    case Some(Relative(_)) => Err(Argument(""))
    case Some(Absolute(u)) =>
      match CreateUrlHashWithConfig(u.query, saltSetting, digest)
      case Err(x) => Err(x)
      case Ok(hash) => Ok(Absolute(AddParameter(u, hashParameter, hash)))
  }

  /** `ProtectQueryString` with the hash taken of the query as `CheckProtectedQueryString`
      rebuilds it, so that every protected URL passes the check. */
  function ProtectQueryString(urlToProtect: Option<Uri>, hashParameter: string, saltSetting: Option<string>, digest: Digest): (r: Result<Uri>)
    ensures urlToProtect.None? ==> r == Err(ArgumentNull("urlToProtect"))
    ensures urlToProtect.Some? && urlToProtect.value.Relative? ==> r == Err(Argument(""))
    ensures (urlToProtect.Some? && urlToProtect.value.Absolute? && (saltSetting.None? || saltSetting.value == [])) ==>
      r == Err(ConfigurationErrors)
    ensures r.Ok? ==> (urlToProtect.Some? && urlToProtect.value.Absolute? &&
      var u := urlToProtect.value.abs;
      r.value == Absolute(AddParameter(u, hashParameter, CreateUrlHash(Serialize(Parse(u.query)), saltSetting.value, digest))))
  {
    match urlToProtect
    case None => Err(ArgumentNull("urlToProtect"))
    case Some(Relative(_)) => Err(Argument(""))
    case Some(Absolute(u)) =>
      match CreateUrlHashWithConfig(Serialize(Parse(u.query)), saltSetting, digest)
      case Err(x) => Err(x)
      case Ok(hash) => Ok(Absolute(AddParameter(u, hashParameter, hash)))
  }

  /** What `CheckProtectedQueryString(protectedUrl, hashParameter)` returns. A URL without
      the hash parameter fails before the salt is read; otherwise the expected hash is
      computed first, so a missing salt throws even when the received hash is empty. */
  function Verdict(protectedUrl: Option<Uri>, hashParameter: string, saltSetting: Option<string>, digest: Digest): (r: Result<bool>)
    ensures protectedUrl.None? <==> r == Err(ArgumentNull("protectedUrl"))
    ensures protectedUrl.Some? && protectedUrl.value.Relative? <==> r == Err(Argument("protectedUrl"))
    ensures (protectedUrl.Some? && protectedUrl.value.Absolute? &&
      hashParameter !in Names(Parse(protectedUrl.value.abs.query))) ==> r == Ok(false)
    ensures r == Err(ConfigurationErrors) <==>
      && protectedUrl.Some? && protectedUrl.value.Absolute?
      && hashParameter in Names(Parse(protectedUrl.value.abs.query))
      && (saltSetting.None? || saltSetting.value == [])
    ensures r == Ok(true) <==>
      && protectedUrl.Some? && protectedUrl.value.Absolute?
      && saltSetting.Some? && saltSetting.value != []
      && Untampered(UrlProtector(saltSetting.value, hashParameter, digest), Parse(protectedUrl.value.abs.query))
  {
    match protectedUrl
    case None => Err(ArgumentNull("protectedUrl"))
    case Some(Relative(_)) => Err(Argument("protectedUrl"))
    case Some(Absolute(u)) =>
      var queryString := Parse(u.query);
      if hashParameter !in Names(queryString) then Ok(false)
      else if saltSetting.None? || saltSetting.value == [] then Err(ConfigurationErrors)
      else Ok(Untampered(UrlProtector(saltSetting.value, hashParameter, digest), queryString))
  }

  /** `CheckProtectedQueryString` (Iri.cs): rebuilds the query without the hash parameter,
      hashes it, and compares that with the hash received. */
  method CheckProtectedQueryString(protectedUrl: Option<Uri>, hashParameter: string, saltSetting: Option<string>, digest: Digest)
    returns (r: Result<bool>)
    ensures r == Verdict(protectedUrl, hashParameter, saltSetting, digest)
  {
    if protectedUrl.None? {
      return Err(ArgumentNull("protectedUrl"));
    }
    if !protectedUrl.value.IsAbsoluteUri() {
      return Err(Argument("protectedUrl"));
    }
    var queryString := SplitQueryString(Some(protectedUrl.value.abs.query));
    var found := Lookup(queryString, hashParameter);
    if found.None? {
      return Ok(false);
    }
    var protectedQueryString := SerializeWithout(queryString, hashParameter);
    var expectedHash := CreateUrlHashWithConfig(protectedQueryString, saltSetting, digest);
    if expectedHash.Err? {
      return Err(expectedHash.error);
    }
    var receivedHash := found.value;
    if receivedHash == [] {
      return Ok(false);
    }
    return Ok(expectedHash.value == receivedHash);
  }

  /** `ExpireUrl(urlToExpire, hashParameter, timeParameter)`, with the clock's reading
      passed in as `utcNow`: the stamp is appended, then the URL is protected as
      `ProtectQueryString` is written, with the hash of the stamped query text. */
  function ExpireUrl(urlToExpire: Option<Uri>, hashParameter: string, timeParameter: string,
                     saltSetting: Option<string>, digest: Digest, utcNow: DateTime): (r: Result<Uri>)
    requires utcNow.Valid()
    ensures urlToExpire.None? ==> r == Err(ArgumentNull("urlToExpire"))
    ensures urlToExpire.Some? && urlToExpire.value.Relative? ==> r == Err(Argument(""))
    ensures urlToExpire.Some? && urlToExpire.value.Absolute? ==>
      r == ProtectQueryStringAsWritten(Some(Absolute(AddParameter(urlToExpire.value.abs, timeParameter, FormatStamp(utcNow)))),
                                       hashParameter, saltSetting, digest)
  {
    match urlToExpire
    case None => Err(ArgumentNull("urlToExpire"))
    case Some(Relative(_)) => Err(Argument(""))
    case Some(Absolute(u)) =>
      ProtectQueryStringAsWritten(Some(Absolute(AddParameter(u, timeParameter, FormatStamp(utcNow)))), hashParameter, saltSetting, digest)
  }

  /** `HasUrlExpired(urlToCheck, hashParameter, timeParameter, validForSeconds)`, with the
      clock's reading passed in as `utcNow`: fails closed as `UrlExpirer.HasUrlExpired` does. */
  function HasUrlExpired(urlToCheck: Option<Uri>, hashParameter: string, timeParameter: string, validForSeconds: int,
                         saltSetting: Option<string>, digest: Digest, utcNow: DateTime): (r: Result<bool>)
    requires utcNow.Valid()
    ensures urlToCheck.None? ==> r == Err(ArgumentNull("urlToCheck"))
    ensures urlToCheck.Some? && urlToCheck.value.Relative? ==> r == Err(Argument(""))
    ensures (urlToCheck.Some? && urlToCheck.value.Absolute? &&
      Verdict(urlToCheck, hashParameter, saltSetting, digest) == Ok(false)) ==> r == Ok(true)
    ensures r == Ok(false) <==>
      && urlToCheck.Some? && urlToCheck.value.Absolute?
      && Verdict(urlToCheck, hashParameter, saltSetting, digest) == Ok(true)
      && var stamp := Lookup(Parse(urlToCheck.value.abs.query), timeParameter);
      && stamp.Some? && ParseStamp(stamp.value).Ok?
      && ToSeconds(utcNow) - ToSeconds(ParseStamp(stamp.value).value) <= validForSeconds
  {
    match urlToCheck
    case None => Err(ArgumentNull("urlToCheck"))
    case Some(Relative(_)) => Err(Argument(""))
    case Some(Absolute(u)) =>
      match Verdict(urlToCheck, hashParameter, saltSetting, digest)
      case Err(x) => Err(x)
      case Ok(passed) =>
        if !passed then Ok(true)
        else
          var stamp := Lookup(Parse(u.query), timeParameter);
          if stamp.None? then Ok(true)
          else
            match ParseStamp(stamp.value)
            case Err(x) => Err(x)
            case Ok(linkCreated) => Ok(ToSeconds(utcNow) - ToSeconds(linkCreated) > validForSeconds)
  }

  // ----- Protecting, then checking ------------------------------------------------------

  /** A URL whose query is `u`'s with `hashParameter=hash` appended parses to `u`'s
      dictionary with the hash entry at the end, and passes the check exactly when the hash
      is non-empty and is the hash of `u`'s dictionary rebuilt. */
  lemma VerdictOfAppended(u: AbsoluteUri, hashParameter: string, salt: string, digest: Digest, hash: string)
    requires IsParameterName(hashParameter) && hashParameter !in Names(Parse(u.query))
    requires '&' !in hash && '#' !in hash
    requires salt != []
    ensures Verdict(Some(Absolute(AddParameter(u, hashParameter, hash))), hashParameter, Some(salt), digest) ==
      Ok(hash != [] && CreateUrlHash(Serialize(Parse(u.query)), salt, digest) == hash)
  {
    var m := Parse(u.query);
    AddParameterParses(u, hashParameter, hash);
    assert AddPair(m, (hashParameter, hash)) == m + [(hashParameter, hash)];
    NamesSnoc(m, (hashParameter, hash));
    UntamperedSnoc(UrlProtector(salt, hashParameter, digest), m, hash);
  }

  /** Round trip: a URL protected with the hash of its rebuilt query passes the check,
      whenever the salt is configured and the hash parameter is not already in the query. */
  lemma ProtectThenCheck(u: AbsoluteUri, hashParameter: string, salt: string, digest: Digest)
    requires IsParameterName(hashParameter) && hashParameter !in Names(Parse(u.query))
    requires salt != []
    ensures ProtectQueryString(Some(Absolute(u)), hashParameter, Some(salt), digest).Ok?
    ensures Verdict(Some(ProtectQueryString(Some(Absolute(u)), hashParameter, Some(salt), digest).value),
                    hashParameter, Some(salt), digest) == Ok(true)
  {
    HashNonEmpty(Serialize(Parse(u.query)), salt, digest);
    var hash := CreateUrlHash(Serialize(Parse(u.query)), salt, digest);
    assert ProtectQueryString(Some(Absolute(u)), hashParameter, Some(salt), digest) ==
      Ok(Absolute(AddParameter(u, hashParameter, hash)));
    VerdictOfAppended(u, hashParameter, salt, digest, hash);
  }

  /** As written, the protected URL passes exactly when the query text hashes like the
      query the check rebuilds. */
  lemma ProtectAsWrittenThenCheck(u: AbsoluteUri, hashParameter: string, salt: string, digest: Digest)
    requires IsParameterName(hashParameter) && hashParameter !in Names(Parse(u.query))
    requires salt != []
    ensures ProtectQueryStringAsWritten(Some(Absolute(u)), hashParameter, Some(salt), digest).Ok?
    ensures Verdict(Some(ProtectQueryStringAsWritten(Some(Absolute(u)), hashParameter, Some(salt), digest).value),
                    hashParameter, Some(salt), digest) ==
      Ok(CreateUrlHash(Serialize(Parse(u.query)), salt, digest) == CreateUrlHash(u.query, salt, digest))
  {
    HashNonEmpty(u.query, salt, digest);
    var hash := CreateUrlHash(u.query, salt, digest);
    assert ProtectQueryStringAsWritten(Some(Absolute(u)), hashParameter, Some(salt), digest) ==
      Ok(Absolute(AddParameter(u, hashParameter, hash)));
    VerdictOfAppended(u, hashParameter, salt, digest, hash);
  }

  /** As written, a query that repeats a name fails its own check whenever its text and
      its rebuilt form hash differently: `?n=v1&n=v2` is rebuilt as `n=v1,v2`. */
  lemma RepeatedNameFailsAsWritten(u: AbsoluteUri, hashParameter: string, salt: string, digest: Digest,
                                   n: string, v1: string, v2: string)
    requires IsParameterName(hashParameter) && IsParameterName(n) && n != hashParameter
    requires '&' !in v1 && '&' !in v2
    requires u.query == "?" + Entry((n, v1)) + "&" + Entry((n, v2))
    requires salt != []
    requires CreateUrlHash(Entry((n, v1 + "," + v2)), salt, digest) != CreateUrlHash(u.query, salt, digest)
    ensures ProtectQueryStringAsWritten(Some(Absolute(u)), hashParameter, Some(salt), digest).Ok?
    ensures Verdict(Some(ProtectQueryStringAsWritten(Some(Absolute(u)), hashParameter, Some(salt), digest).value),
                    hashParameter, Some(salt), digest) == Ok(false)
  {
    ParseRepeatedName(n, v1, v2);
    assert Parse(u.query) == [(n, v1 + "," + v2)];
    assert Serialize([(n, v1 + "," + v2)]) == Entry((n, v1 + "," + v2));
    assert Names([(n, v1 + "," + v2)]) == [n];
    ProtectAsWrittenThenCheck(u, hashParameter, salt, digest);
  }

  /** Text appended to a URL protected with hash `hash` lands in the hash's value, and the
      longer value does not match. */
  lemma AppendedTextFails(u: AbsoluteUri, hashParameter: string, salt: string, digest: Digest, t: string)
    requires IsParameterName(hashParameter) && hashParameter !in Names(Parse(u.query))
    requires salt != [] && t != [] && '&' !in t && '#' !in t
    ensures var hash := CreateUrlHash(Serialize(Parse(u.query)), salt, digest);
      Verdict(Some(Absolute(AddParameter(u, hashParameter, hash + t))), hashParameter, Some(salt), digest) == Ok(false)
  {
    var hash := CreateUrlHash(Serialize(Parse(u.query)), salt, digest);
    VerdictOfAppended(u, hashParameter, salt, digest, hash + t);
  }

  /** The URL that `AddParameter` builds with a value extended by `t` is the one it builds
      with the plain value, with `t` appended to the query. */
  lemma AddParameterExtended(u: AbsoluteUri, name: string, value: string, t: string)
    requires '#' !in name && '#' !in value && '#' !in t
    ensures var v := AddParameter(u, name, value);
      AddParameter(u, name, value + t) == WithRest(v, v.query + t)
  {
    var v := AddParameter(u, name, value);
    var a, e := ReadyForParameter(u.query), Entry((name, value));
    EntryExtend(name, value, t);
    AppendAssociates(a, e, t);
    var w := AddParameter(u, name, value + t);
    assert w.query == v.query + t;
    WithRestWithoutFragment(v, v.query + t);
  }

  /** A rest without `#` is all query. */
  lemma WithRestWithoutFragment(u: AbsoluteUri, rest: string)
    requires (rest == [] || rest[0] == '?') && '#' !in rest
    ensures WithRest(u, rest) == u.(query := rest, fragment := [])
  {
  }

  /** Text without `&` or `#` appended to a protected URL makes it fail the check. */
  lemma TamperedFails(u: AbsoluteUri, hashParameter: string, salt: string, digest: Digest, t: string)
    requires IsParameterName(hashParameter) && hashParameter !in Names(Parse(u.query))
    requires salt != []
    requires t != [] && '&' !in t && '#' !in t
    ensures ProtectQueryString(Some(Absolute(u)), hashParameter, Some(salt), digest).Ok?
    ensures var v := ProtectQueryString(Some(Absolute(u)), hashParameter, Some(salt), digest).value.abs;
      v.query != [] && v.query[0] == '?' &&
      Verdict(Some(Absolute(WithRest(v, v.query + t))), hashParameter, Some(salt), digest) == Ok(false)
  {
    var hash := CreateUrlHash(Serialize(Parse(u.query)), salt, digest);
    var v := AddParameter(u, hashParameter, hash);
    assert ProtectQueryString(Some(Absolute(u)), hashParameter, Some(salt), digest) == Ok(Absolute(v));
    AddParameterExtended(u, hashParameter, hash, t);
    AppendedTextFails(u, hashParameter, salt, digest, t);
  }

  // ----- Expiring, then checking --------------------------------------------------------

  /** Appending a parameter whose name is not yet in the query puts its entry at the end
      of the parsed query. */
  lemma AddParameterSnoc(u: AbsoluteUri, name: string, value: string)
    requires IsParameterName(name) && name !in Names(Parse(u.query))
    requires '&' !in value && '#' !in value
    ensures Parse(AddParameter(u, name, value).query) == Parse(u.query) + [(name, value)]
  {
    AddParameterParses(u, name, value);
  }

  /** The stamp reads back from the protected stamped URL: the hash entry comes after it. */
  lemma ProtectedStampLookup(u: AbsoluteUri, hashParameter: string, timeParameter: string,
                             salt: string, digest: Digest, issued: DateTime)
    requires issued.Valid()
    requires IsParameterName(hashParameter) && IsParameterName(timeParameter) && hashParameter != timeParameter
    requires hashParameter !in Names(Parse(u.query)) && timeParameter !in Names(Parse(u.query))
    requires salt != []
    ensures var v := AddParameter(u, timeParameter, FormatStamp(issued));
      var w := AddParameter(v, hashParameter, CreateUrlHash(v.query, salt, digest));
      && hashParameter !in Names(Parse(v.query))
      && Parse(v.query) == Parse(u.query) + [(timeParameter, FormatStamp(issued))]
      && Lookup(Parse(w.query), timeParameter) == Some(FormatStamp(issued))
  {
    var m := Parse(u.query);
    var stamp := (timeParameter, FormatStamp(issued));
    var v := AddParameter(u, timeParameter, FormatStamp(issued));
    var hash := CreateUrlHash(v.query, salt, digest);
    StampAvoids(issued);
    AddParameterSnoc(u, timeParameter, FormatStamp(issued));
    NamesSnoc(m, stamp);
    AddParameterSnoc(v, hashParameter, hash);
    LookupLast(m, stamp);
    LookupAppend(m + [stamp], [(hashParameter, hash)], timeParameter);
  }

  /** Round trip of the expiry helpers, for a stamped query written as the check rebuilds
      it: a URL issued at `issued` and checked unaltered at `now` has expired exactly when
      more than `validForSeconds` seconds have passed. */
  lemma ExpireThenCheck(u: AbsoluteUri, hashParameter: string, timeParameter: string, salt: string, digest: Digest,
                        issued: DateTime, validForSeconds: int, now: DateTime)
    requires issued.Valid() && now.Valid()
    requires IsParameterName(hashParameter) && IsParameterName(timeParameter) && hashParameter != timeParameter
    requires hashParameter !in Names(Parse(u.query)) && timeParameter !in Names(Parse(u.query))
    requires salt != []
    requires WrittenAsRebuilt(AddParameter(u, timeParameter, FormatStamp(issued)).query)
    ensures ExpireUrl(Some(Absolute(u)), hashParameter, timeParameter, Some(salt), digest, issued).Ok?
    ensures HasUrlExpired(Some(ExpireUrl(Some(Absolute(u)), hashParameter, timeParameter, Some(salt), digest, issued).value),
                          hashParameter, timeParameter, validForSeconds, Some(salt), digest, now) ==
      Ok(ToSeconds(now) - ToSeconds(issued) > validForSeconds)
  {
    var v := AddParameter(u, timeParameter, FormatStamp(issued));
    var w := AddParameter(v, hashParameter, CreateUrlHash(v.query, salt, digest));
    ProtectedStampLookup(u, hashParameter, timeParameter, salt, digest, issued);
    ExpireUrlIssues(u, hashParameter, timeParameter, salt, digest, issued);
    ProtectAsWrittenThenCheck(v, hashParameter, salt, digest);
    CreateUrlHashIgnoresMarks(v.query, salt, digest);
    CheckedStampExpiry(w, hashParameter, timeParameter, salt, digest, issued, validForSeconds, now);
  }

  /** A query written as the check rebuilds it, holding a parameter or empty or `?` alone,
      stays so once stamped, so the round trip holds for it. */
  lemma ExpireThenCheckOfRebuiltQuery(u: AbsoluteUri, hashParameter: string, timeParameter: string, salt: string,
                                      digest: Digest, issued: DateTime, validForSeconds: int, now: DateTime)
    requires issued.Valid() && now.Valid()
    requires IsParameterName(hashParameter) && IsParameterName(timeParameter) && hashParameter != timeParameter
    requires hashParameter !in Names(Parse(u.query)) && timeParameter !in Names(Parse(u.query))
    requires salt != []
    requires WrittenAsRebuilt(u.query) && (Parse(u.query) != [] || u.query == [] || u.query == "?")
    ensures HasUrlExpired(Some(ExpireUrl(Some(Absolute(u)), hashParameter, timeParameter, Some(salt), digest, issued).value),
                          hashParameter, timeParameter, validForSeconds, Some(salt), digest, now) ==
      Ok(ToSeconds(now) - ToSeconds(issued) > validForSeconds)
  {
    StampAvoids(issued);
    AddParameterRebuilt(u, timeParameter, FormatStamp(issued));
    ExpireThenCheck(u, hashParameter, timeParameter, salt, digest, issued, validForSeconds, now);
  }

  /** As written, a URL whose query gives a name two values, `?n=v1&n=v2`, has expired as
      soon as it is issued, whatever the window, whenever the query text and the rebuilt
      `n=v1,v2` hash differently. */
  lemma RepeatedNameExpiresAtOnce(u: AbsoluteUri, hashParameter: string, timeParameter: string, salt: string,
                                  digest: Digest, n: string, v1: string, v2: string,
                                  issued: DateTime, validForSeconds: int, now: DateTime)
    requires issued.Valid() && now.Valid() && salt != []
    requires IsParameterName(n) && '&' !in v1 && '&' !in v2 && '#' !in v1 && '#' !in v2
    requires u.query == "?" + Entry((n, v1)) + "&" + Entry((n, v2))
    requires IsParameterName(hashParameter) && IsParameterName(timeParameter)
    requires timeParameter != n && hashParameter !in [n, timeParameter]
    requires var stamp := Entry((timeParameter, FormatStamp(issued)));
      CreateUrlHash(Entry((n, v1 + "," + v2)) + "&" + stamp, salt, digest) !=
        CreateUrlHash(u.query + "&" + stamp, salt, digest)
    ensures HasUrlExpired(Some(ExpireUrl(Some(Absolute(u)), hashParameter, timeParameter, Some(salt), digest, issued).value),
                          hashParameter, timeParameter, validForSeconds, Some(salt), digest, now) == Ok(true)
  {
    var v := AddParameter(u, timeParameter, FormatStamp(issued));
    StampAvoids(issued);
    AddedAfterRepeatedName(u, n, v1, v2, timeParameter, FormatStamp(issued));
    ExpireUrlIssues(u, hashParameter, timeParameter, salt, digest, issued);
    ProtectAsWrittenThenCheck(v, hashParameter, salt, digest);
  }

  /** With the salt configured, `ExpireUrl` issues the stamped URL with the hash of its
      query text appended. */
  lemma ExpireUrlIssues(u: AbsoluteUri, hashParameter: string, timeParameter: string, salt: string, digest: Digest,
                        issued: DateTime)
    requires issued.Valid() && salt != []
    ensures var v := AddParameter(u, timeParameter, FormatStamp(issued));
      ExpireUrl(Some(Absolute(u)), hashParameter, timeParameter, Some(salt), digest, issued) ==
        Ok(Absolute(AddParameter(v, hashParameter, CreateUrlHash(v.query, salt, digest))))
  {
  }

  /** A URL that passes the check and carries the stamp of `issued` has expired exactly
      when more than the window has passed since `issued`. */
  lemma CheckedStampExpiry(w: AbsoluteUri, hashParameter: string, timeParameter: string, salt: string, digest: Digest,
                           issued: DateTime, validForSeconds: int, now: DateTime)
    requires issued.Valid() && now.Valid()
    requires Verdict(Some(Absolute(w)), hashParameter, Some(salt), digest) == Ok(true)
    requires Lookup(Parse(w.query), timeParameter) == Some(FormatStamp(issued))
    ensures HasUrlExpired(Some(Absolute(w)), hashParameter, timeParameter, validForSeconds, Some(salt), digest, now) ==
      Ok(ToSeconds(now) - ToSeconds(issued) > validForSeconds)
  {
    ParseFormat(issued);
  }
}
