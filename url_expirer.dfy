/** `UrlExpirer` (Escc.Web/UrlExpirer.cs): a URL is stamped with the time it was issued,
    `t=yyyyMMddHHmmss`, and then signed by a URL protector so that the stamp cannot be
    changed; a stamped URL has expired once more seconds than its validity window have
    passed since the stamp. The expirer fails closed: a URL that does not pass the
    protector's check, or carries no stamp, counts as expired. */
module UrlExpiry {
  import opened Wrappers
  import opened Uris
  import opened QueryStrings
  import opened Iri
  import opened UrlProtection
  import opened Timestamps

  /** An `IUrlProtector`: the salted `UrlProtector`, or a protector that leaves every URL
      as it is and accepts every URL, as the unit tests substitute. */
  datatype Protector = Salted(protector: UrlProtector) | PassThrough

  /** `IUrlProtector.ProtectQueryString` of a URL that is not null. The salted protector is
      `UrlProtector` as written: it hashes the query text as it stands. */
  function Protect(pr: Protector, url: Uri): (r: Result<Uri>)
    ensures pr.PassThrough? ==> r == Ok(url)
    ensures pr.Salted? ==> r == ProtectQueryStringAsWritten(pr.protector, Some(url))
    ensures pr.Salted? && url.Absolute? ==> r == Ok(Absolute(Signed(pr.protector, url.abs, url.abs.query)))
  {
    match pr
    case Salted(p) => ProtectQueryStringAsWritten(p, Some(url))
    case PassThrough => Ok(url)
  }

  /** `IUrlProtector.CheckProtectedQueryString` of a URL that is not null. */
  function Check(pr: Protector, url: Uri): (r: Result<bool>)
    ensures pr.PassThrough? ==> r == Ok(true)
    ensures pr.Salted? ==> r == Verdict(pr.protector, Some(url))
  {
    match pr
    case Salted(p) => Verdict(p, Some(url))
    case PassThrough => Ok(true)
  }

  /** An expirer: the protector that guards the stamp, and the name of the stamp's parameter. */
  datatype UrlExpirer = UrlExpirer(protector: Protector, timeParameter: string)

  /** The default name of the stamp's parameter. */
  const DefaultTimeParameter: string := "t"

  /** The constructor: a null protector is refused with `ArgumentNullException`; the time
      parameter is kept as given. */
  function NewUrlExpirer(urlProtector: Option<Protector>, timeParameter: string): (r: Result<UrlExpirer>)
    ensures r.Err? <==> urlProtector.None?
    ensures r.Err? ==> r.error == ArgumentNull("urlProtector")
    ensures r.Ok? ==> r.value.protector == urlProtector.value && r.value.timeParameter == timeParameter
  {
    if urlProtector.None? then Err(ArgumentNull("urlProtector"))
    else Ok(UrlExpirer(urlProtector.value, timeParameter))
  }

  /** The URL with the stamp of `issued` added after its existing parameters, before it
      is signed. */
  function Stamped(e: UrlExpirer, u: AbsoluteUri, issued: DateTime): (r: AbsoluteUri)
    requires issued.Valid()
    ensures Prefix(r) == Prefix(u)
    ensures '#' !in e.timeParameter ==>
      r.query == ReadyForParameter(u.query) + Entry((e.timeParameter, FormatStamp(issued))) && r.fragment == []
  {
    StampAvoids(issued);
    AddParameter(u, e.timeParameter, FormatStamp(issued))
  }

  /** `ExpireUrl(urlToExpire, utcTimestamp)`: a null URL is refused with
      `ArgumentNullException`, a relative one with `ArgumentException`; otherwise the stamped
      URL is handed to the protector once, and what it returns is the result. The
      one-argument overload is this with the clock's current reading as `utcTimestamp`. */
  function ExpireUrl(e: UrlExpirer, urlToExpire: Option<Uri>, utcTimestamp: DateTime): (r: Result<Uri>)
    requires utcTimestamp.Valid()
    ensures urlToExpire.None? ==> r == Err(ArgumentNull("urlToExpire"))
    ensures urlToExpire.Some? && urlToExpire.value.Relative? ==> r == Err(Argument(""))
    ensures urlToExpire.Some? && urlToExpire.value.Absolute? ==>
      r == Protect(e.protector, Absolute(Stamped(e, urlToExpire.value.abs, utcTimestamp)))
    ensures e.protector.PassThrough? && urlToExpire.Some? && urlToExpire.value.Absolute? ==>
      r.Ok? && r.value.Absolute? && Prefix(r.value.abs) == Prefix(urlToExpire.value.abs)
  {
    match urlToExpire
    case None => Err(ArgumentNull("urlToExpire"))
    case Some(Relative(_)) => Err(Argument(""))
    case Some(Absolute(u)) => Protect(e.protector, Absolute(Stamped(e, u, utcTimestamp)))
  }

  /** `HasUrlExpired(urlToCheck, validForSeconds, currentUtcTime)`: a null URL is refused
      with `ArgumentNullException`, a relative one with `ArgumentException`. A URL that the
      protector rejects has expired, and so has one without the stamp; a stamp that is not
      fourteen digits naming a valid time throws `FormatException`. Otherwise the URL has
      expired exactly when more than `validForSeconds` seconds have passed since the stamp.
      The two-argument overload is this with the clock's current reading as
      `currentUtcTime`. */
  function HasUrlExpired(e: UrlExpirer, urlToCheck: Option<Uri>, validForSeconds: int, currentUtcTime: DateTime): (r: Result<bool>)
    requires currentUtcTime.Valid()
    ensures urlToCheck.None? ==> r == Err(ArgumentNull("urlToCheck"))
    ensures urlToCheck.Some? && urlToCheck.value.Relative? ==> r == Err(Argument(""))
    ensures urlToCheck.Some? && urlToCheck.value.Absolute? && Check(e.protector, urlToCheck.value) == Ok(false) ==>
      r == Ok(true)
    ensures (urlToCheck.Some? && urlToCheck.value.Absolute? && Check(e.protector, urlToCheck.value) == Ok(true) &&
      e.timeParameter !in Names(Parse(urlToCheck.value.abs.query))) ==> r == Ok(true)
    // Fail closed: a URL counts as unexpired only when it passed the check and carries a
    // stamp that parses and lies within the window.
    ensures r == Ok(false) <==>
      && urlToCheck.Some? && urlToCheck.value.Absolute?
      && Check(e.protector, urlToCheck.value) == Ok(true)
      && var stamp := Lookup(Parse(urlToCheck.value.abs.query), e.timeParameter);
      && stamp.Some? && ParseStamp(stamp.value).Ok?
      && ToSeconds(currentUtcTime) - ToSeconds(ParseStamp(stamp.value).value) <= validForSeconds
  {
    match urlToCheck
    case None => Err(ArgumentNull("urlToCheck"))
    case Some(Relative(_)) => Err(Argument(""))
    case Some(Absolute(u)) =>
      match Check(e.protector, Absolute(u))
      case Err(x) => Err(x)
      case Ok(passed) =>
        if !passed then Ok(true)
        else
          var queryString := Parse(u.query);
          var stamp := Lookup(queryString, e.timeParameter);
          if stamp.None? then Ok(true)
          else
            match ParseStamp(stamp.value)
            case Err(x) => Err(x)
            case Ok(linkCreated) => Ok(ToSeconds(currentUtcTime) - ToSeconds(linkCreated) > validForSeconds)
  }

  // ----- Expiring, then checking --------------------------------------------------------

  /** The stamp reads back from the stamped URL's parsed query, after the existing entries. */
  lemma StampedParses(e: UrlExpirer, u: AbsoluteUri, issued: DateTime)
    requires issued.Valid()
    requires IsParameterName(e.timeParameter)
    requires e.timeParameter !in Names(Parse(u.query))
    ensures Parse(Stamped(e, u, issued).query) == Parse(u.query) + [(e.timeParameter, FormatStamp(issued))]
  {
    StampAvoids(issued);
    AddParameterParses(u, e.timeParameter, FormatStamp(issued));
  }

  /** With the pass-through protector, a stamped URL has expired exactly when more than
      the window has passed since the stamp. */
  lemma PassThroughExpiry(u: AbsoluteUri, timeParameter: string, issued: DateTime, validForSeconds: int, now: DateTime)
    requires issued.Valid() && now.Valid()
    requires IsParameterName(timeParameter)
    requires timeParameter !in Names(Parse(u.query))
    ensures var e := UrlExpirer(PassThrough, timeParameter);
      HasUrlExpired(e, Some(ExpireUrl(e, Some(Absolute(u)), issued).value), validForSeconds, now) ==
        Ok(ToSeconds(now) - ToSeconds(issued) > validForSeconds)
  {
    var e := UrlExpirer(PassThrough, timeParameter);
    var v := Stamped(e, u, issued);
    assert ExpireUrl(e, Some(Absolute(u)), issued) == Ok(Absolute(v));
    StampedParses(e, u, issued);
    LookupLast(Parse(u.query), (timeParameter, FormatStamp(issued)));
    CheckedStampExpiry(e, v, issued, validForSeconds, now);
  }

  /** The stamp reads back from the signed URL too: the hash entry comes after it. */
  lemma SignedStampLookup(e: UrlExpirer, u: AbsoluteUri, issued: DateTime)
    requires issued.Valid() && e.protector.Salted?
    requires IsParameterName(e.timeParameter) && IsParameterName(e.protector.protector.hashParameter)
    requires e.timeParameter != e.protector.protector.hashParameter
    requires e.timeParameter !in Names(Parse(u.query))
    requires e.protector.protector.hashParameter !in Names(Parse(u.query))
    requires Parse(u.query) == [] || !StartsWithMark(Parse(u.query)[0].0)
    ensures var p := e.protector.protector;
      var v := Stamped(e, u, issued);
      Lookup(Parse(Signed(p, v, v.query).query), e.timeParameter) == Some(FormatStamp(issued))
  {
    var p := e.protector.protector;
    var v := Stamped(e, u, issued);
    var m := Parse(u.query);
    var stamp := (e.timeParameter, FormatStamp(issued));
    StampedParses(e, u, issued);
    NamesSnoc(m, stamp);
    SignedQueryParses(p, v, v.query);
    LookupLast(m, stamp);
    LookupAppend(m + [stamp], [(p.hashParameter, CreateUrlHash(v.query, p.salt, p.digest))], e.timeParameter);
  }

  /** A URL whose parsed query is a dictionary followed by one more entry, and whose query
      text is written as the check rebuilds it, passes the check once signed as
      `ProtectQueryString` signs it. */
  lemma SignedAfterEntryChecks(p: UrlProtector, v: AbsoluteUri, m: QueryMap, entry: (string, string))
    requires IsParameterName(p.hashParameter) && IsParameterName(entry.0)
    requires entry.0 != p.hashParameter && p.hashParameter !in Names(m)
    requires m == [] || !StartsWithMark(m[0].0)
    requires Parse(v.query) == m + [entry]
    requires WrittenAsRebuilt(v.query)
    ensures Verdict(p, Some(Absolute(Signed(p, v, v.query)))) == Ok(true)
  {
    assert p.hashParameter !in Names(Parse(v.query)) by {
      NamesSnoc(m, entry);
    }
    assert Parse(v.query) == [] || !StartsWithMark(Parse(v.query)[0].0) by {
      assert (m + [entry])[0].0 == if m == [] then entry.0 else m[0].0;
    }
    ProtectAsWrittenThenCheck(p, v);
  }

  /** A URL that passes the check and carries the stamp of `issued` has expired exactly
      when more than the window has passed since `issued`. */
  lemma CheckedStampExpiry(e: UrlExpirer, w: AbsoluteUri, issued: DateTime, validForSeconds: int, now: DateTime)
    requires issued.Valid() && now.Valid()
    requires Check(e.protector, Absolute(w)) == Ok(true)
    requires Lookup(Parse(w.query), e.timeParameter) == Some(FormatStamp(issued))
    ensures HasUrlExpired(e, Some(Absolute(w)), validForSeconds, now) ==
      Ok(ToSeconds(now) - ToSeconds(issued) > validForSeconds)
  {
    ParseFormat(issued);
  }

  /** With the salted protector, the expirer issues the stamped URL signed with the hash of
      its query text. */
  lemma ExpireUrlSalted(e: UrlExpirer, u: AbsoluteUri, issued: DateTime)
    requires issued.Valid() && e.protector.Salted?
    ensures var v := Stamped(e, u, issued);
      ExpireUrl(e, Some(Absolute(u)), issued) ==
        Ok(Absolute(Signed(e.protector.protector, v, v.query)))
  {
  }

  /** With the salted protector the same holds when the stamped query is written as the
      check rebuilds it: a URL the expirer issued, checked unaltered, has expired exactly
      when more than the window has passed since the stamp. */
  lemma SaltedExpiry(e: UrlExpirer, u: AbsoluteUri, issued: DateTime, validForSeconds: int, now: DateTime)
    requires issued.Valid() && now.Valid() && e.protector.Salted?
    requires IsParameterName(e.timeParameter) && IsParameterName(e.protector.protector.hashParameter)
    requires e.timeParameter != e.protector.protector.hashParameter
    requires e.timeParameter !in Names(Parse(u.query))
    requires e.protector.protector.hashParameter !in Names(Parse(u.query))
    requires Parse(u.query) == [] || !StartsWithMark(Parse(u.query)[0].0)
    requires WrittenAsRebuilt(Stamped(e, u, issued).query)
    ensures HasUrlExpired(e, Some(ExpireUrl(e, Some(Absolute(u)), issued).value), validForSeconds, now) ==
      Ok(ToSeconds(now) - ToSeconds(issued) > validForSeconds)
  {
    var p := e.protector.protector;
    var v := Stamped(e, u, issued);
    var w := Signed(p, v, v.query);
    ExpireUrlSalted(e, u, issued);
    StampedParses(e, u, issued);
    SignedAfterEntryChecks(p, v, Parse(u.query), (e.timeParameter, FormatStamp(issued)));
    SignedStampLookup(e, u, issued);
    CheckedStampExpiry(e, w, issued, validForSeconds, now);
  }

  /** A query written as the check rebuilds it, holding a parameter or empty or `?` alone,
      stays so once stamped, so the salted round trip holds for it. */
  lemma SaltedExpiryOfRebuiltQuery(e: UrlExpirer, u: AbsoluteUri, issued: DateTime, validForSeconds: int, now: DateTime)
    requires issued.Valid() && now.Valid() && e.protector.Salted?
    requires IsParameterName(e.timeParameter) && IsParameterName(e.protector.protector.hashParameter)
    requires e.timeParameter != e.protector.protector.hashParameter
    requires e.timeParameter !in Names(Parse(u.query))
    requires e.protector.protector.hashParameter !in Names(Parse(u.query))
    requires Parse(u.query) == [] || !StartsWithMark(Parse(u.query)[0].0)
    requires WrittenAsRebuilt(u.query) && (Parse(u.query) != [] || u.query == [] || u.query == "?")
    ensures HasUrlExpired(e, Some(ExpireUrl(e, Some(Absolute(u)), issued).value), validForSeconds, now) ==
      Ok(ToSeconds(now) - ToSeconds(issued) > validForSeconds)
  {
    StampAvoids(issued);
    AddParameterRebuilt(u, e.timeParameter, FormatStamp(issued));
    SaltedExpiry(e, u, issued, validForSeconds, now);
  }

  /** As written, a URL whose query gives a name two values, `?n=v1&n=v2`, has expired as
      soon as it is issued, whatever the window: the hash is taken of the query text but the
      check rebuilds `n=v1,v2`. The hashes of the two texts are taken to differ, as SHA-1
      hashes of different inputs do. */
  lemma RepeatedNameExpiresAtOnce(e: UrlExpirer, u: AbsoluteUri, n: string, v1: string, v2: string,
                                  issued: DateTime, validForSeconds: int, now: DateTime)
    requires issued.Valid() && now.Valid() && e.protector.Salted?
    requires IsParameterName(n) && '&' !in v1 && '&' !in v2 && '#' !in v1 && '#' !in v2
    requires u.query == "?" + Entry((n, v1)) + "&" + Entry((n, v2))
    requires IsParameterName(e.timeParameter) && IsParameterName(e.protector.protector.hashParameter)
    requires e.timeParameter != n && e.protector.protector.hashParameter !in [n, e.timeParameter]
    requires var p := e.protector.protector;
      var stamp := Entry((e.timeParameter, FormatStamp(issued)));
      CreateUrlHash(Entry((n, v1 + "," + v2)) + "&" + stamp, p.salt, p.digest) !=
        CreateUrlHash(u.query + "&" + stamp, p.salt, p.digest)
    ensures HasUrlExpired(e, Some(ExpireUrl(e, Some(Absolute(u)), issued).value), validForSeconds, now) == Ok(true)
  {
    var p := e.protector.protector;
    var v := Stamped(e, u, issued);
    StampAvoids(issued);
    AddedAfterRepeatedName(u, n, v1, v2, e.timeParameter, FormatStamp(issued));
    ExpireUrlSalted(e, u, issued);
    ProtectAsWrittenThenCheck(p, v);
    assert Check(e.protector, Absolute(Signed(p, v, v.query))) == Ok(false);
  }

  /** The window is strict: exactly `validForSeconds` after the stamp the URL is still
      valid, and one second later it has expired. */
  lemma ExpiryBoundary(u: AbsoluteUri, timeParameter: string, issued: DateTime, validForSeconds: int, now: DateTime)
    requires issued.Valid() && now.Valid()
    requires IsParameterName(timeParameter)
    requires timeParameter !in Names(Parse(u.query))
    ensures var e := UrlExpirer(PassThrough, timeParameter);
      var url := Some(ExpireUrl(e, Some(Absolute(u)), issued).value);
      && (ToSeconds(now) == ToSeconds(issued) + validForSeconds ==> HasUrlExpired(e, url, validForSeconds, now) == Ok(false))
      && (ToSeconds(now) == ToSeconds(issued) + validForSeconds + 1 ==> HasUrlExpired(e, url, validForSeconds, now) == Ok(true))
  {
    PassThroughExpiry(u, timeParameter, issued, validForSeconds, now);
  }

  /** The unit tests' scenario: a URL issued at midnight on 1 January 2016 with a window of
      one day is still valid at midnight on 2 January, and has expired a second later. */
  lemma OneDayWindow(u: AbsoluteUri)
    requires DefaultTimeParameter !in Names(Parse(u.query))
    ensures var e := UrlExpirer(PassThrough, DefaultTimeParameter);
      var url := Some(ExpireUrl(e, Some(Absolute(u)), DateTime(2016, 1, 1, 0, 0, 0)).value);
      && HasUrlExpired(e, url, 86400, DateTime(2016, 1, 2, 0, 0, 0)) == Ok(false)
      && HasUrlExpired(e, url, 86400, DateTime(2016, 1, 2, 0, 0, 1)) == Ok(true)
  {
    var issued := DateTime(2016, 1, 1, 0, 0, 0);
    NextDay(issued);
    assert ToSeconds(DateTime(2016, 1, 2, 0, 0, 1)) == ToSeconds(DateTime(2016, 1, 2, 0, 0, 0)) + 1;
    assert IsParameterName(DefaultTimeParameter);
    PassThroughExpiry(u, DefaultTimeParameter, issued, 86400, DateTime(2016, 1, 2, 0, 0, 0));
    PassThroughExpiry(u, DefaultTimeParameter, issued, 86400, DateTime(2016, 1, 2, 0, 0, 1));
  }

  /** A stamp that is present but not fourteen digits naming a valid time is an error,
      not a verdict. */
  lemma MalformedStampThrows(e: UrlExpirer, u: AbsoluteUri, validForSeconds: int, now: DateTime)
    requires now.Valid()
    requires Check(e.protector, Absolute(u)) == Ok(true)
    requires Lookup(Parse(u.query), e.timeParameter).Some?
    requires ParseStamp(Lookup(Parse(u.query), e.timeParameter).value).Err?
    ensures HasUrlExpired(e, Some(Absolute(u)), validForSeconds, now) == Err(Format)
  {
  }
}
