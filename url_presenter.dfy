/** Abbreviating a URL for display (Escc.Web/UrlPresenter.cs): the host, left out when it is
    the base URL's, then the path and query with leading segments dropped until the text
    fits a length budget, and the query cut off when it still does not fit. */
module UrlPresentation {
  import opened Wrappers
  import opened Text
  import opened Uris

  /** The budget of the overloads that take none. */
  const DefaultMaximumLength := 60

  /** What is written in place of dropped segments. */
  const DroppedSegments := "/\U{2026}/"

  /** What is written in place of a cut-off query. */
  const CutQueryText := "?\U{2026}"

  /** `new Uri(baseUrl, relativeUrl)`: resolving a relative URL against an absolute one, which
      `System.Uri` does; it is a parameter of this model. */
  type Resolver = (AbsoluteUri, string) -> AbsoluteUri

  /** The host, unless it is the base URL's, then `:port` for a port that is not the
      scheme's default. */
  function HostText(u: AbsoluteUri, baseHost: Option<string>): (s: string)
    ensures '?' !in s
  {
    var host := if baseHost.None? || u.host != baseHost.value then u.host else "";
    assert forall c :: c in NatToString(u.port) ==> '0' <= c <= '9';
    host + (if u.isDefaultPort then "" else ":" + NatToString(u.port))
  }

  /** The checks and the resolution before any text is written: the text in front of the
      path, and the path and query. A null URL is an `ArgumentNullException`. The second
      null check tests the URL again instead of the base URL, so a relative URL with no base
      URL is a `NullReferenceException`; a relative base URL is an `ArgumentException` for a
      relative URL, and an `InvalidOperationException` from reading its host for an
      absolute one. */
  function Target(urlToAbbreviate: Option<Uri>, baseUrl: Option<Uri>, resolve: Resolver): Result<(string, string)>
  {
    if urlToAbbreviate.None? then Err(ArgumentNull("urlToAbbreviate"))
    else if urlToAbbreviate.value.Relative? then
      if baseUrl.None? then Err(NullReference)
      else if baseUrl.value.Relative? then Err(Argument(""))
      else
        var u := resolve(baseUrl.value.abs, urlToAbbreviate.value.text);
        Ok((HostText(u, Some(baseUrl.value.abs.host)), u.path + u.query))
    else
      var u := urlToAbbreviate.value.abs;
      if baseUrl.None? then Ok((HostText(u, None), u.path + u.query))
      else if baseUrl.value.Relative? then Err(InvalidOperation)
      else Ok((HostText(u, Some(baseUrl.value.abs.host)), u.path + u.query))
  }

  /** The loop of `AbbreviateUrl`: while the path is longer than the budget and still has
      a `/`, everything up to and including its first `/` is dropped; the first drop also
      takes 3 from the budget for the `/…/` written in front. Gives the path, the budget
      and whether anything was dropped. */
  function DropSegments(path: string, budget: int, shortened: bool): (string, int, bool)
    decreases |path|
  {
    var nextSlash := IndexOf(path, '/');
    if |path| > budget && nextSlash > -1 then
      DropSegments(path[nextSlash + 1..], if shortened then budget else budget - 3, true)
    else (path, budget, shortened)
  }

  /** `p` is what is left of `s` once some leading characters are dropped. */
  predicate IsSuffix(p: string, s: string)
  {
    |p| <= |s| && s[|s| - |p|..] == p
  }

  /** A suffix of a suffix is a suffix, and the character in front of it is the same. */
  lemma SuffixOfSuffix(p: string, q: string, s: string)
    requires IsSuffix(p, q) && IsSuffix(q, s)
    ensures IsSuffix(p, s)
    ensures |p| < |q| ==> s[|s| - |p| - 1] == q[|q| - |p| - 1]
  {
    assert s[|s| - |p|..] == q[|q| - |p|..];
  }

  /** The characters of a suffix before its first `/` are not `/` in the whole text either. */
  lemma NoSlashInPrefix(q: string, s: string, n: int)
    requires IsSuffix(q, s) && 0 <= n <= |q| && '/' !in q[..n]
    ensures forall i :: |s| - |q| <= i < |s| - |q| + n ==> s[i] != '/'
  {
    forall i | |s| - |q| <= i < |s| - |q| + n
      ensures s[i] != '/'
    {
      assert s[i] == q[i - (|s| - |q|)] == q[..n][i - (|s| - |q|)];
    }
  }

  /** One step of the loop keeps what it promises. */
  lemma DropStep(path0: string, budget0: int, path: string, budget: int, shortened: bool, k: int, rest: string)
    requires IsSuffix(path, path0) && |path| > budget
    requires shortened <==> |path| < |path0|
    requires shortened ==> |path0| > budget0 && path0[|path0| - |path| - 1] == '/'
    requires budget == if shortened then budget0 - 3 else budget0
    requires forall i :: 0 <= i < |path0| - |path| - 1 && path0[i] == '/' ==> |path0| - i - 1 > budget
    requires 0 <= k < |path| && path[k] == '/' && '/' !in path[..k] && rest == path[k + 1..]
    ensures IsSuffix(rest, path0) && |rest| < |path0|
    ensures |path0| > budget0 && path0[|path0| - |rest| - 1] == '/'
    ensures forall i :: 0 <= i < |path0| - |rest| - 1 && path0[i] == '/' ==> |path0| - i - 1 > budget0 - 3
  {
    assert IsSuffix(rest, path);
    SuffixOfSuffix(rest, path, path0);
    NoSlashInPrefix(path, path0, k);
  }

  /** What holds of the loop's state before each step, starting from `path0` and `budget0`. */
  predicate DropInvariant(path0: string, budget0: int, path: string, budget: int, shortened: bool)
  {
    && IsSuffix(path, path0)
    && (shortened <==> |path| < |path0|)
    && (shortened ==> |path0| > budget0 && path0[|path0| - |path| - 1] == '/')
    && budget == (if shortened then budget0 - 3 else budget0)
    && (forall i :: 0 <= i < |path0| - |path| - 1 && path0[i] == '/' ==> |path0| - i - 1 > budget)
  }

  /** Dropping segments from a state the invariant holds of ends in one it holds of, which
      fits the budget or has no `/` left. From the start (`DropSegmentsKeeps(path, budget,
      path, budget, false)`): what is left is the whole path, or the suffix just after one of
      its `/`s; something is dropped only from a path over the budget; the budget loses 3
      once, with the first drop; and every longer suffix that starts after a `/` was over the
      budget, so no more is dropped than needed. */
  lemma {:induction false} DropSegmentsKeeps(path0: string, budget0: int, path: string, budget: int, shortened: bool)
    requires DropInvariant(path0, budget0, path, budget, shortened)
    ensures (var (p, b, s) := DropSegments(path, budget, shortened);
      DropInvariant(path0, budget0, p, b, s) && (|p| <= b || '/' !in p))
    decreases |path|
  {
    if |path| > budget && '/' in path {
      var k := IndexOf(path, '/');
      DropStep(path0, budget0, path, budget, shortened, k, path[k + 1..]);
      DropSegmentsKeeps(path0, budget0, path[k + 1..], budget0 - 3, true);
    }
  }

  /** The text before the query is cut: the host text, then the path (trailing `/`s
      trimmed) with leading segments dropped to fit, behind `/…/` when any were; and the
      budget the loop ended with. */
  function Shortened(prefix: string, pathAndQuery: string, maximumLength: int): (string, int)
  {
    var d := DropSegments(TrimEnd(pathAndQuery, '/'), maximumLength - |prefix|, false);
    (prefix + (if d.2 then DroppedSegments + d.0 else d.0), d.1)
  }

  /** Everything from the first `?` replaced by `?…`, when the text is longer than the limit
      and has a query. */
  function CutQuery(text: string, limit: int): (r: string)
    ensures (|text| > limit && '?' in text ==>
      r == text[..IndexOf(text, '?')] + CutQueryText)
    ensures !(|text| > limit && '?' in text) ==> r == text
  {
    var pos := IndexOf(text, '?');
    if |text| > limit && pos > -1 then text[..pos] + CutQueryText else text
  }

  /** The code as written: the whole text, host included, is compared with the budget left
      for the path, so a query can be cut from a URL that fits. */
  function AbbreviationAsWritten(prefix: string, pathAndQuery: string, maximumLength: int): string
  {
    var s := Shortened(prefix, pathAndQuery, maximumLength);
    CutQuery(s.0, s.1)
  }

  /** As evidently intended: the query is cut only when the whole text is over the
      maximum length. */
  function Abbreviation(prefix: string, pathAndQuery: string, maximumLength: int): string
  {
    CutQuery(Shortened(prefix, pathAndQuery, maximumLength).0, maximumLength)
  }

  /** Nothing is dropped from a path that fits, and the budget is what the host text left. */
  lemma ShortenedFits(prefix: string, pathAndQuery: string, maximumLength: int)
    requires |prefix| + |TrimEnd(pathAndQuery, '/')| <= maximumLength
    ensures Shortened(prefix, pathAndQuery, maximumLength)
      == (prefix + TrimEnd(pathAndQuery, '/'), maximumLength - |prefix|)
  {
    var path := TrimEnd(pathAndQuery, '/');
    assert DropSegments(path, maximumLength - |prefix|, false) == (path, maximumLength - |prefix|, false);
  }

  /** A URL that already fits is written unchanged after its host text. */
  lemma AbbreviationFits(prefix: string, pathAndQuery: string, maximumLength: int)
    requires |prefix| + |TrimEnd(pathAndQuery, '/')| <= maximumLength
    ensures Abbreviation(prefix, pathAndQuery, maximumLength) == prefix + TrimEnd(pathAndQuery, '/')
  {
    ShortenedFits(prefix, pathAndQuery, maximumLength);
  }

  /** The query is cut only from text longer than the maximum, and the host text is always
      kept in front. */
  lemma AbbreviationKeepsPrefix(prefix: string, pathAndQuery: string, maximumLength: int)
    requires '?' !in prefix
    ensures (var (text, _) := Shortened(prefix, pathAndQuery, maximumLength);
      var r := Abbreviation(prefix, pathAndQuery, maximumLength);
      && prefix <= r
      && (r != text ==> |text| > maximumLength && '?' in text))
  {
    var (text, _) := Shortened(prefix, pathAndQuery, maximumLength);
    if |text| > maximumLength && '?' in text {
      var pos := IndexOf(text, '?');
      assert text[..|prefix|] == prefix;
      assert text[..pos][..|prefix|] == prefix;
    }
  }

  /** A URL whose text fits, but whose host text is longer than the room left over, loses
      its query as written and keeps it as intended. */
  lemma AsWrittenCutsFittingQuery(prefix: string, pathAndQuery: string, maximumLength: int)
    requires '?' !in prefix && '?' in pathAndQuery
    requires pathAndQuery[|pathAndQuery| - 1] != '/'
    requires |prefix| + |pathAndQuery| <= maximumLength < 2 * |prefix| + |pathAndQuery|
    ensures (AbbreviationAsWritten(prefix, pathAndQuery, maximumLength)
      == prefix + pathAndQuery[..IndexOf(pathAndQuery, '?')] + CutQueryText)
    ensures Abbreviation(prefix, pathAndQuery, maximumLength) == prefix + pathAndQuery
  {
    assert TrimEnd(pathAndQuery, '/') == pathAndQuery;
    ShortenedFits(prefix, pathAndQuery, maximumLength);
    CutQueryAfterPrefix(prefix, pathAndQuery, maximumLength - |prefix|);
  }

  /** A query is cut from after the host text, which holds no `?`. */
  lemma CutQueryAfterPrefix(prefix: string, pathAndQuery: string, limit: int)
    requires '?' !in prefix && '?' in pathAndQuery
    requires |prefix| + |pathAndQuery| > limit
    ensures (CutQuery(prefix + pathAndQuery, limit)
      == prefix + pathAndQuery[..IndexOf(pathAndQuery, '?')] + CutQueryText)
  {
    var pos := IndexOf(pathAndQuery, '?');
    IndexOfAfter(prefix, pathAndQuery, '?');
    FrontOfConcat(prefix, pathAndQuery, pos);
    CutQueryAt(prefix + pathAndQuery, limit, |prefix| + pos, prefix + pathAndQuery[..pos]);
  }

  /** Text over the limit with its first `?` at `k` is cut at `k`. */
  lemma CutQueryAt(text: string, limit: int, k: int, front: string)
    requires |text| > limit && 0 <= k && k == IndexOf(text, '?') && front == text[..k]
    ensures CutQuery(text, limit) == front + CutQueryText
  {
  }

  /** The front of `a + b` that reaches `n` characters into `b`. */
  lemma FrontOfConcat(a: string, b: string, n: int)
    requires 0 <= n <= |b|
    ensures (a + b)[..|a| + n] == a + b[..n]
  {
  }

  /** The whole result, as the code is written. */
  function AbbreviateUrlResult(urlToAbbreviate: Option<Uri>, baseUrl: Option<Uri>, maximumLength: int,
                               resolve: Resolver): Result<string>
  {
    match Target(urlToAbbreviate, baseUrl, resolve)
    case Err(e) => Err(e)
    case Ok((prefix, pathAndQuery)) => Ok(AbbreviationAsWritten(prefix, pathAndQuery, maximumLength))
  }

  /** One pass of the loop, as `DropSegments` takes it: the state after the pass leads to
      the same result. */
  lemma DropSegmentsUnfold(path: string, budget: int, shortened: bool, rest: string, nextBudget: int)
    requires |path| > budget && '/' in path
    requires rest == path[IndexOf(path, '/') + 1..]
    requires nextBudget == if shortened then budget else budget - 3
    ensures DropSegments(path, budget, shortened) == DropSegments(rest, nextBudget, true)
  {
  }

  /** The loop's exit, as `DropSegments` takes it. */
  lemma DropSegmentsStops(path: string, budget: int, shortened: bool)
    requires |path| <= budget || '/' !in path
    ensures DropSegments(path, budget, shortened) == (path, budget, shortened)
  {
  }

  /** The loop of `AbbreviateUrl` that drops leading segments of the path, proved against
      `DropSegments`. */
  method DropLeadingSegments(path0: string, budget0: int) returns (path: string, budget: int, shortened: bool)
    ensures (path, budget, shortened) == DropSegments(path0, budget0, false)
  {
    path, budget := path0, budget0;
    var nextSlash := IndexOf(path, '/');
    shortened := false;
    while |path| > budget && nextSlash > -1
      invariant nextSlash == IndexOf(path, '/')
      invariant DropSegments(path, budget, shortened) == DropSegments(path0, budget0, false)
      decreases |path|
    {
      ghost var before := (path, budget, shortened);
      path := path[nextSlash + 1..];
      nextSlash := IndexOf(path, '/');
      if !shortened {
        budget := budget - 3;
        shortened := true;
      }
      DropSegmentsUnfold(before.0, before.1, before.2, path, budget);
    }
    DropSegmentsStops(path, budget, shortened);
  }

  /** The checks and the resolution at the start of `AbbreviateUrl`, and the host text it
      writes first. */
  method ResolveTarget(urlToAbbreviate: Option<Uri>, baseUrl: Option<Uri>, resolve: Resolver)
    returns (r: Result<(string, string)>)
    ensures r == Target(urlToAbbreviate, baseUrl, resolve)
  {
    if urlToAbbreviate.None? {
      return Err(ArgumentNull("urlToAbbreviate"));
    }
    var url: AbsoluteUri;
    if urlToAbbreviate.value.Relative? {
      if baseUrl.None? {
        return Err(NullReference);
      }
      if baseUrl.value.Relative? {
        return Err(Argument(""));
      }
      url := resolve(baseUrl.value.abs, urlToAbbreviate.value.text);
    } else {
      url := urlToAbbreviate.value.abs;
    }
    var urlString := "";
    if baseUrl.None? {
      urlString := url.host;
    } else if baseUrl.value.Relative? {
      return Err(InvalidOperation);
    } else if url.host != baseUrl.value.abs.host {
      urlString := url.host;
    }
    if !url.isDefaultPort {
      urlString := urlString + ":" + NatToString(url.port);
    }
    assert urlString == HostText(url, if baseUrl.None? then None else Some(baseUrl.value.abs.host));
    return Ok((urlString, url.path + url.query));
  }

  /** The end of `AbbreviateUrl`: the query is cut when the text is over the limit. */
  method CutQueryWhenOver(urlString: string, limit: int) returns (r: string)
    ensures r == CutQuery(urlString, limit)
  {
    r := urlString;
    if |urlString| > limit {
      var cutQuery := urlString;
      var pos := IndexOf(cutQuery, '?');
      if pos > -1 {
        r := cutQuery[..pos] + CutQueryText;
      }
    }
  }

  /** `AbbreviateUrl(urlToAbbreviate, baseUrl, maximumLength)`. */
  method AbbreviateUrl(urlToAbbreviate: Option<Uri>, baseUrl: Option<Uri>, maximumLength: int,
                       resolve: Resolver) returns (r: Result<string>)
    ensures r == AbbreviateUrlResult(urlToAbbreviate, baseUrl, maximumLength, resolve)
  {
    var target := ResolveTarget(urlToAbbreviate, baseUrl, resolve);
    if target.Err? {
      return Err(target.error);
    }
    var urlString := AbbreviatePath(target.value.0, target.value.1, maximumLength);
    return Ok(urlString);
  }

  /** The rest of `AbbreviateUrl`, once the host text is written: leading segments of the
      path are dropped to fit, and the query is cut when the text is still too long. */
  method AbbreviatePath(prefix: string, pathAndQuery: string, maximumLength: int) returns (r: string)
    ensures r == AbbreviationAsWritten(prefix, pathAndQuery, maximumLength)
  {
    var path, budget, shortened := DropLeadingSegments(TrimEnd(pathAndQuery, '/'), maximumLength - |prefix|);
    var urlString := prefix + (if shortened then DroppedSegments + path else path);
    r := CutQueryWhenOver(urlString, budget);
  }

  /** `AbbreviateUrl(urlToAbbreviate, baseUrl)`: the default budget of 60. */
  method AbbreviateUrlWithBase(urlToAbbreviate: Option<Uri>, baseUrl: Option<Uri>, resolve: Resolver)
    returns (r: Result<string>)
    ensures r == AbbreviateUrlResult(urlToAbbreviate, baseUrl, DefaultMaximumLength, resolve)
  {
    r := AbbreviateUrl(urlToAbbreviate, baseUrl, DefaultMaximumLength, resolve);
  }

  /** `AbbreviateUrl(urlToAbbreviate)`: no base URL, so the host is always written, and the
      default budget of 60. */
  method AbbreviateAbsoluteUrl(urlToAbbreviate: Option<Uri>, resolve: Resolver) returns (r: Result<string>)
    ensures r == AbbreviateUrlResult(urlToAbbreviate, None, DefaultMaximumLength, resolve)
    ensures (urlToAbbreviate.Some? && urlToAbbreviate.value.Absolute? ==>
      var u := urlToAbbreviate.value.abs;
      r.Ok? && u.host <= r.value)
  {
    r := AbbreviateUrlWithBase(urlToAbbreviate, None, resolve);
    if urlToAbbreviate.Some? && urlToAbbreviate.value.Absolute? {
      var u := urlToAbbreviate.value.abs;
      AsWrittenKeepsPrefix(HostText(u, None), u.path + u.query, DefaultMaximumLength);
    }
  }

  /** As written too, the host text is always kept in front. */
  lemma AsWrittenKeepsPrefix(prefix: string, pathAndQuery: string, maximumLength: int)
    requires '?' !in prefix
    ensures prefix <= AbbreviationAsWritten(prefix, pathAndQuery, maximumLength)
  {
    var (text, budget) := Shortened(prefix, pathAndQuery, maximumLength);
    if |text| > budget && '?' in text {
      var pos := IndexOf(text, '?');
      assert text[..|prefix|] == prefix;
      assert text[..pos][..|prefix|] == prefix;
    }
  }
}
