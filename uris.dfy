/** `System.Uri`, reduced to the components the library reads from it. An
    absolute URI is kept already split into its parts (scheme, host, port,
    path, query, fragment); a relative one is kept as its original text. */
module Uris {
  import opened Text

  /** The components of an absolute URI as `System.Uri` exposes them:
      `Scheme`, `Host`, `Port`, `IsDefaultPort`, `AbsolutePath`, `Query`
      (empty or starting with `?`) and `Fragment` (empty or starting with `#`). */
  datatype UriParts = UriParts(
    scheme: string,
    host: string,
    port: nat,
    isDefaultPort: bool,
    path: string,
    query: string,
    fragment: string)
  {
    /** What `System.Uri` guarantees of the parts of a parsed absolute URI. */
    predicate WellFormed()
    {
      && '?' !in scheme && '#' !in scheme && '/' !in scheme
      && '?' !in host && '#' !in host && '/' !in host
      && |path| > 0 && path[0] == '/' && '?' !in path && '#' !in path
      && (query == [] || query[0] == '?') && '#' !in query
      && (fragment == [] || fragment[0] == '#')
    }
  }

  /** An absolute URI, as `System.Uri` with `IsAbsoluteUri` true. */
  type AbsoluteUri = u: UriParts | u.WellFormed()
    witness UriParts("http", "localhost", 80, true, "/", "", "")

  /** A `System.Uri`: absolute, or relative and known only by its text. */
  datatype Uri = Absolute(abs: AbsoluteUri) | Relative(text: string)
  {
    predicate IsAbsoluteUri()
    {
      Absolute?
    }
  }

  /** `Uri.Authority`: the host, then `:port` when the port is not the scheme's default. */
  function Authority(u: AbsoluteUri): string
  {
    u.host + (if u.isDefaultPort then "" else ":" + NatToString(u.port))
  }

  /** Everything before the query: `scheme://authority/path`. */
  function Prefix(u: AbsoluteUri): (s: string)
    ensures '?' !in s && '#' !in s
  {
    var s := u.scheme + "://" + Authority(u) + u.path;
    assert forall c :: c in NatToString(u.port) ==> '0' <= c <= '9';
    s
  }

  /** `Uri.ToString()` of an absolute URI. */
  function AbsoluteToString(u: AbsoluteUri): string
  {
    Prefix(u) + u.query + u.fragment
  }

  /** `Uri.ToString()`: the text of a relative URI, the assembled parts of an absolute one. */
  function ToString(url: Uri): string
  {
    match url
    case Absolute(u) => AbsoluteToString(u)
    case Relative(t) => t
  }

  /** `new Uri(Prefix(u) + rest, UriKind.Absolute)` for a `rest` that is empty or starts
      the query or the fragment: the query runs up to the first `#`, and what follows
      is the fragment. */
  function WithRest(u: AbsoluteUri, rest: string): (r: AbsoluteUri)
    requires rest == [] || rest[0] == '?' || rest[0] == '#'
    ensures Prefix(r) == Prefix(u)
    ensures r.scheme == u.scheme && r.host == u.host && r.port == u.port
    ensures r.isDefaultPort == u.isDefaultPort && r.path == u.path
    ensures r.query + r.fragment == rest
    ensures '#' !in rest ==> r.query == rest && r.fragment == []
    ensures rest == [] || rest[0] == '#' ==> r.query == [] && r.fragment == rest
  {
    var k := IndexOf(rest, '#');
    if k == -1 then u.(query := rest, fragment := [])
    else
      assert rest == rest[..k] + rest[k..];
      u.(query := rest[..k], fragment := rest[k..])
  }
}
