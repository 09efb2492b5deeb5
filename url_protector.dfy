/** `UrlProtector` (Escc.Web/UrlProtector.cs): signs the query string of an absolute URL
    by adding a parameter that holds a salted hash of the original query, and checks a
    signed URL by recomputing that hash from the other parameters.

    SHA-1 over the UTF-8 bytes of a string is not computed here: it is the `digest`
    function a protector is built with. The Base 64 encoding and the character filter
    applied to the digest are modelled exactly. */
module UrlProtection {
  import opened Wrappers
  import opened Text
  import opened Uris
  import opened QueryStrings
  import opened Base64
  import Iri

  /** The characters the regular expression `[^A-Za-z0-9]` does not remove. */
  predicate IsAlphanumeric(c: char)
  {
    'A' <= c <= 'Z' || 'a' <= c <= 'z' || '0' <= c <= '9'
  }

  /** `Regex.Replace(s, "[^A-Za-z0-9]", String.Empty)`: the letters and digits of `s`, in order. */
  function AlphanumericOnly(s: string): (r: string)
    ensures |r| <= |s|
    ensures forall i :: 0 <= i < |r| ==> IsAlphanumeric(r[i])
    ensures forall c :: c in r <==> c in s && IsAlphanumeric(c)
  {
    if s == [] then []
    else
      var rest := AlphanumericOnly(s[1..]);
      assert forall c :: c in s <==> c == s[0] || c in s[1..];
      if IsAlphanumeric(s[0]) then [s[0]] + rest else rest
  }

  /** A string of letters and digits passes the filter unchanged. */
  lemma {:induction false} AlphanumericOnlyKeepsClean(s: string)
    requires forall i :: 0 <= i < |s| ==> IsAlphanumeric(s[i])
    ensures AlphanumericOnly(s) == s
  {
    if s != [] {
      AlphanumericOnlyKeepsClean(s[1..]);
    }
  }

  /** SHA-1 of the UTF-8 encoding of a string: the hash the protector is built with. Like
      every SHA-1 value, each of its results is 20 bytes long. */
  type Digest = d: string -> seq<byte> | forall s :: |d(s)| == 20
    witness (s: string) => seq(20, i => 0)

  /** `CreateUrlHash`: the salt, the text without its leading `?`s and the salt again,
      hashed, Base 64 encoded, and stripped of every character but letters and digits
      so that nothing in it is changed by URL encoding. */
  function CreateUrlHash(hashThis: string, salt: string, digest: Digest): (r: string)
    ensures forall i :: 0 <= i < |r| ==> IsAlphanumeric(r[i])
    ensures '&' !in r && '=' !in r && '#' !in r && '?' !in r
  {
    AlphanumericOnly(Encode(digest(salt + TrimStart(hashThis, '?') + salt)))
  }

  /** The hash is never empty: the Base 64 text of 20 bytes ends in a group whose third
      character stands for a 6-bit value below 61, always a letter or a digit. */
  lemma HashNonEmpty(hashThis: string, salt: string, digest: Digest)
    ensures CreateUrlHash(hashThis, salt, digest) != []
  {
    var bs := digest(salt + TrimStart(hashThis, '?') + salt);
    var k := (bs[19] % 16) * 4;
    EncodeEndsWithPair(bs);
    EncodeLength(bs);
    var c := Digit(k);
    assert IsAlphanumeric(c);
    assert c in Encode(bs);
  }

  /** Leading `?`s do not change the hash: a query hashes like the same query without its `?`. */
  lemma CreateUrlHashIgnoresMarks(hashThis: string, salt: string, digest: Digest)
    ensures CreateUrlHash(hashThis, salt, digest) == CreateUrlHash(TrimStart(hashThis, '?'), salt, digest)
    ensures CreateUrlHash("?" + hashThis, salt, digest) == CreateUrlHash(hashThis, salt, digest)
  {
    var t := TrimStart(hashThis, '?');
    assert TrimStart(t, '?') == t;
    assert ("?" + hashThis)[1..] == hashThis;
  }

  /** A protector: its salt, the name of the parameter that carries the hash, and the hash function. */
  datatype UrlProtector = UrlProtector(salt: string, hashParameter: string, digest: Digest)

  /** The hash parameter's name when the caller gives none. */
  const DefaultHashParameter: string := "h"

  /** The constructor: a null or empty salt is refused with `ArgumentNullException("salt")`. */
  function NewUrlProtector(salt: Option<string>, hashParameter: string, digest: Digest): (r: Result<UrlProtector>)
    ensures r.Err? <==> salt.None? || salt.value == []
    ensures r.Err? ==> r.error == ArgumentNull("salt")
    ensures r.Ok? ==> r.value.salt == salt.value && r.value.salt != [] && r.value.hashParameter == hashParameter
  {
    if salt.None? || salt.value == [] then Err(ArgumentNull("salt"))
    else Ok(UrlProtector(salt.value, hashParameter, digest))
  }

  /** A name that can be added to a query and read back: not empty, not starting with `?`,
      and without `=`, `&` or `#`. */
  predicate IsParameterName(name: string)
  {
    name != [] && !StartsWithMark(name) && '=' !in name && '&' !in name && '#' !in name
  }

  /** The parsed query of `u` with the hash of `hashed` added under the hash parameter. */
  function SignedQuery(p: UrlProtector, u: AbsoluteUri, hashed: string): QueryMap
  {
    AddPair(Parse(u.query), (p.hashParameter, CreateUrlHash(hashed, p.salt, p.digest)))
  }

  /** Adding a pair to a dictionary adds no character but a `,` that the dictionary and
      the pair do not hold. */
  lemma AddPairAvoids(m: QueryMap, q: (string, string), c: char)
    requires c != ','
    requires forall e :: e in m ==> c !in e.0 && c !in e.1
    requires c !in q.0 && c !in q.1
    ensures forall e :: e in AddPair(m, q) ==> c !in e.0 && c !in e.1
  {
    var k := Find(m, q.0);
    if k >= 0 {
      assert m[k] in m;
      var m' := AddPair(m, q);
      forall e | e in m'
        ensures c !in e.0 && c !in e.1
      {
        var j :| 0 <= j < |m'| && m'[j] == e;
        if j != k {
          assert m[j] in m;
        }
      }
    }
  }

  /** The signed query holds no `#` when the hash parameter's name holds none. */
  lemma SignedQueryHasNoFragment(p: UrlProtector, u: AbsoluteUri, hashed: string)
    requires '#' !in p.hashParameter
    ensures '#' !in "?" + Serialize(SignedQuery(p, u, hashed))
  {
    var hash := CreateUrlHash(hashed, p.salt, p.digest);
    ParseAvoids(u.query, '#');
    AddPairAvoids(Parse(u.query), (p.hashParameter, hash), '#');
    SerializeAvoids(SignedQuery(p, u, hashed), '#');
  }

  /** The URL `ProtectQueryString` builds: `scheme://authority/path?` and the signed query,
      with the hash taken of `hashed`. The fragment of `u` is dropped. */
  function Signed(p: UrlProtector, u: AbsoluteUri, hashed: string): (r: AbsoluteUri)
    ensures Prefix(r) == Prefix(u)
    ensures '#' !in p.hashParameter ==> r.query == "?" + Serialize(SignedQuery(p, u, hashed)) && r.fragment == []
  {
    var rest := "?" + Serialize(SignedQuery(p, u, hashed));
    if '#' in p.hashParameter then WithRest(u, rest)
    else
      SignedQueryHasNoFragment(p, u, hashed);
      WithRest(u, rest)
  }

  /** `ProtectQueryString` as written (Escc.Web/UrlProtector.cs): the hash is taken of the
      query text of the URL, `Uri.Query`. */
  function ProtectQueryStringAsWritten(p: UrlProtector, urlToProtect: Option<Uri>): (r: Result<Uri>)
    ensures urlToProtect.None? ==> r == Err(ArgumentNull("urlToProtect"))
    ensures urlToProtect.Some? && urlToProtect.value.Relative? ==> r == Err(Argument(""))
    ensures urlToProtect.Some? && urlToProtect.value.Absolute? ==>
      r == Ok(Absolute(Signed(p, urlToProtect.value.abs, urlToProtect.value.abs.query)))
  {
    match urlToProtect
    case None => Err(ArgumentNull("urlToProtect"))
    case Some(Relative(_)) => Err(Argument(""))
    case Some(Absolute(u)) => Ok(Absolute(Signed(p, u, u.query)))
  }

  /** `ProtectQueryString` with the hash taken of the query as `CheckProtectedQueryString`
      rebuilds it (`name=value` entries joined with `&`), so that every protected URL passes
      the check. */
  function ProtectQueryString(p: UrlProtector, urlToProtect: Option<Uri>): (r: Result<Uri>)
    ensures urlToProtect.None? ==> r == Err(ArgumentNull("urlToProtect"))
    ensures urlToProtect.Some? && urlToProtect.value.Relative? ==> r == Err(Argument(""))
    ensures urlToProtect.Some? && urlToProtect.value.Absolute? ==>
      var u := urlToProtect.value.abs;
      r == Ok(Absolute(Signed(p, u, Serialize(Parse(u.query)))))
  {
    match urlToProtect
    case None => Err(ArgumentNull("urlToProtect"))
    case Some(Relative(_)) => Err(Argument(""))
    case Some(Absolute(u)) => Ok(Absolute(Signed(p, u, Serialize(Parse(u.query)))))
  }

  /** The hash a signed query should carry: that of every other entry, rebuilt. */
  function ExpectedHash(p: UrlProtector, m: QueryMap): string
  {
    CreateUrlHash(Serialize(Without(m, p.hashParameter)), p.salt, p.digest)
  }

  /** Whether a parsed query passes: it carries a non-empty hash equal to the hash of the
      other entries. */
  predicate Untampered(p: UrlProtector, m: QueryMap)
  {
    var received := Lookup(m, p.hashParameter);
    received.Some? && received.value != [] && ExpectedHash(p, m) == received.value
  }

  /** What `CheckProtectedQueryString` returns: an error for a null or relative URL, and
      otherwise whether its parsed query is untampered. */
  function Verdict(p: UrlProtector, protectedUrl: Option<Uri>): (r: Result<bool>)
    ensures protectedUrl.None? <==> r == Err(ArgumentNull("protectedUrl"))
    ensures protectedUrl.Some? && protectedUrl.value.Relative? <==> r == Err(Argument("protectedUrl"))
    ensures r == Ok(true) <==>
      protectedUrl.Some? && protectedUrl.value.Absolute? && Untampered(p, Parse(protectedUrl.value.abs.query))
  {
    match protectedUrl
    case None => Err(ArgumentNull("protectedUrl"))
    case Some(Relative(_)) => Err(Argument("protectedUrl"))
    case Some(Absolute(u)) => Ok(Untampered(p, Parse(u.query)))
  }

  /** A query with a new entry at the end is untampered exactly when that entry is a
      non-empty hash of the entries before it. */
  lemma UntamperedSnoc(p: UrlProtector, m: QueryMap, hash: string)
    requires p.hashParameter !in Names(m)
    ensures Untampered(p, m + [(p.hashParameter, hash)]) <==>
      hash != [] && CreateUrlHash(Serialize(m), p.salt, p.digest) == hash
  {
    var entry := (p.hashParameter, hash);
    LookupLast(m, entry);
    WithoutLast(m, entry);
    WithoutAbsent(m, p.hashParameter);
  }

  /** `CheckProtectedQueryString` (Escc.Web/UrlProtector.cs): rebuilds the query without
      the hash parameter and compares its hash with the one received. */
  method CheckProtectedQueryString(p: UrlProtector, protectedUrl: Option<Uri>) returns (r: Result<bool>)
    ensures r == Verdict(p, protectedUrl)
  {
    if protectedUrl.None? {
      return Err(ArgumentNull("protectedUrl"));
    }
    if !protectedUrl.value.IsAbsoluteUri() {
      return Err(Argument("protectedUrl"));
    }
    var queryString := Parse(protectedUrl.value.abs.query);
    var hash := Lookup(queryString, p.hashParameter);
    if hash.None? || hash.value == [] {
      return Ok(false);
    }
    var protectedQueryString := SerializeWithout(queryString, p.hashParameter);
    var expectedHash := CreateUrlHash(protectedQueryString, p.salt, p.digest);
    var receivedHash := hash.value;
    return Ok(expectedHash == receivedHash);
  }

  // ----- Protecting and checking -------------------------------------------------------

  /** The signed query reads back as the parsed query with the hash entry at the end. */
  lemma SignedQueryParses(p: UrlProtector, u: AbsoluteUri, hashed: string)
    requires IsParameterName(p.hashParameter)
    requires p.hashParameter !in Names(Parse(u.query))
    requires Parse(u.query) == [] || !StartsWithMark(Parse(u.query)[0].0)
    ensures SignedQuery(p, u, hashed) == Parse(u.query) + [(p.hashParameter, CreateUrlHash(hashed, p.salt, p.digest))]
    ensures Parse(Signed(p, u, hashed).query) == SignedQuery(p, u, hashed)
  {
    var m := Parse(u.query);
    var entry := (p.hashParameter, CreateUrlHash(hashed, p.salt, p.digest));
    assert SignedQuery(p, u, hashed) == m + [entry];
    ParsedCanonical(u.query);
    ParseSerializeSnoc(m, entry);
  }

  /** A URL whose parsed query is `m` followed by the hash entry holding `hash` passes
      exactly when `hash` is non-empty and is the hash of `m` rebuilt. */
  lemma VerdictOfSigned(p: UrlProtector, v: AbsoluteUri, m: QueryMap, hash: string)
    requires p.hashParameter !in Names(m)
    requires Parse(v.query) == m + [(p.hashParameter, hash)]
    ensures Verdict(p, Some(Absolute(v))) ==
      Ok(hash != [] && CreateUrlHash(Serialize(m), p.salt, p.digest) == hash)
  {
    UntamperedSnoc(p, m, hash);
  }

  /** Round trip: the URL that `ProtectQueryString` builds passes `CheckProtectedQueryString`,
      for any query that does not already use the hash parameter. */
  lemma ProtectThenCheck(p: UrlProtector, u: AbsoluteUri)
    requires IsParameterName(p.hashParameter)
    requires p.hashParameter !in Names(Parse(u.query))
    requires Parse(u.query) == [] || !StartsWithMark(Parse(u.query)[0].0)
    ensures Verdict(p, Some(Absolute(Signed(p, u, Serialize(Parse(u.query)))))) == Ok(true)
  {
    HashNonEmpty(Serialize(Parse(u.query)), p.salt, p.digest);
    var hashed := Serialize(Parse(u.query));
    SignedQueryParses(p, u, hashed);
    VerdictOfSigned(p, Signed(p, u, hashed), Parse(u.query), CreateUrlHash(hashed, p.salt, p.digest));
  }

  /** As written, the round trip holds when the query text is exactly what the check
      rebuilds from it. */
  lemma ProtectAsWrittenThenCheck(p: UrlProtector, u: AbsoluteUri)
    requires IsParameterName(p.hashParameter)
    requires p.hashParameter !in Names(Parse(u.query))
    requires Parse(u.query) == [] || !StartsWithMark(Parse(u.query)[0].0)
    ensures Verdict(p, Some(Absolute(Signed(p, u, u.query)))) ==
      Ok(CreateUrlHash(Serialize(Parse(u.query)), p.salt, p.digest) == CreateUrlHash(u.query, p.salt, p.digest))
    ensures Serialize(Parse(u.query)) == TrimStart(u.query, '?') ==>
      Verdict(p, Some(Absolute(Signed(p, u, u.query)))) == Ok(true)
  {
    HashNonEmpty(u.query, p.salt, p.digest);
    SignedQueryParses(p, u, u.query);
    VerdictOfSigned(p, Signed(p, u, u.query), Parse(u.query), CreateUrlHash(u.query, p.salt, p.digest));
    CreateUrlHashIgnoresMarks(u.query, p.salt, p.digest);
  }

  /** Text appended to a URL whose query is a canonical dictionary followed by one more
      entry joins the value of that entry. */
  lemma AppendedTextParses(v: AbsoluteUri, m: QueryMap, entry: (string, string), t: string)
    requires IsParameterName(entry.0) && '&' !in entry.1
    requires Canonical(m) && entry.0 !in Names(m)
    requires v.query == "?" + Serialize(m + [entry])
    requires '&' !in t && '#' !in t
    ensures v.query + t != [] && (v.query + t)[0] == '?'
    ensures Parse(WithRest(v, v.query + t).query) == m + [(entry.0, entry.1 + t)]
  {
    ParseSerializeSnocExtended(m, entry, t);
  }

  /** Text appended to a URL whose query is a canonical dictionary followed by its hash
      entry lengthens the received hash, which then no longer matches. */
  lemma AppendedTextFails(p: UrlProtector, v: AbsoluteUri, m: QueryMap, t: string)
    requires IsParameterName(p.hashParameter)
    requires Canonical(m) && p.hashParameter !in Names(m)
    requires v.query == "?" + Serialize(m + [(p.hashParameter, CreateUrlHash(Serialize(m), p.salt, p.digest))])
    requires t != [] && '&' !in t && '#' !in t
    ensures Verdict(p, Some(Absolute(WithRest(v, v.query + t)))) == Ok(false)
  {
    AppendedHashFails(p, v, m, CreateUrlHash(Serialize(m), p.salt, p.digest), t);
  }

  /** The same, for a hash held in a variable. */
  lemma AppendedHashFails(p: UrlProtector, v: AbsoluteUri, m: QueryMap, hash: string, t: string)
    requires IsParameterName(p.hashParameter) && '&' !in hash
    requires Canonical(m) && p.hashParameter !in Names(m)
    requires v.query == "?" + Serialize(m + [(p.hashParameter, hash)])
    requires t != [] && '&' !in t && '#' !in t
    requires CreateUrlHash(Serialize(m), p.salt, p.digest) == hash
    ensures Verdict(p, Some(Absolute(WithRest(v, v.query + t)))) == Ok(false)
  {
    AppendedTextParses(v, m, (p.hashParameter, hash), t);
    LongerHashFails(p, WithRest(v, v.query + t), m, hash, t);
  }

  /** A URL whose hash entry holds the expected hash with text appended fails the check. */
  lemma LongerHashFails(p: UrlProtector, w: AbsoluteUri, m: QueryMap, hash: string, t: string)
    requires p.hashParameter !in Names(m)
    requires Parse(w.query) == m + [(p.hashParameter, hash + t)]
    requires CreateUrlHash(Serialize(m), p.salt, p.digest) == hash
    requires t != []
    ensures Verdict(p, Some(Absolute(w))) == Ok(false)
  {
    assert hash != hash + t by {
      assert |hash + t| > |hash|;
    }
    VerdictOfSigned(p, w, m, hash + t);
  }

  /** Text appended to a protected URL (whose last entry is the hash) makes the check
      fail: the hash received is no longer the hash expected. */
  lemma TamperedFails(p: UrlProtector, u: AbsoluteUri, t: string)
    requires IsParameterName(p.hashParameter)
    requires p.hashParameter !in Names(Parse(u.query))
    requires Parse(u.query) == [] || !StartsWithMark(Parse(u.query)[0].0)
    requires t != [] && '&' !in t && '#' !in t
    ensures var v := Signed(p, u, Serialize(Parse(u.query)));
      && v.query != [] && v.query[0] == '?'
      && Verdict(p, Some(Absolute(WithRest(v, v.query + t)))) == Ok(false)
  {
    var m := Parse(u.query);
    SignedQueryParses(p, u, Serialize(m));
    SignedQueryHasNoFragment(p, u, Serialize(m));
    ParsedCanonical(u.query);
    AppendedTextFails(p, Signed(p, u, Serialize(m)), m, t);
  }

  /** A query that gives one name two values, `?n=v1&n=v2`, parses to the single entry
      `n` = `v1,v2`. */
  lemma ParseRepeatedName(n: string, v1: string, v2: string)
    requires IsParameterName(n) && '&' !in v1 && '&' !in v2
    ensures Parse("?" + Entry((n, v1)) + "&" + Entry((n, v2))) == [(n, v1 + "," + v2)]
  {
    var query := "?" + Entry((n, v1));
    var e2 := Entry((n, v2));
    assert Parse(ReadyForParameter(query) + e2) == AddPair([(n, v1)], (n, v2)) by {
      ParseSingleEntry(n, v1);
      ParseAppended(query, n, v2);
    }
    assert AddPair([(n, v1)], (n, v2)) == [(n, v1 + "," + v2)] by {
      assert Find([(n, v1)], n) == 0;
    }
    assert ReadyForParameter(query) == query + "&";
  }

  /** `?n=v` parses to the single entry `n` = `v`. */
  lemma ParseSingleEntry(n: string, v: string)
    requires IsParameterName(n) && '&' !in v
    ensures Parse("?" + Entry((n, v))) == [(n, v)]
  {
    assert Serialize([(n, v)]) == Entry((n, v));
    ParseSerializeSnoc([], (n, v));
    assert [] + [(n, v)] == [(n, v)];
  }

  /** A parameter added after `?n=v1&n=v2`: the text gains `&` and the entry, the parse
      holds the comma-joined `n` and then the entry, and the check rebuilds the two with
      `&` between them. */
  lemma AddedAfterRepeatedName(u: AbsoluteUri, n: string, v1: string, v2: string, name: string, value: string)
    requires IsParameterName(n) && '&' !in v1 && '&' !in v2 && '#' !in v1 && '#' !in v2
    requires u.query == "?" + Entry((n, v1)) + "&" + Entry((n, v2))
    requires IsParameterName(name) && name != n && '&' !in value && '#' !in value
    ensures var v := Iri.AddParameter(u, name, value);
      && v.query == u.query + "&" + Entry((name, value))
      && Parse(v.query) == [(n, v1 + "," + v2), (name, value)]
      && Names(Parse(v.query)) == [n, name]
      && Serialize(Parse(v.query)) == Entry((n, v1 + "," + v2)) + "&" + Entry((name, value))
  {
    var joined := (n, v1 + "," + v2);
    assert |u.query| > 1;
    ParseRepeatedName(n, v1, v2);
    assert Names([joined]) == [n];
    Iri.AddParameterParses(u, name, value);
    TwoEntries(joined, (name, value));
  }

  /** Two entries are written with `&` between them. */
  lemma TwoEntries(a: (string, string), b: (string, string))
    ensures Names([a, b]) == [a.0, b.0]
    ensures Serialize([a, b]) == Entry(a) + "&" + Entry(b)
  {
    SerializeSnoc([a], b);
    assert Serialize([a]) == Entry(a);
    assert [a] + [b] == [a, b];
  }

  /** As written, a protected URL whose query gives a name two values, `?n=v1&n=v2`, fails
      its own check: the hash is taken of `n=v1&n=v2` but the check rebuilds `n=v1,v2`.
      The hashes of the two texts are taken to differ, as SHA-1 hashes of different
      inputs do (the hash of a query ignores its leading `?`). */
  lemma RepeatedNameFailsAsWritten(p: UrlProtector, u: AbsoluteUri, n: string, v1: string, v2: string)
    requires IsParameterName(n) && '&' !in v1 && '&' !in v2
    requires u.query == "?" + Entry((n, v1)) + "&" + Entry((n, v2))
    requires IsParameterName(p.hashParameter) && p.hashParameter != n
    requires CreateUrlHash(Entry((n, v1 + "," + v2)), p.salt, p.digest) != CreateUrlHash(u.query, p.salt, p.digest)
    ensures Verdict(p, Some(Absolute(Signed(p, u, u.query)))) == Ok(false)
  {
    assert Parse(u.query) == [(n, v1 + "," + v2)] && Names(Parse(u.query)) == [n] by {
      ParseRepeatedName(n, v1, v2);
    }
    assert Serialize(Parse(u.query)) == Entry((n, v1 + "," + v2));
    ProtectAsWrittenThenCheck(p, u);
  }

  /** The corrected protection of the same URL passes the check. */
  lemma RepeatedNamePasses(p: UrlProtector, u: AbsoluteUri, n: string, v1: string, v2: string)
    requires IsParameterName(n) && '&' !in v1 && '&' !in v2
    requires u.query == "?" + Entry((n, v1)) + "&" + Entry((n, v2))
    requires IsParameterName(p.hashParameter) && p.hashParameter != n
    ensures Verdict(p, Some(Absolute(Signed(p, u, Serialize(Parse(u.query)))))) == Ok(true)
  {
    assert Parse(u.query) == [(n, v1 + "," + v2)] && Names(Parse(u.query)) == [n] by {
      ParseRepeatedName(n, v1, v2);
    }
    assert Serialize(Parse(u.query)) == Entry((n, v1 + "," + v2));
    ProtectThenCheck(p, u);
  }

  /** A URL whose query carries no hash parameter, or an empty one, fails the check. */
  lemma MissingHashFails(p: UrlProtector, u: AbsoluteUri)
    requires Lookup(Parse(u.query), p.hashParameter) in {None, Some("")}
    ensures Verdict(p, Some(Absolute(u))) == Ok(false)
  {
  }
}
