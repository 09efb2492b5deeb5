/** The static URL helpers of `Iri` (Escc.Web/Iri.cs; the legacy Iri.cs holds the same
    code for these four): splitting a query string into an ordered dictionary, removing
    one parameter, preparing a URL for one more parameter, and listing the folders of
    a path. */
module Iri {
  import opened Wrappers
  import opened Text
  import opened Uris
  import opened QueryStrings

  // ----- SplitQueryString --------------------------------------------------------------

  /** `SplitQueryString(queryString)`: every leading `?` trimmed, the rest split at `&`,
      each segment split at its first `=`, nameless or `=`-less segments dropped and a
      repeated name's values joined with commas under its first position. */
  method SplitQueryString(queryString: Option<string>) returns (dictionary: QueryMap)
    ensures queryString.None? ==> dictionary == []
    ensures queryString.Some? ==> dictionary == Parse(queryString.value)
    ensures queryString.Some? && TrimStart(queryString.value, '?') == [] ==> dictionary == []
  {
    dictionary := [];
    if queryString.Some? {
      var trimmed := TrimStart(queryString.value, '?');
      if trimmed != "" {
        var pairs := Split(trimmed, '&');
        dictionary := AddSegments(pairs);
      }
    }
  }

  /** The loop of `SplitQueryString` over the `&`-separated segments: a segment with a
      name and `=` adds its value under that name, comma-joined to an earlier one. */
  method AddSegments(pairs: seq<string>) returns (dictionary: QueryMap)
    ensures dictionary == Group(Pairs(pairs))
  {
    dictionary := [];
    for i := 0 to |pairs|
      invariant dictionary == Group(Pairs(pairs[..i]))
    {
      var nameValue := SplitPair(pairs[i]);
      PairsSnoc(pairs, i);
      if nameValue.Some? {
        var name := nameValue.value.0;
        var value := nameValue.value.1;
        GroupSnoc(Pairs(pairs[..i]), (name, value));
        var k := Find(dictionary, name);
        if k >= 0 {
          dictionary := dictionary[k := (name, dictionary[k].1 + "," + value)];
        } else {
          dictionary := dictionary + [(name, value)];
        }
      }
    }
    assert pairs[..|pairs|] == pairs;
  }

  // ----- PrepareUrlForNewQueryStringParameter ------------------------------------------

  /** `s` up to its first `#`. */
  function CutAtFragment(s: string): (r: string)
    ensures '#' !in r && |r| <= |s| && r == s[..|r|]
    ensures '#' !in s ==> r == s
  {
    var k := IndexOf(s, '#');
    if k == -1 then s else s[..k]
  }

  /** The query a relative URL's own text carries: from its first `?` up to the next `#`. */
  function RelativeQuery(text: string): (q: string)
    ensures q == [] || q[0] == '?'
    ensures '#' !in q
    ensures '?' !in text ==> q == []
  {
    var pos := IndexOf(text, '?');
    if pos == -1 then [] else CutAtFragment(text[pos..])
  }

  /** The path of a relative URL: its text up to the first `?`, or when it has none, up
      to the first `#`, or all of it. */
  function RelativePath(text: string): (p: string)
    ensures |p| <= |text| && p == text[..|p|]
    ensures '?' !in p
    ensures '?' !in text ==> '#' !in p
    ensures '?' !in text && '#' !in text ==> p == text
  {
    var pos := IndexOf(text, '?');
    if pos > -1 then text[..pos] else CutAtFragment(text)
  }

  /** `PrepareUrlForNewQueryStringParameter` as the code is written: a relative URL with
      neither `?` nor `#` keeps nothing of its text, because the path starts empty and is
      only set on the `?` and `#` branches. */
  function PrepareUrlForNewQueryStringParameterAsWritten(urlToPrepare: Option<Uri>): (r: Result<string>)
    ensures urlToPrepare.None? <==> r == Err(ArgumentNull("urlToPrepare"))
    ensures urlToPrepare.Some? && urlToPrepare.value.Absolute? ==>
      var u := urlToPrepare.value.abs;
      r == Ok(Prefix(u) + ReadyForParameter(u.query))
    ensures urlToPrepare.Some? && urlToPrepare.value.Relative? ==>
      var t := urlToPrepare.value.text;
      r == Ok((if '?' in t || '#' in t then RelativePath(t) else []) + ReadyForParameter(RelativeQuery(t)))
  {
    match urlToPrepare
    case None => Err(ArgumentNull("urlToPrepare"))
    case Some(Absolute(u)) => Ok(Prefix(u) + ReadyForParameter(u.query))
    case Some(Relative(t)) =>
      var pos := IndexOf(t, '?');
      var path :=
        if pos > -1 then t[..pos]
        else
          var f := IndexOf(t, '#');
          if f > -1 then t[..f] else [];
      assert path == if '?' in t || '#' in t then RelativePath(t) else [];
      Ok(path + ReadyForParameter(RelativeQuery(t)))
  }

  /** `PrepareUrlForNewQueryStringParameter(urlToPrepare)` as evidently intended: the URL
      without its query's end and without its fragment, followed by `?` when there is no
      query (or only `?`) and by `&` after an existing one, so that `name=value` can be
      appended after every existing parameter. A relative URL keeps its path. */
  function PrepareUrlForNewQueryStringParameter(urlToPrepare: Option<Uri>): (r: Result<string>)
    ensures urlToPrepare.None? <==> r == Err(ArgumentNull("urlToPrepare"))
    ensures r.Ok? && (urlToPrepare.value.Absolute? || '?' !in urlToPrepare.value.text) ==>
      '#' !in r.value
    ensures r.Ok? ==> |r.value| > 0 && (r.value[|r.value| - 1] == '?' || r.value[|r.value| - 1] == '&')
    ensures urlToPrepare.Some? && urlToPrepare.value.Absolute? ==>
      var u := urlToPrepare.value.abs;
      r == Ok(Prefix(u) + ReadyForParameter(u.query))
    ensures urlToPrepare.Some? && urlToPrepare.value.Relative? ==>
      var t := urlToPrepare.value.text;
      r == Ok(RelativePath(t) + ReadyForParameter(RelativeQuery(t)))
  {
    match urlToPrepare
    case None => Err(ArgumentNull("urlToPrepare"))
    case Some(Absolute(u)) => Ok(Prefix(u) + ReadyForParameter(u.query))
    case Some(Relative(t)) => Ok(RelativePath(t) + ReadyForParameter(RelativeQuery(t)))
  }

  /** The two versions agree on every URL but a relative one with neither `?` nor `#`. */
  lemma PrepareUrlVersionsAgree(urlToPrepare: Option<Uri>)
    requires urlToPrepare.Some? && urlToPrepare.value.Relative? ==>
      '?' in urlToPrepare.value.text || '#' in urlToPrepare.value.text
    ensures PrepareUrlForNewQueryStringParameterAsWritten(urlToPrepare)
      == PrepareUrlForNewQueryStringParameter(urlToPrepare)
  {
  }

  /** As written, the relative URL `/a/b` is prepared as `?`, which loses the path; the
      intended result is `/a/b?`. */
  lemma PrepareUrlAsWrittenLosesRelativePath()
    ensures PrepareUrlForNewQueryStringParameterAsWritten(Some(Relative("/a/b"))) == Ok("?")
    ensures PrepareUrlForNewQueryStringParameter(Some(Relative("/a/b"))) == Ok("/a/b?")
  {
    var t := "/a/b";
    assert forall i :: 0 <= i < |t| ==> t[i] != '?' && t[i] != '#';
    assert '?' !in t && '#' !in t;
    PrepareUrlKeepsRelativePath(t);
    assert PrepareUrlForNewQueryStringParameterAsWritten(Some(Relative(t))) == Ok([] + ReadyForParameter([]));
    assert [] + ReadyForParameter([]) == "?";
    assert t + "?" == "/a/b?";
  }

  /** A relative URL with neither `?` nor `#` keeps its whole text before the `?` it gets. */
  lemma {:induction false} PrepareUrlKeepsRelativePath(text: string)
    requires '?' !in text && '#' !in text
    ensures PrepareUrlForNewQueryStringParameter(Some(Relative(text))) == Ok(text + "?")
  {
    assert RelativeQuery(text) == [];
  }

  /** `new Uri(PrepareUrlForNewQueryStringParameter(u) + name + "=" + value)` for an
      absolute `u`: the URL with `name=value` after every existing parameter. */
  function AddParameter(u: AbsoluteUri, name: string, value: string): (r: AbsoluteUri)
    ensures Prefix(r) == Prefix(u)
    ensures r.scheme == u.scheme && r.host == u.host && r.port == u.port
    ensures r.isDefaultPort == u.isDefaultPort && r.path == u.path
    ensures '#' !in name && '#' !in value ==>
      r.query == ReadyForParameter(u.query) + Entry((name, value)) && r.fragment == []
  {
    var rest := ReadyForParameter(u.query) + Entry((name, value));
    assert '#' !in name && '#' !in value ==> '#' !in rest;
    WithRest(u, rest)
  }

  /** The parameter added by `AddParameter` comes after every existing one in the parsed
      query, and a name already present gets the new value comma-joined to its old one. */
  lemma AddParameterParses(u: AbsoluteUri, name: string, value: string)
    requires name != [] && name[0] != '?' && '=' !in name && '&' !in name && '&' !in value
    requires '#' !in name && '#' !in value
    ensures Parse(AddParameter(u, name, value).query) == AddPair(Parse(u.query), (name, value))
  {
    ParseAppended(u.query, name, value);
  }

  /** A query written as it is rebuilt stays so when a new parameter is added, provided it
      holds a parameter already or is empty or `?` alone. */
  lemma AddParameterRebuilt(u: AbsoluteUri, name: string, value: string)
    requires name != [] && name[0] != '?' && '=' !in name && '&' !in name && '&' !in value
    requires '#' !in name && '#' !in value
    requires name !in Names(Parse(u.query))
    requires WrittenAsRebuilt(u.query)
    requires Parse(u.query) != [] || u.query == [] || u.query == "?"
    ensures WrittenAsRebuilt(AddParameter(u, name, value).query)
  {
    AppendedRebuilt(u.query, name, value);
  }

  // ----- RemoveQueryStringParameter ---------------------------------------------------

  /** The query of a relative URL once `MakeAbsolute` has resolved it: the URL's own query,
      unless its text has a `#` before the `?` or nothing after the `?`. */
  function ResolvedRelativeQuery(text: string): (q: string)
    ensures q == [] || q[0] == '?'
    ensures '#' !in q
    ensures q != [] ==> '?' in text
  {
    var pos := IndexOf(text, '?');
    if pos == -1 || pos == |text| - 1 || '#' in text[..pos] then [] else CutAtFragment(text[pos..])
  }

  /** The `Query` that `RemoveQueryStringParameter` reads from its URL. */
  function QueryOf(url: Uri): (q: string)
    ensures q == [] || q[0] == '?'
    ensures '#' !in q
  {
    match url
    case Absolute(u) => u.query
    case Relative(t) => ResolvedRelativeQuery(t)
  }

  /** The rebuilt query: every parsed parameter except `name`, written `name=value` and
      joined with `&`. It never holds `#` when the query does not. */
  function QueryWithout(query: string, name: string): (s: string)
    ensures '#' !in query ==> '#' !in s
  {
    var m := Without(Parse(query), name);
    if '#' in query then Serialize(m)
    else
      ParseAvoids(query, '#');
      SerializeAvoids(m, '#');
      Serialize(m)
  }

  /** The text of a relative URL from the `#` that follows its `?`, if any. */
  function FragmentAfterQuery(text: string): (f: string)
    ensures f == [] || f[0] == '#'
  {
    var pos := IndexOf(text, '?');
    var fragmentPos := IndexOf(text, '#');
    if pos > -1 && fragmentPos > pos then text[fragmentPos..] else []
  }

  /** The URL with parameter `name` removed: an absolute URL keeps its scheme, authority,
      path and fragment and gets the rebuilt query (none at all when nothing is left); a
      relative one keeps its text before the `?` and the fragment that followed it. */
  function RemovedParameter(url: Uri, name: string): (r: Uri)
    ensures url.Absolute? ==> r.Absolute? && Prefix(r.abs) == Prefix(url.abs) && r.abs.fragment == url.abs.fragment
    ensures url.Absolute? ==> r.abs.query == QueryText(QueryWithout(url.abs.query, name))
    ensures url.Relative? ==> (r.Relative? &&
      r.text == BeforeQuery(url.text) + QueryText(QueryWithout(ResolvedRelativeQuery(url.text), name))
        + FragmentAfterQuery(url.text))
  {
    match url
    case Absolute(u) => Absolute(u.(query := QueryText(QueryWithout(u.query, name))))
    case Relative(t) =>
      Relative(BeforeQuery(t) + QueryText(QueryWithout(ResolvedRelativeQuery(t), name)) + FragmentAfterQuery(t))
  }

  /** A rebuilt query as it goes back into a URL: after a `?`, or not at all when empty. */
  function QueryText(rebuilt: string): (q: string)
    ensures q == [] <==> rebuilt == []
    ensures q != [] ==> q[0] == '?' && q[1..] == rebuilt
    ensures '#' !in rebuilt ==> '#' !in q
  {
    if rebuilt == [] then [] else "?" + rebuilt
  }

  /** The text of a relative URL before its first `?`. */
  function BeforeQuery(text: string): (p: string)
    ensures '?' !in p && |p| <= |text| && p == text[..|p|]
  {
    var pos := IndexOf(text, '?');
    if pos == -1 then text else text[..pos]
  }

  /** The string surgery of `RemoveQueryStringParameter`: the URL text cut at its first `?`,
      then the rebuilt query, then the fragment when a `#` follows the `?`. */
  function Reassemble(url: string, rebuilt: string): string
  {
    var pos := IndexOf(url, '?');
    var fragmentPos := IndexOf(url, '#');
    var fragment := if pos > -1 && fragmentPos > -1 && fragmentPos > pos then url[fragmentPos..] else [];
    var before := if pos > -1 then url[..pos] else url;
    before + QueryText(rebuilt) + fragment
  }

  /** `RemoveQueryStringParameter(urlToEdit, parameterName)`: null arguments throw; a URL
      without a query comes back unchanged; otherwise the query is rebuilt from the
      parsed parameters without `parameterName`, the URL is cut at its first `?` and the
      rebuilt query and any fragment after the `?` are appended again. */
  method RemoveQueryStringParameter(urlToEdit: Option<Uri>, parameterName: Option<string>)
    returns (r: Result<Uri>)
    ensures urlToEdit.None? ==> r == Err(ArgumentNull("urlToEdit"))
    ensures urlToEdit.Some? && parameterName.None? ==> r == Err(ArgumentNull("parameterName"))
    ensures urlToEdit.Some? && parameterName.Some? && QueryOf(urlToEdit.value) == [] ==>
      r == Ok(urlToEdit.value)
    ensures urlToEdit.Some? && parameterName.Some? && QueryOf(urlToEdit.value) != [] ==>
      r == Ok(RemovedParameter(urlToEdit.value, parameterName.value))
  {
    if urlToEdit.None? {
      return Err(ArgumentNull("urlToEdit"));
    }
    if parameterName.None? {
      return Err(ArgumentNull("parameterName"));
    }
    var url := urlToEdit.value;
    var name := parameterName.value;
    var query := QueryOf(url);
    if query == [] {
      return Ok(url);
    }
    var originalQuery := SplitQueryString(Some(query));
    var updatedQueryString := SerializeWithout(originalQuery, name);
    var updatedUrl := Reassemble(ToString(url), updatedQueryString);
    assert updatedQueryString == QueryWithout(query, name);
    match url
    case Absolute(u) =>
      ReassembleAbsolute(u, updatedQueryString);
      var rest := QueryText(updatedQueryString) + u.fragment;
      assert updatedUrl == Prefix(u) + rest;
      RemovedFromAbsolute(u, name);
      r := Ok(Absolute(WithRest(u, rest)));
    case Relative(t) =>
      r := Ok(Relative(updatedUrl));
  }

  /** Re-reading the reassembled absolute URL gives `RemovedParameter`. */
  lemma RemovedFromAbsolute(u: AbsoluteUri, name: string)
    ensures Absolute(WithRest(u, QueryText(QueryWithout(u.query, name)) + u.fragment))
      == RemovedParameter(Absolute(u), name)
  {
    WithQueryOnly(u, QueryText(QueryWithout(u.query, name)));
  }

  /** On an absolute URL with a query, the surgery keeps everything before the query and
      the fragment, and puts the rebuilt query between them. */
  lemma ReassembleAbsolute(u: AbsoluteUri, rebuilt: string)
    requires u.query != []
    ensures Reassemble(AbsoluteToString(u), rebuilt) == Prefix(u) + (QueryText(rebuilt) + u.fragment)
  {
    ReassembleParts(Prefix(u), u.query, u.fragment, rebuilt);
  }

  /** The surgery on a text made of a part without `?` or `#`, a query and a fragment. */
  lemma ReassembleParts(p: string, q: string, f: string, rebuilt: string)
    requires '?' !in p && '#' !in p
    requires q != [] && q[0] == '?' && '#' !in q
    requires f == [] || f[0] == '#'
    ensures Reassemble(p + q + f, rebuilt) == p + (QueryText(rebuilt) + f)
  {
    var s := p + q + f;
    assert IndexOf(s, '?') == |p| by {
      IndexOfBefore(p + q, f, '?');
      IndexOfAfter(p, q, '?');
    }
    assert s[..|p|] == p;
    assert '#' !in p + q;
    IndexOfAfter(p + q, f, '#');
    if f != [] {
      assert s[|p + q|..] == f;
    }
    ReassembleAt(s, rebuilt, |p|, IndexOf(s, '#'), p, f);
  }

  /** The surgery, once the first `?`, the first `#` and the pieces around them are known. */
  lemma ReassembleAt(url: string, rebuilt: string, pos: int, fragmentPos: int, before: string, fragment: string)
    requires pos == IndexOf(url, '?') && pos > -1 && before == url[..pos]
    requires fragmentPos == IndexOf(url, '#')
    requires fragment == if fragmentPos > pos then url[fragmentPos..] else []
    ensures Reassemble(url, rebuilt) == before + (QueryText(rebuilt) + fragment)
  {
  }

  /** Re-reading a new query followed by the old fragment changes only the query. */
  lemma WithQueryOnly(u: AbsoluteUri, q: string)
    requires q == [] || q[0] == '?'
    requires '#' !in q
    ensures WithRest(u, q + u.fragment) == u.(query := q)
  {
    var rest := q + u.fragment;
    if u.fragment != [] {
      assert rest[|q|] == '#';
      assert rest[..|q|] == q;
      assert IndexOf(rest, '#') == |q|;
      assert rest[|q|..] == u.fragment;
    } else {
      assert rest == q;
    }
  }


  /** After removal the parsed query is the old one without `name`, every other
      parameter in its old order, when the first parameter left does not start with `?`. */
  lemma RemovedParameterParses(u: AbsoluteUri, name: string)
    requires var m := Without(Parse(u.query), name); m == [] || !StartsWithMark(m[0].0)
    ensures Parse(RemovedParameter(Absolute(u), name).abs.query) == Without(Parse(u.query), name)
    ensures name !in Names(Parse(RemovedParameter(Absolute(u), name).abs.query))
  {
    QueryWithoutParses(u.query, name);
  }

  /** The rebuilt query, with or without its `?`, parses to the old parameters without `name`. */
  lemma QueryWithoutParses(query: string, name: string)
    requires var m := Without(Parse(query), name); m == [] || !StartsWithMark(m[0].0)
    ensures Parse(QueryText(QueryWithout(query, name))) == Without(Parse(query), name)
  {
    var m := Without(Parse(query), name);
    assert Canonical(m) by {
      ParsedEntriesWellFormed(query);
    }
    ParseSerialize(m);
    ParseQueryText(Serialize(m));
  }

  /** A `?` in front does not change what a query parses to. */
  lemma ParseQueryText(rebuilt: string)
    ensures Parse(QueryText(rebuilt)) == Parse(rebuilt)
  {
    if rebuilt != [] {
      assert TrimStart("?" + rebuilt, '?') == TrimStart(rebuilt, '?') by {
        assert ("?" + rebuilt)[1..] == rebuilt;
      }
    }
  }

  // ----- ListFilesAndFoldersInPath ----------------------------------------------------

  /** The path and every ancestor obtained by cutting at the last `/`, stopping once the
      cut leaves nothing or there is no `/` left. */
  function Ancestors(path: string): (r: seq<string>)
    ensures path != [] ==> |r| > 0 && r[0] == path
    ensures path == [] ==> r == []
    decreases |path|
  {
    if path == [] then []
    else
      var k := LastIndexOf(path, '/');
      if k <= 0 then [path] else [path] + Ancestors(path[..k])
  }

  /** Every element is a non-empty beginning of the path. */
  lemma {:induction false} AncestorsArePrefixes(path: string)
    ensures forall p :: p in Ancestors(path) ==> p != [] && |p| <= |path| && p == path[..|p|]
    decreases |path|
  {
    if path != [] {
      var k := LastIndexOf(path, '/');
      if k > 0 {
        AncestorsArePrefixes(path[..k]);
        forall p | p in Ancestors(path[..k])
          ensures p != [] && |p| <= |path| && p == path[..|p|]
        {
          assert path[..k][..|p|] == path[..|p|];
        }
      }
    }
  }

  /** `shorter` is `longer` cut at its last `/`. */
  predicate IsCutOf(shorter: string, longer: string)
  {
    '/' in longer && shorter == longer[..LastIndexOf(longer, '/')]
  }

  /** Each element after the first is the one before it cut at its last `/`. */
  lemma {:induction false} AncestorsCutAtLastSlash(path: string)
    ensures forall i :: 0 <= i < |Ancestors(path)| - 1 ==> IsCutOf(Ancestors(path)[i + 1], Ancestors(path)[i])
    decreases |path|
  {
    if path != [] {
      var k := LastIndexOf(path, '/');
      if k > 0 {
        var rest := Ancestors(path[..k]);
        AncestorsCutAtLastSlash(path[..k]);
        var r := Ancestors(path);
        assert r == [path] + rest;
        assert path[k] == '/';
        forall i | 0 <= i < |r| - 1
          ensures IsCutOf(r[i + 1], r[i])
        {
          if i > 0 {
            assert r[i] == rest[i - 1] && r[i + 1] == rest[i - 1 + 1];
          } else {
            assert path[..k] != [];
            assert r[0] == path && r[1] == rest[0] == path[..k];
            assert path[k] in path;
          }
        }
      }
    }
  }

  /** The cutting stops at an element with no `/` left, or with only a leading one. */
  lemma {:induction false} AncestorsEnd(path: string)
    requires path != []
    ensures var last := Ancestors(path)[|Ancestors(path)| - 1];
      '/' !in last || LastIndexOf(last, '/') == 0
    decreases |path|
  {
    var k := LastIndexOf(path, '/');
    if k > 0 {
      AncestorsEnd(path[..k]);
    }
  }

  /** A path from the root stays one at every cut: each ancestor starts with `/`. */
  lemma AncestorsFromRoot(path: string)
    requires path != [] && path[0] == '/'
    ensures forall p :: p in Ancestors(path) ==> p != [] && p[0] == '/'
    ensures LastIndexOf(Ancestors(path)[|Ancestors(path)| - 1], '/') == 0
  {
    var r := Ancestors(path);
    AncestorsArePrefixes(path);
    AncestorsEnd(path);
    forall p | p in r
      ensures p != [] && p[0] == '/'
    {
      assert p == path[..|p|];
    }
    assert r[|r| - 1] in r;
  }

  /** One turn of the loop: the path is kept and cut at its last `/`. */
  lemma AncestorsStep(before: seq<string>, path: string, k: int, after: seq<string>)
    requires path != [] && k == LastIndexOf(path, '/') && k >= 0 && after == before + [path]
    ensures before + Ancestors(path) == after + Ancestors(path[..k])
  {
    var rest := Ancestors(path[..k]);
    AncestorsUnfold(path, k, rest);
    assert before + ([path] + rest) == (before + [path]) + rest;
  }

  /** The path comes first, then the ancestors of its cut at the last `/`. */
  lemma AncestorsUnfold(path: string, k: int, rest: seq<string>)
    requires path != [] && k == LastIndexOf(path, '/') && k >= 0 && rest == Ancestors(path[..k])
    ensures Ancestors(path) == [path] + rest
  {
    if k == 0 {
      assert path[..k] == [];
    }
  }

  /** The last turn of the loop: a path without `/` is kept and ends the list. */
  lemma AncestorsStop(before: seq<string>, path: string, after: seq<string>)
    requires path != [] && LastIndexOf(path, '/') == -1 && after == before + [path]
    ensures before + Ancestors(path) == after
  {
  }

  /** The loop ends on an empty path with the list complete. */
  lemma AncestorsDone(paths: seq<string>, path: string, start: string)
    requires (path == [] && paths + Ancestors(path) == Ancestors(start)) || paths == Ancestors(start)
    ensures paths == Ancestors(start)
  {
    if path == [] && paths + Ancestors(path) == Ancestors(start) {
      assert paths + [] == paths;
    }
  }

  /** An absolute URL, or a relative one from the site root. */
  predicate RootedOrAbsolute(url: Uri)
  {
    url.Absolute? || (url.text != [] && url.text[0] == '/')
  }

  /** The path `ListFilesAndFoldersInPath` starts from: the absolute path, or a root-relative
      URL's text without its query. */
  function StartPath(url: Uri): string
  {
    match url
    case Absolute(u) => u.path
    case Relative(t) => var pos := IndexOf(t, '?'); if pos > -1 then t[..pos] else t
  }

  /** `ListFilesAndFoldersInPath(urlToParse)`: the path, then each ancestor down to the
      last segment, then `/`; a relative URL must start with `/`. */
  method ListFilesAndFoldersInPath(urlToParse: Option<Uri>) returns (r: Result<seq<string>>)
    ensures urlToParse.None? ==> r == Err(ArgumentNull("urlToParse"))
    ensures urlToParse.Some? && !RootedOrAbsolute(urlToParse.value) ==> r == Err(Argument("urlToParse"))
    ensures urlToParse.Some? && RootedOrAbsolute(urlToParse.value) ==>
      r == Ok(Ancestors(StartPath(urlToParse.value)) + ["/"])
  {
    if urlToParse.None? {
      return Err(ArgumentNull("urlToParse"));
    }
    var url := urlToParse.value;
    var path: string;
    if url.Absolute? {
      path := url.abs.path;
    } else if |url.text| > 0 && url.text[0] == '/' {
      path := url.text;
      var querystring := IndexOf(path, '?');
      if querystring > -1 {
        path := path[..querystring];
      }
    } else {
      return Err(Argument("urlToParse"));
    }
    assert path == StartPath(url);

    ghost var start := path;
    var paths: seq<string> := [];
    while |path| > 0
      invariant paths + Ancestors(path) == Ancestors(start)
      decreases |path|
    {
      ghost var before := paths;
      paths := paths + [path];
      var slashIndex := LastIndexOf(path, '/');
      if slashIndex == -1 {
        AncestorsStop(before, path, paths);
        break;
      }
      AncestorsStep(before, path, slashIndex, paths);
      path := path[..slashIndex];
    }
    AncestorsDone(paths, path, start);
    paths := paths + ["/"];
    return Ok(paths);
  }
}
