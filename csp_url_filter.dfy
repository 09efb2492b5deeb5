/** Deciding whether a Content Security Policy applies to a request
    (Escc.Web/ContentSecurityPolicyUrlFilter.cs): it does unless the path of the requested
    URL starts, ignoring case, with one of the excluded URLs. */
module ContentSecurityFilter {
  import opened Wrappers
  import opened Text

  /** Some excluded entry is, ignoring case, a prefix of the path. */
  predicate Excludes(exclusions: seq<string>, path: string)
  {
    exists i :: 0 <= i < |exclusions| && StartsWithIgnoreCase(path, exclusions[i])
  }

  /** Only which entries are excluded matters, not their order or how often they appear. */
  lemma ExcludesOrderFree(a: seq<string>, b: seq<string>, path: string)
    requires multiset(a) == multiset(b)
    ensures Excludes(a, path) == Excludes(b, path)
  {
    if Excludes(a, path) {
      var i :| 0 <= i < |a| && StartsWithIgnoreCase(path, a[i]);
      assert a[i] in multiset(b);
      var j :| 0 <= j < |b| && b[j] == a[i];
    }
    if Excludes(b, path) {
      var j :| 0 <= j < |b| && StartsWithIgnoreCase(path, b[j]);
      assert b[j] in multiset(a);
      var i :| 0 <= i < |a| && a[i] == b[j];
    }
  }

  /** More entries exclude at least as much. */
  lemma ExcludesAppend(a: seq<string>, b: seq<string>, path: string)
    ensures Excludes(a + b, path) <==> Excludes(a, path) || Excludes(b, path)
  {
    if Excludes(a + b, path) {
      var i :| 0 <= i < |a + b| && StartsWithIgnoreCase(path, (a + b)[i]);
      if i >= |a| {
        assert (a + b)[i] == b[i - |a|];
      }
    }
    if Excludes(b, path) {
      var j :| 0 <= j < |b| && StartsWithIgnoreCase(path, b[j]);
      assert (a + b)[|a| + j] == b[j];
    }
    if Excludes(a, path) {
      var i :| 0 <= i < |a| && StartsWithIgnoreCase(path, a[i]);
      assert (a + b)[i] == a[i];
    }
  }

  /** A path listed in exactly its own spelling, or in any other ASCII letter case, is
      excluded. */
  lemma ExcludesOwnPath(path: string, entry: string)
    requires ToLower(entry) == ToLower(path)
    ensures Excludes([entry], path)
  {
    assert path[..|path|] == path;
    assert StartsWithIgnoreCase(path, [entry][0]);
  }

  /** The unit tests: a path is excluded by its own entry, and a sibling page is not. */
  lemma SiblingPathIncluded()
    ensures Excludes(["/example/excluded.html"], "/example/excluded.html")
    ensures !Excludes(["/example/excluded.html"], "/example/included.html")
  {
    var excluded := "/example/excluded.html";
    var included := "/example/included.html";
    ExcludesOwnPath(excluded, excluded);
    assert |excluded| == |included| == 22;
    assert included[..22] == included;
    assert ToLower(included)[9] != ToLower(excluded)[9];
  }

  /** What checking the excluded URLs from the first gives: false at the first URL the path
      starts with, ignoring case, and true after the last. Reading the path of a null
      target URL, or the text of a null entry, is a `NullReferenceException` when that
      entry is reached; `None` stands for null. */
  function Decision(targetPath: Option<string>, urlsToExclude: seq<Option<string>>): Result<bool>
  {
    if urlsToExclude == [] then Ok(true)
    else if targetPath.None? || urlsToExclude[0].None? then Err(NullReference)
    else if StartsWithIgnoreCase(targetPath.value, urlsToExclude[0].value) then Ok(false)
    else Decision(targetPath, urlsToExclude[1..])
  }

  /** The excluded URLs as text, when none of them is null. */
  function Texts(urlsToExclude: seq<Option<string>>): (r: seq<string>)
    requires forall i :: 0 <= i < |urlsToExclude| ==> urlsToExclude[i].Some?
    ensures |r| == |urlsToExclude|
    ensures forall i :: 0 <= i < |r| ==> urlsToExclude[i] == Some(r[i])
  {
    seq(|urlsToExclude|, i requires 0 <= i < |urlsToExclude| => urlsToExclude[i].value)
  }

  /** With a target URL and no null entry, the policy applies exactly when no excluded URL
      starts the path. */
  lemma {:induction false} DecisionWithoutNulls(targetPath: string, urlsToExclude: seq<Option<string>>)
    requires forall i :: 0 <= i < |urlsToExclude| ==> urlsToExclude[i].Some?
    ensures Decision(Some(targetPath), urlsToExclude) == Ok(!Excludes(Texts(urlsToExclude), targetPath))
  {
    if urlsToExclude != [] {
      var texts := Texts(urlsToExclude);
      DecisionWithoutNulls(targetPath, urlsToExclude[1..]);
      assert texts == [texts[0]] + Texts(urlsToExclude[1..]);
      ExcludesAppend([texts[0]], Texts(urlsToExclude[1..]), targetPath);
    }
  }

  /** The check goes on past an entry: the target and the entry are not null, and the
      entry does not start the path. */
  predicate PassesOver(targetPath: Option<string>, entry: Option<string>)
  {
    targetPath.Some? && entry.Some? && !StartsWithIgnoreCase(targetPath.value, entry.value)
  }

  /** The check fails exactly when it reaches, past entries that do not match, an entry
      with a null target URL or a null excluded URL; the failure is a
      `NullReferenceException`. */
  lemma {:induction false} DecisionFails(targetPath: Option<string>, urlsToExclude: seq<Option<string>>)
    ensures Decision(targetPath, urlsToExclude).Err? <==>
      exists j :: 0 <= j < |urlsToExclude| && (targetPath.None? || urlsToExclude[j].None?) &&
        forall k :: 0 <= k < j ==> PassesOver(targetPath, urlsToExclude[k])
    ensures Decision(targetPath, urlsToExclude).Err? ==> Decision(targetPath, urlsToExclude).error == NullReference
  {
    if urlsToExclude != [] {
      var rest := urlsToExclude[1..];
      DecisionFails(targetPath, rest);
      if PassesOver(targetPath, urlsToExclude[0]) {
        if Decision(targetPath, rest).Err? {
          var j :| 0 <= j < |rest| && (targetPath.None? || rest[j].None?) &&
            forall k :: 0 <= k < j ==> PassesOver(targetPath, rest[k]);
          assert urlsToExclude[j + 1] == rest[j];
          forall k | 0 <= k < j + 1
            ensures PassesOver(targetPath, urlsToExclude[k])
          {
            if k > 0 {
              assert urlsToExclude[k] == rest[k - 1];
            }
          }
        }
      }
    }
  }

  /** `ContentSecurityPolicyUrlFilter`: the absolute path of the requested URL, and the
      string form of each excluded URL. `None` stands for a null URL, or a null list. */
  datatype UrlFilter = UrlFilter(targetPath: Option<string>, urlsToExclude: Option<seq<Option<string>>>)
  {
    /** `ApplyPolicy()`: true with no list; otherwise false at the first excluded URL the
        path starts with, ignoring case, true when there is none, and a
        `NullReferenceException` when a null target URL or a null entry is reached first. */
    method ApplyPolicy() returns (r: Result<bool>)
      ensures urlsToExclude.None? ==> r == Ok(true)
      ensures urlsToExclude.Some? ==> r == Decision(targetPath, urlsToExclude.value)
    {
      if urlsToExclude.None? {
        return Ok(true);
      }
      var excluded := urlsToExclude.value;
      for i := 0 to |excluded|
        invariant Decision(targetPath, excluded) == Decision(targetPath, excluded[i..])
      {
        assert excluded[i..][1..] == excluded[i + 1..];
        if targetPath.None? || excluded[i].None? {
          return Err(NullReference);
        }
        if StartsWithIgnoreCase(targetPath.value, excluded[i].value) {
          return Ok(false);
        }
      }
      assert excluded[|excluded|..] == [];
      return Ok(true);
    }
  }
}
