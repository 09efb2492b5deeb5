/** The older Content Security Policy class (ContentSecurityPolicy.cs). It merges policies
    by the same rules as `ContentSecurity`, and adds two things: parsing can first clear
    the policy, and a configured list of paths can switch the policy off. */
module LegacyContentSecurity {
  import opened Wrappers
  import opened Text
  import opened ContentSecurity
  import opened ContentSecurityFilter

  /** `IsExcludedUrl`, with the `None` setting of the configuration section passed in
      (`None` when the section or the setting is missing): some `;`-separated entry of the
      setting starts the path, ignoring case. */
  predicate ExcludedBySetting(noneSetting: Option<string>, absolutePath: string)
  {
    noneSetting.Some? && noneSetting.value != []
    && Excludes(SplitRemoveEmpty(noneSetting.value, ';'), absolutePath)
  }

  /** A setting that lists a path excludes it, whatever else it lists around it. */
  lemma SettingExcludesListedPath(before: string, path: string, after: string)
    requires path != [] && ';' !in path
    ensures ExcludedBySetting(Some(before + ";" + path + ";" + after), path)
  {
    var setting := before + ";" + path + ";" + after;
    PieceBetweenSeparators(before, path, after, ';');
    NonEmptyHolds(Split(setting, ';'), path);
    ExcludesListed(SplitRemoveEmpty(setting, ';'), path);
  }

  /** A piece written between two separators is one of the pieces. */
  lemma PieceBetweenSeparators(before: string, x: string, after: string, sep: char)
    requires sep !in x
    ensures x in Split(before + [sep] + x + [sep] + after, sep)
  {
    var rest := x + [sep] + after;
    assert before + [sep] + x + [sep] + after == before + [sep] + rest;
    SplitConcat(before, rest, sep);
    SplitAppend(x, after, sep);
    assert Split(before + [sep] + rest, sep)[|Split(before, sep)|] == x;
  }

  /** A listed path is excluded. */
  lemma ExcludesListed(entries: seq<string>, path: string)
    requires path in entries
    ensures Excludes(entries, path)
  {
    var i :| 0 <= i < |entries| && entries[i] == path;
    assert path[..|path|] == path;
    assert StartsWithIgnoreCase(path, entries[i]);
  }

  /** Dropping empty pieces keeps every non-empty one. */
  lemma {:induction false} NonEmptyHolds(parts: seq<string>, x: string)
    requires x in parts && x != []
    ensures x in NonEmpty(parts)
  {
    if parts[0] != x {
      NonEmptyHolds(parts[1..], x);
    }
  }

  /** The policy of ContentSecurityPolicy.cs. */
  class ContentSecurityPolicy {
    var parsedPolicy: Directives

    /** Every policy built by parsing is well-formed. */
    ghost predicate Valid()
      reads this
    {
      WellFormed(parsedPolicy)
    }

    /** The empty policy the constructor starts from, before it appends the configured
        policies. */
    constructor()
      ensures parsedPolicy == [] && Valid()
    {
      parsedPolicy := [];
    }

    /** `IsExcludedUrl(url)`, with the configured `None` setting passed in: true at the first
        entry that starts the path, ignoring case; false when the setting is missing or empty. */
    static method IsExcludedUrl(noneSetting: Option<string>, absolutePath: string) returns (excluded: bool)
      ensures excluded == ExcludedBySetting(noneSetting, absolutePath)
    {
      if noneSetting.None? || noneSetting.value == [] {
        return false;
      }
      var entries := SplitRemoveEmpty(noneSetting.value, ';');
      for i := 0 to |entries|
        invariant forall j :: 0 <= j < i ==> !StartsWithIgnoreCase(absolutePath, entries[j])
      {
        if StartsWithIgnoreCase(absolutePath, entries[i]) {
          return true;
        }
      }
      return false;
    }

    /** `ParsePolicy(policy, replaceExisting)`: a null or empty policy is an
        `ArgumentNullException` and changes nothing; otherwise the policy is cleared first when
        asked to, and the text merged in. */
    method ParsePolicy(policy: Option<string>, replaceExisting: bool) returns (error: Option<Exception>)
      modifies this
      ensures (error.Some?) <==> policy.None? || policy.value == []
      ensures error.Some? ==> error.value == ArgumentNull("") && parsedPolicy == old(parsedPolicy)
      ensures (error.None? ==>
        parsedPolicy == AppendText(if replaceExisting then [] else old(parsedPolicy), policy.value))
      ensures old(Valid()) ==> Valid()
      ensures error.None? && replaceExisting ==> Valid()
    {
      if policy.None? || policy.value == [] {
        return Some(ArgumentNull(""));
      }
      if replaceExisting {
        parsedPolicy := [];
      }
      ghost var start := parsedPolicy;
      var directives := SplitRemoveEmpty(policy.value, ';');
      for i := 0 to |directives|
        invariant parsedPolicy == MergeDirectives(start, directives[..i])
      {
        MergeDirectivesStep(start, directives, i);
        ParseDirective(directives[i]);
      }
      assert directives[..|directives|] == directives;
      if WellFormed(start) {
        AppendTextWellFormed(start, policy.value);
      }
      return None;
    }

    /** `ParseDirective(directive)`: a directive with at least one source is merged. */
    method ParseDirective(directive: string)
      modifies this
      ensures parsedPolicy == MergeDirective(old(parsedPolicy), directive)
    {
      var splitDirective := SplitRemoveEmpty(directive, ' ');
      if |splitDirective| > 1 {
        var directiveType := splitDirective[0];
        var sources := splitDirective[1..];
        ParseSources(directiveType, sources);
      }
    }

    /** `ParseSources(directiveType, sources)`: adds the directive if it is new, then each
        source it does not hold yet. */
    method ParseSources(directiveType: string, sources: seq<string>)
      modifies this
      ensures parsedPolicy == MergeSources(old(parsedPolicy), directiveType, sources)
    {
      var k := IndexOfDirective(parsedPolicy, directiveType);
      if k == -1 {
        parsedPolicy := parsedPolicy + [(directiveType, [])];
        k := |parsedPolicy| - 1;
      }
      ghost var start := parsedPolicy;
      for i := 0 to |sources|
        invariant |parsedPolicy| == |start|
        invariant parsedPolicy == start[k := (directiveType, AddSources(start[k].1, sources[..i]))]
      {
        assert sources[..i + 1][..i] == sources[..i];
        var list := parsedPolicy[k].1;
        if sources[i] !in list {
          parsedPolicy := parsedPolicy[k := (directiveType, list + [sources[i]])];
        }
      }
      assert sources[..|sources|] == sources;
    }

    /** `ToString()`: each directive's name and sources, with `;` between directives. */
    method ToString() returns (s: string)
      ensures s == Render(parsedPolicy)
    {
      s := [];
      for i := 0 to |parsedPolicy|
        invariant s == Render(parsedPolicy[..i])
      {
        var directiveType, sources := parsedPolicy[i].0, parsedPolicy[i].1;
        ghost var before := s;
        if |s| > 0 {
          s := s + ";";
        }
        s := s + directiveType;
        ghost var head := s;
        for j := 0 to |sources|
          invariant s == head + SourcesText(sources[..j])
        {
          SourcesStep(head, sources, j, s);
          s := s + " " + sources[j];
        }
        assert sources[..|sources|] == sources;
        RenderStep(parsedPolicy, i, before, s);
      }
      assert parsedPolicy[..|parsedPolicy|] == parsedPolicy;
    }
  }
}
