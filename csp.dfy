/** A Content Security Policy (Escc.Web/ContentSecurityPolicy.cs), in the serialized form of
    section 2.2 of Content Security Policy Level 3, simplified: directives separated by `;`,
    each a name followed by its sources, separated by spaces. The policy is an ordered map
    from directive name to source list. Appending a policy adds new directives after the
    existing ones and new sources after a directive's existing ones, never twice. */
module ContentSecurity {
  import opened Wrappers
  import opened Text

  /** Directive names with their sources, in the order the names were first added:
      the `Dictionary<string, IList>` of the policy. */
  type Directives = seq<(string, seq<string>)>

  /** The directive names, in order. */
  function Names(p: Directives): (ns: seq<string>)
    ensures |ns| == |p| && forall i :: 0 <= i < |p| ==> ns[i] == p[i].0
  {
    seq(|p|, i requires 0 <= i < |p| => p[i].0)
  }

  /** The position of directive `name`, or -1 (`ContainsKey` and the indexer). */
  function IndexOfDirective(p: Directives, name: string): (k: int)
    ensures -1 <= k < |p|
    ensures k >= 0 ==> p[k].0 == name && forall i :: 0 <= i < k ==> p[i].0 != name
    ensures k == -1 <==> name !in Names(p)
  {
    if |p| == 0 then -1
    else if p[0].0 == name then 0
    else
      var k := IndexOfDirective(p[1..], name);
      assert Names(p) == [p[0].0] + Names(p[1..]);
      if k == -1 then -1 else k + 1
  }

  /** No source appears twice. */
  predicate NoDuplicates(xs: seq<string>)
  {
    forall i, j :: 0 <= i < j < |xs| ==> xs[i] != xs[j]
  }

  /** `existing` with each of `sources` added at the end, in order, unless already there. */
  function AddSources(existing: seq<string>, sources: seq<string>): (r: seq<string>)
    ensures existing <= r
    ensures forall x :: x in r <==> x in existing || x in sources
    ensures NoDuplicates(existing) ==> NoDuplicates(r)
  {
    if sources == [] then existing
    else
      var r := AddSources(existing, sources[..|sources| - 1]);
      var s := sources[|sources| - 1];
      assert forall x :: x in sources <==> x in sources[..|sources| - 1] || x == s by {
        assert sources == sources[..|sources| - 1] + [s];
      }
      if s in r then r else r + [s]
  }

  /** `ParseSources(directiveType, sources)`: the directive is added, with no sources, when
      it is new, and then every source it does not hold yet is appended to it. */
  function MergeSources(p: Directives, name: string, sources: seq<string>): Directives
  {
    var k := IndexOfDirective(p, name);
    if k == -1 then p + [(name, AddSources([], sources))]
    else p[k := (name, AddSources(p[k].1, sources))]
  }

  /** The space-separated pieces of a directive, empty ones dropped. */
  function Tokens(directive: string): seq<string>
  {
    SplitRemoveEmpty(directive, ' ')
  }

  /** `ParseDirective(directive)`: the first piece names the directive and the rest are its
      sources; a directive with no sources is ignored. */
  function MergeDirective(p: Directives, directive: string): Directives
  {
    var t := Tokens(directive);
    if |t| > 1 then MergeSources(p, t[0], t[1..]) else p
  }

  /** The directives merged one after another. */
  function MergeDirectives(p: Directives, ds: seq<string>): Directives
  {
    if ds == [] then p else MergeDirective(MergeDirectives(p, ds[..|ds| - 1]), ds[|ds| - 1])
  }

  /** `ParsePolicy(policy)`: every `;`-separated directive of `policy`, empty ones dropped,
      merged into the policy. */
  function AppendText(p: Directives, policy: string): Directives
  {
    MergeDirectives(p, SplitRemoveEmpty(policy, ';'))
  }

  /** The sources of a directive as `ToString` writes them: each after a space. */
  function SourcesText(sources: seq<string>): string
  {
    if sources == [] then [] else SourcesText(sources[..|sources| - 1]) + " " + sources[|sources| - 1]
  }

  /** One directive as `ToString` writes it: its name, then its sources. */
  function RenderDirective(d: (string, seq<string>)): string
  {
    d.0 + SourcesText(d.1)
  }

  /** `ToString()`: the directives in order, with `;` before each one that follows
      non-empty text. */
  function Render(p: Directives): string
  {
    if p == [] then []
    else
      var text := Render(p[..|p| - 1]);
      text + (if |text| > 0 then ";" else "") + RenderDirective(p[|p| - 1])
  }

  /** One more source written after the text so far. */
  lemma SourcesStep(head: string, sources: seq<string>, j: int, s: string)
    requires 0 <= j < |sources| && s == head + SourcesText(sources[..j])
    ensures s + " " + sources[j] == head + SourcesText(sources[..j + 1])
  {
    assert sources[..j + 1][..j] == sources[..j];
  }

  /** One more directive written after the text so far. */
  lemma RenderStep(p: Directives, i: int, before: string, s: string)
    requires 0 <= i < |p| && before == Render(p[..i])
    requires s == (if |before| > 0 then before + ";" else before) + p[i].0 + SourcesText(p[i].1)
    ensures s == Render(p[..i + 1])
  {
    assert p[..i + 1][..i] == p[..i];
  }

  /** One more directive merged after those so far. */
  lemma MergeDirectivesStep(p: Directives, ds: seq<string>, i: int)
    requires 0 <= i < |ds|
    ensures MergeDirectives(p, ds[..i + 1]) == MergeDirective(MergeDirectives(p, ds[..i]), ds[i])
  {
    assert ds[..i + 1][..i] == ds[..i];
  }

  // ----- What every policy satisfies --------------------------------------------------

  /** A piece that parsing can produce: not empty, without a space or a `;`. */
  predicate IsToken(s: string)
  {
    s != [] && ' ' !in s && ';' !in s
  }

  /** Every directive has at least one source, no source twice, and no two directives
      share a name; names and sources are tokens. */
  predicate WellFormed(p: Directives)
  {
    && (forall i, j :: 0 <= i < j < |p| ==> p[i].0 != p[j].0)
    && (forall i :: 0 <= i < |p| ==> IsToken(p[i].0) && p[i].1 != [] && NoDuplicates(p[i].1))
    && (forall i, j :: 0 <= i < |p| && 0 <= j < |p[i].1| ==> IsToken(p[i].1[j]))
  }

  /** Merging sources keeps every directive in its place, extends each source list only at
      its end, and adds a new directive only at the end. */
  lemma MergeSourcesKeepsOrder(p: Directives, name: string, sources: seq<string>)
    ensures var r := MergeSources(p, name, sources);
      && |p| <= |r| <= |p| + 1
      && (forall i :: 0 <= i < |p| ==> r[i].0 == p[i].0 && p[i].1 <= r[i].1)
      && (|r| == |p| + 1 ==> name !in Names(p) && r[|p|].0 == name)
  {
  }

  /** Sources that are tokens, merged into a well-formed policy, keep it well-formed. */
  lemma MergeSourcesWellFormed(p: Directives, name: string, sources: seq<string>)
    requires WellFormed(p) && IsToken(name) && sources != []
    requires forall j :: 0 <= j < |sources| ==> IsToken(sources[j])
    ensures WellFormed(MergeSources(p, name, sources))
  {
    var k := IndexOfDirective(p, name);
    if k == -1 {
      AddSourcesTokens([], sources);
      WellFormedSnoc(p, name, AddSources([], sources));
    } else {
      AddSourcesTokens(p[k].1, sources);
      WellFormedUpdate(p, k, name, AddSources(p[k].1, sources));
    }
  }

  /** Token sources added to a list of distinct tokens give a non-empty list of distinct
      tokens. */
  lemma AddSourcesTokens(existing: seq<string>, sources: seq<string>)
    requires NoDuplicates(existing) && forall j :: 0 <= j < |existing| ==> IsToken(existing[j])
    requires sources != [] && forall j :: 0 <= j < |sources| ==> IsToken(sources[j])
    ensures AddSources(existing, sources) != [] && NoDuplicates(AddSources(existing, sources))
    ensures forall j :: 0 <= j < |AddSources(existing, sources)| ==> IsToken(AddSources(existing, sources)[j])
  {
    var r := AddSources(existing, sources);
    assert sources[0] in sources;
    forall j | 0 <= j < |r|
      ensures IsToken(r[j])
    {
      assert r[j] in r;
      if r[j] in existing {
        var i :| 0 <= i < |existing| && existing[i] == r[j];
      } else {
        var i :| 0 <= i < |sources| && sources[i] == r[j];
      }
    }
  }

  /** A directive given a new list of distinct token sources keeps the policy well-formed. */
  lemma WellFormedUpdate(p: Directives, k: int, name: string, sources: seq<string>)
    requires WellFormed(p) && 0 <= k < |p| && p[k].0 == name
    requires sources != [] && NoDuplicates(sources) && forall j :: 0 <= j < |sources| ==> IsToken(sources[j])
    ensures WellFormed(p[k := (name, sources)])
  {
  }

  /** A new directive with distinct token sources, added at the end, keeps the policy
      well-formed. */
  lemma WellFormedSnoc(p: Directives, name: string, sources: seq<string>)
    requires WellFormed(p) && IsToken(name) && name !in Names(p)
    requires sources != [] && NoDuplicates(sources) && forall j :: 0 <= j < |sources| ==> IsToken(sources[j])
    ensures WellFormed(p + [(name, sources)])
  {
    forall i | 0 <= i < |p|
      ensures p[i].0 != name
    {
      assert Names(p)[i] == p[i].0;
    }
  }

  /** The directives of a well-formed policy but the last are well-formed, and the last
      one is a new, well-formed directive. */
  lemma WellFormedInit(p: Directives, init: Directives, last: (string, seq<string>))
    requires WellFormed(p) && p == init + [last]
    ensures WellFormed(init)
    ensures last.0 !in Names(init) && IsToken(last.0)
    ensures last.1 != [] && NoDuplicates(last.1)
    ensures forall j :: 0 <= j < |last.1| ==> IsToken(last.1[j])
  {
    assert forall i :: 0 <= i < |init| ==> init[i] == p[i];
    assert p[|init|] == last;
    forall i | 0 <= i < |init|
      ensures Names(init)[i] != last.0
    {
    }
  }

  /** The pieces of a directive without `;` are tokens. */
  lemma TokensAreTokens(directive: string)
    requires ';' !in directive
    ensures forall j :: 0 <= j < |Tokens(directive)| ==> IsToken(Tokens(directive)[j])
  {
    SplitAvoids(directive, ' ', ';');
    var all := Split(directive, ' ');
    forall j | 0 <= j < |Tokens(directive)|
      ensures ';' !in Tokens(directive)[j]
    {
      assert Tokens(directive)[j] in all;
    }
  }

  /** Parsing any text into a well-formed policy keeps it well-formed: the invariant of
      `ContentSecurityPolicy`. */
  lemma {:induction false} MergeDirectivesWellFormed(p: Directives, ds: seq<string>)
    requires WellFormed(p)
    requires forall i :: 0 <= i < |ds| ==> ';' !in ds[i]
    ensures WellFormed(MergeDirectives(p, ds))
  {
    if ds != [] {
      MergeDirectivesWellFormed(p, ds[..|ds| - 1]);
      var q := MergeDirectives(p, ds[..|ds| - 1]);
      var t := Tokens(ds[|ds| - 1]);
      if |t| > 1 {
        TokensAreTokens(ds[|ds| - 1]);
        MergeSourcesWellFormed(q, t[0], t[1..]);
      }
    }
  }

  /** Appending any policy text keeps a policy well-formed. */
  lemma AppendTextWellFormed(p: Directives, policy: string)
    requires WellFormed(p)
    ensures WellFormed(AppendText(p, policy))
  {
    MergeDirectivesWellFormed(p, SplitRemoveEmpty(policy, ';'));
  }

  // ----- Appending the same policy twice ------------------------------------------------

  /** The policy already holds directive `name` with every one of `sources`. */
  predicate HasSources(p: Directives, name: string, sources: seq<string>)
  {
    var k := IndexOfDirective(p, name);
    k >= 0 && forall x :: x in sources ==> x in p[k].1
  }

  /** The policy already holds everything a directive would add. */
  predicate Covers(p: Directives, directive: string)
  {
    var t := Tokens(directive);
    |t| > 1 ==> HasSources(p, t[0], t[1..])
  }

  /** Sources that are all present already change nothing. */
  lemma {:induction false} AddSourcesAbsorbs(existing: seq<string>, sources: seq<string>)
    requires forall x :: x in sources ==> x in existing
    ensures AddSources(existing, sources) == existing
  {
    if sources != [] {
      var init := sources[..|sources| - 1];
      assert forall x :: x in init ==> x in sources;
      AddSourcesAbsorbs(existing, init);
      assert sources[|sources| - 1] in sources;
    }
  }

  /** A directive the policy covers changes nothing. */
  lemma MergeSourcesAbsorbs(p: Directives, name: string, sources: seq<string>)
    requires HasSources(p, name, sources)
    ensures MergeSources(p, name, sources) == p
  {
    var k := IndexOfDirective(p, name);
    AddSourcesAbsorbs(p[k].1, sources);
  }

  /** A directive name keeps its position when entries are only extended or added after. */
  lemma {:induction false} IndexOfDirectiveExtended(p: Directives, r: Directives, name: string)
    requires |p| <= |r| && forall i :: 0 <= i < |p| ==> r[i].0 == p[i].0
    requires name in Names(p)
    ensures IndexOfDirective(r, name) == IndexOfDirective(p, name)
  {
    if p[0].0 != name {
      assert Names(p) == [p[0].0] + Names(p[1..]);
      IndexOfDirectiveExtended(p[1..], r[1..], name);
    }
  }

  /** Merging keeps what the policy already covers, and covers the merged directive. */
  lemma MergeDirectiveCovers(p: Directives, directive: string, other: string)
    ensures Covers(MergeDirective(p, directive), directive)
    ensures Covers(p, other) ==> Covers(MergeDirective(p, directive), other)
  {
    var t := Tokens(directive);
    if |t| > 1 {
      var r := MergeSources(p, t[0], t[1..]);
      MergeSourcesKeepsOrder(p, t[0], t[1..]);
      var k := IndexOfDirective(r, t[0]);
      if IndexOfDirective(p, t[0]) >= 0 {
        IndexOfDirectiveExtended(p, r, t[0]);
      }
      var u := Tokens(other);
      if |u| > 1 && Covers(p, other) {
        IndexOfDirectiveExtended(p, r, u[0]);
        var j := IndexOfDirective(p, u[0]);
        assert forall x :: x in p[j].1 ==> x in r[j].1 by {
          assert p[j].1 <= r[j].1;
        }
      }
    }
  }

  /** After merging a list of directives, the policy covers each of them. */
  lemma {:induction false} MergeDirectivesCovers(p: Directives, ds: seq<string>)
    ensures forall i :: 0 <= i < |ds| ==> Covers(MergeDirectives(p, ds), ds[i])
  {
    if ds != [] {
      var init := ds[..|ds| - 1];
      MergeDirectivesCovers(p, init);
      var q := MergeDirectives(p, init);
      forall i | 0 <= i < |ds|
        ensures Covers(MergeDirective(q, ds[|ds| - 1]), ds[i])
      {
        if i < |ds| - 1 {
          assert ds[i] == init[i];
        }
        MergeDirectiveCovers(q, ds[|ds| - 1], ds[i]);
      }
    }
  }

  /** Directives the policy covers change nothing. */
  lemma {:induction false} MergeDirectivesAbsorbs(p: Directives, ds: seq<string>)
    requires forall i :: 0 <= i < |ds| ==> Covers(p, ds[i])
    ensures MergeDirectives(p, ds) == p
  {
    if ds != [] {
      var init := ds[..|ds| - 1];
      assert forall i :: 0 <= i < |init| ==> init[i] == ds[i];
      MergeDirectivesAbsorbs(p, init);
      var t := Tokens(ds[|ds| - 1]);
      if |t| > 1 {
        MergeSourcesAbsorbs(p, t[0], t[1..]);
      }
    }
  }

  /** Appending the same policy text twice gives the same policy as appending it once. */
  lemma AppendTextIdempotent(p: Directives, policy: string)
    ensures AppendText(AppendText(p, policy), policy) == AppendText(p, policy)
  {
    var ds := SplitRemoveEmpty(policy, ';');
    MergeDirectivesCovers(p, ds);
    MergeDirectivesAbsorbs(MergeDirectives(p, ds), ds);
  }

  // ----- Writing a policy out and reading it back ----------------------------------------

  /** The text of each directive. */
  function RenderedDirectives(p: Directives): (r: seq<string>)
    ensures |r| == |p| && forall i :: 0 <= i < |p| ==> r[i] == RenderDirective(p[i])
  {
    seq(|p|, i requires 0 <= i < |p| => RenderDirective(p[i]))
  }

  /** A directive is written as its name and sources joined with spaces. */
  lemma {:induction false} RenderDirectiveJoin(name: string, sources: seq<string>)
    ensures RenderDirective((name, sources)) == Join([name] + sources, ' ')
  {
    if sources != [] {
      var init := sources[..|sources| - 1];
      var last := sources[|sources| - 1];
      RenderDirectiveJoin(name, init);
      JoinSnoc([name] + init, last, ' ');
      assert [name] + init + [last] == [name] + sources;
    }
  }

  /** With non-empty names, `ToString` is the directives joined with `;`. */
  lemma {:induction false} RenderJoin(p: Directives)
    requires forall i :: 0 <= i < |p| ==> p[i].0 != []
    ensures Render(p) == Join(RenderedDirectives(p), ';')
  {
    if p != [] {
      var init := p[..|p| - 1];
      RenderJoin(init);
      assert RenderedDirectives(p) == RenderedDirectives(init) + [RenderDirective(p[|p| - 1])];
      if init != [] {
        JoinSnoc(RenderedDirectives(init), RenderDirective(p[|p| - 1]), ';');
        assert |RenderDirective(init[0])| > 0;
        assert |Join(RenderedDirectives(init), ';')| > 0 by {
          assert Join(RenderedDirectives(init), ';')[..0] == [];
          JoinStartsWithFirst(RenderedDirectives(init), ';');
        }
      }
    }
  }

  /** A join starts with its first piece. */
  lemma JoinStartsWithFirst(parts: seq<string>, sep: char)
    requires parts != []
    ensures |Join(parts, sep)| >= |parts[0]|
  {
  }

  /** The pieces of a directive written out are its name and its sources. */
  lemma TokensOfRendered(name: string, sources: seq<string>)
    requires IsToken(name) && forall j :: 0 <= j < |sources| ==> IsToken(sources[j])
    ensures Tokens(RenderDirective((name, sources))) == [name] + sources
  {
    RenderDirectiveJoin(name, sources);
    SplitRemoveEmptyJoin([name] + sources, ' ');
  }

  /** Sources without duplicates are added to an empty list as they are. */
  lemma {:induction false} AddSourcesToEmpty(sources: seq<string>)
    requires NoDuplicates(sources)
    ensures AddSources([], sources) == sources
  {
    if sources != [] {
      var init := sources[..|sources| - 1];
      AddSourcesToEmpty(init);
      assert sources == init + [sources[|sources| - 1]];
    }
  }

  /** Sources free of a character other than the space are written out free of it. */
  lemma {:induction false} SourcesTextAvoids(sources: seq<string>, c: char)
    requires c != ' '
    requires forall j :: 0 <= j < |sources| ==> c !in sources[j]
    ensures c !in SourcesText(sources)
  {
    if sources != [] {
      SourcesTextAvoids(sources[..|sources| - 1], c);
    }
  }

  /** A directive written out and merged into a policy without it is added at the end. */
  lemma MergeRenderedDirective(q: Directives, name: string, sources: seq<string>)
    requires name !in Names(q) && IsToken(name)
    requires sources != [] && NoDuplicates(sources)
    requires forall j :: 0 <= j < |sources| ==> IsToken(sources[j])
    ensures MergeDirective(q, RenderDirective((name, sources))) == q + [(name, sources)]
  {
    TokensOfRendered(name, sources);
    AddSourcesToEmpty(sources);
    assert ([name] + sources)[1..] == sources;
  }

  /** Reading back the directives of a well-formed policy rebuilds it. */
  lemma {:induction false} MergeRendered(p: Directives)
    requires WellFormed(p)
    ensures MergeDirectives([], RenderedDirectives(p)) == p
  {
    if p != [] {
      var init, d := p[..|p| - 1], p[|p| - 1];
      assert p == init + [d];
      WellFormedInit(p, init, d);
      MergeRendered(init);
      RenderedDirectivesInit(p, init);
      MergeRenderedDirective(init, d.0, d.1);
    }
  }

  /** The text of all directives but the last, and of the last. */
  lemma RenderedDirectivesInit(p: Directives, init: Directives)
    requires p != [] && init == p[..|p| - 1]
    ensures RenderedDirectives(p)[..|p| - 1] == RenderedDirectives(init)
    ensures RenderedDirectives(p)[|p| - 1] == RenderDirective((p[|p| - 1].0, p[|p| - 1].1))
  {
  }

  /** Round trip: a well-formed policy written out by `ToString` and parsed into an empty
      policy is the same policy; this is what `AppendPolicy(ContentSecurityPolicy)` relies on. */
  lemma ParseRender(p: Directives)
    requires WellFormed(p)
    ensures AppendText([], Render(p)) == p
  {
    var ds := RenderedDirectives(p);
    forall i | 0 <= i < |ds|
      ensures ds[i] != [] && ';' !in ds[i]
    {
      assert IsToken(p[i].0);
      assert forall j :: 0 <= j < |p[i].1| ==> ';' !in p[i].1[j];
      SourcesTextAvoids(p[i].1, ';');
    }
    RenderJoin(p);
    SplitRemoveEmptyJoin(ds, ';');
    MergeRendered(p);
  }

  /** The text of a directive with two sources. */
  lemma RenderTwo(n: string, a: string, b: string)
    ensures RenderDirective((n, [a, b])) == n + " " + a + " " + b
  {
    assert [a, b][..1] == [a];
    assert [a][..0] == [];
    assert SourcesText([a]) == " " + a;
    assert SourcesText([a, b]) == " " + a + " " + b;
  }

  /** A single directive as policy text merges its sources under its name. */
  lemma AppendDirective(p: Directives, name: string, sources: seq<string>)
    requires IsToken(name) && sources != []
    requires forall j :: 0 <= j < |sources| ==> IsToken(sources[j])
    ensures AppendText(p, RenderDirective((name, sources))) == MergeSources(p, name, sources)
  {
    var text := RenderDirective((name, sources));
    TokensOfRendered(name, sources);
    SourcesTextAvoids(sources, ';');
    SplitRemoveEmptyJoin([text], ';');
    assert Join([text], ';') == text;
    assert ([name] + sources)[1..] == sources;
    assert [text][..0] == [];
    assert MergeDirectives(p, [text]) == MergeDirective(p, text);
  }

  /** A single source is added at the end unless the list already holds it. */
  lemma AddSourcesOne(existing: seq<string>, x: string)
    ensures AddSources(existing, [x]) == if x in existing then existing else existing + [x]
  {
    assert [x][..0] == [];
  }

  /** A second source is added after the first, unless the list already holds it. */
  lemma AddSourcesTwo(existing: seq<string>, x: string, y: string)
    ensures (AddSources(existing, [x, y]) ==
      if y in AddSources(existing, [x]) then AddSources(existing, [x])
      else AddSources(existing, [x]) + [y])
  {
    assert [x, y][..1] == [x];
  }

  /** Sources added in order, a repeated one skipped. */
  lemma AddSourcesInOrder(a: string, b: string, c: string)
    requires a != b && a != c && b != c
    ensures AddSources([], [a, b]) == [a, b]
    ensures AddSources([a, b], [a, c]) == [a, b, c]
  {
    AddTwoToEmpty(a, b);
    AddTwoAgain(a, b, c);
  }

  /** Two distinct sources added to an empty list, in order. */
  lemma AddTwoToEmpty(a: string, b: string)
    requires a != b
    ensures AddSources([], [a, b]) == [a, b]
  {
    AddSourcesTwo([], a, b);
    AddSourcesOne([], a);
    assert [] + [a] == [a] && [a] + [b] == [a, b];
  }

  /** A held source is skipped and a new one added after the list. */
  lemma AddTwoAgain(a: string, b: string, c: string)
    requires a != c && b != c
    ensures AddSources([a, b], [a, c]) == [a, b, c]
  {
    AddSourcesTwo([a, b], a, c);
    AddSourcesOne([a, b], a);
    assert [a, b] + [c] == [a, b, c];
  }

  /** The unit test's scenario, for any directive name and three distinct sources: a
      second policy naming the same directive adds only the source it does not hold yet,
      after the existing ones. */
  lemma AppendIgnoresDuplicates(n: string, a: string, b: string, c: string)
    requires IsToken(n) && IsToken(a) && IsToken(b) && IsToken(c)
    requires a != b && a != c && b != c
    ensures AppendText(AppendText([], n + " " + a + " " + b), n + " " + a + " " + c) == [(n, [a, b, c])]
    ensures Render([(n, [a, b, c])]) == n + " " + a + " " + b + " " + c
  {
    var first: Directives := [(n, [a, b])];
    AddSourcesInOrder(a, b, c);
    calc {
      AppendText([], n + " " + a + " " + b);
      { RenderTwo(n, a, b); }
      AppendText([], RenderDirective((n, [a, b])));
      { AppendDirective([], n, [a, b]); }
      MergeSources([], n, [a, b]);
      [] + [(n, [a, b])];
      first;
    }
    calc {
      AppendText(first, n + " " + a + " " + c);
      { RenderTwo(n, a, c); }
      AppendText(first, RenderDirective((n, [a, c])));
      { AppendDirective(first, n, [a, c]); }
      MergeSources(first, n, [a, c]);
      { assert IndexOfDirective(first, n) == 0; }
      first[0 := (n, [a, b, c])];
      [(n, [a, b, c])];
    }
    RenderThree(n, a, b, c);
  }

  /** The text of a policy with one directive of three sources. */
  lemma RenderThree(n: string, a: string, b: string, c: string)
    ensures Render([(n, [a, b, c])]) == n + " " + a + " " + b + " " + c
  {
    var d := (n, [a, b, c]);
    assert [a, b, c][..2] == [a, b];
    assert [d][..0] == [];
    assert Render([d]) == RenderDirective(d);
    assert SourcesText([a, b, c]) == SourcesText([a, b]) + " " + c;
    RenderTwo(n, a, b);
    assert RenderDirective(d) == RenderDirective((n, [a, b])) + " " + c;
  }

  // ----- The policy object -------------------------------------------------------------

  /** `ContentSecurityPolicy`: a policy that is appended to in place. */
  class ContentSecurityPolicy {
    var parsedPolicy: Directives

    /** Every policy built by appending is well-formed. */
    ghost predicate Valid()
      reads this
    {
      WellFormed(parsedPolicy)
    }

    /** A new, empty policy. */
    constructor()
      ensures parsedPolicy == [] && Valid()
    {
      parsedPolicy := [];
    }

    /** `AppendPolicy(string)`: a null or empty policy changes nothing; the policy object
        itself is returned. */
    method AppendPolicy(policy: Option<string>) returns (self: ContentSecurityPolicy)
      modifies this
      ensures self == this
      ensures parsedPolicy ==
        if policy.None? || policy.value == [] then old(parsedPolicy) else AppendText(old(parsedPolicy), policy.value)
      ensures old(Valid()) ==> Valid()
    {
      if policy.Some? && policy.value != [] {
        ghost var before := parsedPolicy;
        ParsePolicy(policy.value);
        if WellFormed(before) {
          AppendTextWellFormed(before, policy.value);
        }
      }
      return this;
    }

    /** `AppendPolicy(ContentSecurityPolicy)`: the other policy, written out, is appended;
        a null policy changes nothing. The other policy may be this one. */
    method AppendPolicyFrom(policy: ContentSecurityPolicy?) returns (self: ContentSecurityPolicy)
      modifies this
      ensures self == this
      ensures parsedPolicy ==
        if policy == null then old(parsedPolicy) else AppendText(old(parsedPolicy), Render(old(policy.parsedPolicy)))
      ensures old(Valid()) ==> Valid()
    {
      if policy != null {
        ghost var before := parsedPolicy;
        var text := policy.ToString();
        ParsePolicy(text);
        if WellFormed(before) {
          AppendTextWellFormed(before, text);
        }
      }
      return this;
    }

    /** `ParsePolicy(policy)`: merges each `;`-separated directive in turn. */
    method ParsePolicy(policy: string)
      modifies this
      ensures parsedPolicy == AppendText(old(parsedPolicy), policy)
    {
      ghost var start := parsedPolicy;
      var directives := SplitRemoveEmpty(policy, ';');
      for i := 0 to |directives|
        invariant parsedPolicy == MergeDirectives(start, directives[..i])
      {
        MergeDirectivesStep(start, directives, i);
        ParseDirective(directives[i]);
      }
      assert directives[..|directives|] == directives;
    }

    /** `ParseDirective(directive)`: a directive with at least one source is merged. */
    method ParseDirective(directive: string)
      modifies this
      ensures parsedPolicy == MergeDirective(old(parsedPolicy), directive)
    {
      var splitDirective := SplitRemoveEmpty(directive, ' ');
      if |splitDirective| > 1 {
        var directiveType := splitDirective[0];
        var sources := splitDirective[1..];
        ParseSources(directiveType, sources);
      }
    }

    /** `ParseSources(directiveType, sources)`: adds the directive if it is new, then each
        source it does not hold yet. */
    method ParseSources(directiveType: string, sources: seq<string>)
      modifies this
      ensures parsedPolicy == MergeSources(old(parsedPolicy), directiveType, sources)
    {
      var k := IndexOfDirective(parsedPolicy, directiveType);
      if k == -1 {
        parsedPolicy := parsedPolicy + [(directiveType, [])];
        k := |parsedPolicy| - 1;
      }
      ghost var start := parsedPolicy;
      for i := 0 to |sources|
        invariant |parsedPolicy| == |start|
        invariant parsedPolicy == start[k := (directiveType, AddSources(start[k].1, sources[..i]))]
      {
        assert sources[..i + 1][..i] == sources[..i];
        var list := parsedPolicy[k].1;
        if sources[i] !in list {
          parsedPolicy := parsedPolicy[k := (directiveType, list + [sources[i]])];
        }
      }
      assert sources[..|sources|] == sources;
    }

    /** `ToString()`: each directive's name and sources, with `;` between directives. */
    method ToString() returns (s: string)
      ensures s == Render(parsedPolicy)
    {
      s := [];
      for i := 0 to |parsedPolicy|
        invariant s == Render(parsedPolicy[..i])
      {
        var directiveType, sources := parsedPolicy[i].0, parsedPolicy[i].1;
        ghost var before := s;
        if |s| > 0 {
          s := s + ";";
        }
        s := s + directiveType;
        ghost var head := s;
        for j := 0 to |sources|
          invariant s == head + SourcesText(sources[..j])
        {
          SourcesStep(head, sources, j, s);
          s := s + " " + sources[j];
        }
        assert sources[..|sources|] == sources;
        RenderStep(parsedPolicy, i, before, s);
      }
      assert parsedPolicy[..|parsedPolicy|] == parsedPolicy;
    }
  }
}
