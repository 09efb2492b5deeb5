/** Reading and writing the `Content-Security-Policy` header of a response
    (Escc.Web/ContentSecurityPolicyHeaders.cs). The policy already in the header is read
    when the object is made, policies are appended to it or replace it, and the header is
    then rewritten with the merged policy. */
module ContentSecurityHeaders {
  import opened Wrappers
  import opened Text
  import opened ContentSecurity
  import opened Headers

  /** The name of the header. */
  const PolicyHeader := "Content-Security-Policy"

  /** The policy read from the header when the object is made: the header's text appended
      to an empty policy, or an empty policy when there is no header. */
  function PolicyFromHeaders(header: Option<string>): Directives
  {
    if header.None? || header.value == [] then [] else AppendText([], header.value)
  }

  /** `ContentSecurityPolicyHeaders`, over a `NameValueCollection`. The policy may be null,
      since `ReplacePolicy` stores whatever policy object it is given. */
  class ContentSecurityPolicyHeaders {
    const responseHeaders: HeaderCollection
    var policy: ContentSecurityPolicy?

    /** The constructor after its null check: the policy starts as whatever the header
        already holds. */
    constructor(responseHeaders: HeaderCollection)
      ensures this.responseHeaders == responseHeaders
      ensures policy != null && fresh(policy) && policy.Valid()
      ensures policy.parsedPolicy == PolicyFromHeaders(responseHeaders.Get(PolicyHeader))
    {
      this.responseHeaders := responseHeaders;
      var p := new ContentSecurityPolicy();
      var existing := responseHeaders.Get(PolicyHeader);
      if existing.Some? {
        var _ := p.AppendPolicy(existing);
      }
      policy := p;
    }

    /** `new ContentSecurityPolicyHeaders(responseHeaders)`: null headers are an
        `ArgumentNullException`. */
    static method Create(responseHeaders: HeaderCollection?) returns (r: Result<ContentSecurityPolicyHeaders>)
      ensures r.Err? <==> responseHeaders == null
      ensures r.Err? ==> r.error == ArgumentNull("responseHeaders")
      ensures (r.Ok? ==>
        && fresh(r.value) && fresh(r.value.policy)
        && r.value.responseHeaders == responseHeaders
        && r.value.policy != null
        && r.value.policy.parsedPolicy == PolicyFromHeaders(responseHeaders.Get(PolicyHeader)))
    {
      if responseHeaders == null {
        return Err(ArgumentNull("responseHeaders"));
      }
      var h := new ContentSecurityPolicyHeaders(responseHeaders);
      return Ok(h);
    }

    /** `AppendPolicy(string)`: merges into the current policy and returns this object; a
        null policy object is a `NullReferenceException`. */
    method AppendPolicy(text: Option<string>) returns (r: Result<ContentSecurityPolicyHeaders>)
      modifies policy
      ensures r.Err? <==> policy == null
      ensures r.Err? ==> r.error == NullReference
      ensures r.Ok? ==> r.value == this
      ensures (policy != null ==>
        policy.parsedPolicy ==
          if text.None? || text.value == [] then old(policy.parsedPolicy)
          else AppendText(old(policy.parsedPolicy), text.value))
      ensures policy != null && old(policy.Valid()) ==> policy.Valid()
    {
      if policy == null {
        return Err(NullReference);
      }
      var _ := policy.AppendPolicy(text);
      return Ok(this);
    }

    /** `AppendPolicy(ContentSecurityPolicy)`: merges the other policy, written out; a null
        policy on either side is a `NullReferenceException`. */
    method AppendPolicyFrom(other: ContentSecurityPolicy?) returns (r: Result<ContentSecurityPolicyHeaders>)
      modifies policy
      ensures r.Err? <==> policy == null || other == null
      ensures r.Err? ==> r.error == NullReference && (policy != null ==> unchanged(policy))
      ensures r.Ok? ==> r.value == this
      ensures (r.Ok? ==>
        policy.parsedPolicy == PolicyAppended(old(policy.parsedPolicy), Render(old(other.parsedPolicy))))
      ensures policy != null && old(policy.Valid()) ==> policy.Valid()
    {
      if policy == null || other == null {
        return Err(NullReference);
      }
      var text := other.ToString();
      var _ := policy.AppendPolicy(Some(text));
      return Ok(this);
    }

    /** `ReplacePolicy(string)`: a new policy holding only the given text. */
    method ReplacePolicy(text: Option<string>) returns (r: Result<ContentSecurityPolicyHeaders>)
      modifies this
      ensures r == Ok(this)
      ensures policy != null && fresh(policy) && policy.Valid()
      ensures policy.parsedPolicy == PolicyAppended([], if text.None? then [] else text.value)
    {
      var replacement := new ContentSecurityPolicy();
      policy := replacement;
      r := AppendPolicy(text);
    }

    /** `ReplacePolicy(ContentSecurityPolicy)`: keeps the caller's own policy object, so
        later appends through this object change the caller's policy too. */
    method ReplacePolicyWith(replacement: ContentSecurityPolicy?) returns (r: Result<ContentSecurityPolicyHeaders>)
      modifies this
      ensures r == Ok(this)
      ensures policy == replacement
    {
      policy := replacement;
      return Ok(this);
    }

    /** `UpdateHeaders()`: the header is removed and then added again with the policy
        written out, so it ends with exactly that one value and no other header changes.
        With a null policy the header is removed before the `NullReferenceException`. */
    method UpdateHeaders() returns (error: Option<Exception>)
      requires responseHeaders.Valid()
      modifies responseHeaders
      ensures responseHeaders.Valid()
      ensures error.Some? <==> policy == null
      ensures (error.Some? ==>
        error.value == NullReference
        && responseHeaders.values == old(responseHeaders.values) - {ToLower(PolicyHeader)})
      ensures (error.None? ==>
        responseHeaders.values == old(responseHeaders.values)[ToLower(PolicyHeader) := [Render(policy.parsedPolicy)]])
    {
      responseHeaders.Remove(PolicyHeader);
      if policy == null {
        return Some(NullReference);
      }
      var text := policy.ToString();
      responseHeaders.Add(PolicyHeader, text);
      ghost var key := ToLower(PolicyHeader);
      assert Values(old(responseHeaders.values) - {key}, PolicyHeader) == [];
      assert [] + [text] == [text];
      assert (old(responseHeaders.values) - {key})[key := [text]] == old(responseHeaders.values)[key := [text]];
      return None;
    }
  }

  /** The policy after `AppendPolicy(string)`: unchanged for empty text. */
  function PolicyAppended(p: Directives, text: string): Directives
  {
    if text == [] then p else AppendText(p, text)
  }

  /** The text of a policy with one directive of one or two sources. */
  lemma RenderOneAndTwo(n: string, a: string, b: string)
    ensures RenderDirective((n, [a])) == n + " " + a
    ensures Render([(n, [a, b])]) == n + " " + a + " " + b
  {
    assert [a][..0] == [];
    assert SourcesText([a]) == " " + a;
    RenderTwo(n, a, b);
    assert [(n, [a, b])][..0] == [];
  }

  /** A header holding one directive with one source is read as that directive. */
  lemma ReadOneSource(n: string, a: string)
    requires IsToken(n) && IsToken(a)
    ensures PolicyFromHeaders(Some(n + " " + a)) == [(n, [a])]
  {
    AddSourcesOne([], a);
    assert [] + [a] == [a];
    calc {
      PolicyFromHeaders(Some(n + " " + a));
      AppendText([], n + " " + a);
      { RenderOneAndTwo(n, a, a); }
      AppendText([], RenderDirective((n, [a])));
      { AppendDirective([], n, [a]); }
      MergeSources([], n, [a]);
      [] + [(n, AddSources([], [a]))];
      [(n, [a])];
    }
  }

  /** The header test's policy, for any directive name and two distinct sources: the
      header's directive with one source, then the same directive with another source. */
  lemma AppendToHeaderPolicy(n: string, a: string, b: string)
    requires IsToken(n) && IsToken(a) && IsToken(b) && a != b
    ensures PolicyAppended(PolicyFromHeaders(Some(n + " " + a)), n + " " + b) == [(n, [a, b])]
    ensures Render([(n, [a, b])]) == n + " " + a + " " + b
  {
    var first: Directives := [(n, [a])];
    AddSourcesOne([a], b);
    assert [a] + [b] == [a, b];
    calc {
      PolicyAppended(PolicyFromHeaders(Some(n + " " + a)), n + " " + b);
      { ReadOneSource(n, a); }
      PolicyAppended(first, n + " " + b);
      AppendText(first, n + " " + b);
      { RenderOneAndTwo(n, b, a); }
      AppendText(first, RenderDirective((n, [b])));
      { AppendDirective(first, n, [b]); }
      MergeSources(first, n, [b]);
      { assert IndexOfDirective(first, n) == 0; }
      first[0 := (n, [a, b])];
      [(n, [a, b])];
    }
    RenderOneAndTwo(n, a, b);
  }

  /** The unit test for an existing header, for any directive name and two distinct
      sources: after appending a second source and updating the headers, the header holds
      the merged policy. */
  method ExistingHeaderIsUpdated(n: string, a: string, b: string) returns (header: Option<string>)
    requires IsToken(n) && IsToken(a) && IsToken(b) && a != b
    ensures header == Some(n + " " + a + " " + b)
  {
    ToLowerIdempotent(PolicyHeader);
    var responseHeaders := new HeaderCollection(map[ToLower(PolicyHeader) := [n + " " + a]]);
    var policyHeaders := new ContentSecurityPolicyHeaders(responseHeaders);
    AppendToHeaderPolicy(n, a, b);
    var _ := policyHeaders.AppendPolicy(Some(n + " " + b));
    var _ := policyHeaders.UpdateHeaders();
    header := responseHeaders.Get(PolicyHeader);
  }
}
