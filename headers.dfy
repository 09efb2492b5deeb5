/** Collections of HTTP headers as the web framework keeps them (`NameValueCollection`):
    names are compared ignoring case, and each name holds its values in the order they
    were added. */
module Headers {
  import opened Wrappers
  import opened Text

  /** A header collection, keyed by the lower-cased header name. */
  class HeaderCollection {
    var values: map<string, seq<string>>

    /** Every name is stored lower-cased, so that each header can be reached by its name
        in any letter case, as `NameValueCollection` keeps them. */
    predicate Valid()
      reads this
    {
      LowerCaseNames(values)
    }

    /** A collection holding the given headers, named in lower case. */
    constructor(initial: map<string, seq<string>>)
      requires LowerCaseNames(initial)
      ensures values == initial && Valid()
    {
      values := initial;
    }

    /** `collection[name]`: the values of the header joined with `,`, or null when there
        is no such header. */
    function Get(name: string): (r: Option<string>)
      reads this
      ensures r.None? <==> ToLower(name) !in values
      ensures r.Some? ==> r.value == Join(values[ToLower(name)], ',')
      ensures r.Some? && |values[ToLower(name)]| == 1 ==> r.value == values[ToLower(name)][0]
      ensures Valid() && name in values ==> r.Some?
    {
      var key := ToLower(name);
      if key in values then Some(Join(values[key], ',')) else None
    }

    /** `Remove(name)`: the header is gone; nothing else changes. */
    method Remove(name: string)
      requires Valid()
      modifies this
      ensures values == old(values) - {ToLower(name)} && Valid()
    {
      values := values - {ToLower(name)};
    }

    /** `Add(name, value)`: the value follows any the header already has. */
    method Add(name: string, value: string)
      requires Valid()
      modifies this
      ensures values == old(values)[ToLower(name) := Values(old(values), name) + [value]] && Valid()
    {
      ToLowerIdempotent(name);
      values := values[ToLower(name) := Values(values, name) + [value]];
    }
  }

  /** Every header name is already lower case. */
  predicate LowerCaseNames(headers: map<string, seq<string>>)
  {
    forall k :: k in headers ==> ToLower(k) == k
  }

  /** The values of a header, none when it is absent. */
  function Values(headers: map<string, seq<string>>, name: string): seq<string>
  {
    if ToLower(name) in headers then headers[ToLower(name)] else []
  }
}
