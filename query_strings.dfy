/** The query-string canonicaliser shared by every URL helper: what
    `Iri.SplitQueryString` computes (Escc.Web/Iri.cs and the identical copy in
    Iri.cs), and the `name=value&...` rebuild loop of `RemoveQueryStringParameter`
    and `CheckProtectedQueryString`.

    The query component follows section 3.4 of RFC 3986; a parsed query is an
    ordered dictionary, kept here as a sequence of (name, value) entries because
    the order in which names first appear is observable in every output. */
module QueryStrings {
  import opened Wrappers
  import opened Text

  /** The `Dictionary<string, string>` that `SplitQueryString` returns, in insertion order. */
  type QueryMap = seq<(string, string)>

  /** The dictionary's keys, in order. */
  function Names(m: QueryMap): (ns: seq<string>)
    ensures |ns| == |m| && forall i :: 0 <= i < |m| ==> ns[i] == m[i].0
  {
    seq(|m|, i requires 0 <= i < |m| => m[i].0)
  }

  /** No key appears twice, as in any `Dictionary`. */
  predicate UniqueKeys(m: QueryMap)
  {
    forall i, j :: 0 <= i < j < |m| ==> m[i].0 != m[j].0
  }

  /** The position of the entry for `name`, or -1 (`ContainsKey` and the indexer). */
  function Find(m: QueryMap, name: string): (r: int)
    ensures -1 <= r < |m|
    ensures r >= 0 ==> m[r].0 == name
    ensures r == -1 <==> name !in Names(m)
  {
    if |m| == 0 then -1
    else if m[0].0 == name then 0
    else
      var k := Find(m[1..], name);
      assert Names(m) == [m[0].0] + Names(m[1..]);
      if k == -1 then -1 else k + 1
  }

  /** The value stored under `name`, if any. */
  function Lookup(m: QueryMap, name: string): (r: Option<string>)
    ensures r.Some? <==> name in Names(m)
  {
    var k := Find(m, name);
    if k == -1 then None else Some(m[k].1)
  }

  /** `pair.Split(new char[] { '=' }, 2)`, kept only when it has two parts and a
      non-empty name: the name runs to the first `=`, the value is everything after it. */
  function SplitPair(segment: string): (r: Option<(string, string)>)
    ensures r.Some? <==> '=' in segment && segment[0] != '='
    ensures r.Some? ==> r.value.0 != [] && '=' !in r.value.0
    ensures r.Some? ==> segment == r.value.0 + "=" + r.value.1
  {
    var k := IndexOf(segment, '=');
    if k <= 0 then None
    else
      assert segment == segment[..k] + "=" + segment[k + 1..];
      Some((segment[..k], segment[k + 1..]))
  }

  /** The (name, value) pairs of the segments that `SplitPair` keeps, in order. */
  function Pairs(segments: seq<string>): (ps: seq<(string, string)>)
    ensures |ps| <= |segments|
  {
    if segments == [] then []
    else
      var init := Pairs(segments[..|segments| - 1]);
      match SplitPair(segments[|segments| - 1])
      case None => init
      case Some(p) => init + [p]
  }

  /** One step of the loop: a new name is added at the end; a name already
      present keeps its place and its value becomes `earlier + "," + later`. */
  function AddPair(m: QueryMap, p: (string, string)): QueryMap
  {
    var k := Find(m, p.0);
    if k == -1 then m + [p] else m[k := (p.0, m[k].1 + "," + p.1)]
  }

  /** The dictionary built from the pairs, one `AddPair` after another. */
  function Group(ps: seq<(string, string)>): QueryMap
  {
    if ps == [] then [] else AddPair(Group(ps[..|ps| - 1]), ps[|ps| - 1])
  }

  /** The `&`-separated segments of a query once every leading `?` is trimmed. */
  function Segments(q: string): seq<string>
  {
    var t := TrimStart(q, '?');
    if t == [] then [] else Split(t, '&')
  }

  /** What `SplitQueryString` returns for a non-null query string. */
  function Parse(q: string): QueryMap
  {
    Group(Pairs(Segments(q)))
  }

  /** One more segment adds its pair, if it has one, at the end. */
  lemma PairsSnoc(segs: seq<string>, i: nat)
    requires i < |segs|
    ensures Pairs(segs[..i + 1]) ==
      if SplitPair(segs[i]).Some? then Pairs(segs[..i]) + [SplitPair(segs[i]).value] else Pairs(segs[..i])
  {
    assert segs[..i + 1][..i] == segs[..i];
  }

  /** Grouping one more pair is one more `AddPair`. */
  lemma GroupSnoc(ps: seq<(string, string)>, p: (string, string))
    ensures Group(ps + [p]) == AddPair(Group(ps), p)
  {
    assert (ps + [p])[..|ps|] == ps;
  }

  // ----- What the dictionary holds -------------------------------------------------

  /** The names of the pairs, with every repeat after the first dropped. */
  function Dedup(ns: seq<string>): (r: seq<string>)
    ensures forall n :: n in r <==> n in ns
  {
    if ns == [] then []
    else
      var d := Dedup(ns[..|ns| - 1]);
      assert ns == ns[..|ns| - 1] + [ns[|ns| - 1]];
      if ns[|ns| - 1] in d then d else d + [ns[|ns| - 1]]
  }

  /** The names of the pairs, repeats included. */
  function PairNames(ps: seq<(string, string)>): (ns: seq<string>)
    ensures |ns| == |ps| && forall i :: 0 <= i < |ps| ==> ns[i] == ps[i].0
  {
    seq(|ps|, i requires 0 <= i < |ps| => ps[i].0)
  }

  /** Every value given for `name`, in order of appearance. */
  function ValuesFor(ps: seq<(string, string)>, name: string): seq<string>
  {
    if ps == [] then []
    else
      var init := ValuesFor(ps[..|ps| - 1], name);
      if ps[|ps| - 1].0 == name then init + [ps[|ps| - 1].1] else init
  }

  /** A dictionary never holds a name twice. */
  lemma {:induction false} GroupUniqueKeys(ps: seq<(string, string)>)
    ensures UniqueKeys(Group(ps))
  {
    if ps != [] {
      GroupUniqueKeys(ps[..|ps| - 1]);
    }
  }

  /** The keys are the pairs' names in order of first appearance. */
  lemma {:induction false} GroupKeysInFirstAppearanceOrder(ps: seq<(string, string)>)
    ensures Names(Group(ps)) == Dedup(PairNames(ps))
  {
    if ps != [] {
      var init := ps[..|ps| - 1];
      var p := ps[|ps| - 1];
      GroupKeysInFirstAppearanceOrder(init);
      assert PairNames(ps) == PairNames(init) + [p.0];
      var g := Group(init);
      var k := Find(g, p.0);
      if k == -1 {
        assert Names(g + [p]) == Names(g) + [p.0];
      } else {
        assert Names(g[k := (p.0, g[k].1 + "," + p.1)]) == Names(g);
      }
    }
  }

  /** A name is a key exactly when some pair carries it. */
  lemma GroupHasKey(ps: seq<(string, string)>, name: string)
    ensures name in Names(Group(ps)) <==> ValuesFor(ps, name) != []
  {
    GroupKeysInFirstAppearanceOrder(ps);
    ValuesForNonEmpty(ps, name);
  }

  /** Some pair carries `name` exactly when it has a value for it. */
  lemma {:induction false} ValuesForNonEmpty(ps: seq<(string, string)>, name: string)
    ensures ValuesFor(ps, name) != [] <==> name in PairNames(ps)
  {
    if ps != [] {
      ValuesForNonEmpty(ps[..|ps| - 1], name);
      assert PairNames(ps) == PairNames(ps[..|ps| - 1]) + [ps[|ps| - 1].0];
    }
  }

  /** The value under each key is every value given for that name, joined with commas. */
  lemma {:induction false} GroupValues(ps: seq<(string, string)>)
    ensures forall i :: 0 <= i < |Group(ps)| ==>
      Group(ps)[i].1 == Join(ValuesFor(ps, Group(ps)[i].0), ',')
  {
    if ps != [] {
      var init := ps[..|ps| - 1];
      var p := ps[|ps| - 1];
      GroupValues(init);
      var g := Group(init);
      var k := Find(g, p.0);
      forall i | 0 <= i < |Group(ps)|
        ensures Group(ps)[i].1 == Join(ValuesFor(ps, Group(ps)[i].0), ',')
      {
        var n := Group(ps)[i].0;
        if n != p.0 {
          assert ValuesFor(ps, n) == ValuesFor(init, n);
        } else if k == -1 {
          GroupHasKey(init, p.0);
          assert ValuesFor(ps, n) == [p.1];
        } else {
          GroupUniqueKeys(init);
          assert i == k;
          GroupHasKey(init, p.0);
          JoinSnoc(ValuesFor(init, n), p.1, ',');
        }
      }
    }
  }

  // ----- Rebuilding a query ----------------------------------------------------------

  /** One entry as the rebuild loops write it: `name=value`. */
  function Entry(p: (string, string)): string
  {
    p.0 + "=" + p.1
  }

  /** The entries of a dictionary, each written as `name=value`. */
  function Entries(m: QueryMap): (es: seq<string>)
    ensures |es| == |m| && forall i :: 0 <= i < |m| ==> es[i] == Entry(m[i])
  {
    seq(|m|, i requires 0 <= i < |m| => Entry(m[i]))
  }

  /** A dictionary written back as a query without its `?`: entries joined with `&`. */
  function Serialize(m: QueryMap): string
  {
    Join(Entries(m), '&')
  }

  /** The dictionary without the entry for `name`, the other entries in order. */
  function Without(m: QueryMap, name: string): (r: QueryMap)
    ensures name !in Names(r)
    ensures forall p :: p in r <==> p in m && p.0 != name
    ensures UniqueKeys(m) ==> UniqueKeys(r)
  {
    if m == [] then []
    else
      var init := Without(m[..|m| - 1], name);
      assert m == m[..|m| - 1] + [m[|m| - 1]];
      assert forall p :: p in init + [m[|m| - 1]] <==> p in init || p == m[|m| - 1];
      if m[|m| - 1].0 == name then init else init + [m[|m| - 1]]
  }

  /** The rebuild loop of `RemoveQueryStringParameter` (Escc.Web/Iri.cs) and of
      `CheckProtectedQueryString` (Iri.cs, Escc.Web/UrlProtector.cs): every entry but
      `excluded`, written `name=value`, with `&` in front of all but the first. */
  method SerializeWithout(m: QueryMap, excluded: string) returns (s: string)
    ensures s == Serialize(Without(m, excluded))
  {
    s := "";
    for i := 0 to |m|
      invariant s == Serialize(Without(m[..i], excluded))
    {
      var name, value := m[i].0, m[i].1;
      ghost var before := s;
      if name != excluded {
        if |s| > 0 {
          s := s + "&";
        }
        s := s + name + "=" + value;
      }
      SerializeWithoutStep(m, i, excluded, before, s);
    }
    assert m[..|m|] == m;
  }

  /** One pass of the rebuild loop writes the next entry, unless it is the excluded one. */
  lemma SerializeWithoutStep(m: QueryMap, i: int, excluded: string, before: string, after: string)
    requires 0 <= i < |m|
    requires before == Serialize(Without(m[..i], excluded))
    requires (after == if m[i].0 == excluded then before
      else (if |before| > 0 then before + "&" else before) + m[i].0 + "=" + m[i].1)
    ensures after == Serialize(Without(m[..i + 1], excluded))
  {
    var done := Without(m[..i], excluded);
    WithoutPrefix(m, i, excluded);
    if m[i].0 != excluded {
      SerializeSnoc(done, m[i]);
      SerializeNonEmpty(done);
      AppendEntry(if |before| > 0 then before + "&" else before, m[i]);
    }
  }

  /** Writing the name, `=` and the value one after another writes the entry. */
  lemma AppendEntry(s: string, p: (string, string))
    ensures s + p.0 + "=" + p.1 == s + Entry(p)
  {
  }

  /** `Without` on one more entry of `m`. */
  lemma WithoutPrefix(m: QueryMap, i: int, name: string)
    requires 0 <= i < |m|
    ensures (Without(m[..i + 1], name) == if m[i].0 == name then Without(m[..i], name)
      else Without(m[..i], name) + [m[i]])
  {
    assert m[..i + 1][..i] == m[..i];
    WithoutSnoc(m[..i + 1], name);
  }

  /** `Without` on a non-empty dictionary, one entry at a time from the end. */
  lemma WithoutSnoc(m: QueryMap, name: string)
    requires m != []
    ensures (Without(m, name) == if m[|m| - 1].0 == name then Without(m[..|m| - 1], name)
      else Without(m[..|m| - 1], name) + [m[|m| - 1]])
  {
  }

  /** The names of a longer dictionary end with the new name. */
  lemma NamesSnoc(m: QueryMap, p: (string, string))
    ensures Names(m + [p]) == Names(m) + [p.0]
  {
  }

  /** The entries of a longer dictionary end with the new entry. */
  lemma EntriesSnoc(m: QueryMap, p: (string, string))
    ensures Entries(m + [p]) == Entries(m) + [Entry(p)]
  {
  }

  /** A non-empty dictionary serialises to a non-empty string, since every entry holds `=`. */
  lemma SerializeNonEmpty(m: QueryMap)
    ensures |Serialize(m)| == 0 <==> m == []
  {
    if |m| == 1 {
      assert Serialize(m) == Entry(m[0]);
    } else if |m| > 1 {
      assert Serialize(m) == Entry(m[0]) + "&" + Join(Entries(m)[1..], '&');
    }
  }

  // ----- Parsing what was serialised ---------------------------------------------------

  /** A dictionary that `Parse` reads back unchanged from `Serialize`: unique keys, each
      name non-empty without `=` or `&`, no value with `&`, and no `?` at the very start. */
  predicate Canonical(m: QueryMap)
  {
    && UniqueKeys(m)
    && (forall i :: 0 <= i < |m| ==> m[i].0 != [] && '=' !in m[i].0 && '&' !in m[i].0 && '&' !in m[i].1)
    && (|m| > 0 ==> m[0].0[0] != '?')
  }

  /** `name=value` splits back into its name and value. */
  lemma SplitPairOfEntry(p: (string, string))
    requires p.0 != [] && '=' !in p.0
    ensures SplitPair(Entry(p)) == Some(p)
  {
    var s := Entry(p);
    var k := IndexOf(s, '=');
    assert s[|p.0|] == '=';
    assert forall j :: 0 <= j < |p.0| ==> s[j] == p.0[j];
    assert k == |p.0|;
    assert s[..k] == p.0 && s[k + 1..] == p.1;
  }

  /** Every entry of a canonical dictionary is kept, as written, by `Pairs`. */
  lemma {:induction false} PairsOfEntries(m: QueryMap)
    requires forall i :: 0 <= i < |m| ==> m[i].0 != [] && '=' !in m[i].0
    ensures Pairs(Entries(m)) == m
  {
    if m != [] {
      var init := m[..|m| - 1];
      assert Entries(m)[..|m| - 1] == Entries(init);
      PairsOfEntries(init);
      SplitPairOfEntry(m[|m| - 1]);
    }
  }

  /** Grouping pairs whose names are already distinct changes nothing. */
  lemma {:induction false} GroupOfUnique(m: QueryMap)
    requires UniqueKeys(m)
    ensures Group(m) == m
  {
    if m != [] {
      var init := m[..|m| - 1];
      GroupOfUnique(init);
      assert m == init + [m[|m| - 1]];
      assert m[|m| - 1].0 !in Names(init);
    }
  }

  /** Round trip: parsing the serialisation of a canonical dictionary gives it back. */
  lemma ParseSerialize(m: QueryMap)
    requires Canonical(m)
    ensures Parse(Serialize(m)) == m
  {
    var s := Serialize(m);
    if m == [] {
      assert s == [];
    } else {
      SerializeNonEmpty(m);
      assert s[0] == m[0].0[0] by {
        if |m| > 1 {
          assert s == Entry(m[0]) + "&" + Join(Entries(m)[1..], '&');
        }
      }
      assert TrimStart(s, '?') == s;
      assert forall i :: 0 <= i < |m| ==> '&' !in Entries(m)[i];
      SplitJoin(Entries(m), '&');
      PairsOfEntries(m);
      GroupOfUnique(m);
    }
  }

  /** What `Parse` returns satisfies every condition of `Canonical` but the last. */
  lemma ParsedEntriesWellFormed(q: string)
    ensures UniqueKeys(Parse(q))
    ensures forall i :: 0 <= i < |Parse(q)| ==>
      Parse(q)[i].0 != [] && '=' !in Parse(q)[i].0 && '&' !in Parse(q)[i].0 && '&' !in Parse(q)[i].1
  {
    var segs := Segments(q);
    assert forall s :: s in segs ==> '&' !in s;
    SegmentPairsWellFormed(segs);
    GroupWellFormed(Pairs(segs));
    GroupUniqueKeys(Pairs(segs));
  }

  /** The pairs of segments without `&` have non-empty names without `=` or `&` and values without `&`. */
  lemma {:induction false} SegmentPairsWellFormed(segs: seq<string>)
    requires forall s :: s in segs ==> '&' !in s
    ensures forall p :: p in Pairs(segs) ==> p.0 != [] && '=' !in p.0 && '&' !in p.0 && '&' !in p.1
  {
    if segs != [] {
      var last := segs[|segs| - 1];
      assert last in segs;
      assert forall s :: s in segs[..|segs| - 1] ==> s in segs;
      SegmentPairsWellFormed(segs[..|segs| - 1]);
      var r := SplitPair(last);
      if r.Some? {
        assert last == r.value.0 + "=" + r.value.1;
        assert forall c :: c in r.value.0 ==> c in last;
        assert forall c :: c in r.value.1 ==> c in last;
      }
    }
  }

  /** Grouping keeps names as they are and only joins values with commas. */
  lemma {:induction false} GroupWellFormed(ps: seq<(string, string)>)
    requires forall p :: p in ps ==> p.0 != [] && '=' !in p.0 && '&' !in p.0 && '&' !in p.1
    ensures forall p :: p in Group(ps) ==> p.0 != [] && '=' !in p.0 && '&' !in p.0 && '&' !in p.1
  {
    if ps != [] {
      var init := ps[..|ps| - 1];
      assert forall p :: p in init ==> p in ps;
      assert ps[|ps| - 1] in ps;
      GroupWellFormed(init);
      var g := Group(init);
      var k := Find(g, ps[|ps| - 1].0);
      if k >= 0 {
        assert g[k] in g;
      }
    }
  }

  // ----- Characters a parse cannot invent ------------------------------------------------

  /** Parsing never puts into a name or a value a character other than `,` that the
      query does not hold. */
  lemma ParseAvoids(q: string, c: char)
    requires c !in q && c != ','
    ensures forall p :: p in Parse(q) ==> c !in p.0 && c !in p.1
  {
    var t := TrimStart(q, '?');
    assert forall x :: x in t ==> x in q;
    var segs := Segments(q);
    if t != [] {
      SplitAvoids(t, '&', c);
    }
    PairsAvoid(segs, c);
    GroupAvoids(Pairs(segs), c);
  }

  /** The pairs of segments without `c` hold no `c`. */
  lemma {:induction false} PairsAvoid(segs: seq<string>, c: char)
    requires forall i :: 0 <= i < |segs| ==> c !in segs[i]
    ensures forall p :: p in Pairs(segs) ==> c !in p.0 && c !in p.1
  {
    if segs != [] {
      var last := segs[|segs| - 1];
      PairsAvoid(segs[..|segs| - 1], c);
      var r := SplitPair(last);
      if r.Some? {
        assert last == r.value.0 + "=" + r.value.1;
        assert forall x :: x in r.value.0 ==> x in last;
        assert forall x :: x in r.value.1 ==> x in last;
      }
    }
  }

  /** Grouping adds only commas to the values. */
  lemma {:induction false} GroupAvoids(ps: seq<(string, string)>, c: char)
    requires c != ','
    requires forall p :: p in ps ==> c !in p.0 && c !in p.1
    ensures forall p :: p in Group(ps) ==> c !in p.0 && c !in p.1
  {
    if ps != [] {
      var init := ps[..|ps| - 1];
      assert forall p :: p in init ==> p in ps;
      assert ps[|ps| - 1] in ps;
      GroupAvoids(init, c);
      var g := Group(init);
      var k := Find(g, ps[|ps| - 1].0);
      if k >= 0 {
        assert g[k] in g;
      }
    }
  }

  /** Serialising adds only `=` and `&` to the names and values. */
  lemma {:induction false} SerializeAvoids(m: QueryMap, c: char)
    requires c != '=' && c != '&'
    requires forall p :: p in m ==> c !in p.0 && c !in p.1
    ensures c !in Serialize(m)
  {
    if |m| == 1 {
      assert Serialize(m) == Entry(m[0]);
      assert m[0] in m;
    } else if |m| > 1 {
      assert m[0] in m;
      assert Entries(m)[1..] == Entries(m[1..]);
      assert forall p :: p in m[1..] ==> p in m;
      SerializeAvoids(m[1..], c);
      assert Serialize(m) == Entry(m[0]) + "&" + Serialize(m[1..]);
    }
  }

  // ----- Small facts about parsing and rebuilding ---------------------------------------

  /** `s` starts with `?`. */
  predicate StartsWithMark(s: string)
  {
    s != [] && s[0] == '?'
  }

  /** A `?` in front of a query changes nothing, since every leading `?` is trimmed. */
  lemma ParseMarked(s: string)
    ensures Parse("?" + s) == Parse(s)
  {
    assert ("?" + s)[1..] == s;
  }

  /** Removing a name that is not there leaves the dictionary as it is. */
  lemma {:induction false} WithoutAbsent(m: QueryMap, name: string)
    requires name !in Names(m)
    ensures Without(m, name) == m
  {
    if m != [] {
      var init := m[..|m| - 1];
      assert m == init + [m[|m| - 1]];
      NamesSnoc(init, m[|m| - 1]);
      WithoutAbsent(init, name);
      WithoutSnoc(m, name);
    }
  }

  /** Removing the name of the last entry drops that entry. */
  lemma WithoutLast(m: QueryMap, p: (string, string))
    ensures Without(m + [p], p.0) == Without(m, p.0)
  {
    assert (m + [p])[..|m|] == m;
  }

  /** One more entry is written after an `&`, or alone. */
  lemma SerializeSnoc(m: QueryMap, p: (string, string))
    ensures Serialize(m + [p]) == if m == [] then Entry(p) else Serialize(m) + "&" + Entry(p)
  {
    EntriesSnoc(m, p);
    if m != [] {
      JoinSnoc(Entries(m), Entry(p), '&');
    }
  }

  /** Text appended to a serialisation lengthens the value of the last entry. */
  lemma SerializeExtendLast(m: QueryMap, name: string, value: string, t: string)
    ensures Serialize(m + [(name, value)]) + t == Serialize(m + [(name, value + t)])
  {
    SerializeSnoc(m, (name, value));
    SerializeSnoc(m, (name, value + t));
    EntryExtend(name, value, t);
    if m != [] {
      AppendAssociates(Serialize(m) + "&", Entry((name, value)), t);
    }
  }

  /** Text after an entry lengthens its value. */
  lemma EntryExtend(name: string, value: string, t: string)
    ensures Entry((name, value)) + t == Entry((name, value + t))
  {
  }

  /** Appending text is associative. */
  lemma AppendAssociates(a: string, b: string, c: string)
    ensures a + b + c == a + (b + c)
  {
  }

  /** A canonical dictionary stays canonical with one more entry under a new, well-formed name. */
  lemma CanonicalSnoc(m: QueryMap, p: (string, string))
    requires Canonical(m)
    requires p.0 !in Names(m) && p.0 != [] && !StartsWithMark(p.0)
    requires '=' !in p.0 && '&' !in p.0 && '&' !in p.1
    ensures Canonical(m + [p])
  {
    var m' := m + [p];
    assert forall i :: 0 <= i < |m| ==> m'[i] == m[i];
    forall i, j | 0 <= i < j < |m'|
      ensures m'[i].0 != m'[j].0
    {
      if j == |m| {
        assert Names(m)[i] == m[i].0;
      }
    }
  }

  /** The entry for a name added last is that last entry. */
  lemma LookupLast(m: QueryMap, p: (string, string))
    requires p.0 !in Names(m)
    ensures Lookup(m + [p], p.0) == Some(p.1)
  {
    var m' := m + [p];
    var k := Find(m', p.0);
    assert Names(m')[|m|] == p.0;
  }

  /** Entries added after a name's entry do not change what the name looks up to. */
  lemma LookupAppend(m: QueryMap, extra: QueryMap, name: string)
    requires name in Names(m)
    ensures Lookup(m + extra, name) == Lookup(m, name)
  {
    FindAppend(m, extra, name);
    assert (m + extra)[Find(m, name)] == m[Find(m, name)];
  }

  /** The first entry for a name is found before any appended entries. */
  lemma {:induction false} FindAppend(m: QueryMap, extra: QueryMap, name: string)
    requires Find(m, name) >= 0
    ensures Find(m + extra, name) == Find(m, name)
  {
    if m[0].0 != name {
      assert (m + extra)[0] == m[0];
      assert (m + extra)[1..] == m[1..] + extra;
      FindAppend(m[1..], extra, name);
    }
  }

  /** A parsed query whose first name does not start with `?` is canonical. */
  lemma ParsedCanonical(q: string)
    requires Parse(q) == [] || !StartsWithMark(Parse(q)[0].0)
    ensures Canonical(Parse(q))
  {
    ParsedEntriesWellFormed(q);
  }

  /** A canonical dictionary with one more entry under a new name, written after a `?`,
      parses back to itself. */
  lemma ParseSerializeSnoc(m: QueryMap, p: (string, string))
    requires Canonical(m)
    requires p.0 !in Names(m) && p.0 != [] && !StartsWithMark(p.0)
    requires '=' !in p.0 && '&' !in p.0 && '&' !in p.1
    ensures Parse("?" + Serialize(m + [p])) == m + [p]
  {
    CanonicalSnoc(m, p);
    ParseMarked(Serialize(m + [p]));
    ParseSerialize(m + [p]);
  }

  /** Text appended after the serialisation of such a dictionary joins the last value. */
  lemma ParseSerializeSnocExtended(m: QueryMap, p: (string, string), t: string)
    requires Canonical(m)
    requires p.0 !in Names(m) && p.0 != [] && !StartsWithMark(p.0)
    requires '=' !in p.0 && '&' !in p.0 && '&' !in p.1 && '&' !in t
    ensures Parse("?" + Serialize(m + [p]) + t) == m + [(p.0, p.1 + t)]
  {
    SerializeExtendLast(m, p.0, p.1, t);
    assert "?" + Serialize(m + [p]) + t == "?" + Serialize(m + [(p.0, p.1 + t)]);
    ParseSerializeSnoc(m, (p.0, p.1 + t));
  }

  // ----- Adding one parameter at the end -------------------------------------------------

  /** What the query of a URL must become so that `name=value` can follow every existing
      parameter: `?` alone when it is empty or only `?`, otherwise the query and `&`. */
  function ReadyForParameter(query: string): (r: string)
    ensures |r| > 0 && (r[|r| - 1] == '?' || r[|r| - 1] == '&')
    ensures query == [] || query[0] == '?' ==> r[0] == '?'
  {
    if query == [] || query == "?" then "?" else query + "&"
  }

  /** Appending `name=value` to a query made ready for it adds that pair after every existing
      one: the parsed query is the old one with the pair added, a repeated name comma-joined. */
  lemma ParseAppended(query: string, name: string, value: string)
    requires query == [] || query[0] == '?'
    requires name != [] && name[0] != '?' && '=' !in name && '&' !in name && '&' !in value
    ensures Parse(ReadyForParameter(query) + Entry((name, value))) == AddPair(Parse(query), (name, value))
  {
    var e := Entry((name, value));
    EntryShape(name, value);
    if query == [] || query == "?" {
      assert ReadyForParameter(query) + e == "?" + e;
      ParseAppendedToEmpty(query, e, (name, value));
    } else {
      assert ReadyForParameter(query) + e == query + "&" + e;
      if TrimStart(query, '?') == [] {
        assert |query| > 1;
        ParseAppendedToMarks(query, e, (name, value));
      } else {
        ParseAppendedToQuery(query, e, (name, value));
      }
    }
  }

  /** The query text is exactly what `CheckProtectedQueryString` rebuilds from it: its
      entries joined by `&`, after any leading `?`s. */
  predicate WrittenAsRebuilt(query: string)
  {
    Serialize(Parse(query)) == TrimStart(query, '?')
  }

  /** A query written as it is rebuilt stays so when `name=value` is appended with a name
      it does not hold yet, provided it holds a parameter already or is empty or `?` alone. */
  lemma AppendedRebuilt(query: string, name: string, value: string)
    requires query == [] || query[0] == '?'
    requires name != [] && name[0] != '?' && '=' !in name && '&' !in name && '&' !in value
    requires name !in Names(Parse(query))
    requires WrittenAsRebuilt(query)
    requires Parse(query) != [] || query == [] || query == "?"
    ensures WrittenAsRebuilt(ReadyForParameter(query) + Entry((name, value)))
  {
    var m := Parse(query);
    var e := Entry((name, value));
    ParseAppended(query, name, value);
    AddPairAbsent(m, (name, value));
    SerializeSnoc(m, (name, value));
    EntryShape(name, value);
    if query == [] || query == "?" {
      AppendedToEmptyRebuilt(query, e);
    } else {
      AppendedToQueryRebuilt(query, e, Serialize(m));
      SerializeNonEmpty(m);
    }
  }

  /** Adding a pair whose name is absent appends it. */
  lemma AddPairAbsent(m: QueryMap, p: (string, string))
    requires p.0 !in Names(m)
    ensures AddPair(m, p) == m + [p]
  {
  }

  /** Appended after `&` to a query that keeps text once trimmed, an entry follows that text. */
  lemma AppendedToQueryRebuilt(query: string, e: string, trimmed: string)
    requires query != [] && query != "?"
    requires TrimStart(query, '?') == trimmed && trimmed != []
    ensures TrimStart(ReadyForParameter(query) + e, '?') == trimmed + "&" + e
  {
    assert ReadyForParameter(query) + e == query + ("&" + e);
    TrimStartAppend(query, "&" + e, '?');
  }

  /** Appended to an empty query, or to `?` alone, an entry is the whole trimmed text, and
      the query held no parameter before. */
  lemma AppendedToEmptyRebuilt(query: string, e: string)
    requires query == [] || query == "?"
    requires e != [] && e[0] != '?'
    ensures Parse(query) == [] && TrimStart(ReadyForParameter(query) + e, '?') == e
  {
    assert TrimStart(query, '?') == [];
    TrimStartAppend("?", e, '?');
  }

  /** A well-formed entry holds no `&`, starts with its name and splits back into its pair. */
  lemma EntryShape(name: string, value: string)
    requires name != [] && name[0] != '?' && '=' !in name && '&' !in name && '&' !in value
    ensures '&' !in Entry((name, value)) && Entry((name, value)) != [] && Entry((name, value))[0] != '?'
    ensures SplitPair(Entry((name, value))) == Some((name, value))
  {
    SplitPairOfEntry((name, value));
  }

  /** The case of an empty query, or one that is only `?`. */
  lemma ParseAppendedToEmpty(query: string, e: string, p: (string, string))
    requires query == [] || query == "?"
    requires '&' !in e && e != [] && e[0] != '?' && SplitPair(e) == Some(p)
    ensures Parse("?" + e) == AddPair(Parse(query), p)
  {
    assert Parse(query) == [] by {
      assert TrimStart(query, '?') == [];
    }
    assert Segments("?" + e) == [e] by {
      TrimStartAppend("?", e, '?');
      SplitNoSeparator(e, '&');
    }
    PairsOfOne(e, p);
    GroupSnoc([], p);
  }

  /** The pairs of a single segment that holds one. */
  lemma PairsOfOne(e: string, p: (string, string))
    requires SplitPair(e) == Some(p)
    ensures Pairs([e]) == [p]
  {
    assert [e][..0] == [];
  }

  /** The case of a query made of `?` marks only. */
  lemma ParseAppendedToMarks(query: string, e: string, p: (string, string))
    requires |query| > 1 && TrimStart(query, '?') == []
    requires '&' !in e && e != [] && SplitPair(e) == Some(p)
    ensures Parse(query + "&" + e) == AddPair(Parse(query), p)
  {
    calc {
      Parse(query + "&" + e);
      { SegmentsAppendedToMarks(query, e); }
      Group(Pairs([[], e]));
      { PairsAfterEmpty(e, p); }
      Group([p]);
      { GroupOne(p); }
      AddPair([], p);
    }
  }

  /** An empty segment has no pair, so only the pair of the next one is kept. */
  lemma PairsAfterEmpty(e: string, p: (string, string))
    requires SplitPair(e) == Some(p)
    ensures Pairs([[], e]) == [p]
  {
    var segs: seq<string> := [[], e];
    assert segs[..1] == [[]] && segs[..1][..0] == [];
    assert Pairs(segs[..1]) == [];
  }

  /** A single pair is grouped into a dictionary of one entry. */
  lemma GroupOne(p: (string, string))
    ensures Group([p]) == AddPair([], p)
  {
    assert [p][..0] == [];
  }

  /** After only `?` marks, `&e` is an empty segment and `e`. */
  lemma SegmentsAppendedToMarks(query: string, e: string)
    requires TrimStart(query, '?') == []
    requires '&' !in e
    ensures Segments(query + "&" + e) == [[], e]
  {
    TrimStartAppend(query, "&", '?');
    TrimStartAppend(query + "&", e, '?');
    SplitLeadingSeparator(e, '&');
  }

  /** The case of a query with parameters. */
  lemma ParseAppendedToQuery(query: string, e: string, p: (string, string))
    requires TrimStart(query, '?') != []
    requires '&' !in e && SplitPair(e) == Some(p)
    ensures Parse(query + "&" + e) == AddPair(Parse(query), p)
  {
    var segs := Segments(query);
    SegmentsAppended(query, e);
    assert Pairs(segs + [e]) == Pairs(segs) + [p] by {
      assert (segs + [e])[..|segs|] == segs;
    }
    GroupSnoc(Pairs(segs), p);
  }

  /** After a query with parameters, `&e` is one more segment. */
  lemma SegmentsAppended(query: string, e: string)
    requires TrimStart(query, '?') != []
    requires '&' !in e
    ensures Segments(query + "&" + e) == Segments(query) + [e]
  {
    TrimStartAppend(query, "&", '?');
    TrimStartAppend(query + "&", e, '?');
    SplitSnoc(TrimStart(query, '?'), e, '&');
  }
}
