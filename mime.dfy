/** `Http.PreferredMimeType`: choosing the MIME type to serve from the types a page can
    produce and the preferences a user agent states in its `Accept` header (section 14.1
    of RFC 2616, quality values in section 3.9). Preferences are kept as exact numbers, as
    the source's `decimal` keeps them; the types are tried in the order the page lists them. */
module Http {
  import opened Wrappers
  import opened Text

  // ----- Quality values ----------------------------------------------------------------

  /** The value of the digits after a decimal point: each digit a tenth of what it would
      be one place earlier. */
  function FractionValue(fraction: string): (v: real)
    requires AllDigits(fraction)
    decreases |fraction|
  {
    if fraction == [] then 0.0
    else ((fraction[0] as int - '0' as int) as real + FractionValue(fraction[1..])) / 10.0
  }

  /** A fraction's value lies from 0 up to, but not including, 1. */
  lemma {:induction false} FractionBelowOne(fraction: string)
    requires AllDigits(fraction)
    ensures 0.0 <= FractionValue(fraction) < 1.0
    decreases |fraction|
  {
    if fraction != [] {
      FractionBelowOne(fraction[1..]);
    }
  }

  /** The value of a decimal numeral with the given digits before and after the point. */
  function DecimalValue(whole: string, fraction: string): real
    requires AllDigits(whole) && AllDigits(fraction)
  {
    DigitsValue(whole) as real + FractionValue(fraction)
  }

  /** An unsigned numeral: digits with an optional `.` between them, at least one digit. */
  function ParseUnsigned(u: string): (r: Result<real>)
    ensures r.Err? ==> r.error == Format
  {
    var point := IndexOf(u, '.');
    var whole := if point == -1 then u else u[..point];
    var fraction := if point == -1 then [] else u[point + 1..];
    if (whole == [] && fraction == []) || !AllDigits(whole) || !AllDigits(fraction) then Err(Format)
    else Ok(DecimalValue(whole, fraction))
  }

  /** The negation of a parsed value; a failure stays a failure. */
  function Negated(r: Result<real>): (n: Result<real>)
    ensures n.Err? <==> r.Err?
    ensures n.Err? ==> n.error == r.error
    ensures n.Ok? ==> n.value == -r.value
  {
    if r.Err? then r else Ok(-r.value)
  }

  /** White space as the number parser skips it around a numeral: tab through carriage
      return, and the space. It is narrower than `Char.IsWhiteSpace`. */
  predicate IsNumberWhiteSpace(c: char)
  {
    '\t' <= c <= '\r' || c == ' '
  }

  /** `s` without its leading number white space. */
  function TrimStartNumberWhiteSpace(s: string): (r: string)
    ensures |r| <= |s| && r == s[|s| - |r|..]
    ensures r == [] || !IsNumberWhiteSpace(r[0])
    ensures forall i :: 0 <= i < |s| - |r| ==> IsNumberWhiteSpace(s[i])
  {
    if |s| > 0 && IsNumberWhiteSpace(s[0]) then TrimStartNumberWhiteSpace(s[1..]) else s
  }

  /** `s` without its trailing number white space. */
  function TrimEndNumberWhiteSpace(s: string): (r: string)
    ensures |r| <= |s| && r == s[..|r|]
    ensures r == [] || !IsNumberWhiteSpace(r[|r| - 1])
    ensures forall i :: |r| <= i < |s| ==> IsNumberWhiteSpace(s[i])
  {
    if |s| > 0 && IsNumberWhiteSpace(s[|s| - 1]) then TrimEndNumberWhiteSpace(s[..|s| - 1]) else s
  }

  /** The text `Decimal.Parse` reads as a numeral: trailing NUL characters are accepted and
      ignored, then number white space at either end is skipped. */
  function NumeralText(s: string): (r: string)
    ensures |r| <= |s|
    ensures r == [] || (!IsNumberWhiteSpace(r[0]) && !IsNumberWhiteSpace(r[|r| - 1]))
  {
    TrimEndNumberWhiteSpace(TrimStartNumberWhiteSpace(TrimEnd(s, '\0')))
  }

  /** `Decimal.Parse(s, CultureInfo("en-US"))`, whose style is `NumberStyles.Number`, on a
      plain numeral: number white space around it and NUL characters after it, an optional
      sign, then an unsigned numeral; anything else is a `FormatException`. */
  function ParseDecimal(s: string): (r: Result<real>)
    ensures r.Err? ==> r.error == Format
  {
    ParseSigned(NumeralText(s))
  }

  /** A trimmed numeral: an optional sign, then an unsigned numeral. */
  function ParseSigned(t: string): (r: Result<real>)
    ensures r.Err? ==> r.error == Format
  {
    if t != [] && t[0] == '-' then Negated(ParseUnsigned(t[1..]))
    else if t != [] && t[0] == '+' then ParseUnsigned(t[1..])
    else ParseUnsigned(t)
  }

  /** A string without number white space at either end and not ending in NUL is its own
      numeral text. */
  lemma NumeralTextPlain(s: string)
    requires s != [] ==> !IsNumberWhiteSpace(s[0]) && !IsNumberWhiteSpace(s[|s| - 1]) && s[|s| - 1] != '\0'
    ensures NumeralText(s) == s
  {
  }

  /** A character that is neither number white space nor NUL, put in front of a string,
      stays in front of its numeral text when the string does not start with white space. */
  lemma NumeralTextCons(c: char, s: string)
    requires !IsNumberWhiteSpace(c) && c != '\0'
    requires s != [] ==> !IsNumberWhiteSpace(s[0])
    ensures NumeralText([c] + s) == [c] + NumeralText(s)
  {
    var a := TrimEnd(s, '\0');
    TrimEndCons(c, s, '\0');
    assert TrimStartNumberWhiteSpace([c] + a) == [c] + a;
    if a != [] {
      assert a[0] == s[0];
      assert TrimStartNumberWhiteSpace(a) == a;
    }
    TrimEndNumberWhiteSpaceCons(c, a);
  }

  /** Trimming a trailing run of `d` leaves a leading character other than `d` in front. */
  lemma {:induction false} TrimEndCons(c: char, s: string, d: char)
    requires c != d
    ensures TrimEnd([c] + s, d) == [c] + TrimEnd(s, d)
    decreases |s|
  {
    if |s| > 0 && s[|s| - 1] == d {
      assert ([c] + s)[..|s|] == [c] + s[..|s| - 1];
      TrimEndCons(c, s[..|s| - 1], d);
    }
  }

  /** Trimming trailing number white space leaves a leading non-white character in front. */
  lemma {:induction false} TrimEndNumberWhiteSpaceCons(c: char, s: string)
    requires !IsNumberWhiteSpace(c)
    ensures TrimEndNumberWhiteSpace([c] + s) == [c] + TrimEndNumberWhiteSpace(s)
    decreases |s|
  {
    if |s| > 0 && IsNumberWhiteSpace(s[|s| - 1]) {
      assert ([c] + s)[..|s|] == [c] + s[..|s| - 1];
      TrimEndNumberWhiteSpaceCons(c, s[..|s| - 1]);
    }
  }

  /** The number parser does not skip a no-break space (U+00A0), which `String.Trim`
      would: any text starting with one is a `FormatException`. */
  lemma NoBreakSpaceRefused(x: string)
    ensures ParseDecimal("\U{00A0}" + x) == Err(Format)
  {
    var s := "\U{00A0}" + x;
    NumeralTextHead(s);
    UnsignedRefusesLeading(NumeralText(s));
  }

  /** A numeral whose first character is neither a digit, a point nor a sign, or an
      empty one, does not parse. */
  lemma UnsignedRefusesLeading(n: string)
    requires n != [] ==> !('0' <= n[0] <= '9') && n[0] != '.' && n[0] != '-' && n[0] != '+'
    ensures ParseSigned(n) == Err(Format)
  {
    if n != [] {
      var point := IndexOf(n, '.');
      assert point != 0;
      var whole := if point == -1 then n else n[..point];
      assert whole[0] == n[0];
    }
  }

  /** A quality parameter whose numeral starts with a no-break space, `q=` U+00A0 `0.5`,
      is a `FormatException`, however the quality stood before. */
  lemma NoBreakSpaceQualityFails(q: real)
    ensures Reading(q, "q=\U{00A0}0.5") == Err(Format)
  {
    var x := "\U{00A0}" + "0.5";
    assert x[|x| - 1] == '5';
    QualityParameter(x, "q=" + x);
    assert "q=" + x == "q=\U{00A0}0.5";
    NoBreakSpaceRefused("0.5");
  }

  /** NUL characters after any text do not change what `Decimal.Parse` makes of it. */
  lemma TrailingNulsIgnored(s: string, k: nat)
    ensures ParseDecimal(s + seq(k, _ => '\0')) == ParseDecimal(s)
  {
    TrimEndNuls(s, k);
  }

  /** Trimming trailing NULs removes any number of NULs appended. */
  lemma {:induction false} TrimEndNuls(s: string, k: nat)
    ensures TrimEnd(s + seq(k, _ => '\0'), '\0') == TrimEnd(s, '\0')
    decreases k
  {
    if k > 0 {
      var t := s + seq(k, _ => '\0');
      assert t[|t| - 1] == '\0';
      assert t[..|t| - 1] == s + seq(k - 1, _ => '\0');
      assert TrimEnd(t, '\0') == TrimEnd(t[..|t| - 1], '\0');
      TrimEndNuls(s, k - 1);
    } else {
      assert s + seq(k, _ => '\0') == s;
    }
  }

  /** The number parser accepts NUL characters after the numeral: `5` and a NUL is 5. */
  lemma TrailingNulAccepted()
    ensures ParseDecimal("5\0") == Ok(5.0)
  {
    var z := seq(1, _ => '\0');
    calc {
      ParseDecimal("5\0");
      { assert "5" + z == "5\0"; }
      ParseDecimal("5" + z);
      { TrailingNulsIgnored("5", 1); }
      ParseDecimal("5");
      { ParseWholeNumber("5"); }
      Ok(DigitsValue("5") as real);
      { assert DigitsValue("5") == 5; }
      Ok(5.0);
    }
  }

  /** Digits without a point denote a whole number. */
  lemma UnsignedWhole(s: string)
    requires s != [] && AllDigits(s)
    ensures ParseUnsigned(s) == Ok(DigitsValue(s) as real)
  {
    assert forall i :: 0 <= i < |s| ==> s[i] != '.';
    assert FractionValue([]) == 0.0;
  }

  /** A string of digits parses to the number it denotes. */
  lemma ParseWholeNumber(s: string)
    requires s != [] && AllDigits(s)
    ensures ParseDecimal(s) == Ok(DigitsValue(s) as real)
  {
    NumeralTextPlain(s);
    UnsignedWhole(s);
  }

  /** `0.` followed by digits parses to a value from 0 up to, but not including, 1. */
  lemma ParseFractionBelowOne(f: string)
    requires AllDigits(f)
    ensures ParseDecimal("0." + f).Ok?
    ensures 0.0 <= ParseDecimal("0." + f).value < 1.0
  {
    var s := "0." + f;
    assert ParseDecimal(s) == ParseUnsigned(s) by {
      assert NumeralText(s) == s by {
        assert s[|s| - 1] == if f == [] then '.' else f[|f| - 1];
        NumeralTextPlain(s);
      }
      assert ParseSigned(s) == ParseUnsigned(s) by {
        assert s[0] == '0';
      }
    }
    UnsignedFraction(f);
  }

  /** `0.` and digits: no whole part, the digits over their power of ten. */
  lemma UnsignedFraction(f: string)
    requires AllDigits(f)
    ensures ParseUnsigned("0." + f).Ok?
    ensures 0.0 <= ParseUnsigned("0." + f).value < 1.0
  {
    var s := "0." + f;
    assert IndexOf(s, '.') == 1;
    assert s[..1] == "0" && s[2..] == f;
    assert DigitsValue("0") == 0;
    FractionBelowOne(f);
  }

  /** A leading `-` negates what follows it. */
  lemma ParseNegated(s: string)
    requires s != [] && s[0] != '-' && s[0] != '+'
    requires !IsNumberWhiteSpace(s[0])
    requires ParseDecimal(s).Ok?
    ensures ParseDecimal("-" + s) == Ok(-ParseDecimal(s).value)
  {
    var r := ParseDecimal(s);
    assert ParseDecimal("-" + s) == Negated(r) by {
      NumeralTextCons('-', s);
      NumeralTextHead(s);
      SignedNegated(NumeralText(s));
    }
    NegatedOk(r);
  }

  /** A parsed value, negated, is the negative value. */
  lemma NegatedOk(r: Result<real>)
    requires r.Ok?
    ensures Negated(r) == Ok(-r.value)
  {
  }

  /** A signed numeral not already starting with a sign, negated. */
  lemma SignedNegated(n: string)
    requires n == [] || (n[0] != '-' && n[0] != '+')
    ensures ParseSigned("-" + n) == Negated(ParseSigned(n))
  {
    assert ("-" + n)[1..] == n;
  }

  /** When a string does not start with number white space, its numeral text is empty or
      starts with the same character. */
  lemma NumeralTextHead(s: string)
    requires s != [] && !IsNumberWhiteSpace(s[0])
    ensures NumeralText(s) == [] || NumeralText(s)[0] == s[0]
  {
    var a := TrimEnd(s, '\0');
    var b := TrimStartNumberWhiteSpace(a);
    var r := TrimEndNumberWhiteSpace(b);
    assert NumeralText(s) == r;
    if r != [] {
      assert b == a by {
        assert a[0] == s[0] by { assert a == s[..|a|]; }
      }
      assert r[0] == s[0] by { assert r == b[..|r|]; }
    }
  }

  /** A parameter segment that sets the quality: `q=` once the segment is trimmed. */
  predicate IsQuality(segment: string)
  {
    "q=" <= Trim(segment)
  }

  /** The numeral of a quality parameter. */
  function QualityText(segment: string): string
    requires IsQuality(segment)
  {
    Trim(segment)[2..]
  }

  /** One parameter segment read against the quality `q` so far: a `q=` parameter gives
      the value of its numeral, any other segment keeps `q`. */
  function Reading(q: real, segment: string): (r: Result<real>)
    ensures r.Err? ==> r.error == Format
  {
    if IsQuality(segment) then ParseDecimal(QualityText(segment)) else Ok(q)
  }

  /** The quality the parameter segments leave, starting from `q`: every `q=` parameter
      in turn replaces it, and one whose numeral does not parse throws. */
  function QualityOf(q: real, parameters: seq<string>): (r: Result<real>)
    ensures r.Err? ==> r.error == Format
    decreases |parameters|
  {
    if parameters == [] then Ok(q)
    else
      var next := Reading(q, parameters[0]);
      if next.Err? then next else QualityOf(next.value, parameters[1..])
  }

  /** One step of the reading. */
  lemma QualityUnfold(q: real, parameters: seq<string>)
    requires parameters != []
    ensures var next := Reading(q, parameters[0]);
      QualityOf(q, parameters) == if next.Err? then next else QualityOf(next.value, parameters[1..])
  {
  }

  /** Without a `q=` parameter the quality stays what it was. */
  lemma {:induction false} QualityWithoutParameter(q: real, parameters: seq<string>)
    requires forall i :: 0 <= i < |parameters| ==> !IsQuality(parameters[i])
    ensures QualityOf(q, parameters) == Ok(q)
    decreases |parameters|
  {
    if parameters != [] {
      QualityUnfold(q, parameters);
      QualityWithoutParameter(q, parameters[1..]);
    }
  }

  /** The last `q=` parameter wins: one more parameter that parses replaces the quality,
      and one more that is not a quality parameter keeps it. */
  lemma {:induction false} QualityLastWins(q: real, parameters: seq<string>, x: string)
    requires QualityOf(q, parameters).Ok?
    ensures IsQuality(x) && ParseDecimal(QualityText(x)).Ok? ==>
      QualityOf(q, parameters + [x]) == ParseDecimal(QualityText(x))
    ensures !IsQuality(x) ==> QualityOf(q, parameters + [x]) == QualityOf(q, parameters)
    decreases |parameters|
  {
    var all := parameters + [x];
    QualityUnfold(q, all);
    if parameters == [] {
      assert all == [x] && all[1..] == [];
    } else {
      assert all[0] == parameters[0] && all[1..] == parameters[1..] + [x];
      QualityUnfold(q, parameters);
      QualityLastWins(Reading(q, parameters[0]).value, parameters[1..], x);
    }
  }

  /** A `q=` parameter whose numeral does not parse makes the whole reading throw. */
  lemma {:induction false} QualityFails(q: real, parameters: seq<string>, k: int)
    requires 0 <= k < |parameters| && IsQuality(parameters[k])
    requires ParseDecimal(QualityText(parameters[k])).Err?
    ensures QualityOf(q, parameters) == Err(Format)
    decreases |parameters|
  {
    QualityUnfold(q, parameters);
    if k > 0 {
      var next := Reading(q, parameters[0]);
      assert parameters[1..][k - 1] == parameters[k];
      if next.Ok? {
        QualityFails(next.value, parameters[1..], k - 1);
      }
    }
  }

  // ----- Rating the supported types ---------------------------------------------------

  /** Each supported type with the preference the user agent stated for it so far. */
  type Preferences = map<string, real>

  /** The dictionary the method starts from: every supported type at preference 0. */
  function Zeros(types: seq<string>): (prefs: Preferences)
    ensures forall t :: t in prefs <==> t in types
  {
    map t | t in types :: 0.0
  }

  /** No type is listed twice. */
  predicate Distinct(types: seq<string>)
  {
    forall i, j :: 0 <= i < j < |types| ==> types[i] != types[j]
  }

  /** What one `Accept` entry does to the preference for one supported type `t`: an exact
      match sets it to 1; an entry `t;...` sets it to 1 and then to each `q=` value in
      turn; a first segment other than `t` leaves it; an entry of `;` only cannot be
      indexed and throws. */
  function Rated(prefs: Preferences, entry: string, t: string): (r: Result<Preferences>)
    ensures r.Ok? && t in prefs ==> r.value.Keys == prefs.Keys
    ensures r.Ok? ==> forall u :: u in prefs && u != t ==> u in r.value && r.value[u] == prefs[u]
    ensures r.Err? ==> r.error == IndexOutOfRange || r.error == Format
  {
    if entry == t then Ok(prefs[t := 1.0])
    else if t + ";" <= entry then
      var segments := SplitRemoveEmpty(entry, ';');
      if segments == [] then Err(IndexOutOfRange)
      else if segments[0] != t then Ok(prefs)
      else
        match QualityOf(1.0, segments[1..])
        case Err(e) => Err(e)
        case Ok(q) => Ok(prefs[t := q])
    else Ok(prefs)
  }

  /** An entry naming a type with a single quality parameter sets that type's preference
      to the parameter's value. */
  lemma RatedWithQuality(prefs: Preferences, t: string, x: string, v: real)
    requires t != [] && ';' !in t && ';' !in x
    requires x != [] && !IsWhiteSpace(x[|x| - 1]) && ParseDecimal(x) == Ok(v)
    ensures Rated(prefs, t + ";q=" + x, t) == Ok(prefs[t := v])
  {
    var p := "q=" + x;
    assert ';' !in p;
    QualityParameter(x, p);
    SingleQuality(p);
    EntryText(t, x);
    RatedWithOneParameter(prefs, t, p, v);
  }

  /** An entry `t;p` whose one parameter reads to `q` sets `t` to `q`. */
  lemma RatedWithOneParameter(prefs: Preferences, t: string, p: string, q: real)
    requires t != [] && p != [] && ';' !in t && ';' !in p
    requires QualityOf(1.0, [p]) == Ok(q)
    ensures Rated(prefs, t + ";" + p, t) == Ok(prefs[t := q])
  {
    SplitEntry(t, p, t + ";" + p);
    assert [t, p][1..] == [p];
    RatedWithParameters(prefs, t + ";" + p, t, [t, p], q);
  }

  /** A single quality parameter reads to the value of its numeral. */
  lemma SingleQuality(p: string)
    requires IsQuality(p)
    ensures QualityOf(1.0, [p]) == ParseDecimal(QualityText(p))
  {
    QualityUnfold(1.0, [p]);
    assert [p][1..] == [];
  }

  /** An entry `t;...` whose parameters read to the quality `q` sets `t` to `q`. */
  lemma RatedWithParameters(prefs: Preferences, entry: string, t: string, segments: seq<string>, q: real)
    requires entry != t && t + ";" <= entry
    requires SplitRemoveEmpty(entry, ';') == segments && segments != [] && segments[0] == t
    requires QualityOf(1.0, segments[1..]) == Ok(q)
    ensures Rated(prefs, entry, t) == Ok(prefs[t := q])
  {
  }

  /** `t;q=x` is `t`, `;` and the parameter `q=x`. */
  lemma EntryText(t: string, x: string)
    ensures t + ";q=" + x == t + ";" + ("q=" + x)
  {
    assert ";q=" == ";" + "q=";
  }

  /** `t;p` splits into `t` and `p`, and starts with `t;`. */
  lemma SplitEntry(t: string, p: string, entry: string)
    requires t != [] && p != [] && ';' !in t && ';' !in p && entry == t + ";" + p
    ensures t + ";" <= entry && entry != t
    ensures SplitRemoveEmpty(entry, ';') == [t, p]
  {
    assert entry == Join([t, p], ';') by {
      assert Join([t, p], ';') == t + [';'] + Join([p], ';');
    }
    SplitRemoveEmptyJoin([t, p], ';');
    assert entry[..|t| + 1] == t + ";";
  }

  /** `q=x` with no white space at its end is a quality parameter with numeral `x`. */
  lemma QualityParameter(x: string, p: string)
    requires x != [] && !IsWhiteSpace(x[|x| - 1]) && p == "q=" + x
    ensures IsQuality(p) && QualityText(p) == x
  {
    assert TrimStartWhiteSpace(p) == p;
    assert TrimEndWhiteSpace(p) == p;
  }

  /** An entry that names no supported type leaves every preference as it was. */
  lemma {:induction false} EntryNamingNone(prefs: Preferences, entry: string, types: seq<string>)
    requires forall i :: 0 <= i < |types| ==> entry != types[i] && !(types[i] + ";" <= entry)
    ensures RatedByEntry(prefs, entry, types) == Ok(prefs)
    decreases |types|
  {
    if types != [] {
      EntryNamingNone(prefs, entry, types[1..]);
    }
  }

  /** One `Accept` entry applied to every supported type in turn. */
  function RatedByEntry(prefs: Preferences, entry: string, types: seq<string>): (r: Result<Preferences>)
    ensures r.Ok? && (forall t :: t in types ==> t in prefs) ==> r.value.Keys == prefs.Keys
    decreases |types|
  {
    if types == [] then Ok(prefs)
    else
      match Rated(prefs, entry, types[0])
      case Err(e) => Err(e)
      case Ok(p) => RatedByEntry(p, entry, types[1..])
  }

  /** A null or empty `Accept` entry is skipped. */
  predicate Skipped(entry: Option<string>)
  {
    entry.None? || entry.value == []
  }

  /** Every `Accept` entry in turn, null and empty ones skipped. */
  function RatedByHeader(prefs: Preferences, entries: seq<Option<string>>, types: seq<string>)
    : (r: Result<Preferences>)
    ensures r.Ok? && (forall t :: t in types ==> t in prefs) ==> r.value.Keys == prefs.Keys
    decreases |entries|
  {
    if entries == [] then Ok(prefs)
    else if Skipped(entries[0]) then RatedByHeader(prefs, entries[1..], types)
    else
      match RatedByEntry(prefs, entries[0].value, types)
      case Err(e) => Err(e)
      case Ok(p) => RatedByHeader(p, entries[1..], types)
  }

  /** A header of null and empty entries only changes nothing. */
  lemma {:induction false} HeaderOfSkippedEntries(prefs: Preferences, entries: seq<Option<string>>, types: seq<string>)
    requires forall i :: 0 <= i < |entries| ==> Skipped(entries[i])
    ensures RatedByHeader(prefs, entries, types) == Ok(prefs)
    decreases |entries|
  {
    if entries != [] {
      HeaderOfSkippedEntries(prefs, entries[1..], types);
    }
  }

  // ----- Choosing ---------------------------------------------------------------------

  /** A type that may be chosen: the user agent named it, or it does not need to be named. */
  predicate Eligible(prefs: Preferences, explicit: seq<string>, t: string)
    requires t in prefs
  {
    prefs[t] > 0.0 || t !in explicit
  }

  /** The preference a candidate has to beat: the chosen one's, or -1 before any. */
  function ToBeat(prefs: Preferences, chosen: Option<string>): real
    requires chosen.Some? ==> chosen.value in prefs
  {
    if chosen.None? then -1.0 else prefs[chosen.value]
  }

  /** The types from position `k` on in turn, each replacing the choice so far when it is
      eligible and strictly more preferred. */
  function Selection(prefs: Preferences, explicit: seq<string>, chosen: Option<string>, types: seq<string>, k: nat)
    : (r: Option<string>)
    requires k <= |types| && forall t :: t in types ==> t in prefs
    requires chosen.Some? ==> chosen.value in prefs
    ensures r.Some? ==> r.value in prefs
    decreases |types| - k
  {
    if k == |types| then chosen
    else
      var t := types[k];
      var next := if prefs[t] > ToBeat(prefs, chosen) && Eligible(prefs, explicit, t) then Some(t) else chosen;
      Selection(prefs, explicit, next, types, k + 1)
  }

  /** The choice is the earlier one or an eligible type that beats it, and it never gets
      less preferred. */
  lemma {:induction false} SelectionBeats(prefs: Preferences, explicit: seq<string>,
                                          chosen: Option<string>, types: seq<string>, k: nat)
    requires k <= |types| && forall t :: t in types ==> t in prefs
    requires chosen.Some? ==> chosen.value in prefs
    ensures var r := Selection(prefs, explicit, chosen, types, k);
      && (r == chosen || (r.Some? && r.value in types && Eligible(prefs, explicit, r.value)
                          && prefs[r.value] > ToBeat(prefs, chosen)))
      && ToBeat(prefs, r) >= ToBeat(prefs, chosen)
    decreases |types| - k
  {
    if k < |types| {
      var t := types[k];
      var next := if prefs[t] > ToBeat(prefs, chosen) && Eligible(prefs, explicit, t) then Some(t) else chosen;
      SelectionBeats(prefs, explicit, next, types, k + 1);
    }
  }

  /** Every eligible type from position `k` on is at most as preferred as the choice. */
  lemma {:induction false} SelectionBounds(prefs: Preferences, explicit: seq<string>,
                                           chosen: Option<string>, types: seq<string>, k: nat)
    requires k <= |types| && forall t :: t in types ==> t in prefs
    requires chosen.Some? ==> chosen.value in prefs
    ensures var r := Selection(prefs, explicit, chosen, types, k);
      forall i :: k <= i < |types| && Eligible(prefs, explicit, types[i]) ==> prefs[types[i]] <= ToBeat(prefs, r)
    decreases |types| - k
  {
    if k < |types| {
      var t := types[k];
      var next := if prefs[t] > ToBeat(prefs, chosen) && Eligible(prefs, explicit, t) then Some(t) else chosen;
      SelectionBounds(prefs, explicit, next, types, k + 1);
      SelectionBeats(prefs, explicit, next, types, k + 1);
    }
  }

  /** A new choice comes no later than any eligible type as preferred as it: ties go to
      the earliest type. */
  lemma {:induction false} SelectionFirst(prefs: Preferences, explicit: seq<string>,
                                          chosen: Option<string>, types: seq<string>, k: nat)
    requires k <= |types| && forall t :: t in types ==> t in prefs
    requires chosen.Some? ==> chosen.value in prefs
    ensures var r := Selection(prefs, explicit, chosen, types, k);
      r.Some? && r != chosen ==>
        forall i :: (k <= i < |types| && Eligible(prefs, explicit, types[i])
                     && prefs[types[i]] >= ToBeat(prefs, r)) ==> r.value in types[k..i + 1]
    decreases |types| - k
  {
    if k < |types| {
      var t := types[k];
      var next := if prefs[t] > ToBeat(prefs, chosen) && Eligible(prefs, explicit, t) then Some(t) else chosen;
      SelectionFirst(prefs, explicit, next, types, k + 1);
      SelectionBeats(prefs, explicit, next, types, k + 1);
      var r := Selection(prefs, explicit, next, types, k + 1);
      if r.Some? && r != chosen {
        forall i | k <= i < |types| && Eligible(prefs, explicit, types[i]) && prefs[types[i]] >= ToBeat(prefs, r)
          ensures r.value in types[k..i + 1]
        {
          if r == next {
            assert types[k..i + 1][0] == t;
          } else if i > k {
            assert types[k + 1..i + 1] == types[k..i + 1][1..];
          }
        }
      }
    }
  }

  /** What the method returns for a choice: the type, or the empty string for none. */
  function Answer(chosen: Option<string>): string
  {
    if chosen.None? then "" else chosen.value
  }

  /** `PreferredMimeType(acceptTypesHeader, supportedMimeTypes, requireExplicitSupportFor)`
      as a value: the argument checks, the dictionary of supported types, the preferences
      read from the header, then the choice. */
  function Preferred(acceptTypesHeader: Option<seq<Option<string>>>, supportedMimeTypes: Option<seq<string>>,
                     requireExplicitSupportFor: Option<seq<string>>): (r: Result<string>)
    ensures supportedMimeTypes.None? ==> r == Err(ArgumentNull("supportedMimeTypes"))
    ensures supportedMimeTypes.Some? && |supportedMimeTypes.value| < 2 ==> r == Err(Argument("supportedMimeTypes"))
  {
    if supportedMimeTypes.None? then Err(ArgumentNull("supportedMimeTypes"))
    else
      var types := supportedMimeTypes.value;
      if |types| < 2 then Err(Argument("supportedMimeTypes"))
      else if !Distinct(types) then Err(Argument(""))
      else if requireExplicitSupportFor.None? then Err(ArgumentNull("collection"))
      else
        var entries := if acceptTypesHeader.None? then [] else acceptTypesHeader.value;
        match RatedByHeader(Zeros(types), entries, types)
        case Err(e) => Err(e)
        case Ok(prefs) => Ok(Answer(Selection(prefs, requireExplicitSupportFor.value, None, types, 0)))
  }

  /** The answer is the empty string only when no type is eligible with a preference above
      -1; otherwise it is the first eligible supported type of highest preference. A type
      that needs explicit support is never chosen at preference 0. */
  lemma PreferredIsFirstBest(acceptTypesHeader: Option<seq<Option<string>>>, types: seq<string>,
                             explicit: seq<string>, prefs: Preferences)
    requires |types| >= 2 && Distinct(types)
    requires RatedByHeader(Zeros(types), if acceptTypesHeader.None? then [] else acceptTypesHeader.value, types) == Ok(prefs)
    ensures forall t :: t in types ==> t in prefs
    ensures var c := Selection(prefs, explicit, None, types, 0);
      Preferred(acceptTypesHeader, Some(types), Some(explicit)) == Ok(Answer(c))
      && (c.None? <==> forall i :: 0 <= i < |types| && Eligible(prefs, explicit, types[i]) ==> prefs[types[i]] <= -1.0)
      && (c.Some? ==>
            && c.value in types && Eligible(prefs, explicit, c.value) && prefs[c.value] > -1.0
            && (forall i :: 0 <= i < |types| && Eligible(prefs, explicit, types[i]) ==>
                  prefs[types[i]] <= prefs[c.value])
            && (forall i ::
                  (0 <= i < |types| && Eligible(prefs, explicit, types[i]) && prefs[types[i]] == prefs[c.value])
                  ==> c.value in types[..i + 1]))
  {
    var c := Selection(prefs, explicit, None, types, 0);
    SelectionBeats(prefs, explicit, None, types, 0);
    SelectionBounds(prefs, explicit, None, types, 0);
    SelectionFirst(prefs, explicit, None, types, 0);
    if c.None? {
      assert ToBeat(prefs, c) == -1.0;
    } else {
      assert c.value !in explicit ==> Eligible(prefs, explicit, c.value);
    }
  }

  /** Without an `Accept` header every preference stays 0, so the answer is the first
      supported type that does not need explicit support, or the empty string. */
  lemma {:induction false} PreferredWithoutHeader(types: seq<string>, explicit: seq<string>)
    requires |types| >= 2 && Distinct(types)
    ensures Preferred(None, Some(types), Some(explicit)) == Ok(Answer(FirstNotIn(types, explicit)))
  {
    var zeros := Zeros(types);
    assert RatedByHeader(zeros, [], types) == Ok(zeros);
    ZerosSelectFirst(zeros, explicit, types, 0);
    assert types[0..] == types;
  }

  /** The first of `types` that is not in `explicit`. */
  function FirstNotIn(types: seq<string>, explicit: seq<string>): (r: Option<string>)
    ensures r.Some? ==> r.value in types && r.value !in explicit
    ensures r.None? ==> forall i :: 0 <= i < |types| ==> types[i] in explicit
  {
    if types == [] then None
    else if types[0] !in explicit then Some(types[0])
    else FirstNotIn(types[1..], explicit)
  }

  /** With every preference 0 the choice is the first type from position `k` on that does
      not need explicit support. */
  lemma {:induction false} ZerosSelectFirst(prefs: Preferences, explicit: seq<string>, types: seq<string>, k: nat)
    requires k <= |types| && forall t :: t in types ==> t in prefs && prefs[t] == 0.0
    ensures Selection(prefs, explicit, None, types, k) == FirstNotIn(types[k..], explicit)
    decreases |types| - k
  {
    if k < |types| {
      var t := types[k];
      assert types[k..][0] == t && types[k..][1..] == types[k + 1..];
      if t !in explicit {
        SelectionKeepsZero(prefs, explicit, t, types, k + 1);
      } else {
        ZerosSelectFirst(prefs, explicit, types, k + 1);
      }
    }
  }

  /** Once a type at preference 0 is chosen, other types at 0 do not replace it. */
  lemma {:induction false} SelectionKeepsZero(prefs: Preferences, explicit: seq<string>, t: string,
                                              types: seq<string>, k: nat)
    requires t in prefs && prefs[t] == 0.0
    requires k <= |types| && forall u :: u in types ==> u in prefs && prefs[u] == 0.0
    ensures Selection(prefs, explicit, Some(t), types, k) == Some(t)
    decreases |types| - k
  {
    if k < |types| {
      SelectionKeepsZero(prefs, explicit, t, types, k + 1);
    }
  }

  // ----- The method -------------------------------------------------------------------

  /** `PreferredMimeType(acceptTypesHeader, supportedMimeTypes, requireExplicitSupportFor)`:
      fewer than two supported types, a repeated one or a null explicit list throw; otherwise
      the answer is the empty string or a supported type. */
  method PreferredMimeType(acceptTypesHeader: Option<seq<Option<string>>>, supportedMimeTypes: Option<seq<string>>,
                           requireExplicitSupportFor: Option<seq<string>>) returns (r: Result<string>)
    ensures r == Preferred(acceptTypesHeader, supportedMimeTypes, requireExplicitSupportFor)
    ensures r.Ok? ==> r.value == "" || r.value in supportedMimeTypes.value
  {
    if supportedMimeTypes.None? {
      return Err(ArgumentNull("supportedMimeTypes"));
    }
    var supported := supportedMimeTypes.value;
    if |supported| < 2 {
      return Err(Argument("supportedMimeTypes"));
    }

    var candidateMimeTypes := CandidatesOf(supported);
    if candidateMimeTypes.None? {
      return Err(Argument(""));
    }
    if requireExplicitSupportFor.None? {
      return Err(ArgumentNull("collection"));
    }
    var explicitSupportOnly := requireExplicitSupportFor.value;

    var entries := if acceptTypesHeader.None? then [] else acceptTypesHeader.value;
    var rated := RateHeader(candidateMimeTypes.value, entries, supported);
    if rated.Err? {
      return Err(rated.error);
    }
    var preferredMimeType := Choose(rated.value, explicitSupportOnly, supported);
    return Ok(preferredMimeType);
  }

  /** The outer loop of the source: every `Accept` entry in turn, null and empty ones
      skipped. */
  method RateHeader(prefs0: Preferences, entries: seq<Option<string>>, supported: seq<string>)
    returns (r: Result<Preferences>)
    requires forall t :: t in supported ==> t in prefs0
    ensures r == RatedByHeader(prefs0, entries, supported)
  {
    var prefs := prefs0;
    var i := 0;
    while i < |entries|
      invariant 0 <= i <= |entries|
      invariant forall t :: t in supported ==> t in prefs
      invariant RatedByHeader(prefs, entries[i..], supported) == RatedByHeader(prefs0, entries, supported)
      decreases |entries| - i
    {
      ghost var before := prefs;
      HeaderStep(before, entries, i, supported);
      if !Skipped(entries[i]) {
        var rated := RateEntry(prefs, entries[i].value, supported);
        if rated.Err? {
          return Err(rated.error);
        }
        prefs := rated.value;
      }
      i := i + 1;
    }
    assert entries[i..] == [];
    return Ok(prefs);
  }

  /** The last loop of the source: each supported type in turn replaces the choice when
      the user agent prefers it strictly more and it is eligible. */
  method Choose(prefs: Preferences, explicitSupportOnly: seq<string>, supported: seq<string>)
    returns (preferredMimeType: string)
    requires forall t :: t in supported ==> t in prefs
    ensures preferredMimeType == Answer(Selection(prefs, explicitSupportOnly, None, supported, 0))
  {
    preferredMimeType := "";
    var preferenceToBeat := -1.0;
    ghost var chosen: Option<string> := None;
    var k := 0;
    while k < |supported|
      invariant 0 <= k <= |supported|
      invariant chosen.Some? ==> chosen.value in prefs
      invariant preferredMimeType == Answer(chosen) && preferenceToBeat == ToBeat(prefs, chosen)
      invariant Selection(prefs, explicitSupportOnly, chosen, supported, k)
        == Selection(prefs, explicitSupportOnly, None, supported, 0)
      decreases |supported| - k
    {
      var mimeType := supported[k];
      if prefs[mimeType] > preferenceToBeat {
        if prefs[mimeType] > 0.0 || mimeType !in explicitSupportOnly {
          preferredMimeType := mimeType;
          preferenceToBeat := prefs[mimeType];
          chosen := Some(mimeType);
        }
      }
      k := k + 1;
    }
  }

  /** One entry of the header loop: skipped, or applied to every supported type. */
  lemma HeaderStep(before: Preferences, entries: seq<Option<string>>, i: int, types: seq<string>)
    requires 0 <= i < |entries|
    ensures Skipped(entries[i]) ==> RatedByHeader(before, entries[i..], types) == RatedByHeader(before, entries[i + 1..], types)
    ensures !Skipped(entries[i]) ==>
              RatedByHeader(before, entries[i..], types) ==
              (match RatedByEntry(before, entries[i].value, types)
               case Err(e) => Err(e)
               case Ok(p) => RatedByHeader(p, entries[i + 1..], types))
  {
    assert entries[i..][0] == entries[i] && entries[i..][1..] == entries[i + 1..];
  }

  /** Filling the dictionary with every supported type at preference 0; `None` when a type
      repeats, where `Dictionary.Add` throws. */
  method CandidatesOf(types: seq<string>) returns (r: Option<Preferences>)
    ensures r.None? <==> !Distinct(types)
    ensures r.Some? ==> r.value == Zeros(types)
  {
    var candidates: Preferences := map[];
    var i := 0;
    while i < |types|
      invariant 0 <= i <= |types|
      invariant Distinct(types[..i])
      invariant candidates == Zeros(types[..i])
      decreases |types| - i
    {
      var mimeType := types[i];
      if mimeType in candidates {
        var j :| 0 <= j < i && types[..i][j] == mimeType;
        assert types[j] == types[i];
        return None;
      }
      assert types[..i + 1] == types[..i] + [mimeType];
      candidates := candidates[mimeType := 0.0];
      i := i + 1;
    }
    assert types[..i] == types;
    return Some(candidates);
  }

  /** The middle loop of the source: one `Accept` entry against every supported type. */
  method RateEntry(prefs0: Preferences, entry: string, types: seq<string>) returns (r: Result<Preferences>)
    requires forall t :: t in types ==> t in prefs0
    ensures r == RatedByEntry(prefs0, entry, types)
  {
    var prefs := prefs0;
    var i := 0;
    while i < |types|
      invariant 0 <= i <= |types|
      invariant prefs.Keys == prefs0.Keys
      invariant RatedByEntry(prefs, entry, types[i..]) == RatedByEntry(prefs0, entry, types)
      decreases |types| - i
    {
      var supportedMimeType := types[i];
      ghost var before := prefs;
      var rated := RateType(prefs, entry, supportedMimeType);
      EntryStep(before, entry, types, i);
      if rated.Err? {
        return Err(rated.error);
      }
      prefs := rated.value;
      i := i + 1;
    }
    assert types[i..] == [];
    return Ok(prefs);
  }

  /** One supported type of the middle loop. */
  lemma EntryStep(before: Preferences, entry: string, types: seq<string>, i: int)
    requires 0 <= i < |types|
    ensures RatedByEntry(before, entry, types[i..]) ==
      match Rated(before, entry, types[i])
      case Err(e) => Err(e)
      case Ok(p) => RatedByEntry(p, entry, types[i + 1..])
  {
    assert types[i..][0] == types[i] && types[i..][1..] == types[i + 1..];
  }

  /** The body of the middle loop for one supported type. */
  method RateType(prefs: Preferences, entry: string, supportedMimeType: string) returns (r: Result<Preferences>)
    ensures r == Rated(prefs, entry, supportedMimeType)
  {
    if entry == supportedMimeType {
      return Ok(prefs[supportedMimeType := 1.0]);
    }
    if supportedMimeType + ";" <= entry {
      var segments := SplitRemoveEmpty(entry, ';');
      if segments == [] {
        return Err(IndexOutOfRange);
      }
      if segments[0] == supportedMimeType {
        var q := ReadQuality(segments);
        if q.Err? {
          return Err(q.error);
        }
        return Ok(prefs[supportedMimeType := q.value]);
      }
    }
    return Ok(prefs);
  }

  /** The innermost loop: the type's preference set to 1, then to each `q=` value. */
  method ReadQuality(segments: seq<string>) returns (r: Result<real>)
    requires |segments| >= 1
    ensures r == QualityOf(1.0, segments[1..])
  {
    var q := 1.0;
    var i := 1;
    while i < |segments|
      invariant 1 <= i <= |segments|
      invariant QualityOf(q, segments[i..]) == QualityOf(1.0, segments[1..])
      decreases |segments| - i
    {
      var next := ReadSegment(q, segments[i]);
      QualityStep(q, segments, i);
      if next.Err? {
        return next;
      }
      q := next.value;
      i := i + 1;
    }
    assert segments[i..] == [];
    return Ok(q);
  }

  /** One parameter segment: a trimmed `q=` segment replaces the quality `q` with its
      numeral's value, or fails if the numeral does not parse; any other segment keeps `q`. */
  method ReadSegment(q: real, segment: string) returns (next: Result<real>)
    ensures next == Reading(q, segment)
  {
    var trimmed := Trim(segment);
    if "q=" <= trimmed {
      next := ParseDecimal(trimmed[2..]);
    } else {
      next := Ok(q);
    }
  }

  /** One segment of the innermost loop. */
  lemma QualityStep(q: real, segments: seq<string>, i: int)
    requires 0 <= i < |segments|
    ensures var next := Reading(q, segments[i]);
      QualityOf(q, segments[i..]) == if next.Err? then next else QualityOf(next.value, segments[i + 1..])
  {
    assert segments[i..][0] == segments[i] && segments[i..][1..] == segments[i + 1..];
    QualityUnfold(q, segments[i..]);
  }
}
