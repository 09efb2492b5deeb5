# Escc.Web, modelled in Dafny

Escc.Web is a .NET library of helpers for web pages and HTTP responses. This project models
its string and collection logic around URLs and HTTP headers, and proves properties of it:

- **Query strings and URL builders** (`Iri`, `QueryStrings`): `SplitQueryString` turns a
  query into an ordered name/value list. Repeated names are comma-joined, and segments with no
  `=` or an empty name are dropped. `PrepareUrlForNewQueryStringParameter`,
  `RemoveQueryStringParameter` and `ListFilesAndFoldersInPath` build URLs and paths from it.
  The parsed query is a sequence of pairs with unique names, because insertion order is
  observable. The four members model both `Escc.Web/Iri.cs` and the identical copies in the
  older `Iri.cs` (lines 333-366, 368-413, 415-483 and 485-524).
- **URL signing** (`UrlProtection`, `LegacyIri`, `Base64`): a hash of `salt + query + salt`
  is added as a parameter. Checking rebuilds the query without the hash parameter, in parsed
  order, and compares the hashes exactly. SHA-1 over UTF-8 is a function parameter; Base64
  (section 4 of RFC 4648) is concrete. The older `Iri.cs` version takes its salt from
  configuration, passed in here as an optional string.
- **URL expiry** (`UrlExpiry`, `Timestamps`, `LegacyIri`): a `yyyyMMddHHmmss` stamp is added
  and the URL signed. A URL that fails its check or has no stamp is expired. Otherwise it is
  expired exactly when more than the window has passed since the stamp. Time is a date and
  time record counted in seconds since 0001-01-01; the stamp is a codec with a round trip.
- **Content Security Policy** (`ContentSecurity`, `LegacyContentSecurity`,
  `ContentSecurityHeaders`, `ContentSecurityFilter`, `Headers`): a policy object holds directives in
  first-appearance order, each with its sources de-duplicated, and is appended to in place.
  `ToString` writes it in the serialized-policy form of section 2.2 of W3C Content Security
  Policy Level 3. A header object reads and rewrites the `Content-Security-Policy` header. A
  URL filter decides whether the policy applies.
- **CORS** (`Cors`, `CrossOrigin`, `LegacyCors`): the request's `Origin` is lower-cased and
  matched against the allowed origins, with a `:*` port wildcard in `CorsHeaders`. When it
  matches, it is echoed back in `Access-Control-Allow-Origin` (section 3.2 of the WHATWG Fetch
  Standard).
- **URL abbreviation** (`UrlPresentation`): leading path segments are dropped to fit a length
  budget, and the query is cut when the text is still too long.
- **Accept-header MIME selection** (`Http`): `PreferredMimeType` rates each supported type
  from the `Accept` header's entries and `q=` values (sections 14.1 and 3.9 of RFC 2616). Quality values are
  exact rationals, as the source's `decimal` keeps them. It then picks the most preferred type.

Code that updates state in the source is modelled with classes and loops. The policy object
and the header collections are classes whose methods say exactly what they change. Every loop
of the source is a method proved against a recursive function. The properties that the source
and its tests promise are proved about those functions.

## Model

| member | source | states |
|---|---|---|
| QueryStrings.SplitPair | Escc.Web/Iri.cs:226-227 | a segment yields a pair exactly when it holds `=` and does not start with it; the name is everything before the first `=` (non-empty, no `=`), the value everything after it, so `name=value` rebuilds the segment |
| QueryStrings.GroupUniqueKeys | Escc.Web/Iri.cs:229-236 | the dictionary built from the pairs never holds a name twice |
| QueryStrings.GroupKeysInFirstAppearanceOrder | Escc.Web/Iri.cs:229-236 | the keys are the pairs' names in order of first appearance, later repeats dropped |
| QueryStrings.GroupHasKey | Escc.Web/Iri.cs:226-236 | a name is a key exactly when some kept pair carries it |
| QueryStrings.ValuesForNonEmpty | Escc.Web/Iri.cs:226-236 | some pair has a value for a name exactly when the name is among the pairs' names |
| QueryStrings.GroupValues | Escc.Web/Iri.cs:229-236 | the value under each key is every value given for that name, in order, joined with `,` |
| QueryStrings.Without | Escc.Web/Iri.cs:263-269 | the entries without `name`: `name` is no longer a key, every other entry is kept, and keys stay unique |
| QueryStrings.SerializeWithout | Escc.Web/Iri.cs:260-269 | the rebuild loop writes exactly the serialisation (`name=value` joined by `&`) of the dictionary without the excluded name |
| QueryStrings.SerializeNonEmpty | Escc.Web/Iri.cs:268 | the rebuilt text is empty exactly when no entry is left, so the `Length > 0` test for `&` is a test for an earlier entry |
| QueryStrings.ParseSerialize | Escc.Web/Iri.cs:215-241 | round trip: a canonical dictionary (unique non-empty names without `=` or `&`, values without `&`, no leading `?`) parses back from its serialisation |
| QueryStrings.ParsedEntriesWellFormed | Escc.Web/Iri.cs:215-241 | whatever a query parses to has unique keys, non-empty names without `=` or `&`, and values without `&` |
| QueryStrings.ParsedCanonical | Escc.Web/Iri.cs:215-241 | a parsed query whose first name does not start with `?` is canonical, so it survives a rebuild and a parse |
| QueryStrings.ParseAvoids | Escc.Web/Iri.cs:215-241 | parsing never puts into a name or value a character other than `,` that the query does not hold |
| QueryStrings.SerializeAvoids | Escc.Web/Iri.cs:263-269 | rebuilding adds only `=` and `&` to the names and values |
| QueryStrings.ParseMarked | Escc.Web/Iri.cs:219 | a `?` in front of a query does not change what it parses to, since every leading `?` is trimmed |
| QueryStrings.WithoutAbsent | Escc.Web/Iri.cs:263-269 | removing a name that is not a key leaves the dictionary unchanged |
| QueryStrings.WithoutLast | Escc.Web/Iri.cs:263-269 | removing the name of an entry added last drops that entry and nothing else |
| QueryStrings.SerializeSnoc | Escc.Web/Iri.cs:266-267 | one more entry is written after an `&`, or alone when it is the first |
| QueryStrings.SerializeExtendLast | Escc.Web/Iri.cs:266-267 | text appended to a rebuilt query lengthens the value of its last entry |
| QueryStrings.LookupLast | Escc.Web/Iri.cs:229-236 | a name added last under a new key looks up to the value it was added with |
| QueryStrings.LookupAppend | Escc.Web/Iri.cs:229-236 | entries added after a name's entry do not change what the name looks up to |
| QueryStrings.ParseSerializeSnoc | Escc.Web/Iri.cs:215-241 | a canonical dictionary with one more well-formed entry under a new name, written after `?`, parses back to exactly that dictionary |
| QueryStrings.ParseSerializeSnocExtended | Escc.Web/Iri.cs:215-241 | text without `&` appended after such a query joins the value of the last entry |
| QueryStrings.ReadyForParameter | Escc.Web/Iri.cs:347-354 | the prepared query ends in `?` or `&`, and starts with `?` whenever the query was empty or started with `?` |
| QueryStrings.ParseAppended | Escc.Web/Iri.cs:347-354 | appending `name=value` to a prepared query adds that pair after every existing one: the parse is the old parse with the pair added, a repeated name comma-joined |
| QueryStrings.ParseAppendedToEmpty | Escc.Web/Iri.cs:347-349 | the case of an empty query or a lone `?` |
| QueryStrings.ParseAppendedToMarks | Escc.Web/Iri.cs:351-354 | the case of a query made only of `?` marks |
| QueryStrings.ParseAppendedToQuery | Escc.Web/Iri.cs:351-354 | the case of a query with parameters |
| QueryStrings.AppendedRebuilt | Escc.Web/Iri.cs:347-354 | appending a new name's entry to a prepared query already written as rebuilt gives a query written as rebuilt |
| Iri.SplitQueryString | Escc.Web/Iri.cs:215-242 | null gives an empty dictionary; otherwise the parse of the query, which is empty when the query is only `?` marks |
| Iri.AddSegments | Escc.Web/Iri.cs:223-238 | the loop over the `&`-separated segments builds exactly the grouping of their kept pairs |
| Iri.CutAtFragment | Escc.Web/Iri.cs:328-332 | the text up to its first `#`: a prefix without `#`, all of it when it has none |
| Iri.RelativeQuery | Escc.Web/Iri.cs:317-332 | the query a relative URL carries is empty or starts with `?`, holds no `#`, and is empty when the text has no `?` |
| Iri.RelativePath | Escc.Web/Iri.cs:319-341 | the intended path is a prefix of the text without `?`, without `#` when there is no `?`, and the whole text when it has neither |
| Iri.PrepareUrlForNewQueryStringParameterAsWritten | Escc.Web/Iri.cs:297-356 | as written: null throws; an absolute URL gives scheme, host, `:port` off the default, path and the prepared query; a relative one gives its path only on the `?` and `#` branches, then the prepared query |
| Iri.PrepareUrlForNewQueryStringParameter | Escc.Web/Iri.cs:297-356 | as intended: null throws; for an absolute URL, or a relative one without `?`, the result holds no fragment; it always ends in `?` or `&`, is the URL's prefix and prepared query for an absolute URL, and keeps a relative URL's path |
| Iri.PrepareUrlVersionsAgree | Escc.Web/Iri.cs:319-345 | the two versions agree on every URL except a relative one with neither `?` nor `#` |
| Iri.PrepareUrlAsWrittenLosesRelativePath | Escc.Web/Iri.cs:334-343 | as written `/a/b` becomes `?`; the intended result is `/a/b?` |
| Iri.PrepareUrlKeepsRelativePath | Escc.Web/Iri.cs:334-343 | as intended, a relative URL with neither `?` nor `#` becomes its whole text followed by `?` |
| Iri.AddParameter | Escc.Web/Iri.cs:347-354 | the URL with `name=value` after the prepared query: same scheme, host, port and path, the new query is the prepared query and the entry, and no fragment is left |
| Iri.AddParameterRebuilt | Escc.Web/Iri.cs:347-354 | a query written as it is rebuilt, holding a parameter or empty or `?` alone, stays so when a new name is added |
| Iri.AddParameterParses | Escc.Web/Iri.cs:347-354 | the added parameter comes after every existing one in the parsed query, and a repeated name gets the new value comma-joined to the old |
| Iri.ResolvedRelativeQuery | Escc.Web/Iri.cs:256-257 | the query of a resolved relative URL is empty or starts with `?`, holds no `#`, and is empty when the text has no `?` |
| Iri.QueryOf | Escc.Web/Iri.cs:256-257 | the `Query` read from the URL is empty or starts with `?` and holds no `#` |
| Iri.QueryWithout | Escc.Web/Iri.cs:258-269 | the rebuilt query holds no `#` when the query holds none |
| Iri.FragmentAfterQuery | Escc.Web/Iri.cs:275-281 | the fragment kept is empty or starts with `#` |
| Iri.QueryText | Escc.Web/Iri.cs:286 | the rebuilt query goes back after a `?`, and is left out (no `?`) exactly when it is empty |
| Iri.BeforeQuery | Escc.Web/Iri.cs:272-283 | the text before the first `?` is a prefix without `?` |
| Iri.RemovedParameter | Escc.Web/Iri.cs:258-289 | an absolute URL keeps everything before the query and its fragment and gets the rebuilt query; a relative one keeps its text before `?` and the fragment after it |
| Iri.RemoveQueryStringParameter | Escc.Web/Iri.cs:250-290 | a null URL or name throws `ArgumentNullException` naming it; a URL without a query comes back unchanged; otherwise the result is the URL with the parameter removed |
| Iri.RemovedFromAbsolute | Escc.Web/Iri.cs:272-289 | re-reading the reassembled text of an absolute URL gives the URL with only the query replaced |
| Iri.ReassembleAbsolute | Escc.Web/Iri.cs:272-287 | on an absolute URL with a query, the string surgery keeps the prefix and the fragment and puts the rebuilt query between them |
| Iri.ReassembleParts | Escc.Web/Iri.cs:272-287 | the same surgery on any text made of a part without `?` or `#`, a query and a fragment |
| Iri.RemovedParameterParses | Escc.Web/Iri.cs:258-289 | after removal the parsed query is the old one without `name`, every other parameter in its old order, and `name` is gone |
| Iri.QueryWithoutParses | Escc.Web/Iri.cs:260-269 | the rebuilt query, with or without its `?`, parses to the old parameters without `name` |
| Iri.Ancestors | Escc.Web/Iri.cs:391-397 | the list starts with the path itself and is empty for an empty path |
| Iri.AncestorsArePrefixes | Escc.Web/Iri.cs:391-397 | every element is a non-empty beginning of the path |
| Iri.AncestorsCutAtLastSlash | Escc.Web/Iri.cs:391-397 | each element after the first is the one before it cut at its last `/` |
| Iri.AncestorsEnd | Escc.Web/Iri.cs:391-397 | the cutting stops at an element with no `/`, or with only a leading one |
| Iri.AncestorsFromRoot | Escc.Web/Iri.cs:372-397 | from a root path every element starts with `/` and the last has its only `/` in front |
| Iri.ListFilesAndFoldersInPath | Escc.Web/Iri.cs:367-401 | null throws `ArgumentNullException`; a relative URL not starting with `/` throws `ArgumentException`; otherwise the path (query cut off a root-relative URL), each ancestor cut at the last `/`, then `/` |
| UrlProtection.AlphanumericOnly | Escc.Web/UrlProtector.cs:107 | the filter keeps exactly the letters and digits of its input, in order, and nothing else |
| UrlProtection.AlphanumericOnlyKeepsClean | Escc.Web/UrlProtector.cs:107 | a string of letters and digits passes the filter unchanged |
| UrlProtection.CreateUrlHash | Escc.Web/UrlProtector.cs:97-109 | the hash of `salt + text without leading ? + salt` holds only letters and digits, so never `&`, `=`, `#` or `?` |
| UrlProtection.CreateUrlHashIgnoresMarks | Escc.Web/UrlProtector.cs:99 | leading `?`s do not change the hash: a query hashes like the same query without its `?` |
| UrlProtection.HashNonEmpty | Escc.Web/UrlProtector.cs:97-109 | a 20-byte digest always leaves at least one letter or digit after the filter, so the hash is never empty |
| UrlProtection.NewUrlProtector | Escc.Web/UrlProtector.cs:22-28 | a null or empty salt is refused with `ArgumentNullException("salt")`; otherwise the salt and hash parameter are kept as given |
| UrlProtection.AddPairAvoids | Escc.Web/UrlProtector.cs:41-42 | adding the hash entry to the parsed query adds no character but `,` that the entries and the new pair do not hold |
| UrlProtection.SignedQueryHasNoFragment | Escc.Web/UrlProtector.cs:41-43 | the signed query holds no `#` when the hash parameter's name holds none |
| UrlProtection.Signed | Escc.Web/UrlProtector.cs:41-43 | the protected URL keeps scheme, authority and path, and its query is `?` and the parsed query with the hash entry added; the fragment is dropped |
| UrlProtection.ProtectQueryStringAsWritten | Escc.Web/UrlProtector.cs:35-48 | as written: null throws `ArgumentNullException`, a relative URL `ArgumentException`; otherwise the URL signed with the hash of its raw `Query` text |
| UrlProtection.ProtectQueryString | Escc.Web/UrlProtector.cs:35-48 | as intended: the same, but the hash is of the query as the check rebuilds it from the parsed entries |
| UrlProtection.Verdict | Escc.Web/UrlProtector.cs:56-89 | null and relative URLs are errors naming `protectedUrl`; otherwise true exactly when the parsed query carries a non-empty hash equal to the hash of the other entries rebuilt in order |
| UrlProtection.UntamperedSnoc | Escc.Web/UrlProtector.cs:65-88 | a query whose last entry is the hash passes exactly when that hash is non-empty and is the hash of the entries before it |
| UrlProtection.CheckProtectedQueryString | Escc.Web/UrlProtector.cs:56-89 | the method, with its rebuild loop over the keys, returns exactly the verdict |
| UrlProtection.SignedQueryParses | Escc.Web/UrlProtector.cs:41-43 | the signed URL's query parses back to the original entries followed by the hash entry |
| UrlProtection.VerdictOfSigned | Escc.Web/UrlProtector.cs:65-88 | a URL whose parsed query is entries then the hash passes exactly when the hash is non-empty and matches those entries |
| UrlProtection.ProtectThenCheck | Escc.Web/UrlProtector.cs:35-89 | round trip: the URL that the corrected protect builds passes the check, for any query that does not already use the hash parameter |
| UrlProtection.ProtectAsWrittenThenCheck | Escc.Web/UrlProtector.cs:35-89 | as written, the check passes exactly when the hash of the rebuilt query equals the hash of the raw query, in particular when the raw query is already in rebuilt form |
| UrlProtection.AppendedTextFails | Escc.Web.Tests/UrlProtectorTests.cs:22-32 | text appended to a protected URL lengthens its hash entry, so the check fails |
| UrlProtection.AppendedHashFails | Escc.Web/UrlProtector.cs:80-88 | the same, with the hash given as a value |
| UrlProtection.LongerHashFails | Escc.Web/UrlProtector.cs:80-88 | a received hash that is the expected hash with text appended does not match |
| UrlProtection.TamperedFails | Escc.Web.Tests/UrlProtectorTests.cs:22-32 | any text without `&` or `#` appended to a protected URL makes the check fail |
| UrlProtection.ParseRepeatedName | Escc.Web/UrlProtector.cs:62 | `?n=v1&n=v2` parses to the single entry `n` = `v1,v2` |
| UrlProtection.RepeatedNameFailsAsWritten | Escc.Web/UrlProtector.cs:42 | as written, a URL giving one name two values fails its own check whenever the two hashes differ |
| UrlProtection.RepeatedNamePasses | Escc.Web/UrlProtector.cs:69-88 | the corrected protect of the same URL passes the check |
| UrlProtection.AddedAfterRepeatedName | Escc.Web/Iri.cs:347-354 | adding a new name to `?n=v1&n=v2` appends its entry to the text, while the parse, and so the rebuilt text, is `n=v1,v2` and then the new entry |
| UrlProtection.MissingHashFails | Escc.Web/UrlProtector.cs:65 | a URL with no hash parameter, or an empty one, fails the check |
| UrlExpiry.Protect | Escc.Web/UrlExpirer.cs:64 | the pass-through protector returns the URL as it is; the salted one signs the query text as written, as the expirer calls it |
| UrlExpiry.Check | Escc.Web/UrlExpirer.cs:97 | the pass-through protector accepts every URL; the salted one gives its verdict |
| UrlExpiry.NewUrlExpirer | Escc.Web/UrlExpirer.cs:27-32 | a null protector is refused with `ArgumentNullException("urlProtector")`; otherwise the protector and time parameter are kept |
| UrlExpiry.Stamped | Escc.Web/UrlExpirer.cs:61 | the stamped URL keeps its prefix and has `t=yyyyMMddHHmmss` after the existing parameters, with no fragment |
| UrlExpiry.ExpireUrl | Escc.Web/UrlExpirer.cs:41-65 | null throws `ArgumentNullException`, relative `ArgumentException`; otherwise the stamped URL passed once to the protector, which signs its query text as written |
| UrlExpiry.HasUrlExpired | Escc.Web/UrlExpirer.cs:75-113 | null and relative URLs throw; a rejected URL or a missing stamp is expired; the URL is unexpired exactly when it passes, carries a stamp that parses, and at most `validForSeconds` have elapsed |
| UrlExpiry.StampedParses | Escc.Web/UrlExpirer.cs:61 | the stamp reads back from the stamped URL, after the existing entries |
| UrlExpiry.PassThroughExpiry | Escc.Web/UrlExpirer.cs:54-113 | with the pass-through protector, an issued URL has expired exactly when more than the window has passed since the stamp |
| UrlExpiry.SignedStampLookup | Escc.Web/UrlExpirer.cs:61-64 | the stamp reads back from the URL signed over its query text, the hash entry following it |
| UrlExpiry.SignedAfterEntryChecks | Escc.Web/UrlExpirer.cs:64 | a stamped URL whose query is written as the check rebuilds it, signed over its query text, passes its check |
| UrlExpiry.CheckedStampExpiry | Escc.Web/UrlExpirer.cs:100-112 | a URL that passes and carries the stamp of `issued` has expired exactly when more than the window has passed |
| UrlExpiry.ExpireUrlSalted | Escc.Web/UrlExpirer.cs:61-64 | with the salted protector, the expirer issues the stamped URL signed with the hash of its query text as written |
| UrlExpiry.SaltedExpiry | Escc.Web/UrlExpirer.cs:54-113 | with the salted protector and a stamped query written as the check rebuilds it, an issued URL checked unaltered has expired exactly when more than the window has passed |
| UrlExpiry.SaltedExpiryOfRebuiltQuery | Escc.Web/UrlExpirer.cs:41-113 | the same round trip for every URL whose query is written as rebuilt and holds a parameter, or is empty or `?` alone: stamping keeps that form |
| UrlExpiry.RepeatedNameExpiresAtOnce | Escc.Web/UrlExpirer.cs:41-113 | as written, a URL `?n=v1&n=v2` has expired as soon as it is issued, whatever the window, whenever its stamped query text and the rebuilt `n=v1,v2` text hash differently |
| UrlExpiry.ExpiryBoundary | Escc.Web/UrlExpirer.cs:106 | the window is strict: exactly `validForSeconds` after the stamp the URL is valid, one second later expired |
| UrlExpiry.OneDayWindow | Escc.Web.Tests/UrlExpirerTests.cs:10-33 | issued at midnight on 1 January 2016 with a one-day window: valid at midnight on 2 January, expired a second later |
| UrlExpiry.MalformedStampThrows | Escc.Web/UrlExpirer.cs:105 | a stamp that is present but not a valid `yyyyMMddHHmmss` time is a `FormatException`, not a verdict |
| LegacyIri.CreateUrlHashWithConfig | Iri.cs:306-324 | a missing or empty `Salt` setting throws `ConfigurationErrorsException`; otherwise the same alphanumeric hash of `salt + text without leading ? + salt` |
| LegacyIri.ProtectQueryStringAsWritten | Iri.cs:247-257 | as written: null and relative URLs throw, a missing salt throws, otherwise `hashParameter=hash` of the raw query text is appended after the existing parameters |
| LegacyIri.ProtectQueryString | Iri.cs:247-257 | as intended: the same, but the hash is of the query as the check rebuilds it |
| LegacyIri.Verdict | Iri.cs:266-299 | null and relative URLs are errors; no hash parameter gives false; a present hash parameter with a missing salt throws (the expected hash is computed first); true exactly when the received hash is non-empty and equals the hash of the other entries rebuilt |
| LegacyIri.CheckProtectedQueryString | Iri.cs:266-299 | the method, with its rebuild loop, returns exactly the verdict |
| LegacyIri.ExpireUrl | Iri.cs:195-205 | null and relative URLs throw; otherwise the URL with `timeParameter=yyyyMMddHHmmss` appended, then protected as written, over its query text |
| LegacyIri.HasUrlExpired | Iri.cs:217-239 | null and relative URLs throw; a URL that fails the check is expired; it is unexpired exactly when it passes, carries a stamp that parses, and at most `validForSeconds` have elapsed |
| LegacyIri.VerdictOfAppended | Iri.cs:266-299 | a URL with `hashParameter=hash` appended passes exactly when `hash` is non-empty and is the hash of the original entries rebuilt |
| LegacyIri.ProtectThenCheck | Iri.cs:247-299 | round trip: with the salt configured, a URL protected as intended passes the check |
| LegacyIri.ProtectAsWrittenThenCheck | Iri.cs:247-299 | as written, the protected URL passes exactly when the raw query text hashes like the rebuilt query |
| LegacyIri.RepeatedNameFailsAsWritten | Iri.cs:256 | as written, `?n=v1&n=v2` fails its own check whenever its text and its rebuilt form `n=v1,v2` hash differently |
| LegacyIri.AppendedTextFails | Iri.cs:290-298 | text appended to the hash value makes the received hash differ from the expected one |
| LegacyIri.TamperedFails | Iri.cs:247-299 | text without `&` or `#` appended to a protected URL makes it fail the check |
| LegacyIri.AddParameterExtended | Iri.cs:256 | the URL built with a value extended by `t` is the URL built with the plain value, `t` appended to its query |
| LegacyIri.AddParameterSnoc | Iri.cs:201 | a parameter under a new name is read back as the last entry of the parsed query |
| LegacyIri.ProtectedStampLookup | Iri.cs:201-204 | the stamp reads back from the stamped URL protected over its query text, the hash entry following it |
| LegacyIri.ExpireThenCheck | Iri.cs:195-239 | round trip: a URL whose stamped query is written as the check rebuilds it, issued at `issued` and checked unaltered at `now`, has expired exactly when more than `validForSeconds` seconds have passed |
| LegacyIri.ExpireThenCheckOfRebuiltQuery | Iri.cs:195-239 | the same round trip for every URL whose query is written as rebuilt and holds a parameter, or is empty or `?` alone |
| LegacyIri.RepeatedNameExpiresAtOnce | Iri.cs:195-239 | as written, a URL `?n=v1&n=v2` has expired as soon as it is issued whenever its stamped query text and the rebuilt `n=v1,v2` text hash differently |
| LegacyIri.ExpireUrlIssues | Iri.cs:195-205 | with the salt configured, the stamped URL is issued with the hash of its query text as written appended |
| LegacyIri.CheckedStampExpiry | Iri.cs:226-238 | a URL that passes and carries the stamp of `issued` has expired exactly when more than the window has passed |
| Timestamps.DaysInMonth | Escc.Web/UrlExpirer.cs:105 | every month has 28 to 31 days, and February has 29 exactly in a leap year |
| Timestamps.DaysBeforeMonthsOfYear | Escc.Web/UrlExpirer.cs:106 | the months of a year add up to the days of the year |
| Timestamps.DaysBeforeNextYear | Escc.Web/UrlExpirer.cs:106 | each year adds its own days to the count of days since 0001-01-01 |
| Timestamps.DayNumberInYear | Escc.Web/UrlExpirer.cs:106 | the day number of a date lies within its year |
| Timestamps.DayNumberOrder | Escc.Web/UrlExpirer.cs:106 | an earlier date has a smaller day number |
| Timestamps.ToSecondsOrder | Escc.Web/UrlExpirer.cs:106 | seconds since 0001-01-01 follow chronological order and are one to one, so elapsed time is well defined |
| Timestamps.NextDay | Escc.Web.Tests/UrlExpirerTests.cs:15-17 | the same time on the next day is 86400 seconds later |
| Timestamps.PadDigits | Escc.Web/UrlExpirer.cs:61 | a number written with exactly `width` zero-padded decimal digits |
| Timestamps.DigitsValuePadDigits | Escc.Web/UrlExpirer.cs:61 | reading back a padded number gives the number |
| Timestamps.PadDigitsDigitsValue | Escc.Web/UrlExpirer.cs:105 | padding the value of a digit string to its own length gives the string back |
| Timestamps.FormatStamp | Escc.Web/UrlExpirer.cs:61 | `ToString("yyyyMMddHHmmss")` gives fourteen digits |
| Timestamps.FormatFields | Escc.Web/UrlExpirer.cs:61 | the six fields of the stamp are the padded year, month, day, hour, minute and second |
| Timestamps.ParseStamp | Escc.Web/UrlExpirer.cs:105 | `ParseExact` either gives a valid date and time or a `FormatException` |
| Timestamps.StampAvoids | Escc.Web/UrlExpirer.cs:61 | a stamp holds no `#`, `&` or `=`, so it survives being put in a query |
| Timestamps.ParseFormat | Escc.Web/UrlExpirer.cs:61-105 | round trip: a formatted date and time parses back to itself |
| Timestamps.FormatParse | Escc.Web/UrlExpirer.cs:61-105 | the other direction: a stamp that parses is the formatting of what it parses to |
| Base64.Digit | Escc.Web/UrlProtector.cs:107 | the alphabet character for a 6-bit value reads back to that value |
| Base64.EncodeGroup | Escc.Web/UrlProtector.cs:107 | one to three bytes become four characters of the alphabet or `=` |
| Base64.Encode | Escc.Web/UrlProtector.cs:107 | `Convert.ToBase64String` produces only alphabet characters and `=` |
| Base64.EncodeLength | Escc.Web/UrlProtector.cs:107 | four characters for every started group of three bytes |
| Base64.EncodeEndsWithPair | Escc.Web/UrlProtector.cs:107 | for a byte count two more than a multiple of three, the last character before the `=` pad is the alphabet digit of the last byte's low four bits |
| Base64.DecodeGroup | Escc.Web/UrlProtector.cs:107 | four characters decode to one to three bytes, or to nothing when malformed |
| Base64.DecodeEncodeGroup | Escc.Web/UrlProtector.cs:107 | each group decodes to the bytes it encodes |
| Base64.DecodeEncode | Escc.Web/UrlProtector.cs:107 | round trip: decoding the encoding gives the bytes back |
| Text.IndexOf | Escc.Web/UrlPresenter.cs:59 | the first position of the character, -1 exactly when it is absent |
| Text.LastIndexOf | Escc.Web/Iri.cs:394 | the last position of the character, -1 exactly when it is absent |
| Text.Split | Escc.Web/Iri.cs:223 | at least one piece, and no piece holds the separator |
| Text.SplitJoin | Escc.Web/Iri.cs:223 | splitting undoes joining, for pieces without the separator |
| Text.SplitConcat | Escc.Web/Iri.cs:223 | two texts joined by the separator split into the pieces of each |
| Text.SplitRemoveEmpty | Escc.Web/ContentSecurityPolicy.cs:43 | `RemoveEmptyEntries`: every piece is non-empty and free of the separator |
| Text.SplitRemoveEmptyJoin | Escc.Web/ContentSecurityPolicy.cs:43 | non-empty pieces joined and split again come back unchanged |
| Text.TrimStart | Escc.Web/Iri.cs:219 | the longest suffix that does not start with the character; everything removed was that character |
| Text.TrimEnd | Escc.Web/UrlPresenter.cs:58 | the longest prefix that does not end with the character; everything removed was that character |
| Base64.DecodeEncodeOne | Escc.Web/UrlProtector.cs:107 | one byte, padded with `==`, decodes back |
| Base64.DecodeEncodeTwo | Escc.Web/UrlProtector.cs:107 | two bytes, padded with `=`, decode back |
| Base64.DecodeEncodeThree | Escc.Web/UrlProtector.cs:107 | three bytes decode back |
| ContentSecurity.MergeRendered | Escc.Web/ContentSecurityPolicy.cs:44-47 | merging the written directives of a well-formed policy into an empty one rebuilds it |
| Http.ZerosSelectFirst | Http.cs:365-377 | with every preference 0 the choice is the first type that needs no explicit support |
| ContentSecurity.Names | Escc.Web/ContentSecurityPolicy.cs:13 | the directive names of the policy dictionary, in order |
| ContentSecurity.IndexOfDirective | Escc.Web/ContentSecurityPolicy.cs:65 | `ContainsKey`/indexer: the position of the only directive with that name, or -1 exactly when the name is absent |
| ContentSecurity.AddSources | Escc.Web/ContentSecurityPolicy.cs:67-70 | existing sources stay first, the result holds exactly the existing and the new sources, and no source is added twice |
| ContentSecurity.MergeSourcesKeepsOrder | Escc.Web/ContentSecurityPolicy.cs:63-71 | existing directives keep their place and only grow at the end; a new directive is added only at the end and only when the name is absent |
| ContentSecurity.MergeSourcesWellFormed | Escc.Web/ContentSecurityPolicy.cs:63-71 | merging token sources keeps every directive non-empty, duplicate-free and uniquely named |
| ContentSecurity.AddSourcesTokens | Escc.Web/ContentSecurityPolicy.cs:67-70 | adding token sources to distinct tokens gives a non-empty list of distinct tokens |
| ContentSecurity.MergeDirectivesWellFormed | Escc.Web/ContentSecurityPolicy.cs:44-61 | merging any `;`-free directives keeps the policy well-formed |
| ContentSecurity.AppendTextWellFormed | Escc.Web/ContentSecurityPolicy.cs:41-48 | parsing any policy text keeps the policy well-formed |
| ContentSecurity.AddSourcesAbsorbs | Escc.Web/ContentSecurityPolicy.cs:69 | sources already present change nothing |
| ContentSecurity.MergeSourcesAbsorbs | Escc.Web/ContentSecurityPolicy.cs:63-71 | a directive whose sources are all present changes nothing |
| ContentSecurity.MergeDirectiveCovers | Escc.Web/ContentSecurityPolicy.cs:50-61 | after merging, the policy holds everything the directive named, and keeps what it held |
| ContentSecurity.MergeDirectivesCovers | Escc.Web/ContentSecurityPolicy.cs:44-47 | after merging a list of directives the policy holds each of them |
| ContentSecurity.MergeDirectivesAbsorbs | Escc.Web/ContentSecurityPolicy.cs:44-47 | directives the policy already holds change nothing |
| ContentSecurity.AppendTextIdempotent | Escc.Web/ContentSecurityPolicy.cs:31-48 | appending the same policy text twice equals appending it once |
| ContentSecurity.RenderJoin | Escc.Web/ContentSecurityPolicy.cs:76-90 | `ToString` is the directives joined with `;`, each its name and sources joined with spaces |
| ContentSecurity.TokensOfRendered | Escc.Web/ContentSecurityPolicy.cs:52-57 | splitting a written directive on spaces gives back its name and sources |
| ContentSecurity.ParseRender | Escc.Web/ContentSecurityPolicy.cs:20-24 | round trip: a well-formed policy written by `ToString` and parsed into an empty policy is the same policy |
| ContentSecurity.AddSourcesInOrder | Escc.Web.Tests/ContentSecurityPolicyTests.cs:13-17 | sources are appended in order and a repeated one is skipped |
| ContentSecurity.AppendIgnoresDuplicates | Escc.Web.Tests/ContentSecurityPolicyTests.cs:11-18 | appending `n a b` then `n a c` gives `n a b c`, for any directive and three distinct sources |
| ContentSecurity.RenderThree | Escc.Web/ContentSecurityPolicy.cs:76-90 | one directive with three sources is written as name and sources separated by spaces |
| ContentSecurity.ContentSecurityPolicy.constructor | Escc.Web/ContentSecurityPolicy.cs:13 | a new policy is empty and well-formed |
| ContentSecurity.ContentSecurityPolicy.AppendPolicy | Escc.Web/ContentSecurityPolicy.cs:31-35 | a null or empty policy changes nothing; otherwise its text is merged; the same object is returned; well-formedness is kept |
| ContentSecurity.ContentSecurityPolicy.AppendPolicyFrom | Escc.Web/ContentSecurityPolicy.cs:20-24 | a null policy changes nothing; otherwise the other policy's `ToString` text is merged, even when it is this policy |
| ContentSecurity.ContentSecurityPolicy.ParsePolicy | Escc.Web/ContentSecurityPolicy.cs:41-48 | the loop merges every non-empty `;`-piece in turn |
| ContentSecurity.ContentSecurityPolicy.ParseDirective | Escc.Web/ContentSecurityPolicy.cs:50-61 | a directive with at least one source is merged, others ignored |
| ContentSecurity.ContentSecurityPolicy.ParseSources | Escc.Web/ContentSecurityPolicy.cs:63-71 | the directive is added if new, then each source not held yet is appended |
| ContentSecurity.ContentSecurityPolicy.ToString | Escc.Web/ContentSecurityPolicy.cs:76-90 | the loop writes exactly the rendered policy |
| LegacyContentSecurity.SettingExcludesListedPath | ContentSecurityPolicy.cs:30-46 | a path listed between `;` separators in the `None` setting is excluded |
| LegacyContentSecurity.PieceBetweenSeparators | ContentSecurityPolicy.cs:36 | a piece written between two separators is one of the split pieces |
| LegacyContentSecurity.ExcludesListed | ContentSecurityPolicy.cs:37-43 | a listed path starts itself, so it is excluded |
| LegacyContentSecurity.NonEmptyHolds | ContentSecurityPolicy.cs:36 | `RemoveEmptyEntries` keeps every non-empty piece |
| LegacyContentSecurity.ContentSecurityPolicy.constructor | ContentSecurityPolicy.cs:16 | a new policy is empty and well-formed |
| LegacyContentSecurity.ContentSecurityPolicy.IsExcludedUrl | ContentSecurityPolicy.cs:30-46 | the loop answers true exactly when some non-empty entry of the setting starts the path, ignoring case; false with no setting |
| LegacyContentSecurity.ContentSecurityPolicy.ParsePolicy | ContentSecurityPolicy.cs:53-64 | a null or empty policy is an `ArgumentNullException` and changes nothing; otherwise the policy is cleared when asked to and the text merged |
| LegacyContentSecurity.ContentSecurityPolicy.ParseDirective | ContentSecurityPolicy.cs:66-77 | a directive with at least one source is merged |
| LegacyContentSecurity.ContentSecurityPolicy.ParseSources | ContentSecurityPolicy.cs:79-87 | the directive is added if new, then each new source appended |
| LegacyContentSecurity.ContentSecurityPolicy.ToString | ContentSecurityPolicy.cs:120-134 | the loop writes exactly the rendered policy |
| ContentSecurityHeaders.ContentSecurityPolicyHeaders.constructor | Escc.Web/ContentSecurityPolicyHeaders.cs:22-27 | the policy starts as the text of the existing `Content-Security-Policy` header, or empty |
| ContentSecurityHeaders.ContentSecurityPolicyHeaders.Create | Escc.Web/ContentSecurityPolicyHeaders.cs:22-47 | null headers are an `ArgumentNullException`; otherwise a new object whose policy is read from the header |
| ContentSecurityHeaders.ContentSecurityPolicyHeaders.AppendPolicy | Escc.Web/ContentSecurityPolicyHeaders.cs:69-73 | the text is merged into the current policy and the object returned; a null policy object is a `NullReferenceException` |
| ContentSecurityHeaders.ContentSecurityPolicyHeaders.AppendPolicyFrom | Escc.Web/ContentSecurityPolicyHeaders.cs:80-84 | the other policy's `ToString` text is merged; a null policy on either side is a `NullReferenceException` and changes nothing |
| ContentSecurityHeaders.ContentSecurityPolicyHeaders.ReplacePolicy | Escc.Web/ContentSecurityPolicyHeaders.cs:91-95 | a fresh policy holding only the given text |
| ContentSecurityHeaders.ContentSecurityPolicyHeaders.ReplacePolicyWith | Escc.Web/ContentSecurityPolicyHeaders.cs:102-106 | the caller's own policy object is kept, aliased |
| ContentSecurityHeaders.ContentSecurityPolicyHeaders.UpdateHeaders | Escc.Web/ContentSecurityPolicyHeaders.cs:111-127 | the header is replaced by exactly the policy's `ToString` text and nothing else changes; with a null policy it is removed before the `NullReferenceException` |
| ContentSecurityHeaders.RenderOneAndTwo | Escc.Web/ContentSecurityPolicy.cs:76-90 | a directive with one or two sources is written with spaces between name and sources |
| ContentSecurityHeaders.ReadOneSource | Escc.Web/ContentSecurityPolicyHeaders.cs:41-47 | a header holding `n a` is read as directive `n` with source `a` |
| ContentSecurityHeaders.AppendToHeaderPolicy | Escc.Web.Tests/ContentSecurityPolicyTests.cs:20-31 | a source appended to the header's directive follows the source already there |
| ContentSecurityHeaders.ExistingHeaderIsUpdated | Escc.Web.Tests/ContentSecurityPolicyTests.cs:20-31 | the header test for any directive and two distinct sources: the header ends as `n a b` |
| ContentSecurityFilter.ExcludesOrderFree | Escc.Web/ContentSecurityPolicyUrlFilter.cs:37-43 | whether a path is excluded depends only on which URLs are listed, not their order |
| ContentSecurityFilter.ExcludesAppend | Escc.Web/ContentSecurityPolicyUrlFilter.cs:37-43 | a longer list excludes a path exactly when one of its parts does |
| ContentSecurityFilter.ExcludesOwnPath | Escc.Web/ContentSecurityPolicyUrlFilter.cs:39 | a path listed in any ASCII letter case is excluded |
| ContentSecurityFilter.SiblingPathIncluded | Escc.Web.Tests/ContentSecurityPolicyTests.cs:33-57 | the listed page is excluded and its sibling page is not |
| ContentSecurityFilter.UrlFilter.ApplyPolicy | Escc.Web/ContentSecurityPolicyUrlFilter.cs:33-46 | true with no list; otherwise the loop gives what checking the entries in order gives: false at the first URL that starts the path, ignoring case, a `NullReferenceException` at a null target or null entry reached first, and true after the last |
| ContentSecurityFilter.DecisionWithoutNulls | Escc.Web/ContentSecurityPolicyUrlFilter.cs:37-45 | with a target URL and no null entry, the policy applies exactly when no excluded URL starts the path, ignoring case |
| ContentSecurityFilter.DecisionFails | Escc.Web/ContentSecurityPolicyUrlFilter.cs:37-39 | the check fails, always with a `NullReferenceException`, exactly when a null target or null entry is reached after entries that do not match |
| Headers.HeaderCollection.constructor | Escc.Web.Tests/ContentSecurityPolicyTests.cs:23-26 | a collection holding the given headers, each named in lower case, so that every header can be reached by name |
| Headers.HeaderCollection.Get | Escc.Web/ContentSecurityPolicyHeaders.cs:43 | null exactly when the header is absent, ignoring case; otherwise its values joined with `,`, so a single value is returned as it is; every stored header is found by its own name |
| Headers.HeaderCollection.Remove | Escc.Web/ContentSecurityPolicyHeaders.cs:125 | the header is gone, nothing else changes, and every name stays lower case |
| Headers.HeaderCollection.Add | Escc.Web/ContentSecurityPolicyHeaders.cs:126 | the value follows the header's existing values, nothing else changes, and every name stays lower case |
| Cors.ApplyPolicy | Escc.Web/Cors.cs:28-46 | each null argument, in order, is an `ArgumentNullException` that changes nothing; otherwise the origin is added exactly when it is present, non-empty and listed in lower case, and nothing else changes |
| Cors.WithAllowedOriginKeeps | Escc.Web/Cors.cs:44 | `Add` never removes a header or a value, and the allow-origin header ends with the origin |
| Cors.MatchingOriginAddsAllowedHeader | Escc.Web.Tests/CorsTests.cs:11-27 | a listed lower-case origin is echoed back as the allow-origin header |
| Cors.UnmatchedOriginDoesNotAddAllowedHeader | Escc.Web.Tests/CorsTests.cs:29-45 | an unlisted origin gets no allow-origin header |
| CrossOrigin.HeaderNamesDiffer | Escc.Web/CorsHeaders.cs:91-94 | removing the allow-origin header cannot touch the `Origin` header |
| CrossOrigin.ColonBeforeDigitsIsLast | Escc.Web/CorsHeaders.cs:114 | a colon followed only by digits is the last colon, so the `$`-anchored match is unique |
| CrossOrigin.PortWildcard | Escc.Web/CorsHeaders.cs:114-118 | the match succeeds exactly when the origin ends with a colon and one or more digits, and the digits become `*` |
| CrossOrigin.IsAllowedOrigin | Escc.Web/CorsHeaders.cs:107-122 | allowed exactly when the lower-cased origin is listed, or its port-wildcard form is |
| CrossOrigin.AllowedIgnoringCase | Escc.Web/CorsHeaders.cs:109 | origins that differ only in ASCII letter case get the same answer |
| CrossOrigin.CorsHeaders.constructor | Escc.Web/CorsHeaders.cs:37-45 | the object keeps the two header collections and the policy's origins |
| CrossOrigin.CorsHeaders.Create | Escc.Web/CorsHeaders.cs:37-45 | each null argument, in order, is an `ArgumentNullException`; otherwise a new object over the arguments |
| CrossOrigin.CorsHeaders.UpdateHeaders | Escc.Web/CorsHeaders.cs:75-105 | the response has an allow-origin header exactly when the request's origin is present, non-empty and allowed; it then holds only that origin; no other header changes |
| LegacyCors.AllowCrossOriginRequest | Cors.cs:19-36 | a null request or response is an `ArgumentNullException`; with no origin nothing changes; a null list is an error only when there is an origin; a listed lower-case origin is echoed back |
| LegacyCors.NoOriginNoError | Cors.cs:24-26 | without an `Origin` header even a null list of origins is no error and adds nothing |
| UrlPresentation.HostText | Escc.Web/UrlPresenter.cs:51-52 | the host text written first, host left out for the base URL's host and `:port` only for a non-default port, never holds a `?` |
| UrlPresentation.DropSegmentsKeeps | Escc.Web/UrlPresenter.cs:58-72 | the loop ends with a suffix of the path that starts after a `/`, with the budget lowered by 3 exactly once if anything was dropped, fitting or without `/`, and no longer suffix after a `/` would have fitted |
| UrlPresentation.CutQuery | Escc.Web/UrlPresenter.cs:76-84 | text over the limit with a `?` loses everything from its first `?`, which becomes `?…`; other text is unchanged |
| UrlPresentation.ShortenedFits | Escc.Web/UrlPresenter.cs:55-73 | nothing is dropped from a path that fits, and the budget is what the host text leaves |
| UrlPresentation.AbbreviationFits | Escc.Web/UrlPresenter.cs:39-87 | as intended, a URL that fits is written unchanged after its host text |
| UrlPresentation.AbbreviationKeepsPrefix | Escc.Web/UrlPresenter.cs:73-84 | as intended, the host text stays in front and the query is cut only from text over the maximum length |
| UrlPresentation.AsWrittenCutsFittingQuery | Escc.Web/UrlPresenter.cs:55-84 | as written, a fitting URL whose host text is longer than the room left loses its query; as intended it keeps it |
| UrlPresentation.AsWrittenKeepsPrefix | Escc.Web/UrlPresenter.cs:50-86 | as written too, the host text is always in front of the result |
| UrlPresentation.DropLeadingSegments | Escc.Web/UrlPresenter.cs:58-72 | the loop computes exactly the recursive definition of dropping segments |
| UrlPresentation.ResolveTarget | Escc.Web/UrlPresenter.cs:41-52 | a null URL is an `ArgumentNullException`; a relative URL with no base is a `NullReferenceException` because the second check tests the URL again; a relative base is an `ArgumentException` or `InvalidOperationException`; otherwise the host text and the resolved path and query |
| UrlPresentation.CutQueryWhenOver | Escc.Web/UrlPresenter.cs:76-84 | the method computes exactly the query cut |
| UrlPresentation.AbbreviatePath | Escc.Web/UrlPresenter.cs:55-86 | the path shortening and query cut, as written |
| UrlPresentation.AbbreviateUrl | Escc.Web/UrlPresenter.cs:39-87 | the whole result, errors included, as written |
| UrlPresentation.AbbreviateUrlWithBase | Escc.Web/UrlPresenter.cs:27-30 | the same with the budget of 60 |
| UrlPresentation.AbbreviateAbsoluteUrl | Escc.Web/UrlPresenter.cs:16-19 | no base URL and the budget of 60; an absolute URL always gives a result that starts with its host |
| Http.FractionBelowOne | Http.cs:348 | the digits after a decimal point are worth at least 0 and less than 1 |
| Http.ParseUnsigned | Http.cs:348 | an unsigned numeral either parses or is a `FormatException` |
| Http.ParseDecimal | Http.cs:348 | `Decimal.Parse` either gives a value or is a `FormatException` |
| Http.NumeralText | Http.cs:348 | the text the number parser reads: trailing NULs ignored, then no tab-to-carriage-return or space at either end |
| Http.NoBreakSpaceRefused | Http.cs:348 | a numeral starting with a no-break space (U+00A0), which `String.Trim` would skip, is a `FormatException` |
| Http.NoBreakSpaceQualityFails | Http.cs:348 | so the quality parameter `q=` U+00A0 `0.5` throws `FormatException` |
| Http.TrailingNulsIgnored | Http.cs:348 | NUL characters appended to any text leave its parse unchanged |
| Http.TrailingNulAccepted | Http.cs:348 | `5` followed by a NUL parses to 5 |
| Http.ParseWholeNumber | Http.cs:348 | a string of digits parses to the number it denotes |
| Http.ParseFractionBelowOne | Http.cs:348 | `0.` and digits parses to a value from 0 up to, not including, 1 |
| Http.ParseNegated | Http.cs:348 | a leading `-` negates the value of the numeral after it, when that numeral does not start with white space |
| Http.Reading | Http.cs:348 | a trimmed `q=` segment gives its numeral's value or a `FormatException`; other segments keep the quality |
| Http.QualityOf | Http.cs:346-349 | the quality loop either succeeds or is a `FormatException` |
| Http.QualityWithoutParameter | Http.cs:345-349 | without a `q=` parameter the quality stays 1 |
| Http.QualityLastWins | Http.cs:346-349 | the last `q=` parameter decides the quality; other parameters change nothing |
| Http.QualityFails | Http.cs:346-349 | one `q=` parameter whose numeral does not parse makes the call throw a `FormatException` |
| Http.Zeros | Http.cs:313-314 | the dictionary holds exactly the supported types |
| Http.Rated | Http.cs:332-351 | one entry against one type keeps the dictionary's keys and every other type's preference; it can fail only with an index or format error |
| Http.RatedWithQuality | Http.cs:339-349 | an entry `t;q=x` sets the preference for `t` to the value of `x` |
| Http.EntryNamingNone | Http.cs:329-354 | an entry naming no supported type, exactly or before `;`, changes no preference |
| Http.RatedByEntry | Http.cs:329-354 | one entry against every supported type keeps the dictionary's keys |
| Http.RatedByHeader | Http.cs:321-356 | the whole header keeps the dictionary's keys |
| Http.HeaderOfSkippedEntries | Http.cs:325-327 | null and empty entries change nothing |
| Http.Selection | Http.cs:365-377 | the choice, when there is one, is a type of the dictionary |
| Http.SelectionBeats | Http.cs:365-377 | the choice is the earlier one or an eligible type strictly more preferred, and the bar only rises |
| Http.SelectionBounds | Http.cs:365-377 | every eligible type is at most as preferred as the choice |
| Http.SelectionFirst | Http.cs:367 | a tie goes to the earliest type, since only a strictly greater preference replaces the choice |
| Http.Preferred | Http.cs:309-310 | a null list is an `ArgumentNullException` and fewer than two types an `ArgumentException` |
| Http.PreferredIsFirstBest | Http.cs:307-380 | the answer is the empty string exactly when no eligible type beats -1; otherwise an eligible supported type, at least as preferred as every eligible type, and the first among ties; a type that needs explicit support is chosen only with a preference above 0 |
| Http.PreferredWithoutHeader | Http.cs:321-377 | without an `Accept` header the answer is the first supported type that needs no explicit support |
| Http.FirstNotIn | Http.cs:371 | the first type that needs no explicit support, or none when every type needs it |
| Http.PreferredMimeType | Http.cs:307-380 | the method computes exactly the definition above, and its answer is the empty string or a supported type |
| Http.CandidatesOf | Http.cs:313-314 | filling the dictionary fails exactly when a type repeats, and otherwise holds every type at 0 |
| Http.RateHeader | Http.cs:321-356 | the outer loop computes the header's effect |
| Http.RateEntry | Http.cs:329-354 | the middle loop computes one entry's effect |
| Http.RateType | Http.cs:332-351 | one step of the middle loop computes one entry's effect on one type |
| Http.ReadQuality | Http.cs:345-349 | the inner loop starts at 1 and computes the quality of the parameters |
| Http.ReadSegment | Http.cs:348 | one step of the inner loop reads one segment |
| Http.Choose | Http.cs:362-379 | the last loop computes the selection, the empty string for none |

## Left out

- `HttpUtility.ParseQueryString`, used by `UrlProtector`, is modelled by the `SplitQueryString` rules. Percent-decoding and re-encoding are not modelled, and a segment without `=` is dropped where the framework would keep it under a null name.
- `System.Uri` is reduced to a record of scheme, host, port, default-port flag, path, query and fragment; a relative URI is kept as its text. Its parsing and escaping are not modelled. Resolving a relative URL against a base is a function parameter in `UrlPresentation`.
- Iri.ResolvedRelativeQuery: the query that `MakeAbsolute` gives a relative URL is taken from the URL's own text, without modelling the request URL it is resolved against.
- SHA-1 and UTF-8 encoding are one function parameter of the protector (`digest`), any function giving 20 bytes, as SHA-1 does; only Base64 and the `[^A-Za-z0-9]` filter are concrete.
- `IUrlProtector` is modelled as a datatype with a salted protector and a pass-through protector, since the model has no interfaces.
- `DateTime.UtcNow` and the overloads that read the clock are folded into one method that takes the current time as a parameter. Time zones (`ToUniversalTime`) and sub-second precision are not modelled.
- Configuration reads (the `Salt` setting, the `None` setting, `AppendFromConfig` and the constructor of the older policy class) become optional string parameters or are not modelled. `UpdateHeader(HttpResponse)` of the older policy class is not modelled either.
- The `HttpHeaders` constructors and `UpdateHeaders` paths of `ContentSecurityPolicyHeaders` and `CorsHeaders` are not modelled; the `NameValueCollection` paths are.
- `NameValueCollection` is a map from lower-cased names to lists of values. Lower-casing covers the ASCII letters only.
- UrlProtection.Signed: the signed query is written by the `SplitQueryString` rebuild, which writes a repeated name once with its values joined by `,`. `HttpValueCollection.ToString` writes `name=value` once per value and URL-encodes both. `HttpValueCollection` also compares keys ignoring case, so `?a=1&A=2` is one key `a` with value `1,2` there; the model's parse compares names exactly, like the `Dictionary` at Escc.Web/Iri.cs:217, and gives two keys.
- UrlProtection.Verdict: the query is read by the `SplitQueryString` rules, not by `ParseQueryString`. Every leading `?` is trimmed, where the framework strips one. A segment with an empty name (`=v`) and a trailing `&` are dropped, where the framework keeps them under an empty name and a null name. So a protected query with `&=v` appended passes in the model, while the source writes `=v` into the rebuilt text and the check fails. The hash is looked up with `queryString[_hashParameter]` (Escc.Web/UrlProtector.cs:65), which ignores case, so a hash sent as `H=` is found for the parameter `h`, while the skip at Escc.Web/UrlProtector.cs:71 compares exactly; the model finds and skips the hash only under its exact name.
- ToLowerInvariant and OrdinalIgnoreCase are modelled on the ASCII letters only (`Text.LowerChar`); letters outside ASCII, such as `Ä`, are left as they are. The members below are exact only for ASCII letter case.
- IsExcludedUrl (LegacyContentSecurity.ContentSecurityPolicy.IsExcludedUrl): `OrdinalIgnoreCase` folds letters outside ASCII too; the model compares them exactly.
- ExcludesOwnPath (ContentSecurityFilter.ExcludesOwnPath): proved for entries that differ from the path in ASCII letter case only.
- ApplyPolicy (ContentSecurityFilter.UrlFilter.ApplyPolicy): `OrdinalIgnoreCase` folds letters outside ASCII too; the model compares them exactly.
- ContentSecurityFilter.UrlFilter: the target is held as its path text, so it is taken to be an absolute URL, as `Request.Url` is. `AbsolutePath` on a relative `Uri` throws `InvalidOperationException` (Escc.Web/ContentSecurityPolicyUrlFilter.cs:39), which the model does not express.
- ApplyPolicy (Cors.ApplyPolicy): `ToLowerInvariant` lowers letters outside ASCII too; the model leaves them as they are.
- IsAllowedOrigin (CrossOrigin.IsAllowedOrigin): `ToLowerInvariant` lowers letters outside ASCII too; the model leaves them as they are.
- AllowedIgnoringCase (CrossOrigin.AllowedIgnoringCase): proved for origins that differ in ASCII letter case only.
- AllowCrossOriginRequest (LegacyCors.AllowCrossOriginRequest): `ToLowerInvariant` lowers letters outside ASCII too; the model leaves them as they are.
- `MakeAbsolute`, `HandleProtocolRelativeUrl` and `ShortenForDisplay` are not modelled, because they depend on `System.Uri` and `HttpContext`.
- The HTTP status and cache helpers, `Html.cs` and the HTTP modules are not part of this model.
- Http.ParseDecimal: `Decimal.Parse` is modelled for plain numerals only: the white space `NumberStyles.Number` skips (tab to carriage return and the space, not `String.Trim`'s wider set), trailing NUL characters, an optional sign, digits and an optional point. Thousands separators, trailing signs, parentheses, exponents, the 28-digit precision limit and overflow are not modelled.
- Http.Rated: the culture-sensitive `StartsWith` is modelled as an ordinal prefix test.
- Http.PreferredMimeType: null entries in the supported types are not modelled. `Dictionary` enumeration is taken to be in insertion order. The segment `String.Trim` removes ASCII and Latin-1 white space only. The source's loops are split into helper methods. Wildcard types in `Accept` are not handled, as in the source.
- The CORS policy object is reduced to its list of origins.

## Findings

| source | as written | input that shows it | evidently intended | confidence | as-written member | corrected member |
|---|---|---|---|---|---|---|
| Escc.Web/Iri.cs:334-343 | a relative URL with neither `?` nor `#` loses its path: nothing is appended before the query | `/a/b` gives `?` | the whole relative URL is kept: `/a/b?` | high; not executed | Iri.PrepareUrlAsWrittenLosesRelativePath | Iri.PrepareUrlKeepsRelativePath |
| Escc.Web/UrlProtector.cs:42 | the hash is of the raw `Query` text, but the check hashes the query rebuilt from the parsed entries | `?n=v1&n=v2`: the check rebuilds `n=v1,v2`, which hashes differently | the protected URL passes its own check | medium; not executed | UrlProtection.RepeatedNameFailsAsWritten | UrlProtection.RepeatedNamePasses |
| Iri.cs:256 | the same mismatch in the older `ProtectQueryString` against the rebuild at lines 278-298 | `?n=v1&n=v2` | the protected URL passes its own check | medium; not executed | LegacyIri.RepeatedNameFailsAsWritten | LegacyIri.ProtectThenCheck |
| Escc.Web/UrlPresenter.cs:76 | the whole text, host included, is compared with the budget left for the path | `https://www.example.org/news/2016/announcements?page=2`, 46 characters of host and path, with maximum 60 | the query is cut only when the whole text is over the maximum | high; not executed | UrlPresentation.AsWrittenCutsFittingQuery | UrlPresentation.AbbreviationFits |
