# wec_map Google geocoder, modelled in Dafny

This project models the Google geocoding service of the wec_map TYPO3
extension (`Classes/GeocodeService/Google.php`). The service turns a street,
city, state, zip and country into a latitude/longitude pair. It can also
return null, or return null and deactivate itself. The model follows the
service as a pipeline of pure decisions:

1. **Country-token classification** (`isoCodeType`). A token is numeric when
   the framework's integer test accepts it. Otherwise it is alpha-2 at length 2,
   alpha-3 at length 3, and a name for any other length.
2. **Country resolution** (`fetchCountries` and the name branch of `lookup`).
   Exactly one filter is used. When there is exactly one candidate, the token
   becomes the record's local short name and the region becomes its top-level
   domain.
3. **Address line and URL.** The formatter's output is used when it is truthy.
   Otherwise the US-style default line is used. The line is trimmed and
   URL-encoded, and `&region=` is added only for a truthy region.
4. **Retry and classification.** The request is repeated while the reply is
   `OVER_QUERY_LIMIT`, up to three requests. The final reply then gives
   coordinates, deactivation, or nothing.

Files:

- `php_strings.dfy`: module `PhpStrings`. PHP strings are byte strings
  (`Bytes`). The module also has an Option type, `trim`, PHP string
  truthiness, and substring search.
- `url_encoding.dfy`: module `UrlEncoding`, holding PHP's `urlencode` and
  `urldecode` and the round trip between them.
- `countries.dfy`: module `Countries`, covering token classification, the
  country table, query filters, `fetchCountries`, candidate gathering and
  resolution.
- `geocode.dfy`: module `Geocode`, covering the address line, URL building and
  parsing, the retry loop, reply classification, and `lookup` end to end.

Collaborators the service calls but does not define are fields of the
`Geocode.Services` datatype:

- whether static_info_tables is loaded;
- the country table, as a sequence of records;
- `canBeInterpretedAsInteger`, as a function `Bytes -> bool`;
- `formatAddress`, as a function of its six arguments;
- `addKeyToUrl`, as a URL transform.

The HTTP replies are an input sequence: `replies[i]` answers the (i+1)-th
request.

Details of the code the model keeps:

- **Region and address fallback.** PHP truthiness decides both: `if ($region)`
  and `!$addressString`. So a region or formatted address equal to `"0"`
  counts as absent, not only the empty string.
- **What counts as numeric.** A token is numeric when `canBeInterpretedAsInteger`
  accepts it.
- **Persistent rate limiting.** `OVER_QUERY_LIMIT` after three requests returns
  null and does not deactivate the service. It is handled like every other
  unrecognised status.
- **Formatter call.** The formatter is called whenever static_info_tables is
  loaded, even when resolution was inconclusive. In that case it gets the raw
  token.
- **Sleep placement.** A sleep follows every `OVER_QUERY_LIMIT` reply,
  including the third one, after which no retry is made.

## Model

| member | source | states |
|---|---|---|
| Countries.IsoCodeType | Classes/GeocodeService/Google.php:58-69 | a token is Numeric iff the integer test accepts it (this wins over length); otherwise Alpha2 iff length 2, Alpha3 iff length 3, Name for every other length |
| Countries.EmptyTokenIsName | Classes/GeocodeService/Google.php:58-69 | if the integer test rejects the empty string, the empty token is classified as a name |
| Countries.Select | Classes/GeocodeService/Google.php:104-113 | a query returns no more rows than the table, and a record is returned iff it is in the table and the filter matches it |
| Countries.SelectUnique | Classes/GeocodeService/Google.php:104-113 | when exactly one table position matches, the query returns exactly that record |
| Countries.SelectNone | Classes/GeocodeService/Google.php:104-113 | when no table position matches, the query returns no rows |
| Countries.SelectTwo | Classes/GeocodeService/Google.php:104-113 | when two different positions match, the query returns at least two rows |
| Countries.FetchFilter | Classes/GeocodeService/Google.php:82-102 | exactly one filter is chosen, with precedence alpha-3 > alpha-2 > numeric > name substring, each code trimmed; there is no filter iff every argument is empty |
| Countries.LikePatternUntrimmed | Classes/GeocodeService/Google.php:88-89 | trimming the `%…%` LIKE pattern leaves it unchanged, so the name filter is a substring test on the untrimmed name |
| Countries.FetchCountries | Classes/GeocodeService/Google.php:82-115 | no rows when every argument is empty; otherwise the rows are exactly the table records matching the highest-precedence non-empty argument (the name filter covers official local, official English and short local names) |
| Countries.ExactNameRows | Classes/GeocodeService/Google.php:146-161 | the exact-name query leaves the candidate array unset iff the token is empty or no record has the trimmed token as official local/English or short local/English name |
| Countries.Candidates | Classes/GeocodeService/Google.php:136-166 | an empty token yields no candidates, and every candidate is a table record |
| Countries.CandidatesUseTokenFilter | Classes/GeocodeService/Google.php:136-166 | a non-empty token's candidates are the records matching the one filter its code type calls for, with the exact name match used whenever it finds a row and the substring match otherwise |
| Countries.ResolveCountry | Classes/GeocodeService/Google.php:172-176 | the resolved name and region are either the untouched token with an empty region, or the local short name and top-level domain of one table record |
| Countries.ResolveUnique | Classes/GeocodeService/Google.php:172-176 | a token whose filter matches exactly one record resolves to that record's local short name and top-level domain |
| Countries.ResolveNoMatch | Classes/GeocodeService/Google.php:172-176 | a non-empty token matching no record keeps its input value and gets an empty region |
| Countries.ResolveAmbiguous | Classes/GeocodeService/Google.php:172-176 | a non-empty token matching two different table positions keeps its input value and gets an empty region |
| Countries.EmptyTokenUnresolved | Classes/GeocodeService/Google.php:143-166 | the empty token is never resolved |
| PhpStrings.Trim | Classes/GeocodeService/Google.php:192 | trim returns the infix left after stripping space, tab, LF, CR, NUL and vertical tab from both ends; the result is empty iff the input is all such characters |
| PhpStrings.TrimIdempotent | Classes/GeocodeService/Google.php:192 | trimming twice is trimming once |
| UrlEncoding.UrlEncode | Classes/GeocodeService/Google.php:194-196 | urlencode never produces `&` and grows the input at most threefold |
| UrlEncoding.DecodeEncode | Classes/GeocodeService/Google.php:194-196 | urldecode undoes urlencode for every byte string |
| UrlEncoding.UrlEncodeInjective | Classes/GeocodeService/Google.php:194-196 | distinct strings have distinct encodings |
| Geocode.PrepareQuery | Classes/GeocodeService/Google.php:128-192 | without static_info_tables the address is the trimmed default line with the raw country and there is no region; a non-empty region is always the top-level domain of a table record; the address is already trimmed |
| Geocode.UniqueCountryLocalises | Classes/GeocodeService/Google.php:172-192 | with static_info_tables and a uniquely matching record, the formatter and the default line get the record's local short name and the region is its top-level domain |
| Geocode.UnmatchedCountryKeepsToken | Classes/GeocodeService/Google.php:172-192 | with static_info_tables and no matching record, the raw token goes to the formatter and to the default line, and the region is empty |
| Geocode.AmbiguousCountryKeepsToken | Classes/GeocodeService/Google.php:172-192 | with static_info_tables and two matching records, the raw token goes to the formatter and to the default line, and the region is empty |
| Geocode.BuildUrl | Classes/GeocodeService/Google.php:194-196 | the URL before key decoration reads back as the address and, iff the region is truthy, the region; it contains `&region=` iff the region is truthy |
| Geocode.ParseWithoutRegion | Classes/GeocodeService/Google.php:194 | a query string without `&` reads back as all address and no region |
| Geocode.ParseWithRegion | Classes/GeocodeService/Google.php:194-196 | when the address part has no `&`, the first `&` starts the region parameter |
| Geocode.QueryStringRoundTrip | Classes/GeocodeService/Google.php:194-196 | the query string reads back as the address and, iff the region is truthy, the region |
| Geocode.QueryStringRegionIff | Classes/GeocodeService/Google.php:194-196 | the query string contains `&region=` iff the region is truthy |
| Geocode.UniqueCountryAddsRegion | Classes/GeocodeService/Google.php:172-196 | a uniquely matching record with a truthy top-level domain puts `&region=` with that domain into the URL |
| Geocode.LeadingOverLimit | Classes/GeocodeService/Google.php:214-218 | counts the leading `OVER_QUERY_LIMIT` replies: all before it are rate-limited, the one at it is not |
| Geocode.RequestWithRetry | Classes/GeocodeService/Google.php:206-218 | between 1 and 3 requests, exactly min(3, k+1) for k leading rate-limit replies; all but the last reply were rate-limited; a rate-limited last reply means 3 requests; one sleep per rate-limited reply, including the third |
| Geocode.Classify | Classes/GeocodeService/Google.php:233-263 | Found iff status OK, with the first result's location; Disable iff REQUEST_DENIED or INVALID_REQUEST; NotFound for every other status or no reply |
| Geocode.FirstDecisiveReplyDecides | Classes/GeocodeService/Google.php:206-263 | the first non-rate-limited reply among the first three decides the outcome; three rate-limited replies give NotFound, not Disable |
| Geocode.RateLimitedThenOk | Classes/GeocodeService/Google.php:206-242 | two rate-limit replies and then OK make three requests and return the third reply's coordinates |
| Geocode.Lookup | Classes/GeocodeService/Google.php:126-265 | the URL is the key-decorated URL of the prepared query; the request count, the sleep count and the outcome are those of the retry loop and the classification of its last reply |
| Geocode.UnlocalisedExample | Classes/GeocodeService/Google.php:185-192 | without static_info_tables, ("1 Main St", "Springfield", "IL", "62701", "US") gives the line "1 Main St Springfield, IL 62701, US" |

## Left out

- `Classes/Plugin/FEUserMap/FEUserMap.php` is not modelled. It reads plugin configuration, assembles SQL, iterates over database rows and renders the map through the TYPO3 plugin API. Its per-country/per-city marker de-duplication is interleaved with those calls.
- `formatAddress` and `loadTypoScriptForBEModule` delegate to static_info_tables and the TypoScript engine. The formatter is an arbitrary function of its six arguments (`Services.format`), and its one-time initialisation is not modelled.
- `canBeInterpretedAsInteger` belongs to the framework. It is an arbitrary predicate (`Services.isInt`). `Countries.EmptyTokenIsName` assumes that it rejects the empty string.
- SQL semantics are simplified. LIKE is a case-sensitive substring test, and `%` or `_` inside the token are not treated as wildcards. `=` is exact equality, with no collation, case folding or trailing-space padding. `cn_iso_nr` is compared as text, not as a number. A failed query (`$res` false) is not modelled. `fullQuoteStr` escaping is not modelled.
- HTTP (`getURL`) and `json_decode` are not modelled. Each reply is given as a status and an optional location, and a failed request or undecodable body is `NoReply`.
- Only the number of `sleep(2)` calls is modelled, not their duration.
- `addKeyToUrl` and `getServerKey` are an arbitrary URL transform (`Services.addKey`). The URL properties are stated for the URL before that transform.
- `deactivateService()` is not called as a side effect. It is the `Disable` outcome, which `lookup` returns instead.
- `floatval` and floating point are not modelled. Coordinates are reals taken from the reply, and a missing location reads as 0, as `floatval(null)` does.
- `devLog` / `TYPO3_DLOG` logging is not modelled.
- Multibyte text is not modelled. Strings are byte strings, so `strlen` is the sequence length and a UTF-8 name has its byte length.
- The reply sequence given to `Geocode.RequestWithRetry` and `Geocode.Lookup` must hold at least three replies. The loop never reads more than three, and a shorter sequence would describe an endpoint that does not answer a request.
