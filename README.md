# Piwik reprint tracker — a Dafny model of its request handling

The reprint tracker is a single PHP script (`php/index.php`). It serves a
campaign image and reports the visit to Piwik as a pageview with campaign
attribution. This project models the script's decision logic and proves
properties of it:

- **Campaign resolution** (`campaign_data`, module `Resolver`). The last
  segment of the request URI is matched against the file-name pattern
  `^([a-zA-Z1-9\-_]+)(\.[a-zA-Z1-9\-_]+)?\.(ext1|ext2|...)$`. A match gives
  the campaign (group 1) and, when present, the keyword (group 2 with its
  dot trimmed). Without a match, the `pk_campaign` and `pk_keyword` query
  parameters override the defaults when they are set and PHP-non-empty.
  The segment is cut from the whole `REQUEST_URI`, query string included
  (line 100). So a query string blocks the file-name branch only when it
  holds no `/`: `/r/acme.png?u=/y.png` resolves to the campaign `y`. A
  campaign from the file name holds no `/` or `.`
  (`Resolver.FilenameCampaignIsPlain`), but a `pk_campaign` is taken
  unchecked, so `../secret` gives the image path `../images/../secret.<ext>`.
  The globals are modelled as the class `Resolver.RequestState`, whose
  method `CampaignData` updates them step by step as the script does.
- **Image selection** (`campaign_image`, module `Selector`). Two ordered
  scans over the configured extensions look for a readable
  `../images/<campaign>.<ext>`, then for a readable
  `../images/default.<ext>`; if neither is found the request is
  unavailable. The image store is an input: the set of paths that exist
  and are readable.
- **The pageview** (`track`, module `Reporter`). This covers the scheme
  chosen from `HTTPS`, the tracked URL, the attribution tuple
  `(campaign, keyword, 0, referrer)` and the page title
  `Reprint Tracker for: <campaign> (keyword: <keyword or none>)`.
- **The top level** (lines 160-176, module `Pipeline`). It sets the defaults,
  resolves, selects, and then either answers 503 or tracks and emits the
  headers and the body. The result is the sequence of effects.

String built-ins the script relies on (`explode`, `end`, `trim`, `empty()`)
are in module `PhpStrings`. The configuration and the request are the
immutable records of module `Inputs`.

The file-name matcher is written by hand. Group 1 cannot contain a dot, so
it ends at the first dot. The optional group 2 is greedy, so the reading
with a keyword is tried before the reading without one. The extensions are
treated as literal alternatives. An empty list joins to the group `()`,
which matches an empty extension (`Resolver.Alternatives`). Several lemmas
about non-matching segments assume extensions without dots, or made only of
name characters, as `png` and `jpg` are; each lemma's `requires` says which.

## Where the script and its comments differ

- The match at line 105 has no regex delimiters. As written, `preg_match`
  rejects the pattern and returns `false`, so the file-name branch never
  runs (see "## Findings"). The model follows the intent stated in the
  comments at lines 6-14 and 103.
- Line 64 (`setAttributionInfo()` followed by its argument) and lines 143
  and 149 (`for (... as ...)` instead of `foreach`) are syntax errors, so
  the script does not parse as written. The model follows the evident
  intent: the JSON-encoded tuple is the argument of `setAttributionInfo`,
  and both loops iterate over the extensions in order.
- The character class is `1-9`, not `0-9`. A `0` anywhere in the campaign
  or keyword part prevents a match, and such a request falls back to the
  query parameters. The model keeps the class as written.
  `Pipeline.ZeroBlocksFilenameMatch` shows this for `/reprints/summer0.png`.
- The comment at line 9 speaks of a GET parameter `campaign`; the code reads
  `pk_campaign` and `pk_keyword`, and the model follows the code.
- `empty()` treats `"0"` as empty: a `pk_campaign=0` or `pk_keyword=0` is
  ignored, and in the title a keyword `"0"` would read `none`. Resolution
  never produces the keyword `"0"` (`Resolver.ResolvedKeywordNotZero`).

## Model

| member | source | states |
|---|---|---|
| PhpStrings.Explode | php/index.php:100 | `explode` always yields at least one piece |
| PhpStrings.ExplodeImplode | php/index.php:100 | imploding the pieces of `explode` gives the input back, and no piece contains the separator |
| PhpStrings.LastPartSpec | php/index.php:100 | `end(explode('/', uri))` is the longest `/`-free suffix of the URI: the whole URI, or exactly the text after its final `/` |
| PhpStrings.LastPartAfterSep | php/index.php:100 | for `p + "/" + x` with no `/` in `x`, the segment is `x` |
| PhpStrings.SplitAtLastSep | php/index.php:100 | splitting a string at its final separator is unique |
| PhpStrings.PhpEmpty | php/index.php:112-126 | `empty()` on a string (here and at lines 48 and 74): true of `""` and `"0"` only; its effect on the query is stated by `Resolver.EmptyParameterIgnored`, on the title by `Reporter.KeywordLabel` |
| PhpStrings.LastPart | php/index.php:100 | `end(explode('/', uri))`; characterised by `PhpStrings.LastPartSpec` and `PhpStrings.LastPartAfterSep` |
| PhpStrings.TrimLeft | php/index.php:114 | the left half of `trim`: a suffix of `s` that does not start with `c`, with only `c`s removed before it |
| PhpStrings.TrimRight | php/index.php:114 | the right half of `trim`: a prefix of `s` that does not end with `c`, with only `c`s removed after it |
| PhpStrings.Trim | php/index.php:114 | `trim(s, '.')` is an infix of `s` with only dots removed before and after it, and neither starts nor ends with a dot |
| PhpStrings.PrefixOfSuffix | php/index.php:114 | trimming the front and then the back of `s` leaves an infix of `s` surrounded only by trimmed characters |
| PhpStrings.TrimLeading | php/index.php:114 | trimming the dot off `"." + kw`, where `kw` has no dot, gives `kw` |
| Resolver.Alternatives | php/index.php:105 | the extension group has at least one alternative; it is the configured list when that is non-empty |
| Resolver.IsNameChar | php/index.php:105 | the character class as written: letters, `1`-`9`, `-` and `_`; no `0` |
| Resolver.IsName | php/index.php:105 | one or more characters of the class, the body of groups 1 and 2 |
| Resolver.Decomposes | php/index.php:105 | the strings the pattern matches: `name[.kw].ext` with `name` and `kw` in the class and `ext` among the alternatives; the reference definition `Resolver.MatchFilenameComplete`, `Resolver.MatchFilenameIff` and `Resolver.MatchFilenameUnique` relate the matcher to |
| Resolver.MatchFilename | php/index.php:105 | a match is a reading of the segment as `name[.kw].ext`, with the name and keyword in the character class and the extension configured |
| Resolver.MatchFilenameComplete | php/index.php:105 | every reading of the pattern is found, with the same campaign; a reading with a keyword is exactly the match |
| Resolver.MatchFilenameIff | php/index.php:105 | a segment matches if and only if it can be read as the pattern |
| Resolver.QueryGiven | php/index.php:120-126 | a query parameter counts when it is set and PHP-non-empty; characterised by `Resolver.QueryFallback` and `Resolver.EmptyParameterIgnored` |
| Resolver.QueryOverride | php/index.php:120-127 | a given parameter replaces the current value, any other leaves it; characterised by `Resolver.QueryFallback` |
| Resolver.ResolveFrom | php/index.php:97-129 | `campaign_data` as a function of the previous globals; characterised by `Resolver.FilenameWithKeyword`, `Resolver.FilenameWithoutKeyword`, `Resolver.FilenameTakesPrecedence`, `Resolver.QueryFallback` and `Resolver.ResolvedKeywordNotZero` |
| Resolver.Defaults | php/index.php:160-161 | the globals before resolution: the configured default campaign and an empty keyword; stated by `Resolver.RequestState.constructor` |
| Resolver.Resolve | php/index.php:160-164 | resolution of a request from the defaults; used by `Pipeline.ServedRequest` and the scenario lemmas |
| Resolver.MatchWithoutKeyword | php/index.php:103-105 | `name.ext`, with a dot-free `ext`, matches with an empty keyword group |
| Resolver.MatchFilenameUnique | php/index.php:105 | with dot-free extensions, the match is the only reading of the segment |
| Resolver.MatchedDots | php/index.php:105 | with dot-free extensions, a matched segment's dots are only the one after the campaign and the one after the keyword |
| Resolver.TooManyDotsNoMatch | php/index.php:105 | with dot-free extensions, a segment with three dots (more than one keyword part) does not match |
| Resolver.UnlistedExtensionNoMatch | php/index.php:105 | with dot-free extensions, a segment whose text after its last dot is not configured does not match |
| Resolver.ForeignCharNoMatch | php/index.php:105 | with plain extensions, a character that is neither a name character nor a dot prevents a match (a `0`; the `?` of a query string, as long as no `/` follows it in the URI) |
| Resolver.FilenameWithKeyword | php/index.php:100-114 | a last segment `name.kw.ext` gives campaign `name` and keyword `kw`, whatever the query |
| Resolver.FilenameWithoutKeyword | php/index.php:100-114 | a last segment `name.ext`, with a dot-free `ext`, gives campaign `name` and keeps the prior keyword (`""` after the defaults), whatever the query |
| Resolver.FilenameTakesPrecedence | php/index.php:105-128 | when the segment matches, the result does not depend on the query parameters, and the campaign is the matched name |
| Resolver.QueryFallback | php/index.php:116-128 | without a match, each value changes only to a set, PHP-non-empty parameter and always does so when one is given |
| Resolver.EmptyParameterIgnored | php/index.php:120-127 | a parameter set to `""` or `"0"` acts as an absent one |
| Resolver.ResolvedKeywordNotZero | php/index.php:112-127 | the resolved keyword is `""` or PHP-non-empty, never `"0"` |
| Resolver.FilenameCampaignIsPlain | php/index.php:105-109 | a campaign taken from the file name holds no `/` and no `.` |
| Resolver.ResolveAsWritten | php/index.php:105 | as written, the result is what the intended resolution gives for a URI with no file name: only the query counts |
| Resolver.RequestState.constructor | php/index.php:160-161 | the globals start as the configured default campaign and an empty keyword |
| Resolver.RequestState.CampaignData | php/index.php:97-129 | `campaign_data` leaves the globals equal to the resolution of the request over their previous values |
| Selector.ImagePath | php/index.php:140-150 | the candidate path `../images/<name>.<ext>`; characterised by `Selector.FirstReadableIsCandidate` |
| Selector.FirstReadable | php/index.php:142-152 | a scan's result is a readable path |
| Selector.FirstReadableLeast | php/index.php:142-146 | the scan returns the path of the first extension, in configured order, whose path is readable |
| Selector.FirstReadableNone | php/index.php:142-152 | a scan finds nothing if and only if no candidate path is readable |
| Selector.FirstReadableIsCandidate | php/index.php:142-152 | a found path is `../images/<name>.<ext>` for a configured extension |
| Selector.Select | php/index.php:133-157 | the image `campaign_image` returns, as a function; characterised by `Selector.SelectSpec`, `Selector.CampaignImageFirst` and `Selector.DefaultImageFallback` |
| Selector.CampaignImage | php/index.php:133-157 | the two loops return exactly the first readable campaign image, else the first readable default image, else unavailable |
| Selector.CampaignImageFirst | php/index.php:142-146 | a readable campaign image beats every default image; the first readable campaign extension wins |
| Selector.DefaultImageFallback | php/index.php:148-152 | `default.*` is used only when no campaign image is readable, and then the first readable default extension wins |
| Selector.SelectSpec | php/index.php:140-156 | selection is unavailable if and only if no campaign or default path is readable; otherwise it is a readable campaign or default path of a configured extension |
| Reporter.Scheme | php/index.php:47-50 | the scheme is `https://` if and only if `HTTPS` is set, PHP-non-empty and not `off`, else `http://` |
| Reporter.TrackedUrl | php/index.php:53 | the URL reported to Piwik; characterised by `Reporter.TrackedUrlParts` and `Reporter.TrackedUrlSameSegment` |
| Reporter.TrackedUrlParts | php/index.php:53 | the tracked URL is the scheme, then the server name, then the whole request URI |
| Reporter.TrackedUrlSameSegment | php/index.php:53 | when `'/' in req.requestUri`, the tracked URL has the same last segment as the request URI, so it names the same image file |
| Reporter.KeywordLabel | php/index.php:74 | the title's keyword is the keyword itself, or `none` for a PHP-empty keyword |
| Reporter.Title | php/index.php:74-75 | the page title; characterised by `Reporter.TitleDistinguishesLabels` and `Reporter.ResolvedTitleNone` |
| Reporter.TitleDistinguishesLabels | php/index.php:74-75 | two titles of one campaign are equal if and only if their keyword labels are |
| Reporter.AttributionInfo | php/index.php:64-70 | the attribution tuple; characterised by `Reporter.AttributionKeepsRawKeyword` |
| Reporter.Track | php/index.php:27-76 | the pageview `track` reports; characterised by `Reporter.AttributionKeepsRawKeyword` and `Pipeline.ServedRequest` |
| Reporter.AttributionKeepsRawKeyword | php/index.php:64-75 | the attribution tuple is `(campaign, raw keyword, 0, referrer)` and the title shows `none` only in place of a PHP-empty keyword |
| Reporter.ResolvedTitleNone | php/index.php:74 | for a resolved request the title reads `none` if and only if the keyword is empty or literally `none` |
| Pipeline.Run | php/index.php:160-176 | the effects of the top level, as a function; characterised by `Pipeline.UnservedIsNotTracked` and `Pipeline.ServedRequest` |
| Pipeline.HandleRequest | php/index.php:160-176 | the top level emits exactly the effects of `Run`: 503 alone, or the pageview, headers and body |
| Pipeline.UnservedIsNotTracked | php/index.php:154-170 | the response is the 503 alone if and only if no campaign or default image is readable; a pageview is emitted if and only if an image is served |
| Pipeline.ServedRequest | php/index.php:164-176 | a served request emits one pageview for the resolved campaign and keyword, then the headers and body of one readable campaign or default image |
| Pipeline.SummerSaleScenario | php/index.php:100-152 | `/reprints/summer-sale.promo.png` with `[png]` resolves to `summer-sale` / `promo` and serves `summer-sale.png`, else `default.png` |
| Pipeline.UnlistedExtensionScenario | php/index.php:105-128 | `/reprints/unknown.gif` with `[png]` and no query resolves to the defaults |
| Pipeline.ZeroBlocksFilenameMatch | php/index.php:105 | `/reprints/summer0.png` does not match, because `0` is outside the class, and falls back to the query |
| Pipeline.AsWrittenIgnoresFilename | php/index.php:105 | as written, `/reprints/acme.png` resolves to the default campaign; as intended, it resolves to `acme` |

## Left out

- The PiwikTracker library: setting its URL, `setTokenAuth`, `setIP`, `setUserAgent`, `setUrl`, `setUrlReferrer`, `setAttributionInfo` and `doTrackPageView` are network calls into foreign code. Tracking is modelled as the emission of one `Reporter.PageView` event carrying every value passed to them. A tracking failure and its handling are not modelled.
- `headers()` and `readfile` (lines 80-93, 176): `filesize`, `finfo` MIME detection, the no-cache header values and the byte stream are HTTP and filesystem I/O. They appear only as the `Headers(path)` and `Body(path)` effects, in that order.
- The 503 header and `exit(0)` (lines 155-156) appear as the single terminal `Status503` effect.
- Config loading and `require_once` (lines 20-23). The configuration is the immutable record `Inputs.Config`.
- The JSON encoding of the attribution array. The model keeps the tuple itself (`Reporter.Attribution`).
- A general regex engine. Extensions are compared as literal strings; in the script an extension containing a regex metacharacter would keep its regex meaning. PCRE's `$`, which also matches before a final newline, is not modelled, since a request URI carries no raw newline.
- The race between the readability check and the read of the image file. This is filesystem timing; the image store is the fixed set `readable`.
- `DIRECTORY_SEPARATOR` is taken to be `/`.
- Query parameters whose value is an array (`pk_campaign[]=x`) are not modelled; `$_GET` is a map from names to strings.
- Unset `HTTP_USER_AGENT` and `HTTP_REFERER` are modelled as `None`; the PHP notices they raise are not. An unset `HTTPS` is also `None`; line 48 reads it only through `empty()`, which raises no notice.

## Findings

| source | as written | input that shows it | evidently intended | confidence | as-written member | corrected member |
|---|---|---|---|---|---|---|
| php/index.php:105 | the pattern string has no regex delimiters: `preg_match` takes `^` as the delimiter, finds no closing one and returns `false`, so the file-name branch never runs | `/reprints/acme.png` with extensions `[png]` and no query parameters resolves to the default campaign instead of `acme` | a delimited pattern such as `/^([a-zA-Z1-9\-_]+)(\.[a-zA-Z1-9\-_]+)?\.(png)$/`, matching the comments at lines 6-9 and 103 | not executed | Resolver.ResolveAsWritten | Resolver.MatchFilename |
