# URL shortener core, modelled in Dafny

This project models the core of a Java/Spring URL shortener. A long URL is
turned into a six-character base-62 code: the MD5 digest of the normalised
URL, encoded in base 62, keeping its first six characters. A collision is
resolved by hashing `url_1`, `url_2`, … for at most 100 attempts. The code and
its URL are stored as a row of the `urls` table. The redirect path puts a
Redis key-value cache (`url:<code>` → URL) in front of the table and records a
click for every redirect it serves.

The model has one module per source component:

| module | file | models |
|---|---|---|
| `Common` | common.dfy | `Option`, `Result` and the exceptions as values |
| `Text` | text.dfy | Java `trim`, `startsWith`/`endsWith`/`contains`, ASCII `toLowerCase`, decimal rendering of an `int` |
| `Base62` | base62.dfy | `toBase62` and the meaning of a base-62 code |
| `HashService` | hash_service.dfy | `UrlHashService`: `normalizeUrl`, `exists`, `generateShortCode` |
| `UrlEntity` | url_entity.dfy | the `Url` entity: its row, builder defaults, `incrementClickCount`, `isExpired`, `isAccessible` |
| `UrlRepo` | url_repository.dfy | `UrlRepository` over the `urls` table, a map from code to row, with the unique index and the column lengths |
| `MappingRepo` | mapping_repository.dfy | `UrlMappingRepository`: its finders, counts and the two bulk updates over a sequence of rows |
| `ServiceCore` | service_core.dfy | what both services share: `UrlResponse`, `mapToResponse`, the shortening step, the active lookup, the click |
| `PlainService` | plain_service.dfy | `UrlServiceImpl` as a class over the table |
| `CachedService` | cached_service.dfy | `CachedUrlService` as a class over the table and the cache |
| `RequestValidation` | shorten_request.dfy | the NotBlank, Size and Pattern constraints of `ShortenRequest` |
| `UsageExample` | usage_example.dfy | `isUrlAllowed` and `integrateWithServiceLayer` |

Modelling choices:

- MD5 over the UTF-8 bytes is a function parameter `md5: string -> seq<Byte>`.
- The current time (`LocalDateTime.now()`) is a parameter `now: int`.
- Each Redis call that can fail gets a boolean parameter saying whether it fails.
- The table is a value held in a field of the service classes, so `save` and the click update it in place.
- Each JPQL query is a function over the rows it reads.
- The two modifying updates are methods of the `MappingTable` class. They reassign its rows and return the number of rows changed.

Where the code and its intended behaviour disagree, the model follows the code:

- **Cache read errors.** A failing cache read is meant to degrade to a miss: the comment at `CachedUrlService.java:165` says caching must not fail the operation, and the test "Should handle cache errors gracefully" (`CachedUrlServiceTest.java:202-215`) expects the redirect to fall back to the database. In the code, `getOriginalUrlForRedirect` rethrows the error from its `catch` block, so the redirect fails (`CacheUnavailable`). `ReadErrorIsNotAMiss` states this.
- **Other cache errors.** `existsByShortCode` and `invalidateCache` do not catch cache errors either, so their errors also propagate.
- **Deactivated mappings.** A deactivated mapping is meant to stop redirecting, since the table read goes through `findActiveByShortCode`. In the code, a cache hit answers without asking the table, so a stale entry is still served. `StaleHitServesInactive` states this.
- **Clicks.** An atomic increment is what would keep concurrent clicks from being lost. In the code, `incrementClickCountAsync` reads the row by `findByShortCode` (inactive rows included) and saves it with one more click. It is modelled as that read and write done in sequence.
- **Expiry boundary.** `Url.isExpired` treats a mapping as expired only strictly after its expiry instant. The queries of `UrlMappingRepository` treat `expiresAt <= now` as expired. At the instant itself the two disagree, as `ExpiryInstantDisagrees` shows.

## Model

| member | source | states |
|---|---|---|
| Text.Trim | src/main/java/com/example/urlshortener/service/UrlHashService.java:31 | Java `trim`: the result is the input with its leading and trailing characters at most U+0020 removed, so it is empty exactly when every character is such, and otherwise starts and ends with a kept character |
| Text.TrimIdempotent | src/main/java/com/example/urlshortener/service/UrlHashService.java:74 | trimming a trimmed string changes nothing, so `exists` re-trimming a generated code is harmless |
| Text.ToLowerAscii | src/main/java/com/example/urlshortener/example/UrlHashServiceUsageExample.java:179 | lower-casing keeps the length and maps each character by the ASCII rule |
| Text.ContainsWitness | src/main/java/com/example/urlshortener/example/UrlHashServiceUsageExample.java:184 | `contains` holds only through an occurrence at some position (`ContainsAt` is the converse) |
| Text.DecimalRoundTrip | src/main/java/com/example/urlshortener/service/UrlHashService.java:54 | the decimal text appended to a collision candidate reads back as the counter |
| Text.DecimalInjective | src/main/java/com/example/urlshortener/service/UrlHashService.java:54 | different collision counters give different decimal suffixes |
| Base62.MagnitudeBound | src/main/java/com/example/urlshortener/service/UrlHashService.java:82 | the unsigned big-endian value of n bytes is below 256^n = 2^(8n), so a 16-byte MD5 digest reads as a number below 2^128 |
| Base62.AlphabetDigit | src/main/java/com/example/urlshortener/service/UrlHashService.java:23 | the alphabet's d-th character is a base-62 character whose digit value is d |
| Base62.Symbol | src/main/java/com/example/urlshortener/service/UrlHashService.java:87 | the character for a remainder below 62 is a base-62 character of that value |
| Base62.Digits | src/main/java/com/example/urlshortener/service/UrlHashService.java:85-89 | the division loop yields base-62 characters, and none exactly for zero |
| Base62.Encode | src/main/java/com/example/urlshortener/service/UrlHashService.java:91-95 | the padded encoding has at least six base-62 characters |
| Base62.DivideOut | src/main/java/com/example/urlshortener/service/UrlHashService.java:85-89 | the division loop yields exactly the base-62 digits of the number, most significant first |
| Base62.PadLeft | src/main/java/com/example/urlshortener/service/UrlHashService.java:91-93 | fewer than six digits are padded in front with `0` up to six; longer ones are left as they are |
| Base62.ToBase62 | src/main/java/com/example/urlshortener/service/UrlHashService.java:79-96 | the two loops (divide by 62 inserting in front, then pad with `0`) compute `Encode` |
| Base62.EncodeZero | src/main/java/com/example/urlshortener/service/UrlHashService.java:91-93 | zero encodes as six `0` characters |
| Base62.EncodeRoundTrip | src/main/java/com/example/urlshortener/service/UrlHashService.java:79-96 | reading the encoding back in base 62 gives the number, padding included |
| Base62.ShortCodeMeaning | src/main/java/com/example/urlshortener/service/UrlHashService.java:46 | `substring(0, 6)` is six base-62 characters whose value is the number divided by 62 to the power of the dropped digits |
| HashService.NormalizeUrl | src/main/java/com/example/urlshortener/service/UrlHashService.java:98-103 | the result always starts with `http://` or `https://` |
| HashService.NormalizeUrlSpec | src/main/java/com/example/urlshortener/service/UrlHashService.java:98-103 | a URL with a scheme is unchanged, any other gets `https://` in front, and normalising twice is normalising once |
| HashService.Exists | src/main/java/com/example/urlshortener/service/UrlHashService.java:69-77 | a blank code is an `IllegalArgumentException`; otherwise the answer is whether the trimmed code is in use |
| HashService.FirstFree | src/main/java/com/example/urlshortener/service/UrlHashService.java:41-56 | the first attempt below 100 whose code is not in use, with every earlier attempt in use, or none when all are |
| HashService.Generate | src/main/java/com/example/urlshortener/service/UrlHashService.java:30-64 | blank input fails with "URL cannot be null or empty"; a code is six base-62 characters not in use; the only other outcome is the exhaustion error |
| HashService.HashToCode | src/main/java/com/example/urlshortener/service/UrlHashService.java:43-46 | the digest's code is six base-62 characters that `trim` keeps and that are not blank |
| HashService.Probe | src/main/java/com/example/urlshortener/service/UrlHashService.java:43-48 | one probe yields the code of the hash input and reports it free exactly when it is not in use |
| HashService.GenerateShortCode | src/main/java/com/example/urlshortener/service/UrlHashService.java:30-64 | the probing loop returns what `Generate` specifies after `ProbeCount` existence checks |
| HashService.GenerateFirstFree | src/main/java/com/example/urlshortener/service/UrlHashService.java:41-54 | when candidate k is free and all earlier ones are taken, the code is candidate k's, after k+1 probes |
| HashService.CollisionThenFree | src/main/java/com/example/urlshortener/service/UrlHashService.java:48-54 | one collision then a free `url_1` returns the code of `url_1` after two probes |
| HashService.AllTakenExhausts | src/main/java/com/example/urlshortener/service/UrlHashService.java:41-63 | a non-blank URL fails with the exhaustion message exactly when all 100 candidates are taken, and then after 100 probes |
| HashService.CandidatesDistinct | src/main/java/com/example/urlshortener/service/UrlHashService.java:54 | distinct attempts hash distinct inputs |
| HashService.CodeIsTrimmed | src/main/java/com/example/urlshortener/service/UrlHashService.java:48 | a generated code passes the blank check of `exists` and is looked up unchanged |
| HashService.NormalizedIsTrimmed | src/main/java/com/example/urlshortener/service/UrlHashService.java:35 | the normalised URL of a non-blank input is non-blank and has nothing to trim |
| HashService.GenerateNormalizes | src/main/java/com/example/urlshortener/service/UrlHashService.java:35 | generating for a URL or for its trimmed, normalised form gives the same code and probe count |
| HashService.SchemeOptional | src/main/java/com/example/urlshortener/service/UrlHashService.java:99-100 | a URL without a scheme gets the same code as the URL with `https://` in front |
| UrlEntity.NewRecord | src/main/java/com/example/urlshortener/entity/Url.java:43-49 | a new row has zero clicks, is active, has no expiry and no creator, and is accessible at every instant |
| UrlEntity.NoExpiryNeverExpires | src/main/java/com/example/urlshortener/entity/Url.java:66-68 | without an expiry a row never expires, so it is accessible exactly when active |
| UrlEntity.ExpiryBoundary | src/main/java/com/example/urlshortener/entity/Url.java:67 | a row is not expired at its expiry instant and is expired one unit later |
| UrlEntity.ExpiryIsPermanent | src/main/java/com/example/urlshortener/entity/Url.java:66-77 | once expired a row stays expired, and a row accessible later was accessible earlier |
| UrlEntity.Url.Builder | src/main/java/com/example/urlshortener/service/impl/UrlServiceImpl.java:42-48 | the builder's object holds the new row with its defaults |
| UrlEntity.Url.IncrementClickCount | src/main/java/com/example/urlshortener/entity/Url.java:57-59 | the click count grows by one and nothing else changes |
| UrlRepo.AtMostOneRowPerCode | src/main/java/com/example/urlshortener/entity/Url.java:30 | the unique index: two rows with the same code are the same row |
| UrlRepo.FindByShortCode | src/main/java/com/example/urlshortener/repository/UrlRepository.java:23 | a row is found exactly when some row has the code, and the row found has it |
| UrlRepo.ExistsByShortCode | src/main/java/com/example/urlshortener/repository/UrlRepository.java:31 | true exactly when `findByShortCode` finds a row, inactive rows included |
| UrlRepo.FindActiveByShortCode | src/main/java/com/example/urlshortener/repository/UrlRepository.java:39-40 | found exactly when an active row has the code, and then it is the row `findByShortCode` finds |
| UrlRepo.ActiveLookupIgnoresExpiry | src/main/java/com/example/urlshortener/repository/UrlRepository.java:39 | an active row is found even after its expiry |
| UrlRepo.Save | src/main/java/com/example/urlshortener/entity/Url.java:30-34 | an insert succeeds exactly when the code is new and the values fit their columns; otherwise a constraint violation; on success only the new row is added and the table stays valid |
| MappingRepo.CountWhere | src/main/java/com/example/urlshortener/repository/UrlMappingRepository.java:107 | a `COUNT` is the number of row positions satisfying the condition |
| MappingRepo.Single | src/main/java/com/example/urlshortener/repository/UrlMappingRepository.java:27 | an `Optional` query gives nothing for no match, the row for one match, and an error for several |
| MappingRepo.SortDesc | src/main/java/com/example/urlshortener/repository/UrlMappingRepository.java:79 | `ORDER BY … DESC` returns the same rows, ordered by non-increasing key |
| MappingRepo.TopPrefix | src/main/java/com/example/urlshortener/repository/UrlMappingRepository.java:79 | the first k rows of a descending order rank at least as high as every row left out |
| MappingRepo.FindByShortCode | src/main/java/com/example/urlshortener/repository/UrlMappingRepository.java:27 | empty exactly when no row has the code; a row found has it |
| MappingRepo.ExistsByShortCode | src/main/java/com/example/urlshortener/repository/UrlMappingRepository.java:35 | true exactly when some row has the code, the same answer `findByShortCode` gives |
| MappingRepo.FindActiveByShortCode | src/main/java/com/example/urlshortener/repository/UrlMappingRepository.java:43-44 | empty exactly when no active row has the code; a row found is active and has it |
| MappingRepo.FindAccessibleByShortCode | src/main/java/com/example/urlshortener/repository/UrlMappingRepository.java:53-54 | empty exactly when no active row with the code lacks an expiry or expires after `now`; a row found is such a row |
| MappingRepo.FindByCreatedByOrderByCreatedAtDesc | src/main/java/com/example/urlshortener/repository/UrlMappingRepository.java:62 | exactly the user's rows, with their multiplicities, newest first |
| MappingRepo.FindExpiredMappings | src/main/java/com/example/urlshortener/repository/UrlMappingRepository.java:70-71 | exactly the rows with an expiry at or before `now`, active or not |
| MappingRepo.FindTopClickedMappings | src/main/java/com/example/urlshortener/repository/UrlMappingRepository.java:79-80 | `min(limit, active count)` active rows of the table, by non-increasing clicks, none outranked by an active row left out |
| MappingRepo.CountActiveMappings | src/main/java/com/example/urlshortener/repository/UrlMappingRepository.java:107-108 | the number of active rows |
| MappingRepo.CountByCreatedBy | src/main/java/com/example/urlshortener/repository/UrlMappingRepository.java:116 | the number of rows created by the user |
| MappingRepo.FindByCreatedAtBetween | src/main/java/com/example/urlshortener/repository/UrlMappingRepository.java:125-126 | exactly the rows created within the closed interval, newest first |
| MappingRepo.AtMostOneMatch | src/main/java/com/example/urlshortener/repository/UrlMappingRepository.java:27 | with unique codes, a condition that fixes the code matches at most one row |
| MappingRepo.UniqueCodesAnswer | src/main/java/com/example/urlshortener/repository/UrlMappingRepository.java:43-54 | with unique codes none of the single-row finders reports an error |
| MappingRepo.AccessibleIsActive | src/main/java/com/example/urlshortener/repository/UrlMappingRepository.java:53-54 | a row found by the accessible finder is also the row the active finder returns |
| MappingRepo.AccessibleOrExpired | src/main/java/com/example/urlshortener/repository/UrlMappingRepository.java:70 | an active row with an expiry is either accessible or expired at `now`, never both |
| MappingRepo.ExpiryInstantDisagrees | src/main/java/com/example/urlshortener/repository/UrlMappingRepository.java:53 | at its expiry instant an active row is accessible for the entity but expired and not accessible for the queries |
| MappingRepo.Clicked | src/main/java/com/example/urlshortener/repository/UrlMappingRepository.java:89 | every row with the code gets one more click; nothing else in any row changes |
| MappingRepo.ClickedTotal | src/main/java/com/example/urlshortener/repository/UrlMappingRepository.java:88-90 | the total of clicks grows by the number of rows with the code |
| MappingRepo.Deactivated | src/main/java/com/example/urlshortener/repository/UrlMappingRepository.java:99 | a row ends up active exactly when it was active and not expired; nothing else changes |
| MappingRepo.SweepIdempotent | src/main/java/com/example/urlshortener/repository/UrlMappingRepository.java:98-100 | after the sweep no row is both active and expired, and sweeping again changes nothing |
| MappingRepo.SweepCount | src/main/java/com/example/urlshortener/repository/UrlMappingRepository.java:98-108 | active rows after the sweep plus rows deactivated equal the active rows before |
| MappingRepo.MappingTable.IncrementClickCount | src/main/java/com/example/urlshortener/repository/UrlMappingRepository.java:88-90 | the table becomes `Clicked`, the count returned is the number of rows with the code, and the total clicks grows by it |
| MappingRepo.MappingTable.DeactivateExpiredMappings | src/main/java/com/example/urlshortener/repository/UrlMappingRepository.java:98-100 | the table becomes `Deactivated`, the count returned is the number of rows that were active and expired, and the active count falls by it |
| ServiceCore.MapToResponse | src/main/java/com/example/urlshortener/service/impl/UrlServiceImpl.java:73-82 | the response copies the row's fields, and its short URL is the base URL, `/` and the code |
| ServiceCore.ShortUrlIdentifiesCode | src/main/java/com/example/urlshortener/service/impl/UrlServiceImpl.java:77 | under one base URL, two responses have the same short URL exactly when they have the same code |
| ServiceCore.Shorten | src/main/java/com/example/urlshortener/service/impl/UrlServiceImpl.java:35-54 | fails exactly when the generator fails or the URL is too long for its column; on success adds one fresh row holding the URL verbatim, with the builder defaults, and keeps the table valid |
| ServiceCore.ShortenStep | src/main/java/com/example/urlshortener/service/impl/UrlServiceImpl.java:38-50 | generating the code, building the entity and saving it yields exactly what `Shorten` specifies |
| ServiceCore.Lookup | src/main/java/com/example/urlshortener/service/impl/UrlServiceImpl.java:61-62 | the active row with the code, or "Short code not found: " and the code |
| ServiceCore.ShortenThenLookup | src/main/java/com/example/urlshortener/service/impl/UrlServiceImpl.java:35-65 | a code just created resolves to the row holding the request's URL |
| ServiceCore.ShortenKeepsOthers | src/main/java/com/example/urlshortener/service/impl/UrlServiceImpl.java:50 | shortening leaves every existing row and its lookup unchanged |
| ServiceCore.Click | src/main/java/com/example/urlshortener/service/impl/CachedUrlService.java:179-182 | the row with the code, active or not, gets one more click; the other rows and the set of codes are unchanged |
| ServiceCore.ClickKeepsLookup | src/main/java/com/example/urlshortener/service/impl/CachedUrlService.java:179-182 | a click changes neither which codes resolve nor their URLs |
| PlainService.UrlServiceImpl.ShortenUrl | src/main/java/com/example/urlshortener/service/impl/UrlServiceImpl.java:35-54 | the table and the answer are those of `Shorten`; a returned code resolves to the response with the request's URL |
| PlainService.UrlServiceImpl.GetOriginalUrl | src/main/java/com/example/urlshortener/service/impl/UrlServiceImpl.java:58-65 | succeeds exactly for an active row, with its response; otherwise "Short code not found: " and the code |
| PlainService.UrlServiceImpl.ExistsByShortCode | src/main/java/com/example/urlshortener/service/impl/UrlServiceImpl.java:69-71 | true exactly when a row, active or not, has the code; when false the lookup fails |
| CachedService.CacheKey | src/main/java/com/example/urlshortener/service/impl/CachedUrlService.java:91 | the key is `url:` followed by the code |
| CachedService.CacheKeyInjective | src/main/java/com/example/urlshortener/service/impl/CachedUrlService.java:34 | different codes have different keys |
| CachedService.CachePut | src/main/java/com/example/urlshortener/service/impl/CachedUrlService.java:153-167 | a successful write stores the URL with the configured expiry under the key; a failing one leaves the cache as it was; other keys are unchanged |
| CachedService.Redirect | src/main/java/com/example/urlshortener/service/impl/CachedUrlService.java:90-125 | a failing read is an error; every success records a click; a failure changes nothing; existing cache entries are kept |
| CachedService.RedirectAgreesWithTable | src/main/java/com/example/urlshortener/service/impl/CachedUrlService.java:93-119 | with a coherent cache the redirect answers what the table lookup answers |
| CachedService.RedirectKeepsCoherent | src/main/java/com/example/urlshortener/service/impl/CachedUrlService.java:108-116 | a redirect keeps every cached URL equal to an active row's URL |
| CachedService.HitServesCache | src/main/java/com/example/urlshortener/service/impl/CachedUrlService.java:95-103 | a hit answers the cached URL and clicks, whatever the table holds, even without a row for the code |
| CachedService.MissServesTable | src/main/java/com/example/urlshortener/service/impl/CachedUrlService.java:106-119 | a miss on an active row answers its URL, offers it to the cache (a failed write is swallowed) and clicks |
| CachedService.MissThenHit | src/main/java/com/example/urlshortener/service/impl/CachedUrlService.java:108-119 | a miss that finds the row caches its URL, so the next redirect is a hit with the same answer |
| CachedService.MissNotFound | src/main/java/com/example/urlshortener/service/impl/CachedUrlService.java:109-110 | a miss without an active row fails with not-found and caches nothing |
| CachedService.StaleHitServesInactive | src/main/java/com/example/urlshortener/service/impl/CachedUrlService.java:97-103 | a cached entry for a deactivated row is still served while the lookup fails |
| CachedService.ReadErrorIsNotAMiss | src/main/java/com/example/urlshortener/service/impl/CachedUrlService.java:121-124 | a failing cache read fails the redirect even when the table holds an active row |
| CachedService.ShortenKeepsCoherent | src/main/java/com/example/urlshortener/service/impl/CachedUrlService.java:49-71 | shortening over a coherent cache and caching the new code keeps the cache coherent with the new table, whether or not the write fails |
| CachedService.InsertKeepsCoherent | src/main/java/com/example/urlshortener/service/impl/CachedUrlService.java:66 | caching the URL of an active row added under a new code keeps a coherent cache coherent |
| CachedService.ShortenThenRedirect | src/main/java/com/example/urlshortener/service/impl/CachedUrlService.java:49-71 | a code just created redirects to the request's URL, whether or not its cache write succeeded |
| CachedService.InvalidateThenRedirect | src/main/java/com/example/urlshortener/service/impl/CachedUrlService.java:144-148 | after the key is removed the redirect answers what the table lookup answers |
| CachedService.CachedUrlService.CacheUrlMapping | src/main/java/com/example/urlshortener/service/impl/CachedUrlService.java:153-167 | the cache becomes `CachePut` of the old cache; the table is unchanged |
| CachedService.CachedUrlService.IncrementClickCount | src/main/java/com/example/urlshortener/service/impl/CachedUrlService.java:172-190 | the table becomes `Click` of the old table; the cache is unchanged |
| CachedService.CachedUrlService.ShortenUrl | src/main/java/com/example/urlshortener/service/impl/CachedUrlService.java:49-71 | the table and the answer are those of `Shorten`, the new code is cached unless the write fails, and a coherent cache stays coherent |
| CachedService.CachedUrlService.SaveAndCache | src/main/java/com/example/urlshortener/service/impl/CachedUrlService.java:64-68 | the saved table becomes the table and the new code's URL is cached through CachePut; a new active row keeps the cache coherent |
| CachedService.CachedUrlService.GetOriginalUrlForRedirect | src/main/java/com/example/urlshortener/service/impl/CachedUrlService.java:90-125 | the answer, the cache and the table afterwards are those of `Redirect` |
| CachedService.CachedUrlService.GetOriginalUrl | src/main/java/com/example/urlshortener/service/impl/CachedUrlService.java:76-84 | succeeds exactly for an active row, with its response; otherwise "Short code not found: " and the code |
| CachedService.CachedUrlService.ExistsByShortCode | src/main/java/com/example/urlshortener/service/impl/CachedUrlService.java:129-138 | a failing cache call is an error; otherwise true when the key is cached or a row has the code, which with a coherent cache is just the latter |
| CachedService.CachedUrlService.InvalidateCache | src/main/java/com/example/urlshortener/service/impl/CachedUrlService.java:144-148 | on success the key is gone and nothing else changes; a failing delete is an error and changes nothing; coherence is kept |
| RequestValidation.IndexOf | src/main/java/com/example/urlshortener/dto/ShortenRequest.java:23 | the first position of a character, or the length when it does not occur |
| RequestValidation.RenderAccepted | src/main/java/com/example/urlshortener/dto/ShortenRequest.java:23 | every URL built by the grammar (optional scheme, domain or localhost host, optional path) is accepted by the recognizer |
| RequestValidation.Parse | src/main/java/com/example/urlshortener/dto/ShortenRequest.java:23 | every accepted string is the rendering of a well-formed grammar term |
| RequestValidation.PatternLanguage | src/main/java/com/example/urlshortener/dto/ShortenRequest.java:23 | the recognizer accepts exactly the strings the grammar generates |
| RequestValidation.HostAccepted | src/main/java/com/example/urlshortener/dto/ShortenRequest.java:23 | each well-formed host is accepted by the domain or the localhost alternative |
| RequestValidation.NoSchemeInHost | src/main/java/com/example/urlshortener/dto/ShortenRequest.java:23 | a host and path never start with `http://` or `https://`, so the optional scheme is read unambiguously |
| RequestValidation.Matches | src/main/java/com/example/urlshortener/dto/ShortenRequest.java:22-25 | the Pattern constraint holds exactly for the strings of the grammar |
| RequestValidation.Violations | src/main/java/com/example/urlshortener/dto/ShortenRequest.java:20-25 | NotBlank is violated exactly when every character is at most U+0020, Size exactly above 2048 characters, Pattern exactly outside the grammar |
| RequestValidation.MatchedNotBlank | src/main/java/com/example/urlshortener/dto/ShortenRequest.java:20-23 | a string the pattern accepts is never blank |
| RequestValidation.BlankFailsPattern | src/main/java/com/example/urlshortener/dto/ShortenRequest.java:20-23 | a blank URL violates the Pattern constraint as well as NotBlank |
| UsageExample.IsUrlAllowed | src/main/java/com/example/urlshortener/example/UrlHashServiceUsageExample.java:177-198 | the two scans answer true exactly when the lower-cased URL contains no blocked domain and ends with no blocked extension |
| UsageExample.BlockedDomainAnywhere | src/main/java/com/example/urlshortener/example/UrlHashServiceUsageExample.java:182-187 | a blocked domain, in any letter case and anywhere in the URL, rejects it |
| UsageExample.BlockedExtensionAtEnd | src/main/java/com/example/urlshortener/example/UrlHashServiceUsageExample.java:190-195 | a blocked extension, in any letter case, at the end rejects the URL |
| UsageExample.AllowedIgnoresCase | src/main/java/com/example/urlshortener/example/UrlHashServiceUsageExample.java:179 | a URL and its lower-cased form get the same answer |
| UsageExample.Attempt | src/main/java/com/example/urlshortener/example/UrlHashServiceUsageExample.java:151 | one call of the generator answers what attempt k is specified to answer: the generator's result for the table as that attempt finds it |
| UsageExample.RetryFrom | src/main/java/com/example/urlshortener/example/UrlHashServiceUsageExample.java:148-169 | success exactly when some attempt succeeds, with the code of the first one; otherwise the last failure wrapped |
| UsageExample.CallsFrom | src/main/java/com/example/urlshortener/example/UrlHashServiceUsageExample.java:148-169 | the generator is called up to the first success or three times, every call before the last failing |
| UsageExample.RetryAfterFailures | src/main/java/com/example/urlshortener/example/UrlHashServiceUsageExample.java:150-161 | failed attempts before attempt i only hand the retry on: the outcome and the remaining calls are those from attempt i |
| UsageExample.RetryLoop | src/main/java/com/example/urlshortener/example/UrlHashServiceUsageExample.java:150-169 | the loop returns the first code, or after three failures the last one wrapped, having made exactly `CallsFrom` calls |
| UsageExample.IntegrateWithServiceLayer | src/main/java/com/example/urlshortener/example/UrlHashServiceUsageExample.java:138-172 | blank input fails with "URL cannot be empty" after no call; otherwise the trimmed URL is retried as `RetryFrom` and `CallsFrom` say |
| UsageExample.RetrySameTable | src/main/java/com/example/urlshortener/example/UrlHashServiceUsageExample.java:148-169 | against an unchanged table the retries change nothing: one call's code, or its failure wrapped after three calls |
| UsageExample.TrimmedInputSameCode | src/main/java/com/example/urlshortener/example/UrlHashServiceUsageExample.java:145 | trimming before the call gives the code the generator gives for the raw input |
| UsageExample.RetryFailureIsExhaustion | src/main/java/com/example/urlshortener/example/UrlHashServiceUsageExample.java:155-159 | for a non-blank input, the only failure after the retries wraps the exhaustion error |

## Left out

- MD5 and the UTF-8 encoding are foreign library calls. They are a function parameter `md5`. The unreachable `NoSuchAlgorithmException` branch is not modelled.
- `getCacheStats` only wraps the Redis key count. It is not modelled.
- The Spring cache annotations (CachePut, Cacheable and CacheEvict on "urlCache") are framework behaviour, not code. Only the explicit `url:` keys are modelled.
- The cache entry's time-to-live is recorded but never expires in the model. Entries leave the cache only through `invalidateCache`.
- The clock is the parameter `now`. `LocalDateTime` is an integer instant.
- The controller, the configuration classes, `UrlRequest`, `ShortenResponse` and logging are not part of this model.
- The other demo methods of `UrlHashServiceUsageExample` are not part of this model. This includes the `Thread.sleep` pause and its interruption path between retries.
- The `UrlMapping` entity file is not part of this model. Its rows reuse the `Url` row shape, which has every field its queries name.
- The surrogate `id` column is not part of this model. Rows are identified by their code.
- Database errors other than the unique index and the column lengths are not modelled: connectivity, transactions and `nullable` on non-null values.
- `null` arguments are not modelled. Strings are never null, and the `null` checks reduce to the blank checks.
- Lengths are counted in characters. UTF-16 surrogate pairs and database byte limits are not distinguished.
- Text.ToLowerAscii: only ASCII letters are lower-cased, because locale-dependent lower-casing of other characters is outside the model.
- Text.Trim: models Java's `trim` (characters up to U+0020), not `strip`.
- ServiceCore.Shorten: each service call is modelled as running alone. Two concurrent `shortenUrl` calls can both find a code free in `exists` and both call `save`; the unique index then rejects the second with a `DataIntegrityViolationException` that escapes `shortenUrl`. That race and its failure are not captured, so "fails exactly when generation fails or the URL is too long" holds only without interleaving.
- CachedService.CachedUrlService.IncrementClickCount: the increment runs on a new thread, with a racy read-modify-write. The model runs it in sequence, so lost updates and failures to start the thread are not captured.
- UrlEntity.Url.IncrementClickCount: the click count is an unbounded `nat`, so the overflow of Java's `Long` is not modelled.
- MappingRepo.FindTopClickedMappings: `limit` is a `nat`, so a negative `LIMIT` is not modelled. The order among rows with equal click counts is unspecified in the query. The model fixes one and states only the non-increasing order.
- MappingRepo.FindByCreatedByOrderByCreatedAtDesc: the order among equal timestamps is likewise not stated.
- MappingRepo.FindByCreatedAtBetween: the order among equal timestamps is likewise not stated.
- RequestValidation.Violations: Bean Validation's handling of a `null` URL is not modelled, and the order of the reported messages is not stated.
- UsageExample.IntegrateWithServiceLayer: the table the generator sees at attempt k is a parameter `snapshots(k)`, standing for whatever concurrent writers changed between attempts.
