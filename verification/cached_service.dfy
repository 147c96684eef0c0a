/** `CachedUrlService`: the service with a Redis key-value cache in front of
    the `urls` table. The cache and the table are fields updated in place.
    A failing Redis call is a boolean parameter of the operation that makes
    it. */
module CachedService {
  import opened Common
  import opened Text
  import opened HashService
  import opened UrlEntity
  import opened UrlRepo
  import opened ServiceCore

  const CachePrefix: string := "url:"

  /** A string value with the expiry, in seconds, it was written with. */
  datatype CacheEntry = CacheEntry(value: string, ttlSeconds: int)

  type Cache = map<string, CacheEntry>

  /** `URL_CACHE_PREFIX + shortCode` */
  function CacheKey(code: string): (k: string)
    ensures StartsWith(k, CachePrefix) && k[|CachePrefix|..] == code
  {
    CachePrefix + code
  }

  lemma CacheKeyInjective(a: string, b: string)
    requires CacheKey(a) == CacheKey(b)
    ensures a == b
  {
    assert CacheKey(a)[|CachePrefix|..] == CacheKey(b)[|CachePrefix|..];
  }

  /** `cacheUrlMapping`: sets the key with the configured expiry; when the
      write fails the failure is swallowed and the cache is as before. */
  function CachePut(cache: Cache, code: string, longUrl: string, ttl: int, writeFails: bool): (c: Cache)
    ensures writeFails ==> c == cache
    ensures !writeFails ==> CacheKey(code) in c && c[CacheKey(code)] == CacheEntry(longUrl, ttl)
    ensures c.Keys <= cache.Keys + {CacheKey(code)}
    ensures forall k :: k in cache && k != CacheKey(code) ==> k in c && c[k] == cache[k]
  {
    if writeFails then cache else cache[CacheKey(code) := CacheEntry(longUrl, ttl)]
  }

  /** Every cached redirect names an active mapping of the table and its URL. */
  ghost predicate Coherent(cache: Cache, store: Table) {
    && Keyed(store)
    && forall code {:trigger CacheKey(code)} :: CacheKey(code) in cache ==>
         code in store && store[code].isActive && store[code].longUrl == cache[CacheKey(code)].value
  }

  /** The outcome of a redirect lookup: its answer, and the cache and table
      after it. */
  datatype Redirected = Redirected(result: Result<string>, cache: Cache, store: Table)

  /** `getOriginalUrlForRedirect`. A failing cache read is rethrown. A hit
      answers from the cache without asking the table. A miss asks the table
      for an active row, caches its URL and answers with it, or fails with
      `UrlNotFoundException`. Every answer records one click. */
  function Redirect(cache: Cache, store: Table, code: string, ttl: int, readFails: bool, writeFails: bool): (o: Redirected)
    requires Keyed(store)
    ensures readFails ==> o.result == Failure(CacheUnavailable)
    ensures o.result.Success? ==> o.store == Click(store, code)
    ensures o.result.Failure? ==> o.store == store && o.cache == cache
    ensures o.cache.Keys <= cache.Keys + {CacheKey(code)}
    ensures forall k :: k in cache ==> k in o.cache && o.cache[k] == cache[k]
  {
    if readFails then Redirected(Failure(CacheUnavailable), cache, store)
    else if CacheKey(code) in cache then
      Redirected(Success(cache[CacheKey(code)].value), cache, Click(store, code))
    else
      match Lookup(store, code)
      case Failure(e) => Redirected(Failure(e), cache, store)
      case Success(row) =>
        Redirected(Success(row.longUrl), CachePut(cache, code, row.longUrl, ttl, writeFails), Click(store, code))
  }

  /** With a coherent cache the redirect answers exactly what the table
      lookup of `UrlServiceImpl.getOriginalUrl` answers. */
  lemma RedirectAgreesWithTable(cache: Cache, store: Table, code: string, ttl: int, writeFails: bool)
    requires Coherent(cache, store)
    ensures var o := Redirect(cache, store, code, ttl, false, writeFails);
      && (o.result.Success? <==> Lookup(store, code).Success?)
      && (o.result.Success? ==> o.result.value == Lookup(store, code).value.longUrl)
      && (o.result.Failure? ==> o.result == Failure(Lookup(store, code).error))
  {
  }

  /** Every redirect keeps a coherent cache coherent. */
  lemma RedirectKeepsCoherent(cache: Cache, store: Table, code: string, ttl: int, readFails: bool, writeFails: bool)
    requires Coherent(cache, store)
    ensures Coherent(Redirect(cache, store, code, ttl, readFails, writeFails).cache,
                     Redirect(cache, store, code, ttl, readFails, writeFails).store)
  {
    var o := Redirect(cache, store, code, ttl, readFails, writeFails);
    forall c | CacheKey(c) in o.cache
      ensures c in o.store && o.store[c].isActive && o.store[c].longUrl == o.cache[CacheKey(c)].value
    {
      if CacheKey(c) == CacheKey(code) {
        CacheKeyInjective(c, code);
      }
    }
  }

  /** A hit answers the cached URL whatever the table holds, even when it has
      no row for the code, and records a click only on a row that exists. */
  lemma HitServesCache(cache: Cache, store: Table, other: Table, code: string, ttl: int, writeFails: bool)
    requires Keyed(store) && Keyed(other) && CacheKey(code) in cache
    ensures Redirect(cache, store, code, ttl, false, writeFails)
         == Redirected(Success(cache[CacheKey(code)].value), cache, Click(store, code))
    ensures Redirect(cache, other, code, ttl, false, writeFails).result
         == Redirect(cache, store, code, ttl, false, writeFails).result
    ensures code !in store ==> Redirect(cache, store, code, ttl, false, writeFails).store == store
  {
  }

  /** A miss answers the active row's URL, offers it to the cache through
      `cacheUrlMapping`, whose failure is swallowed, and records a click. */
  lemma MissServesTable(cache: Cache, store: Table, code: string, ttl: int, writeFails: bool)
    requires Keyed(store) && CacheKey(code) !in cache && Lookup(store, code).Success?
    ensures Redirect(cache, store, code, ttl, false, writeFails)
         == Redirected(Success(store[code].longUrl),
                       CachePut(cache, code, store[code].longUrl, ttl, writeFails),
                       Click(store, code))
  {
  }

  /** A miss that finds the mapping fills the cache, so the next redirect for
      the same code is a hit with the same answer. */
  lemma MissThenHit(cache: Cache, store: Table, code: string, ttl: int)
    requires Keyed(store) && CacheKey(code) !in cache && Lookup(store, code).Success?
    ensures var o := Redirect(cache, store, code, ttl, false, false);
      && o.result == Success(store[code].longUrl)
      && o.cache == cache[CacheKey(code) := CacheEntry(store[code].longUrl, ttl)]
      && Keyed(o.store)
      && Redirect(o.cache, o.store, code, ttl, false, false).result == o.result
      && Redirect(o.cache, o.store, code, ttl, false, false).cache == o.cache
  {
  }

  /** A miss for a code with no active mapping fails and caches nothing. */
  lemma MissNotFound(cache: Cache, store: Table, code: string, ttl: int, writeFails: bool)
    requires Keyed(store) && CacheKey(code) !in cache && Lookup(store, code).Failure?
    ensures Redirect(cache, store, code, ttl, false, writeFails)
         == Redirected(Failure(UrlNotFound(NotFoundPrefix + code)), cache, store)
  {
  }

  /** A cached entry is served even after its mapping was deactivated, while
      the table lookup no longer finds it. */
  lemma StaleHitServesInactive(cache: Cache, store: Table, code: string, ttl: int, writeFails: bool)
    requires Keyed(store) && CacheKey(code) in cache && code in store && !store[code].isActive
    ensures Redirect(cache, store, code, ttl, false, writeFails).result == Success(cache[CacheKey(code)].value)
    ensures Lookup(store, code).Failure?
    ensures !Coherent(cache, store)
  {
  }

  /** A failing cache read fails the redirect, even when the table holds an
      active mapping that a fall-back to the table would have served. */
  lemma ReadErrorIsNotAMiss(cache: Cache, store: Table, code: string, ttl: int, writeFails: bool)
    requires Keyed(store) && Lookup(store, code).Success?
    ensures Redirect(cache, store, code, ttl, true, writeFails).result == Failure(CacheUnavailable)
    ensures Redirect(cache, store, code, ttl, true, writeFails).store == store
  {
  }

  /** Shortening over a coherent cache, then caching the new code's URL,
      leaves the cache coherent with the new table. */
  lemma ShortenKeepsCoherent(md5: Digest, cache: Cache, store: Table, longUrl: string, now: int,
                             ttl: int, writeFails: bool)
    requires Coherent(cache, store) && Shorten(md5, store, longUrl, now).Success?
    ensures var (t, row) := Shorten(md5, store, longUrl, now).value;
      Coherent(CachePut(cache, row.shortCode, longUrl, ttl, writeFails), t)
  {
    var (t, row) := Shorten(md5, store, longUrl, now).value;
    InsertKeepsCoherent(cache, store, row, ttl, writeFails);
  }

  /** Adding an active row under a new code and caching its URL keeps a
      coherent cache coherent. */
  lemma InsertKeepsCoherent(cache: Cache, store: Table, row: UrlRecord, ttl: int, writeFails: bool)
    requires Coherent(cache, store) && row.shortCode !in store && row.isActive
    ensures Coherent(CachePut(cache, row.shortCode, row.longUrl, ttl, writeFails), store[row.shortCode := row])
  {
    var t := store[row.shortCode := row];
    var c := CachePut(cache, row.shortCode, row.longUrl, ttl, writeFails);
    forall code | CacheKey(code) in c
      ensures code in t && t[code].isActive && t[code].longUrl == c[CacheKey(code)].value
    {
      if CacheKey(code) == CacheKey(row.shortCode) {
        CacheKeyInjective(code, row.shortCode);
      }
    }
  }

  /** A code shortened over a coherent cache redirects to the request's URL,
      whether or not its cache write went through. */
  lemma ShortenThenRedirect(md5: Digest, cache: Cache, store: Table, longUrl: string, now: int,
                            ttl: int, putFails: bool, writeFails: bool)
    requires Coherent(cache, store) && Shorten(md5, store, longUrl, now).Success?
    ensures var (t, row) := Shorten(md5, store, longUrl, now).value;
      var c := CachePut(cache, row.shortCode, longUrl, ttl, putFails);
      Keyed(t) && Redirect(c, t, row.shortCode, ttl, false, writeFails).result == Success(longUrl)
  {
    var (t, row) := Shorten(md5, store, longUrl, now).value;
    assert CacheKey(row.shortCode) !in cache;
  }

  class CachedUrlService {
    var store: Table
    var cache: Cache
    const baseUrl: string
    const ttlSeconds: int
    const md5: Digest

    /** The table keeps its unique index and column limits. */
    predicate Valid()
      reads this
    {
      UrlRepo.Valid(store)
    }

    constructor (baseUrl: string, ttlSeconds: int, md5: Digest, store: Table, cache: Cache)
      requires UrlRepo.Valid(store)
      ensures Valid() && this.store == store && this.cache == cache
      ensures this.baseUrl == baseUrl && this.ttlSeconds == ttlSeconds && this.md5 == md5
    {
      this.baseUrl := baseUrl;
      this.ttlSeconds := ttlSeconds;
      this.md5 := md5;
      this.store := store;
      this.cache := cache;
    }

    /** `cacheUrlMapping` */
    method CacheUrlMapping(code: string, longUrl: string, writeFails: bool)
      modifies this
      ensures cache == CachePut(old(cache), code, longUrl, ttlSeconds, writeFails)
      ensures store == old(store)
    {
      if !writeFails {
        cache := cache[CacheKey(code) := CacheEntry(longUrl, ttlSeconds)];
      }
    }

    /** `incrementClickCountAsync`, run to completion in sequence. */
    method IncrementClickCount(code: string)
      requires Valid()
      modifies this
      ensures Valid()
      ensures store == Click(old(store), code) && cache == old(cache)
    {
      var found := UrlRepo.FindByShortCode(store, code);
      if found.Some? {
        var saved := found.value.(clickCount := found.value.clickCount + 1);
        store := store[code := saved];
      }
    }

    /** `shortenUrl`: the row of `UrlServiceImpl.shortenUrl`, then its URL
        cached under the new code unless the cache write fails. */
    method ShortenUrl(longUrl: string, now: int, writeFails: bool) returns (r: Result<UrlResponse>)
      requires Valid()
      modifies this
      ensures Valid()
      ensures Shorten(md5, old(store), longUrl, now).Success? ==>
        var (t, row) := Shorten(md5, old(store), longUrl, now).value;
        && store == t
        && cache == CachePut(old(cache), row.shortCode, longUrl, ttlSeconds, writeFails)
        && r == Success(MapToResponse(baseUrl, row))
      ensures Shorten(md5, old(store), longUrl, now).Failure? ==>
        store == old(store) && cache == old(cache) && r == Failure(Shorten(md5, old(store), longUrl, now).error)
      ensures Coherent(old(cache), old(store)) ==> Coherent(cache, store)
    {
      var step := ShortenStep(md5, store, longUrl, now);
      if step.Failure? {
        return Failure(step.error);
      }
      var (t, row) := step.value;
      SaveAndCache(t, row, writeFails);
      r := Success(MapToResponse(baseUrl, row));
    }

    /** The tail of `shortenUrl`: the saved table becomes the table, then the
        new row's URL is cached under its code. A new active row keeps the
        cache coherent. */
    method SaveAndCache(t: Table, row: UrlRecord, writeFails: bool)
      requires UrlRepo.Valid(t) && t == store[row.shortCode := row]
      modifies this
      ensures Valid()
      ensures store == t && cache == CachePut(old(cache), row.shortCode, row.longUrl, ttlSeconds, writeFails)
      ensures Coherent(old(cache), old(store)) && row.shortCode !in old(store) && row.isActive ==>
        Coherent(cache, store)
    {
      if Coherent(cache, store) && row.shortCode !in store && row.isActive {
        InsertKeepsCoherent(cache, store, row, ttlSeconds, writeFails);
      }
      store := t;
      CacheUrlMapping(row.shortCode, row.longUrl, writeFails);
    }

    /** `getOriginalUrlForRedirect` */
    method GetOriginalUrlForRedirect(code: string, readFails: bool, writeFails: bool) returns (r: Result<string>)
      requires Valid()
      modifies this
      ensures Valid()
      ensures Redirected(r, cache, store) == Redirect(old(cache), old(store), code, ttlSeconds, readFails, writeFails)
    {
      if readFails {
        return Failure(CacheUnavailable);
      }
      var key := CacheKey(code);
      if key in cache {
        var cachedUrl := cache[key].value;
        IncrementClickCount(code);
        return Success(cachedUrl);
      }
      var found := FindActiveByShortCode(store, code);
      if found.None? {
        return Failure(UrlNotFound(NotFoundPrefix + code));
      }
      var longUrl := found.value.longUrl;
      CacheUrlMapping(code, longUrl, writeFails);
      IncrementClickCount(code);
      r := Success(longUrl);
    }

    /** `getOriginalUrl`: the table lookup of `UrlServiceImpl`. */
    function GetOriginalUrl(code: string): (r: Result<UrlResponse>)
      requires Valid()
      reads this
      ensures r.Success? <==> code in store && store[code].isActive
      ensures r.Success? ==> r.value == MapToResponse(baseUrl, store[code])
      ensures r.Failure? ==> r.error == UrlNotFound(NotFoundPrefix + code)
    {
      match Lookup(store, code)
      case Success(row) => Success(MapToResponse(baseUrl, row))
      case Failure(e) => Failure(e)
    }

    /** `existsByShortCode`: true on a cached key, otherwise the table's
        answer; a failing cache query propagates. With a coherent cache it
        is the answer of `UrlServiceImpl`. */
    function ExistsByShortCode(code: string, readFails: bool): (r: Result<bool>)
      requires Valid()
      reads this
      ensures readFails <==> r.Failure?
      ensures r.Failure? ==> r.error == CacheUnavailable
      ensures r.Success? ==> (r.value <==> CacheKey(code) in cache || code in store)
      ensures r.Success? && Coherent(cache, store) ==> (r.value <==> code in store)
    {
      if readFails then Failure(CacheUnavailable)
      else if CacheKey(code) in cache then Success(true)
      else Success(UrlRepo.ExistsByShortCode(store, code))
    }

    /** `invalidateCache`: deletes the one key; the table and every other key
        stay. A failing delete propagates and changes nothing. */
    method InvalidateCache(code: string, fails: bool) returns (r: Result<()>)
      modifies this
      ensures fails ==> r == Failure(CacheUnavailable) && cache == old(cache)
      ensures !fails ==> r == Success(()) && cache == old(cache) - {CacheKey(code)}
      ensures store == old(store)
      ensures Coherent(old(cache), old(store)) ==> Coherent(cache, store)
    {
      if fails {
        return Failure(CacheUnavailable);
      }
      cache := cache - {CacheKey(code)};
      r := Success(());
    }
  }

  /** After invalidation the redirect for that code goes to the table. */
  lemma InvalidateThenRedirect(cache: Cache, store: Table, code: string, ttl: int, writeFails: bool)
    requires Keyed(store)
    ensures var c := cache - {CacheKey(code)};
      Redirect(c, store, code, ttl, false, writeFails).result ==
        match Lookup(store, code)
        case Success(row) => Success(row.longUrl)
        case Failure(e) => Failure(e)
  {
  }
}
