/** What both `UrlService` implementations share: the response they build,
    the shortening step (generate a code, build the entity, save it) and the
    lookup of an active mapping, stated over the `urls` table. */
module ServiceCore {
  import opened Common
  import opened Text
  import opened HashService
  import opened UrlEntity
  import opened UrlRepo

  const NotFoundPrefix: string := "Short code not found: "

  /** `UrlResponse` */
  datatype UrlResponse = UrlResponse(
    shortCode: string,
    longUrl: string,
    shortUrl: string,
    createdAt: int,
    expiresAt: Option<int>,
    clickCount: nat)

  /** `mapToResponse`: the saved row's data, with `shortUrl` the base URL,
      a slash and the code. */
  function MapToResponse(baseUrl: string, row: UrlRecord): (r: UrlResponse)
    ensures r.shortCode == row.shortCode && r.longUrl == row.longUrl
    ensures r.createdAt == row.createdAt && r.expiresAt == row.expiresAt && r.clickCount == row.clickCount
    ensures StartsWith(r.shortUrl, baseUrl + "/") && r.shortUrl[|baseUrl| + 1..] == row.shortCode
  {
    UrlResponse(row.shortCode, row.longUrl, baseUrl + "/" + row.shortCode,
                row.createdAt, row.expiresAt, row.clickCount)
  }

  /** The short URL determines the code, so two responses under the same
      base URL name the same mapping exactly when their short URLs agree. */
  lemma ShortUrlIdentifiesCode(baseUrl: string, a: UrlRecord, b: UrlRecord)
    ensures MapToResponse(baseUrl, a).shortUrl == MapToResponse(baseUrl, b).shortUrl
        <==> a.shortCode == b.shortCode
  {
    var ra, rb := MapToResponse(baseUrl, a), MapToResponse(baseUrl, b);
    if ra.shortUrl == rb.shortUrl {
      assert ra.shortUrl[|baseUrl| + 1..] == rb.shortUrl[|baseUrl| + 1..];
    }
  }

  /** `shortenUrl` on the table: the generator's code, probed against the
      codes already stored, then `save` of the builder's row holding the
      request's URL verbatim. Yields the new table and the saved row. */
  function Shorten(md5: Digest, store: Table, longUrl: string, now: int): (r: Result<(Table, UrlRecord)>)
    ensures r.Failure? <==> Generate(md5, store.Keys, longUrl).Failure? || |longUrl| > LongUrlColumnLength
    ensures Generate(md5, store.Keys, longUrl).Failure? ==> r == Failure(Generate(md5, store.Keys, longUrl).error)
    ensures r.Success? ==>
      var row := r.value.1;
      && Generate(md5, store.Keys, longUrl) == Success(row.shortCode)
      && row.shortCode !in store
      && row == NewRecord(row.shortCode, longUrl, now)
      && r.value.0 == store[row.shortCode := row]
    ensures r.Success? && UrlRepo.Valid(store) ==> UrlRepo.Valid(r.value.0)
  {
    match Generate(md5, store.Keys, longUrl)
    case Failure(e) => Failure(e)
    case Success(code) =>
      var row := NewRecord(code, longUrl, now);
      match Save(store, row)
      case Failure(e) => Failure(e)
      case Success(t) => Success((t, row))
  }

  /** The body `shortenUrl` runs in both implementations: the generator's
      probing loop, the builder, then `save`; it yields the new table and the
      saved row, or the first error. */
  method ShortenStep(md5: Digest, store: Table, longUrl: string, now: int) returns (r: Result<(Table, UrlRecord)>)
    ensures r == Shorten(md5, store, longUrl, now)
  {
    var generated, _ := GenerateShortCode(md5, store.Keys, longUrl);
    if generated.Failure? {
      return Failure(generated.error);
    }
    var url := new Url.Builder(generated.value, longUrl, now);
    var row := url.Row();
    var saved := Save(store, row);
    if saved.Failure? {
      return Failure(saved.error);
    }
    r := Success((saved.value, row));
  }

  /** `findActiveByShortCode(code).orElseThrow(...)`. */
  function Lookup(store: Table, code: string): (r: Result<UrlRecord>)
    requires Keyed(store)
    ensures r.Success? <==> code in store && store[code].isActive
    ensures r.Success? ==> r.value == store[code] && r.value.shortCode == code
    ensures r.Failure? ==> r.error == UrlNotFound(NotFoundPrefix + code)
  {
    match FindActiveByShortCode(store, code)
    case Some(row) => Success(row)
    case None => Failure(UrlNotFound(NotFoundPrefix + code))
  }

  /** A code just created by `Shorten` resolves to the URL it was given. */
  lemma ShortenThenLookup(md5: Digest, store: Table, longUrl: string, now: int)
    requires Keyed(store)
    requires Shorten(md5, store, longUrl, now).Success?
    ensures var (t, row) := Shorten(md5, store, longUrl, now).value;
      Keyed(t) && Lookup(t, row.shortCode) == Success(row) && row.longUrl == longUrl
  {
  }

  /** Shortening leaves every existing mapping as it was. */
  lemma ShortenKeepsOthers(md5: Digest, store: Table, longUrl: string, now: int, code: string)
    requires Keyed(store) && code in store
    requires Shorten(md5, store, longUrl, now).Success?
    ensures var t := Shorten(md5, store, longUrl, now).value.0;
      Keyed(t) && code in t && t[code] == store[code] && Lookup(t, code) == Lookup(store, code)
  {
  }

  /** The click the redirect records: `findByShortCode(code).ifPresent` of a
      save with one more click, done in sequence. */
  function Click(store: Table, code: string): (t: Table)
    ensures t.Keys == store.Keys
    ensures forall c :: c in store && c != code ==> t[c] == store[c]
    ensures code in store ==> t[code] == store[code].(clickCount := store[code].clickCount + 1)
    ensures Keyed(store) ==> Keyed(t)
    ensures UrlRepo.Valid(store) ==> UrlRepo.Valid(t)
  {
    if code in store then store[code := store[code].(clickCount := store[code].clickCount + 1)]
    else store
  }

  /** A click changes neither what a lookup finds active nor its URL. */
  lemma ClickKeepsLookup(store: Table, code: string, other: string)
    requires Keyed(store)
    ensures Lookup(Click(store, code), other).Success? == Lookup(store, other).Success?
    ensures Lookup(store, other).Success? ==>
      Lookup(Click(store, code), other).value.longUrl == Lookup(store, other).value.longUrl
  {
  }
}
