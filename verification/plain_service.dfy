/** `UrlServiceImpl`: the service without a cache. Its table of mappings is
    updated in place by `shortenUrl`; the lookups only read it. */
module PlainService {
  import opened Common
  import opened HashService
  import opened UrlEntity
  import opened UrlRepo
  import opened ServiceCore

  class UrlServiceImpl {
    var store: Table
    const baseUrl: string
    const md5: Digest

    /** The table keeps its unique index and column limits. */
    predicate Valid()
      reads this
    {
      UrlRepo.Valid(store)
    }

    constructor (baseUrl: string, md5: Digest, store: Table)
      requires UrlRepo.Valid(store)
      ensures Valid() && this.store == store && this.baseUrl == baseUrl && this.md5 == md5
    {
      this.baseUrl := baseUrl;
      this.md5 := md5;
      this.store := store;
    }

    /** `shortenUrl`: one new row under a fresh code, holding the request's
        URL verbatim; on an error the table is left as it was. */
    method ShortenUrl(longUrl: string, now: int) returns (r: Result<UrlResponse>)
      requires Valid()
      modifies this
      ensures Valid()
      ensures Shorten(md5, old(store), longUrl, now).Success? ==>
        store == Shorten(md5, old(store), longUrl, now).value.0 &&
        r == Success(MapToResponse(baseUrl, Shorten(md5, old(store), longUrl, now).value.1))
      ensures Shorten(md5, old(store), longUrl, now).Failure? ==>
        store == old(store) && r == Failure(Shorten(md5, old(store), longUrl, now).error)
      ensures r.Success? ==> GetOriginalUrl(r.value.shortCode) == r && r.value.longUrl == longUrl
    {
      var step := ShortenStep(md5, store, longUrl, now);
      if step.Failure? {
        return Failure(step.error);
      }
      store := step.value.0;
      r := Success(MapToResponse(baseUrl, step.value.1));
    }

    /** `getOriginalUrl`: the response for the active row with the code, or
        `UrlNotFoundException`. */
    function GetOriginalUrl(code: string): (r: Result<UrlResponse>)
      requires Valid()
      reads this
      ensures r.Success? <==> code in store && store[code].isActive
      ensures r.Success? ==> r.value == MapToResponse(baseUrl, store[code])
      ensures r.Failure? ==> r.error == UrlNotFound(NotFoundPrefix + code)
    {
      match Lookup(store, code)
      case Success(row) => Success(MapToResponse(baseUrl, row))
      case Failure(e) => Failure(e)
    }

    /** `existsByShortCode`: the repository's answer, inactive rows included. */
    function ExistsByShortCode(code: string): (r: bool)
      requires Valid()
      reads this
      ensures r <==> code in store
      ensures !r ==> GetOriginalUrl(code).Failure?
    {
      UrlRepo.ExistsByShortCode(store, code)
    }
  }
}
