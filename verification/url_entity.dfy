/** The `Url` entity: one row of the `urls` table. Timestamps are integers
    (seconds); the clock is always passed in. */
module UrlEntity {
  import opened Common

  const ShortCodeColumnLength: nat := 10
  const LongUrlColumnLength: nat := 2048
  const CreatedByColumnLength: nat := 50

  /** The persisted fields of a mapping. The generated numeric `id` is left
      out: the short code is the key the service uses. */
  datatype UrlRecord = UrlRecord(
    shortCode: string,
    longUrl: string,
    createdAt: int,
    expiresAt: Option<int>,
    clickCount: nat,
    isActive: bool,
    createdBy: Option<string>)
  {
    /** `isExpired()`: an expiry is set and `now` is strictly after it. */
    predicate IsExpired(now: int) {
      expiresAt.Some? && now > expiresAt.value
    }

    /** `isAccessible()`: active and not expired. */
    predicate IsAccessible(now: int) {
      isActive && !IsExpired(now)
    }

    /** The column lengths of the table: `short_code` 10, `long_url` 2048,
        `created_by` 50. */
    predicate FitsColumns() {
      && |shortCode| <= ShortCodeColumnLength
      && |longUrl| <= LongUrlColumnLength
      && (createdBy.Some? ==> |createdBy.value| <= CreatedByColumnLength)
    }
  }

  /** `Url.builder().shortCode(..).longUrl(..).createdAt(..).clickCount(0)
      .isActive(true).build()`, as both services build it. */
  function NewRecord(shortCode: string, longUrl: string, createdAt: int): (r: UrlRecord)
    ensures r.shortCode == shortCode && r.longUrl == longUrl && r.createdAt == createdAt
    ensures r.clickCount == 0 && r.isActive && r.expiresAt.None? && r.createdBy.None?
    ensures forall now :: r.IsAccessible(now)
  {
    UrlRecord(shortCode, longUrl, createdAt, None, 0, true, None)
  }

  /** Without an expiry a record never expires. */
  lemma NoExpiryNeverExpires(r: UrlRecord, now: int)
    requires r.expiresAt.None?
    ensures !r.IsExpired(now) && (r.IsAccessible(now) <==> r.isActive)
  {
  }

  /** The expiry instant itself is not expired; the next instant is. */
  lemma ExpiryBoundary(r: UrlRecord, now: int)
    requires r.expiresAt == Some(now)
    ensures !r.IsExpired(now) && r.IsExpired(now + 1)
  {
  }

  /** Once expired, a record stays expired; accessibility can only be lost. */
  lemma ExpiryIsPermanent(r: UrlRecord, t: int, t': int)
    requires t <= t'
    ensures r.IsExpired(t) ==> r.IsExpired(t')
    ensures r.IsAccessible(t') ==> r.IsAccessible(t)
  {
  }

  /** The managed entity object whose click counter is updated in place. */
  class Url {
    var shortCode: string
    var longUrl: string
    var createdAt: int
    var expiresAt: Option<int>
    var clickCount: nat
    var isActive: bool
    var createdBy: Option<string>

    /** The row this object currently holds. */
    function Row(): UrlRecord
      reads this
    {
      UrlRecord(shortCode, longUrl, createdAt, expiresAt, clickCount, isActive, createdBy)
    }

    /** The builder with its defaults: zero clicks, active, no expiry. */
    constructor Builder(shortCode: string, longUrl: string, createdAt: int)
      ensures Row() == NewRecord(shortCode, longUrl, createdAt)
    {
      this.shortCode := shortCode;
      this.longUrl := longUrl;
      this.createdAt := createdAt;
      this.expiresAt := None;
      this.clickCount := 0;
      this.isActive := true;
      this.createdBy := None;
    }

    /** `incrementClickCount()`: one more click, every other field unchanged. */
    method IncrementClickCount()
      modifies this
      ensures clickCount == old(clickCount) + 1
      ensures Row() == old(Row()).(clickCount := old(clickCount) + 1)
    {
      clickCount := clickCount + 1;
    }

    predicate IsExpired(now: int)
      reads this
    {
      Row().IsExpired(now)
    }

    predicate IsAccessible(now: int)
      reads this
    {
      Row().IsAccessible(now)
    }
  }
}
