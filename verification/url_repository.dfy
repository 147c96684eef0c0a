/** `UrlRepository`: the `urls` table as a map from short code to row. The
    unique index on `short_code` is what makes the code a key. */
module UrlRepo {
  import opened Common
  import opened UrlEntity

  type Table = map<string, UrlRecord>

  /** Each row is filed under its own short code. */
  predicate Keyed(t: Table) {
    forall code :: code in t ==> t[code].shortCode == code
  }

  /** The table's constraints: keyed by code, and every row fits its columns. */
  predicate Valid(t: Table) {
    Keyed(t) && forall code :: code in t ==> t[code].FitsColumns()
  }

  /** With the unique index, two rows with the same code are the same row. */
  lemma AtMostOneRowPerCode(t: Table, a: UrlRecord, b: UrlRecord)
    requires Keyed(t) && a in t.Values && b in t.Values && a.shortCode == b.shortCode
    ensures a == b
  {
    var ka :| ka in t && t[ka] == a;
    var kb :| kb in t && t[kb] == b;
  }

  /** `findByShortCode`: the row with that code, active or not. */
  function FindByShortCode(t: Table, code: string): (r: Option<UrlRecord>)
    requires Keyed(t)
    ensures r.Some? <==> exists row :: row in t.Values && row.shortCode == code
    ensures r.Some? ==> r.value in t.Values && r.value.shortCode == code
  {
    if code in t then
      assert t[code] in t.Values;
      Some(t[code])
    else None
  }

  /** `existsByShortCode`: some row, active or not, has that code. */
  function ExistsByShortCode(t: Table, code: string): (r: bool)
    requires Keyed(t)
    ensures r <==> FindByShortCode(t, code).Some?
    ensures r <==> code in t
  {
    code in t
  }

  /** `findActiveByShortCode`: `WHERE shortCode = :code AND isActive = true`.
      The expiry is not consulted. */
  function FindActiveByShortCode(t: Table, code: string): (r: Option<UrlRecord>)
    requires Keyed(t)
    ensures r.Some? <==> exists row :: row in t.Values && row.shortCode == code && row.isActive
    ensures r.Some? ==> r.value.shortCode == code && r.value.isActive
    ensures r.Some? ==> FindByShortCode(t, code) == r
  {
    if code in t && t[code].isActive then
      assert t[code] in t.Values;
      Some(t[code])
    else
      assert forall row :: row in t.Values && row.shortCode == code ==> row == t[code];
      None
  }

  /** An active row is found whatever its expiry: the query has no time
      condition, so an expired row is still served. */
  lemma ActiveLookupIgnoresExpiry(t: Table, code: string, now: int)
    requires Keyed(t) && code in t && t[code].isActive && t[code].IsExpired(now)
    ensures FindActiveByShortCode(t, code) == Some(t[code])
  {
  }

  /** `save` of a new row: refused by the database when the code is already
      in use (unique index) or a value is longer than its column. */
  function Save(t: Table, row: UrlRecord): (r: Result<Table>)
    ensures r.Success? <==> row.shortCode !in t && row.FitsColumns()
    ensures r.Failure? ==> r.error.DataIntegrityViolation?
    ensures r.Success? ==> r.value.Keys == t.Keys + {row.shortCode}
    ensures r.Success? ==> r.value[row.shortCode] == row
    ensures r.Success? ==> forall code :: code in t ==> r.value[code] == t[code]
    ensures r.Success? && Valid(t) ==> Valid(r.value)
  {
    if row.shortCode in t then Failure(DataIntegrityViolation("short_code"))
    else if !row.FitsColumns() then Failure(DataIntegrityViolation("value too long"))
    else Success(t[row.shortCode := row])
  }
}
