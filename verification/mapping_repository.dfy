/** `UrlMappingRepository`: the JPQL and derived queries over the
    `UrlMapping` table, read as operations on a sequence of rows in table
    order. The two modifying bulk updates are methods of `MappingTable`. */
module MappingRepo {
  import opened Common
  import opened UrlEntity

  type Rows = seq<UrlRecord>

  // ----- row conditions of the queries -----

  function CodeIs(code: string): UrlRecord -> bool {
    (row: UrlRecord) => row.shortCode == code
  }

  /** `u.shortCode = :shortCode AND u.isActive = true` */
  function ActiveCode(code: string): UrlRecord -> bool {
    (row: UrlRecord) => row.shortCode == code && row.isActive
  }

  /** ... `AND (u.expiresAt IS NULL OR u.expiresAt > :now)` */
  function AccessibleCode(code: string, now: int): UrlRecord -> bool {
    (row: UrlRecord) => row.shortCode == code && row.isActive && (row.expiresAt.None? || row.expiresAt.value > now)
  }

  /** `u.expiresAt IS NOT NULL AND u.expiresAt <= :now` */
  function ExpiredAt(now: int): UrlRecord -> bool {
    (row: UrlRecord) => row.expiresAt.Some? && row.expiresAt.value <= now
  }

  /** The rows the sweep deactivates: expired at `now` and still active. */
  function StaleAt(now: int): UrlRecord -> bool {
    (row: UrlRecord) => row.expiresAt.Some? && row.expiresAt.value <= now && row.isActive
  }

  function Active(): UrlRecord -> bool {
    (row: UrlRecord) => row.isActive
  }

  function CreatedByUser(user: string): UrlRecord -> bool {
    (row: UrlRecord) => row.createdBy == Some(user)
  }

  /** `u.createdAt BETWEEN :startDate AND :endDate`, both ends included. */
  function CreatedWithin(start: int, end: int): UrlRecord -> bool {
    (row: UrlRecord) => start <= row.createdAt <= end
  }

  function Clicks(row: UrlRecord): int { row.clickCount }

  function CreatedAt(row: UrlRecord): int { row.createdAt }

  // ----- selection, counting, ordering -----

  /** The rows satisfying `p`, in table order. */
  function Filter(rows: Rows, p: UrlRecord -> bool): (r: Rows)
    ensures |r| <= |rows|
  {
    if rows == [] then []
    else (if p(rows[0]) then [rows[0]] else []) + Filter(rows[1..], p)
  }

  /** `Filter` keeps every row satisfying `p`, as often as it occurs, and
      nothing else. */
  lemma {:induction false} FilterSpec(rows: Rows, p: UrlRecord -> bool)
    ensures forall x :: multiset(Filter(rows, p))[x] == if p(x) then multiset(rows)[x] else 0
    ensures forall x :: x in Filter(rows, p) <==> x in rows && p(x)
  {
    if rows != [] {
      assert rows == [rows[0]] + rows[1..];
      FilterSpec(rows[1..], p);
    }
    var r := Filter(rows, p);
    forall x ensures x in r <==> x in rows && p(x) {
      assert x in r <==> multiset(r)[x] > 0;
      assert x in rows <==> multiset(rows)[x] > 0;
    }
  }

  lemma {:induction false} FilterAppend(a: Rows, b: Rows, p: UrlRecord -> bool)
    ensures Filter(a + b, p) == Filter(a, p) + Filter(b, p)
  {
    if a == [] {
      assert a + b == b;
    } else {
      var head := if p(a[0]) then [a[0]] else [];
      assert (a + b)[0] == a[0];
      assert (a + b)[1..] == a[1..] + b;
      assert Filter(a + b, p) == head + Filter(a[1..] + b, p);
      FilterAppend(a[1..], b, p);
      assert Filter(a, p) == head + Filter(a[1..], p);
    }
  }

  /** The number of rows satisfying `p`, as `COUNT(u)` answers it. */
  function CountWhere(rows: Rows, p: UrlRecord -> bool): (n: nat)
    ensures n == |set i | 0 <= i < |rows| && p(rows[i])|
  {
    FilterCount(rows, p);
    |Filter(rows, p)|
  }

  lemma {:induction false} FilterCount(rows: Rows, p: UrlRecord -> bool)
    ensures |Filter(rows, p)| == |set i | 0 <= i < |rows| && p(rows[i])|
  {
    if rows != [] {
      var init, last := rows[..|rows| - 1], rows[|rows| - 1];
      assert rows == init + [last];
      FilterAppend(init, [last], p);
      assert [last][1..] == [];
      FilterCount(init, p);
      var all := set i | 0 <= i < |rows| && p(rows[i]);
      var before := set i | 0 <= i < |init| && p(init[i]);
      if p(last) {
        assert all == before + {|rows| - 1};
      } else {
        assert all == before;
      }
    }
  }

  /** The result of a query returning `Optional`: no row, the one row, or
      `IncorrectResultSizeDataAccessException` when several rows match. */
  function Single(matches: Rows): (r: Result<Option<UrlRecord>>)
    ensures r == Success(None) <==> matches == []
    ensures r.Success? && r.value.Some? <==> |matches| == 1
    ensures r.Success? && r.value.Some? ==> r.value.value == matches[0]
    ensures r.Failure? <==> |matches| > 1
    ensures r.Failure? ==> r.error == IncorrectResultSize
  {
    if matches == [] then Success(None)
    else if |matches| == 1 then Success(Some(matches[0]))
    else Failure(IncorrectResultSize)
  }

  /** Each row's key is at least that of every row after it. */
  predicate SortedDesc(s: Rows, key: UrlRecord -> int) {
    forall i, j :: 0 <= i < j < |s| ==> key(s[i]) >= key(s[j])
  }

  function Insert(x: UrlRecord, s: Rows, key: UrlRecord -> int): (r: Rows)
    requires SortedDesc(s, key)
    ensures SortedDesc(r, key)
    ensures multiset(r) == multiset(s) + multiset{x}
    ensures |r| == |s| + 1 && (r[0] == x || (s != [] && r[0] == s[0]))
  {
    if s == [] then [x]
    else if key(x) >= key(s[0]) then
      ConsSorted(x, s, key);
      [x] + s
    else
      var rest := Insert(x, s[1..], key);
      ConsSorted(s[0], rest, key);
      assert s == [s[0]] + s[1..];
      assert multiset([s[0]] + rest) == multiset{s[0]} + multiset(s[1..]) + multiset{x};
      [s[0]] + rest
  }

  /** A row ranking at least as high as the head of a sorted sequence can
      go in front of it. */
  lemma ConsSorted(y: UrlRecord, s: Rows, key: UrlRecord -> int)
    requires SortedDesc(s, key) && (s == [] || key(y) >= key(s[0]))
    ensures SortedDesc([y] + s, key)
  {
    var t := [y] + s;
    forall i, j | 0 <= i < j < |t|
      ensures key(t[i]) >= key(t[j])
    {
      if i == 0 {
        assert key(s[0]) >= key(s[j - 1]) || j - 1 == 0;
      }
    }
  }

  /** `ORDER BY key DESC`: the same rows, largest key first. */
  function SortDesc(rows: Rows, key: UrlRecord -> int): (r: Rows)
    ensures SortedDesc(r, key)
    ensures multiset(r) == multiset(rows)
  {
    if rows == [] then []
    else
      assert rows == [rows[0]] + rows[1..];
      Insert(rows[0], SortDesc(rows[1..], key), key)
  }

  /** In a sorted sequence, a row left out of a prefix ranks no higher than
      any row kept in it. */
  lemma TopPrefix(s: Rows, k: nat, key: UrlRecord -> int)
    requires SortedDesc(s, key) && k <= |s|
    ensures forall x, y :: x in s[..k] && multiset(s[..k])[y] < multiset(s)[y] ==> key(y) <= key(x)
  {
    assert s == s[..k] + s[k..];
    forall x, y | x in s[..k] && multiset(s[..k])[y] < multiset(s)[y]
      ensures key(y) <= key(x)
    {
      assert multiset(s)[y] == multiset(s[..k])[y] + multiset(s[k..])[y];
      assert y in s[k..];
      var i :| 0 <= i < k && s[i] == x;
      var j :| 0 <= j < |s| - k && s[k..][j] == y;
      assert s[k + j] == y;
    }
  }

  // ----- the repository's queries -----

  /** `findByShortCode` */
  function FindByShortCode(rows: Rows, code: string): (r: Result<Option<UrlRecord>>)
    ensures r == Success(None) <==> forall x :: x in rows ==> x.shortCode != code
    ensures r.Success? && r.value.Some? ==> r.value.value in rows && r.value.value.shortCode == code
  {
    FilterSpec(rows, CodeIs(code));
    Single(Filter(rows, CodeIs(code)))
  }

  /** `existsByShortCode`: some row, active or not, has the code. */
  function ExistsByShortCode(rows: Rows, code: string): (r: bool)
    ensures r <==> exists x :: x in rows && x.shortCode == code
    ensures r <==> FindByShortCode(rows, code) != Success(None)
  {
    FilterSpec(rows, CodeIs(code));
    Filter(rows, CodeIs(code)) != []
  }

  /** `findActiveByShortCode` */
  function FindActiveByShortCode(rows: Rows, code: string): (r: Result<Option<UrlRecord>>)
    ensures r == Success(None) <==> forall x :: x in rows ==> !(x.shortCode == code && x.isActive)
    ensures r.Success? && r.value.Some? ==>
      r.value.value in rows && r.value.value.shortCode == code && r.value.value.isActive
  {
    FilterSpec(rows, ActiveCode(code));
    Single(Filter(rows, ActiveCode(code)))
  }

  /** `findAccessibleByShortCode`: active, and no expiry or one strictly
      after `now`. */
  function FindAccessibleByShortCode(rows: Rows, code: string, now: int): (r: Result<Option<UrlRecord>>)
    ensures r == Success(None) <==>
      forall x :: x in rows ==> !(x.shortCode == code && x.isActive && (x.expiresAt.None? || x.expiresAt.value > now))
    ensures r.Success? && r.value.Some? ==>
      var x := r.value.value;
      x in rows && x.shortCode == code && x.isActive && (x.expiresAt.None? || x.expiresAt.value > now)
  {
    FilterSpec(rows, AccessibleCode(code, now));
    Single(Filter(rows, AccessibleCode(code, now)))
  }

  /** `findByCreatedByOrderByCreatedAtDesc`: every row of the user, newest first. */
  function FindByCreatedByOrderByCreatedAtDesc(rows: Rows, user: string): (r: Rows)
    ensures SortedDesc(r, CreatedAt)
    ensures forall x :: multiset(r)[x] == if x.createdBy == Some(user) then multiset(rows)[x] else 0
  {
    FilterSpec(rows, CreatedByUser(user));
    SortDesc(Filter(rows, CreatedByUser(user)), CreatedAt)
  }

  /** `findExpiredMappings`: the rows whose expiry is set and not after `now`,
      active or not. */
  function FindExpiredMappings(rows: Rows, now: int): (r: Rows)
    ensures forall x :: x in r <==> x in rows && x.expiresAt.Some? && x.expiresAt.value <= now
    ensures forall x :: multiset(r)[x] == if ExpiredAt(now)(x) then multiset(rows)[x] else 0
  {
    FilterSpec(rows, ExpiredAt(now));
    Filter(rows, ExpiredAt(now))
  }

  /** `findTopClickedMappings`: at most `limit` active rows, most clicked
      first, and no active row left out has more clicks than one returned. */
  function FindTopClickedMappings(rows: Rows, limit: nat): (r: Rows)
    ensures |r| == if limit < CountActiveMappings(rows) then limit else CountActiveMappings(rows)
    ensures SortedDesc(r, Clicks)
    ensures forall x :: x in r ==> x in rows && x.isActive
    ensures multiset(r) <= multiset(rows)
    ensures forall x, y: UrlRecord :: x in r && y.isActive && multiset(r)[y] < multiset(rows)[y] ==>
      y.clickCount <= x.clickCount
  {
    var sorted := SortDesc(Filter(rows, Active()), Clicks);
    var k := if limit < |sorted| then limit else |sorted|;
    TopKept(rows, sorted, k);
    TopRanked(rows, sorted, k);
    sorted[..k]
  }

  /** The rows of a prefix of the sorted active rows are active rows of the table. */
  lemma TopKept(rows: Rows, sorted: Rows, k: nat)
    requires multiset(sorted) == multiset(Filter(rows, Active())) && k <= |sorted|
    ensures forall x :: x in sorted[..k] ==> x in rows && x.isActive
    ensures multiset(sorted[..k]) <= multiset(rows)
  {
    FilterSpec(rows, Active());
    assert sorted == sorted[..k] + sorted[k..];
    forall x | x in sorted[..k] ensures x in rows && x.isActive {
      assert x in multiset(sorted);
    }
  }

  /** No active row left out of the prefix has more clicks than a kept one. */
  lemma TopRanked(rows: Rows, sorted: Rows, k: nat)
    requires multiset(sorted) == multiset(Filter(rows, Active())) && k <= |sorted|
    requires SortedDesc(sorted, Clicks)
    ensures forall x, y: UrlRecord :: x in sorted[..k] && y.isActive && multiset(sorted[..k])[y] < multiset(rows)[y] ==>
      y.clickCount <= x.clickCount
  {
    FilterSpec(rows, Active());
    TopPrefix(sorted, k, Clicks);
  }

  /** `countActiveMappings`: the number of rows whose flag is set. */
  function CountActiveMappings(rows: Rows): (n: nat)
    ensures n == |set i | 0 <= i < |rows| && rows[i].isActive|
  {
    assert (set i | 0 <= i < |rows| && Active()(rows[i])) == (set i | 0 <= i < |rows| && rows[i].isActive);
    CountWhere(rows, Active())
  }

  /** `countByCreatedBy` */
  function CountByCreatedBy(rows: Rows, user: string): (n: nat)
    ensures n == |set i | 0 <= i < |rows| && rows[i].createdBy == Some(user)|
  {
    assert (set i | 0 <= i < |rows| && CreatedByUser(user)(rows[i]))
        == (set i | 0 <= i < |rows| && rows[i].createdBy == Some(user));
    CountWhere(rows, CreatedByUser(user))
  }

  /** `findByCreatedAtBetween`: every row created in `[start, end]`, newest first. */
  function FindByCreatedAtBetween(rows: Rows, start: int, end: int): (r: Rows)
    ensures SortedDesc(r, CreatedAt)
    ensures forall x :: multiset(r)[x] == if start <= x.createdAt <= end then multiset(rows)[x] else 0
  {
    FilterSpec(rows, CreatedWithin(start, end));
    SortDesc(Filter(rows, CreatedWithin(start, end)), CreatedAt)
  }

  // ----- relations between the queries -----

  /** The short code is unique across the table. */
  predicate UniqueCodes(rows: Rows) {
    forall i, j :: 0 <= i < j < |rows| ==> rows[i].shortCode != rows[j].shortCode
  }

  lemma {:induction false} AtMostOneMatch(rows: Rows, p: UrlRecord -> bool, code: string)
    requires UniqueCodes(rows)
    requires forall x :: p(x) ==> x.shortCode == code
    ensures |Filter(rows, p)| <= 1
  {
    if rows != [] {
      var rest := rows[1..];
      assert UniqueCodes(rest) by {
        forall i, j | 0 <= i < j < |rest| ensures rest[i].shortCode != rest[j].shortCode {
          assert rest[i] == rows[i + 1] && rest[j] == rows[j + 1];
        }
      }
      AtMostOneMatch(rest, p, code);
      FilterSpec(rest, p);
      if p(rows[0]) {
        forall x | x in rest ensures !p(x) {
          var j :| 0 <= j < |rest| && rest[j] == x;
          assert rows[j + 1] == x;
        }
      }
    }
  }

  /** With unique codes the single-row queries never fail. */
  lemma UniqueCodesAnswer(rows: Rows, code: string, now: int)
    requires UniqueCodes(rows)
    ensures FindByShortCode(rows, code).Success?
    ensures FindActiveByShortCode(rows, code).Success?
    ensures FindAccessibleByShortCode(rows, code, now).Success?
  {
    AtMostOneMatch(rows, CodeIs(code), code);
    AtMostOneMatch(rows, ActiveCode(code), code);
    AtMostOneMatch(rows, AccessibleCode(code, now), code);
  }

  /** An accessible mapping is also the active mapping for its code. */
  lemma AccessibleIsActive(rows: Rows, code: string, now: int)
    requires UniqueCodes(rows)
    requires FindAccessibleByShortCode(rows, code, now).Success?
    requires FindAccessibleByShortCode(rows, code, now).value.Some?
    ensures FindActiveByShortCode(rows, code) == FindAccessibleByShortCode(rows, code, now)
  {
    var x := FindAccessibleByShortCode(rows, code, now).value.value;
    var matches := Filter(rows, ActiveCode(code));
    FilterSpec(rows, ActiveCode(code));
    FilterSpec(rows, AccessibleCode(code, now));
    AtMostOneMatch(rows, ActiveCode(code), code);
    assert x in matches;
  }

  /** An active row with an expiry is reachable through exactly one of the
      accessible lookup and the expired listing. */
  lemma AccessibleOrExpired(rows: Rows, now: int, x: UrlRecord)
    requires x in rows && x.isActive && x.expiresAt.Some?
    ensures (x in Filter(rows, AccessibleCode(x.shortCode, now))) != (x in FindExpiredMappings(rows, now))
  {
    FilterSpec(rows, AccessibleCode(x.shortCode, now));
  }

  /** At the expiry instant the `Url` entity still counts a row accessible,
      while the mapping queries already count it expired. */
  lemma ExpiryInstantDisagrees(x: UrlRecord)
    requires x.isActive && x.expiresAt.Some?
    ensures x.IsAccessible(x.expiresAt.value)
    ensures ExpiredAt(x.expiresAt.value)(x) && !AccessibleCode(x.shortCode, x.expiresAt.value)(x)
  {
  }

  // ----- the bulk updates -----

  /** One row after `SET u.clickCount = u.clickCount + 1 WHERE u.shortCode = :code`. */
  function Bump(row: UrlRecord, code: string): UrlRecord {
    if row.shortCode == code then row.(clickCount := row.clickCount + 1) else row
  }

  /** The table after the click update: only click counters change, and
      exactly those of the rows with the code grow, by one. */
  function Clicked(rows: Rows, code: string): (r: Rows)
    ensures |r| == |rows|
    ensures forall i :: 0 <= i < |rows| ==> r[i].(clickCount := rows[i].clickCount) == rows[i]
    ensures forall i :: 0 <= i < |rows| ==>
      r[i].clickCount == rows[i].clickCount + (if rows[i].shortCode == code then 1 else 0)
  {
    if rows == [] then [] else [Bump(rows[0], code)] + Clicked(rows[1..], code)
  }

  function TotalClicks(rows: Rows): nat {
    if rows == [] then 0 else rows[0].clickCount + TotalClicks(rows[1..])
  }

  /** The click update adds to the table's total exactly the number of rows
      it reports. */
  lemma {:induction false} ClickedTotal(rows: Rows, code: string)
    ensures TotalClicks(Clicked(rows, code)) == TotalClicks(rows) + |Filter(rows, CodeIs(code))|
  {
    if rows != [] {
      ClickedTotal(rows[1..], code);
      var r := Clicked(rows, code);
      assert r[1..] == Clicked(rows[1..], code);
    }
  }

  /** One row after `SET u.isActive = false WHERE u.expiresAt IS NOT NULL
      AND u.expiresAt <= :now AND u.isActive = true`. */
  function Sweep(row: UrlRecord, now: int): UrlRecord {
    if StaleAt(now)(row) then row.(isActive := false) else row
  }

  /** The table after the sweep: only active flags change, and a row stays
      active exactly when it was active and not expired at `now`. */
  function Deactivated(rows: Rows, now: int): (r: Rows)
    ensures |r| == |rows|
    ensures forall i :: 0 <= i < |rows| ==> r[i].(isActive := rows[i].isActive) == rows[i]
    ensures forall i :: 0 <= i < |rows| ==> (r[i].isActive <==> rows[i].isActive && !ExpiredAt(now)(rows[i]))
  {
    if rows == [] then [] else [Sweep(rows[0], now)] + Deactivated(rows[1..], now)
  }

  /** After the sweep no active row is expired, so a second sweep at the
      same instant finds nothing and changes nothing. */
  lemma SweepIdempotent(rows: Rows, now: int)
    ensures forall x :: x in Deactivated(rows, now) ==> !StaleAt(now)(x)
    ensures |Filter(Deactivated(rows, now), StaleAt(now))| == 0
    ensures Deactivated(Deactivated(rows, now), now) == Deactivated(rows, now)
  {
    FilterSpec(Deactivated(rows, now), StaleAt(now));
  }

  /** The sweep lowers the active count by exactly the number it reports. */
  lemma {:induction false} SweepCount(rows: Rows, now: int)
    ensures |Filter(Deactivated(rows, now), Active())| + |Filter(rows, StaleAt(now))|
         == |Filter(rows, Active())|
  {
    if rows != [] {
      SweepCount(rows[1..], now);
      var d := Deactivated(rows, now);
      assert d[1..] == Deactivated(rows[1..], now);
    }
  }

  /** The `UrlMapping` table, updated in place by the modifying queries. */
  class MappingTable {
    var rows: Rows

    constructor (rows: Rows)
      ensures this.rows == rows
    {
      this.rows := rows;
    }

    /** `incrementClickCount`: returns the number of rows updated. */
    method IncrementClickCount(code: string) returns (updated: nat)
      modifies this
      ensures rows == Clicked(old(rows), code)
      ensures updated == CountWhere(old(rows), CodeIs(code))
      ensures TotalClicks(rows) == TotalClicks(old(rows)) + updated
    {
      updated := CountWhere(rows, CodeIs(code));
      ClickedTotal(rows, code);
      rows := Clicked(rows, code);
    }

    /** `deactivateExpiredMappings`: returns the number of rows deactivated. */
    method DeactivateExpiredMappings(now: int) returns (deactivated: nat)
      modifies this
      ensures rows == Deactivated(old(rows), now)
      ensures deactivated == CountWhere(old(rows), StaleAt(now))
      ensures CountActiveMappings(rows) + deactivated == CountActiveMappings(old(rows))
    {
      deactivated := CountWhere(rows, StaleAt(now));
      SweepCount(rows, now);
      rows := Deactivated(rows, now);
    }
  }
}
