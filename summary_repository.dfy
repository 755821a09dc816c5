/**
 The summary repository: insertion, the paginated and filtered history,
 point lookup and deletion. The read operations are functions of the stored
 rows (in insertion order); `SummaryStore` holds the rows and performs the
 two writes.
 */
module SummaryRepository {
  import opened Wrappers
  import opened Ilike
  import opened SummaryModel

  // ---------------------------------------------------------------------
  // Point lookup

  /** `db.get(Summary, id)`: the row with primary key `id`, if any. */
  function GetById(rows: seq<Summary>, id: int): (r: Option<Summary>)
    ensures r.Some? <==> exists i :: 0 <= i < |rows| && rows[i].id == id
    ensures r.Some? ==> r.value in rows && r.value.id == id
  {
    if rows == [] then None
    else if rows[0].id == id then Some(rows[0])
    else GetById(rows[1..], id)
  }

  /** Primary keys strictly increase in insertion order (so they are distinct). */
  ghost predicate IdsAscending(rows: seq<Summary>)
  {
    forall i, j :: 0 <= i < j < |rows| ==> rows[i].id < rows[j].id
  }

  /** When no two rows share a key, the lookup finds the one row carrying it. */
  lemma GetByIdFindsRow(rows: seq<Summary>, k: nat)
    requires forall i, j :: 0 <= i < |rows| && 0 <= j < |rows| && i != j ==> rows[i].id != rows[j].id
    requires k < |rows|
    ensures GetById(rows, rows[k].id) == Some(rows[k])
  {
    var r := GetById(rows, rows[k].id);
    var i :| 0 <= i < |rows| && rows[i] == r.value;
    assert i == k;
  }

  // ---------------------------------------------------------------------
  // Filtering

  /**
   The `q` filter: no filter when `q` is absent or empty, otherwise a
   case-insensitive substring match on the URL or on the summary text.
   */
  predicate Matches(row: Summary, q: Option<string>)
  {
    q.None? || q.value == "" || ContainsFolded(row.url, q.value) || ContainsFolded(row.summary, q.value)
  }

  /** What the filter admits, stated with match positions. */
  lemma MatchesMeaning(row: Summary, q: Option<string>)
    ensures q.None? || q.value == "" ==> Matches(row, q)
    ensures q.Some? && q.value != "" ==>
      (Matches(row, q) <==> (exists i :: OccursAt(row.url, q.value, i)) || (exists i :: OccursAt(row.summary, q.value, i)))
  {
    if q.Some? {
      ContainsFoldedMeaning(row.url, q.value);
      ContainsFoldedMeaning(row.summary, q.value);
    }
  }

  /**
   Skipping the filter for an empty `q` (`if q:`) loses nothing: the
   pattern as written would admit every row anyway.
   */
  lemma EmptyQueryAdmitsAll(row: Summary)
    ensures IlikeAsWritten(row.url, "") && IlikeAsWritten(row.summary, "")
  {
    EmptyQueryMatchesAsWritten(row.url);
    EmptyQueryMatchesAsWritten(row.summary);
  }

  /** The rows the filter admits, in their stored order. */
  function Filter(rows: seq<Summary>, q: Option<string>): (r: seq<Summary>)
    ensures forall x :: multiset(r)[x] == if Matches(x, q) then multiset(rows)[x] else 0
    ensures |r| <= |rows|
  {
    if rows == [] then []
    else
      assert rows == [rows[0]] + rows[1..];
      (if Matches(rows[0], q) then [rows[0]] else []) + Filter(rows[1..], q)
  }

  lemma {:induction false} FilterMembership(rows: seq<Summary>, q: Option<string>, x: Summary)
    ensures x in Filter(rows, q) <==> x in rows && Matches(x, q)
  {
    assert x in Filter(rows, q) <==> multiset(Filter(rows, q))[x] > 0;
    assert x in rows <==> multiset(rows)[x] > 0;
  }

  lemma {:induction false} FilterNoQuery(rows: seq<Summary>, q: Option<string>)
    requires q.None? || q.value == ""
    ensures Filter(rows, q) == rows
    decreases |rows|
  {
    if rows != [] {
      FilterNoQuery(rows[1..], q);
      assert rows == [rows[0]] + rows[1..];
    }
  }

  // ---------------------------------------------------------------------
  // Ordering by `created_at` descending

  /** Most recent first. */
  ghost predicate NewestFirst(rows: seq<Summary>)
  {
    forall i, j :: 0 <= i < j < |rows| ==> rows[i].createdAt >= rows[j].createdAt
  }

  /**
   `ordered` is a result the database may give for `ORDER BY created_at DESC`
   over `rows`: the same rows, most recent first. Rows with equal timestamps
   may come in any order.
   */
  ghost predicate IsRecencyOrder(rows: seq<Summary>, ordered: seq<Summary>)
  {
    multiset(ordered) == multiset(rows) && NewestFirst(ordered)
  }

  function InsertByRecency(x: Summary, rows: seq<Summary>): (r: seq<Summary>)
    ensures multiset(r) == multiset(rows) + multiset{x}
  {
    if rows == [] then [x]
    else if x.createdAt >= rows[0].createdAt then [x] + rows
    else
      assert rows == [rows[0]] + rows[1..];
      [rows[0]] + InsertByRecency(x, rows[1..])
  }

  /** Putting a row no older than any other in front keeps newest-first order. */
  lemma ConsNewestFirst(head: Summary, rest: seq<Summary>)
    requires NewestFirst(rest)
    requires forall y :: y in rest ==> y.createdAt <= head.createdAt
    ensures NewestFirst([head] + rest)
  {
    var r := [head] + rest;
    forall i, j | 0 <= i < j < |r| ensures r[i].createdAt >= r[j].createdAt {
      assert r[j] == rest[j - 1];
      if i > 0 {
        assert r[i] == rest[i - 1];
      }
    }
  }

  lemma {:induction false} InsertKeepsNewestFirst(x: Summary, rows: seq<Summary>)
    requires NewestFirst(rows)
    ensures NewestFirst(InsertByRecency(x, rows))
    decreases |rows|
  {
    if rows != [] && x.createdAt < rows[0].createdAt {
      var rest := InsertByRecency(x, rows[1..]);
      InsertKeepsNewestFirst(x, rows[1..]);
      forall y | y in rest ensures y.createdAt <= rows[0].createdAt {
        assert multiset(rest)[y] > 0;
        if y != x {
          assert y in rows[1..];
        }
      }
      ConsNewestFirst(rows[0], rest);
    } else if rows != [] {
      ConsNewestFirst(x, rows);
    }
  }

  /** One ordering the database may choose (an insertion sort). */
  function SortByRecency(rows: seq<Summary>): (r: seq<Summary>)
    ensures IsRecencyOrder(rows, r)
  {
    if rows == [] then []
    else
      assert rows == [rows[0]] + rows[1..];
      var sorted := SortByRecency(rows[1..]);
      InsertKeepsNewestFirst(rows[0], sorted);
      InsertByRecency(rows[0], sorted)
  }

  // ---------------------------------------------------------------------
  // OFFSET / LIMIT

  function Min(a: int, b: int): int { if a <= b then a else b }

  function Max(a: int, b: int): int { if a <= b then b else a }

  /** The number of rows skipped before page `page`: `(page - 1) * size`. */
  function Offset(page: int, size: int): nat
    requires page >= 1 && size >= 1
  {
    (page - 1) * size
  }

  /** `OFFSET (page - 1) * size LIMIT size`. */
  function Window(rows: seq<Summary>, page: int, size: int): (r: seq<Summary>)
    requires page >= 1 && size >= 1
    ensures |r| == Min(size, Max(0, |rows| - Offset(page, size)))
    ensures forall k :: 0 <= k < |r| ==> r[k] == rows[Offset(page, size) + k]
  {
    var offset := Offset(page, size);
    if offset >= |rows| then [] else rows[offset..Min(offset + size, |rows|)]
  }

  /** A page cut from a recency order is itself most recent first. */
  lemma WindowKeepsNewestFirst(rows: seq<Summary>, page: int, size: int)
    requires page >= 1 && size >= 1
    requires NewestFirst(rows)
    ensures NewestFirst(Window(rows, page, size))
  {
    var w, offset := Window(rows, page, size), Offset(page, size);
    forall i, j | 0 <= i < j < |w| ensures w[i].createdAt >= w[j].createdAt {
      assert w[i] == rows[offset + i] && w[j] == rows[offset + j];
    }
  }

  // ---------------------------------------------------------------------
  // The history listing

  /** The dictionary `get_all` returns. */
  datatype Listing = Listing(items: seq<Summary>, total: nat, page: int, size: int)

  /**
   `get_all(db, page, size, q)`: filter, count, order most recent first,
   take the requested page, and echo `page` and `size`.
   */
  function GetAll(rows: seq<Summary>, page: int := 1, size: int := 10, q: Option<string> := None): (r: Listing)
    requires page >= 1 && size >= 1
    ensures r.page == page && r.size == size
    ensures r.total == |Filter(rows, q)|
    ensures exists ordered :: IsRecencyOrder(Filter(rows, q), ordered) && r.items == Window(ordered, page, size)
    ensures |r.items| == Min(size, Max(0, r.total - Offset(page, size)))
    ensures NewestFirst(r.items)
  {
    var matching := Filter(rows, q);
    var ordered := SortByRecency(matching);
    assert IsRecencyOrder(matching, ordered);
    assert |ordered| == |matching| by {
      assert |multiset(ordered)| == |multiset(matching)|;
    }
    WindowKeepsNewestFirst(ordered, page, size);
    Listing(Window(ordered, page, size), |matching|, page, size)
  }

  /** Every row on a page is a stored row that the filter admits. */
  lemma ListingRowsMatch(rows: seq<Summary>, page: int, size: int, q: Option<string>, x: Summary)
    requires page >= 1 && size >= 1
    requires x in GetAll(rows, page, size, q).items
    ensures x in rows && Matches(x, q)
  {
    var r := GetAll(rows, page, size, q);
    var ordered :| IsRecencyOrder(Filter(rows, q), ordered) && r.items == Window(ordered, page, size);
    var k :| 0 <= k < |r.items| && r.items[k] == x;
    assert x in ordered by {
      assert x == ordered[Offset(page, size) + k];
    }
    assert multiset(ordered)[x] > 0;
    FilterMembership(rows, q, x);
  }

  /**
   On a page (which `GetAll` promises is newest first), a row with a strictly
   later timestamp precedes an earlier one.
   */
  lemma ListingOrder(items: seq<Summary>, i: int, j: int)
    requires NewestFirst(items)
    requires 0 <= i < |items| && 0 <= j < |items|
    requires items[i].createdAt > items[j].createdAt
    ensures i < j
  {
  }

  /** An empty store lists nothing and counts nothing, whatever is asked. */
  lemma EmptyStoreListing(page: int, size: int, q: Option<string>)
    requires page >= 1 && size >= 1
    ensures GetAll([], page, size, q) == Listing([], 0, page, size)
  {
  }

  /** Without a query the count is the number of stored rows, on every page. */
  lemma UnfilteredTotal(rows: seq<Summary>, page: int, size: int, q: Option<string>)
    requires page >= 1 && size >= 1
    requires q.None? || q.value == ""
    ensures GetAll(rows, page, size, q).total == |rows|
  {
    FilterNoQuery(rows, q);
  }

  /**
   A row stamped strictly later than every other row heads the first page of
   the unfiltered listing.
   */
  lemma LatestRowFirst(rows: seq<Summary>, x: Summary, size: int)
    requires size >= 1
    requires forall y :: y in rows ==> y.createdAt < x.createdAt
    ensures |GetAll(rows + [x], 1, size, None).items| >= 1
    ensures GetAll(rows + [x], 1, size, None).items[0] == x
  {
    var all := rows + [x];
    var r := GetAll(all, 1, size, None);
    FilterNoQuery(all, None);
    var ordered: seq<Summary> :| IsRecencyOrder(all, ordered) && r.items == Window(ordered, 1, size);
    assert |ordered| == |all| by {
      assert |multiset(ordered)| == |multiset(all)|;
    }
    var head := ordered[0];
    assert head in all by {
      assert multiset(all)[head] == multiset(ordered)[head] > 0;
    }
    var k: int :| 0 <= k < |ordered| && ordered[k] == x by {
      assert multiset(ordered)[x] == multiset(all)[x] > 0;
    }
    assert head.createdAt >= x.createdAt by {
      if k != 0 {
        assert ordered[0].createdAt >= ordered[k].createdAt;
      }
    }
  }

  /** Appending a row makes no key present except its own. */
  lemma AppendAddsOnlyItsKey(rows: seq<Summary>, x: Summary, k: int)
    requires k != x.id && GetById(rows, k).None?
    ensures GetById(rows + [x], k).None?
  {
    var all := rows + [x];
    forall i | 0 <= i < |all| ensures all[i].id != k {
      if i < |rows| {
        assert all[i] == rows[i];
      }
    }
  }

  // ---------------------------------------------------------------------
  // Deletion

  /** The stored rows once the row keyed `id` is gone, the rest in their order. */
  function Without(rows: seq<Summary>, id: int): (r: seq<Summary>)
    ensures forall x :: x in r <==> x in rows && x.id != id
    ensures |r| <= |rows|
  {
    if rows == [] then []
    else if rows[0].id == id then Without(rows[1..], id)
    else [rows[0]] + Without(rows[1..], id)
  }

  /** Putting a row with a smaller key than all others in front keeps keys ascending. */
  lemma ConsIdsAscending(head: Summary, rest: seq<Summary>)
    requires IdsAscending(rest)
    requires forall y :: y in rest ==> head.id < y.id
    ensures IdsAscending([head] + rest)
  {
    var r := [head] + rest;
    forall i, j | 0 <= i < j < |r| ensures r[i].id < r[j].id {
      assert r[j] == rest[j - 1];
      if i > 0 {
        assert r[i] == rest[i - 1];
      }
    }
  }

  lemma {:induction false} WithoutKeepsIdsAscending(rows: seq<Summary>, id: int)
    requires IdsAscending(rows)
    ensures IdsAscending(Without(rows, id))
    decreases |rows|
  {
    if rows != [] {
      WithoutKeepsIdsAscending(rows[1..], id);
      var rest := Without(rows[1..], id);
      if rows[0].id != id {
        forall y | y in rest ensures rows[0].id < y.id {
          var k :| 0 <= k < |rows[1..]| && rows[1..][k] == y;
          assert rows[k + 1] == y;
        }
        ConsIdsAscending(rows[0], rest);
      }
    }
  }

  /** With keys ascending in stored order, deleting a present key removes exactly one row. */
  lemma {:induction false} WithoutRemovesOne(rows: seq<Summary>, id: int)
    requires IdsAscending(rows)
    requires GetById(rows, id).Some?
    ensures |Without(rows, id)| == |rows| - 1
    decreases |rows|
  {
    if rows[0].id == id {
      assert Without(rows[1..], id) == rows[1..] by {
        WithoutAbsentKey(rows[1..], id);
      }
    } else {
      WithoutRemovesOne(rows[1..], id);
    }
  }

  /** Deleting a key that is not stored changes nothing. */
  lemma {:induction false} WithoutAbsentKey(rows: seq<Summary>, id: int)
    requires GetById(rows, id).None?
    ensures Without(rows, id) == rows
    decreases |rows|
  {
    if rows != [] {
      assert rows[0].id != id;
      WithoutAbsentKey(rows[1..], id);
      assert rows == [rows[0]] + rows[1..];
    }
  }

  /** After deletion the key is absent; deleting it again changes nothing. */
  lemma DeleteIdempotent(rows: seq<Summary>, id: int)
    ensures GetById(Without(rows, id), id).None?
    ensures Without(Without(rows, id), id) == Without(rows, id)
  {
    WithoutAbsentKey(Without(rows, id), id);
  }

  // ---------------------------------------------------------------------
  // The store

  /**
   The `summaries` table behind a session: the rows in insertion order, the
   next primary key the table will hand out, and the database clock.
   */
  class SummaryStore {
    var rows: seq<Summary>
    var nextId: nat
    var clock: nat

    ghost predicate Valid()
      reads this
    {
      && IdsAscending(rows)
      && 1 <= nextId
      && (forall i :: 0 <= i < |rows| ==> 1 <= rows[i].id < nextId)
      && (forall i :: 0 <= i < |rows| ==> rows[i].createdAt <= clock)
    }

    /** An empty table; SQLite's first rowid is 1. */
    constructor (now: nat)
      ensures Valid()
      ensures rows == [] && nextId == 1 && clock == now
    {
      rows := [];
      nextId := 1;
      clock := now;
    }

    /**
     `create(db, url, summary, model)`. `elapsed` is the time that passed on
     the database clock since the previous `Create` (possibly none);
     `Delete` does not move the clock.
     */
    method Create(url: string, summary: string, model: string, elapsed: nat) returns (record: Summary)
      requires Valid()
      modifies this
      ensures Valid()
      ensures record.url == url && record.summary == summary && record.model == model
      ensures record.content == None
      ensures record.id == old(nextId)
      ensures forall y :: y in old(rows) ==> y.id != record.id && y.createdAt <= record.createdAt
      ensures forall k :: k != record.id && GetById(old(rows), k).None? ==> GetById(rows, k).None?
      ensures record.createdAt == old(clock) + elapsed
      ensures rows == old(rows) + [record]
      ensures GetById(rows, record.id) == Some(record)
      ensures nextId == old(nextId) + 1 && clock == record.createdAt
    {
      record := Summary(nextId, url, None, summary, model, clock + elapsed);
      rows := rows + [record];
      nextId := nextId + 1;
      clock := clock + elapsed;
      GetByIdFindsRow(rows, |rows| - 1);
      forall k | k != record.id && GetById(old(rows), k).None?
        ensures GetById(rows, k).None?
      {
        AppendAddsOnlyItsKey(old(rows), record, k);
      }
    }

    /** `delete(db, id)`: the deleted row, or `None` when no row has that key. */
    method Delete(id: int) returns (record: Option<Summary>)
      requires Valid()
      modifies this
      ensures Valid()
      ensures record == GetById(old(rows), id)
      ensures record.None? ==> rows == old(rows)
      ensures rows == Without(old(rows), id)
      ensures record.Some? ==> |rows| == |old(rows)| - 1
      ensures GetById(rows, id).None?
      ensures nextId == old(nextId) && clock == old(clock)
    {
      record := GetById(rows, id);
      if record.None? {
        WithoutAbsentKey(rows, id);
        return;
      }
      WithoutKeepsIdsAscending(rows, id);
      WithoutRemovesOne(rows, id);
      DeleteIdempotent(rows, id);
      rows := Without(rows, id);
    }
  }

  /** A key the store has not handed out (below 1, or not yet reached) finds nothing. */
  lemma NeverIssuedKeyAbsent(store: SummaryStore, id: int)
    requires store.Valid()
    requires id < 1 || id >= store.nextId
    ensures GetById(store.rows, id).None?
  {
  }

  /**
   Three insertions followed by the first page of size two, as a caller sees
   them through the contracts alone; then a deletion and a repeated one.
   */
  method PaginationScenario()
  {
    var store := new SummaryStore(0);
    var a := store.Create("https://example-1.com", "A summary #1", "llama3.2", 1);
    var b := store.Create("https://example-2.com", "A summary #2", "llama3.2", 1);
    var c := store.Create("https://example-3.com", "A summary #3", "llama3.2", 1);
    assert |store.rows| == 3;
    UnfilteredTotal(store.rows, 1, 2, None);
    var listing := GetAll(store.rows, 1, 2, None);
    assert listing.total == 3 && |listing.items| == 2;
    assert listing.page == 1 && listing.size == 2;
    LatestRowFirst(store.rows[..2], c, 2);
    assert store.rows[..2] + [c] == store.rows;
    assert listing.items[0] == c;

    var gone := store.Delete(b.id);
    assert gone == Some(b);
    var again := store.Delete(b.id);
    assert again == None;
    assert GetById(store.rows, a.id) == Some(a);

    var d := store.Create("https://example-4.com", "A summary #4", "llama3.2", 0);
    assert d.id != b.id;
    assert GetById(store.rows, b.id).None?;
    NeverIssuedKeyAbsent(store, 9999);
  }

  /** One insertion, then the listing with its default `page`, `size` and `q`. */
  method DefaultListingScenario()
  {
    var store := new SummaryStore(0);
    var a := store.Create("https://example.com", "A summary", "llama3.2", 1);
    UnfilteredTotal(store.rows, 1, 10, None);
    var listing := GetAll(store.rows);
    assert listing.page == 1 && listing.size == 10;
    assert listing.total == 1 && |listing.items| == 1;
  }
}
