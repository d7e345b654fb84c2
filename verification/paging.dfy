/** The "fetch pages until a short one" loop that lib/fetchData.ts,
    lib/public-data-api.ts, lib/hospitals.ts and lib/static-generation.ts
    each write out: request page after page, stop at an error, an empty page
    or a page shorter than the page size, and collect the converted rows of
    every non-empty page. The remote service is the oracle `fetch`. */
module Paging {
  import opened Wrappers

  /** One reply: the rows of a page, or an error reported by the service. */
  datatype Page<T> = Rows(rows: seq<T>) | QueryError

  /** The loop leaves after this page. */
  predicate Ends<T>(page: Page<T>, size: nat) {
    page.QueryError? || |page.rows| == 0 || |page.rows| < size
  }

  /** `last` is the first page, counting from `first`, after which the loop
      leaves. */
  predicate IsLastPage<T>(fetch: nat -> Page<T>, size: nat, first: nat, last: nat) {
    && first <= last
    && Ends(fetch(last), size)
    && forall p: nat :: first <= p < last ==> !Ends(fetch(p), size)
  }

  /** There is only one such page. */
  lemma LastPageUnique<T>(fetch: nat -> Page<T>, size: nat, first: nat, a: nat, b: nat)
    requires IsLastPage(fetch, size, first, a)
    requires IsLastPage(fetch, size, first, b)
    ensures a == b
  {
  }

  function PageRows<T>(page: Page<T>): seq<T> {
    if page.Rows? then page.rows else []
  }

  /** The converted rows of pages `first` .. `last - 1`, in page order. */
  function Gathered<T, U>(fetch: nat -> Page<T>, convert: seq<T> -> seq<U>, first: nat, last: nat): seq<U>
    decreases last
  {
    if last <= first then []
    else Gathered(fetch, convert, first, last - 1) + convert(PageRows(fetch(last - 1)))
  }

  /** The conversion of loops that keep rows as they arrive. */
  function AsIs<T>(rows: seq<T>): seq<T> {
    rows
  }

  /** What the final page adds: its converted rows when it has any, and
      nothing after an error or an empty page. */
  function Tail<T, U>(page: Page<T>, convert: seq<T> -> seq<U>): seq<U> {
    if page.Rows? && page.rows != [] then convert(page.rows) else []
  }

  /** The loop itself. `bound` is a page at which the service stops: without
      one the source loops for ever, so termination is a requirement here.
      Returns the collected rows, whether the last request failed, and the
      number of the last page requested. */
  method FetchAll<T, U>(fetch: nat -> Page<T>, convert: seq<T> -> seq<U>, first: nat, size: nat, ghost bound: nat)
    returns (all: seq<U>, failed: bool, last: nat)
    requires first <= bound && Ends(fetch(bound), size)
    ensures IsLastPage(fetch, size, first, last)
    ensures failed <==> fetch(last).QueryError?
    ensures all == Gathered(fetch, convert, first, last) + Tail(fetch(last), convert)
  {
    all := [];
    var page := first;
    while true
      invariant first <= page <= bound
      invariant forall p: nat :: first <= p < page ==> !Ends(fetch(p), size)
      invariant all == Gathered(fetch, convert, first, page)
      decreases bound - page
    {
      var reply := fetch(page);
      if reply.QueryError? {
        return all, true, page;
      }
      if |reply.rows| == 0 {
        return all, false, page;
      }
      all := all + convert(reply.rows);
      if |reply.rows| < size {
        return all, false, page;
      }
      page := page + 1;
    }
  }

  /** `getAllHospitalIdsPaginated` (lib/hospitals.ts) and
      `getAllHospitalsPaginated` (lib/static-generation.ts), which differ
      only in the columns they select: every row read, unconverted, or an
      error as soon as a page reports one. */
  method ReadAll<T>(fetch: nat -> Page<T>, batchSize: nat, ghost bound: nat)
    returns (r: Result<seq<T>>, last: nat)
    requires Ends(fetch(bound), batchSize)
    ensures IsLastPage(fetch, batchSize, 0, last)
    ensures r.Failure? <==> fetch(last).QueryError?
    ensures r.Failure? ==> r.error == QueryFailed
    ensures r.Success? ==> r.value == Gathered(fetch, AsIs, 0, last) + Tail(fetch(last), AsIs)
  {
    var all, failed, lastPage := FetchAll(fetch, AsIs, 0, batchSize, bound);
    r := if failed then Failure(QueryFailed) else Success(all);
    last := lastPage;
  }

  // ---------------------------------------------------------------------
  // Paging over a table that does not change
  // ---------------------------------------------------------------------

  function Min(a: int, b: int): int {
    if a <= b then a else b
  }

  /** `.range(p * size, (p + 1) * size - 1)` on a fixed table: the rows at
      those positions that exist. */
  function RangePage<T>(table: seq<T>, size: nat, p: nat): (r: Page<T>)
    ensures r.Rows?
  {
    Rows(table[Min(p * size, |table|)..Min(p * size + size, |table|)])
  }

  function TablePages<T>(table: seq<T>, size: nat): nat -> Page<T> {
    (p: nat) => RangePage(table, size, p)
  }

  lemma MulMono(a: nat, b: nat, size: nat)
    requires a <= b
    ensures a * size <= b * size
  {
    var d := b - a;
    assert b * size == a * size + d * size;
  }

  lemma {:induction false} GatheredTable<T>(table: seq<T>, size: nat, k: nat)
    requires k * size <= |table|
    ensures Gathered(TablePages(table, size), AsIs, 0, k)
            == table[..k * size]
  {
    var fetch := TablePages(table, size);
    if k > 0 {
      var j: nat := k - 1;
      assert j * size + size == k * size;
      MulMono(j, k, size);
      GatheredTable(table, size, j);
      assert PageRows(fetch(j)) == table[j * size..k * size];
      assert table[..j * size] + table[j * size..k * size] == table[..k * size];
    }
  }

  lemma FullRangePage<T>(table: seq<T>, size: nat, p: nat)
    requires (p + 1) * size <= |table|
    ensures |RangePage(table, size, p).rows| == size
  {
    assert (p + 1) * size == p * size + size;
  }

  lemma ShortRangePage<T>(table: seq<T>, size: nat)
    requires size > 0
    ensures (|table| / size) * size <= |table|
    ensures RangePage(table, size, |table| / size).rows == table[(|table| / size) * size..]
    ensures |RangePage(table, size, |table| / size).rows| < size
  {
    var k := |table| / size;
    assert |table| == k * size + |table| % size;
  }

  /** Over a fixed table with a positive page size, the loop stops at page
      `|table| / size`: the first one with fewer than `size` rows. */
  lemma TableLastPage<T>(table: seq<T>, size: nat)
    requires size > 0
    ensures IsLastPage(TablePages(table, size), size, 0, |table| / size)
  {
    var fetch := TablePages(table, size);
    var k := |table| / size;
    ShortRangePage(table, size);
    assert Ends(fetch(k), size);
    forall p: nat | p < k ensures !Ends(fetch(p), size) {
      MulMono(p + 1, k, size);
      FullRangePage(table, size, p);
    }
  }

  /** Paging over a fixed table with a positive page size and no errors
      reads every row exactly once, in table order. */
  lemma {:induction false} FetchAllReadsWholeTable<T>(table: seq<T>, size: nat)
    requires size > 0
    ensures IsLastPage(TablePages(table, size), size, 0, |table| / size)
    ensures Gathered(TablePages(table, size), AsIs, 0, |table| / size)
            + Tail(TablePages(table, size)(|table| / size), AsIs)
            == table
  {
    var fetch := TablePages(table, size);
    var k := |table| / size;
    TableLastPage(table, size);
    ShortRangePage(table, size);
    GatheredTable(table, size, k);
    assert Tail(fetch(k), AsIs) == table[k * size..];
    assert table[..k * size] + table[k * size..] == table;
  }
}
