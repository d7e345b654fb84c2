/** The read path of lib/hospitals.ts and lib/static-generation.ts: single
    and paged reads of the `hospitals` table and the normalisation of the
    columns whose stored shape differs from the application's. The table is
    the oracle `fetch`, one reply per page. */
module Hospitals {
  import opened Wrappers
  import Text
  import opened Js
  import Seqs
  import Paging

  /** A stored row, reduced to its key and the columns the read path
      rewrites; the other columns pass through unchanged. */
  datatype DbRow = DbRow(
    id: int,
    operating_hours: JsValue,
    operatingHours: JsValue,
    treatment_price: JsValue,
    created_at: JsValue,
    createdAt: JsValue,
    updated_at: JsValue,
    updatedAt: JsValue
  )

  /** The application's `Hospital`: the row spread, then the rewritten
      fields. */
  datatype Hospital = Hospital(
    row: DbRow,
    operatingHours: JsValue,
    treatmentPrice: Option<int>,
    createdAt: JsValue,
    updatedAt: JsValue
  )

  /** The stored price the application sees: absent stays absent, a number
      is kept as it is, anything else is `parseInt(String(v || '0'), 10)`
      with zero and `NaN` turned into absent (`NormalizePriceText` shows the
      two agree). */
  function NormalizePrice(v: JsValue): (r: Option<int>)
    ensures v.Undefined? ==> r == None
    ensures v.Num? ==> r == Some(v.n)
    ensures v.Null? || v.Bool? ==> r == None
    ensures v.Str? ==> (r.Some? <==> Text.ParseInt(v.s).Some? && Text.ParseInt(v.s).value != 0)
    ensures v.Str? && r.Some? ==> r == Text.ParseInt(v.s)
  {
    match v
    case Num(n) => Some(n)
    case Str(s) => NonZero(Text.ParseInt(s))
    case _ => None
  }

  function NonZero(p: Option<int>): Option<int> {
    if p.Some? && p.value != 0 then p else None
  }

  /** A value that is neither absent nor a number is read as
      `parseInt(String(v || '0'), 10)`, with zero and `NaN` dropped. */
  lemma NormalizePriceText(v: JsValue)
    requires !v.Undefined? && !v.Num?
    ensures NormalizePrice(v) == NonZero(Text.ParseInt(ToJsString(Or(v, Str("0")))))
  {
    if !Truthy(v) {
      assert ToJsString(Or(v, Str("0"))) == "0";
      Text.ParseIntZero();
    } else if v.Bool? {
      assert ToJsString(Or(v, Str("0"))) == "true";
      Text.ParseIntTrue();
    }
  }

  /** How a normalised price is stored back. */
  function PriceValue(p: Option<int>): JsValue {
    if p.Some? then Num(p.value) else Undefined
  }

  /** Normalising is idempotent: a normalised price read again is the same. */
  lemma NormalizePriceIdempotent(v: JsValue)
    ensures NormalizePrice(PriceValue(NormalizePrice(v))) == NormalizePrice(v)
  {
  }

  /** A price stored as the decimal text of a non-zero number reads back as
      that number; stored as "0" it reads as absent. */
  lemma NormalizePriceOfText(n: int)
    ensures NormalizePrice(Str(Text.IntToString(n))) == if n == 0 then None else Some(n)
  {
    Text.ParseIntToString(n);
  }

  /** The column mapping shared by `getHospitalById` and `getAllHospitals`:
      each camel-case field takes the snake-case column when it is truthy and
      the camel-case one otherwise. */
  function ToHospital(row: DbRow): (h: Hospital)
    ensures h.row == row
    ensures Truthy(h.operatingHours) <==> Truthy(row.operating_hours) || Truthy(row.operatingHours)
    ensures Truthy(row.operating_hours) ==> h.operatingHours == row.operating_hours
    ensures !Truthy(row.operating_hours) ==> h.operatingHours == row.operatingHours
    ensures Truthy(row.created_at) ==> h.createdAt == row.created_at
    ensures !Truthy(row.created_at) ==> h.createdAt == row.createdAt
    ensures Truthy(row.updated_at) ==> h.updatedAt == row.updated_at
    ensures !Truthy(row.updated_at) ==> h.updatedAt == row.updatedAt
    ensures h.treatmentPrice == NormalizePrice(row.treatment_price)
    ensures row.treatment_price.Num? ==> h.treatmentPrice == Some(row.treatment_price.n)
  {
    Hospital(row,
      Or(row.operating_hours, row.operatingHours),
      NormalizePrice(row.treatment_price),
      Or(row.created_at, row.createdAt),
      Or(row.updated_at, row.updatedAt))
  }

  /** A hospital whose fields are already in camel case maps to itself
      field by field. */
  lemma ToHospitalKeepsCamelCase(row: DbRow)
    requires !Truthy(row.operating_hours) && !Truthy(row.created_at) && !Truthy(row.updated_at)
    requires row.treatment_price.Num? || row.treatment_price.Undefined?
    ensures ToHospital(row).operatingHours == row.operatingHours
    ensures ToHospital(row).createdAt == row.createdAt
    ensures ToHospital(row).updatedAt == row.updatedAt
    ensures PriceValue(ToHospital(row).treatmentPrice) == row.treatment_price
  {
  }

  /** `getHospitalById`: `reply` is what `.single()` returned, `None` for an
      error or no row. */
  function GetHospitalById(reply: Option<DbRow>): (r: Option<Hospital>)
    ensures r.None? <==> reply.None?
    ensures r.Some? ==> r.value.row == reply.value
    ensures reply.Some? ==> r == Some(ToHospital(reply.value))
  {
    if reply.None? then None else Some(ToHospital(reply.value))
  }

  function ToHospitals(rows: seq<DbRow>): (r: seq<Hospital>)
    ensures |r| == |rows|
    ensures forall i :: 0 <= i < |rows| ==> r[i] == ToHospital(rows[i])
  {
    Seqs.Map(ToHospital, rows)
  }

  /** The page size of `getAllHospitals`, Supabase's row limit per query. */
  const PageSize: nat := 1000
  /** The default `batchSize` of the id and row readers. */
  const DefaultBatchSize: nat := 1000

  /** The rows `getAllHospitals` returns once the loop has stopped at page
      `last`: everything read so far. A failed page ends the loop but keeps
      what came before, and a failure on the first page gives nothing. */
  function AllHospitalsUpTo(fetch: nat -> Paging.Page<DbRow>, last: nat): seq<Hospital> {
    Paging.Gathered(fetch, ToHospitals, 0, last) + Paging.Tail(fetch(last), ToHospitals)
  }

  /** `getAllHospitals`. */
  method GetAllHospitals(fetch: nat -> Paging.Page<DbRow>, ghost bound: nat)
    returns (r: seq<Hospital>, last: nat)
    requires Paging.Ends(fetch(bound), PageSize)
    ensures Paging.IsLastPage(fetch, PageSize, 0, last)
    ensures r == AllHospitalsUpTo(fetch, last)
  {
    var all, failed, lastPage := Paging.FetchAll(fetch, ToHospitals, 0, PageSize, bound);
    if failed && |all| == 0 {
      r := [];
    } else {
      r := all;
    }
    last := lastPage;
  }

  lemma {:induction false} GatheredHospitals(fetch: nat -> Paging.Page<DbRow>, first: nat, last: nat)
    ensures Paging.Gathered(fetch, ToHospitals, first, last)
         == ToHospitals(Paging.Gathered(fetch, Paging.AsIs, first, last))
    decreases last
  {
    if last > first {
      GatheredHospitals(fetch, first, last - 1);
      Seqs.MapAppend(ToHospital, Paging.Gathered(fetch, Paging.AsIs, first, last - 1),
                     Paging.PageRows(fetch(last - 1)));
    }
  }

  /** Over a table that does not change and answers every page, the hospitals
      read are the table's rows, each converted, in table order. */
  lemma AllHospitalsOfTable(table: seq<DbRow>)
    ensures Paging.IsLastPage(Paging.TablePages(table, PageSize), PageSize, 0, |table| / PageSize)
    ensures AllHospitalsUpTo(Paging.TablePages(table, PageSize), |table| / PageSize) == ToHospitals(table)
  {
    var fetch := Paging.TablePages(table, PageSize);
    var k := |table| / PageSize;
    Paging.FetchAllReadsWholeTable(table, PageSize);
    GatheredHospitals(fetch, 0, k);
    var tail := Paging.Tail(fetch(k), Paging.AsIs);
    assert Paging.Tail(fetch(k), ToHospitals) == ToHospitals(tail);
    Seqs.MapAppend(ToHospital, Paging.Gathered(fetch, Paging.AsIs, 0, k), tail);
  }
}
