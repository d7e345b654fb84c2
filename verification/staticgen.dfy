/** Static page generation of lib/static-generation.ts: batching helper,
    the raw paged row reader, and the id list the build turns into route
    parameters. Whether the database settings are present is a parameter. */
module StaticGen {
  import opened Wrappers
  import Text
  import Seqs
  import Paging
  import Hospitals

  /** `processInBatches`: hands the processor consecutive slices of at most
      `batchSize` items. Returns the slices in the order they are handed
      over; a zero batch size loops for ever on a non-empty list. */
  method ProcessInBatches<T(==)>(items: seq<T>, batchSize: nat) returns (batches: seq<seq<T>>)
    requires batchSize > 0 || items == []
    ensures Seqs.AreBatchesOf(batches, items, batchSize)
    ensures |items| == 0 <==> |batches| == 0
  {
    batches := [];
    var i := 0;
    while i < |items|
      invariant 0 <= i <= |items|
      invariant Seqs.Flatten(batches) == items[..i]
      invariant forall b :: 0 <= b < |batches| ==> 0 < |batches[b]| <= batchSize
      invariant forall b :: 0 <= b < |batches| - 1 ==> |batches[b]| == batchSize
      invariant i < |items| ==> forall b :: 0 <= b < |batches| ==> |batches[b]| == batchSize
      invariant i > 0 <==> |batches| > 0
      decreases |items| - i
    {
      var hi := if i + batchSize <= |items| then i + batchSize else |items|;
      var batch := items[i..hi];
      Seqs.FlattenSnoc(batches, batch);
      assert items[..i] + batch == items[..hi];
      batches := batches + [batch];
      i := hi;
    }
    assert items[..i] == items;
  }

  /** `getStaticHospitalIds`: no ids without the database settings or when
      the reader throws; otherwise every id it read. */
  method GetStaticHospitalIds(configured: bool, fetch: nat -> Paging.Page<int>, ghost bound: nat)
    returns (ids: seq<int>)
    requires configured ==> Paging.Ends(fetch(bound), Hospitals.DefaultBatchSize)
    ensures !configured ==> ids == []
    ensures configured ==> exists last: nat ::
      && Paging.IsLastPage(fetch, Hospitals.DefaultBatchSize, 0, last)
      && ids == (if fetch(last).QueryError? then []
                 else Paging.Gathered(fetch, Paging.AsIs, 0, last) + Paging.Tail(fetch(last), Paging.AsIs))
  {
    if !configured {
      return [];
    }
    var r, last := Paging.ReadAll(fetch, Hospitals.DefaultBatchSize, bound);
    ids := if r.Success? then r.value else [];
  }

  /** A route parameter `{ id }`. */
  datatype StaticParam = StaticParam(id: string)

  /** The parameters for a list of ids: one per id, in order, each the id's
      decimal text. */
  function StaticParams(ids: seq<int>): (r: seq<StaticParam>)
    ensures |r| == |ids|
    ensures forall i :: 0 <= i < |ids| ==> r[i].id == Text.IntToString(ids[i])
  {
    Seqs.Map((id: int) => StaticParam(Text.IntToString(id)), ids)
  }

  /** The ids can be read back from the parameters. */
  lemma StaticParamsReadBack(ids: seq<int>, i: nat)
    requires i < |ids|
    ensures Text.ParseInt(StaticParams(ids)[i].id) == Some(ids[i])
  {
    Text.ParseIntToString(ids[i]);
  }

  /** Distinct ids give distinct parameters. */
  lemma StaticParamsDistinct(ids: seq<int>, i: nat, j: nat)
    requires i < |ids| && j < |ids| && ids[i] != ids[j]
    ensures StaticParams(ids)[i] != StaticParams(ids)[j]
  {
    StaticParamsReadBack(ids, i);
    StaticParamsReadBack(ids, j);
  }

  /** `generateHospitalStaticParams`: one parameter per id the reader
      returns, in order. `ids` are those ids: none without the database
      settings or after a failed page, otherwise every id up to the last
      page. */
  method GenerateHospitalStaticParams(configured: bool, fetch: nat -> Paging.Page<int>, ghost bound: nat)
    returns (params: seq<StaticParam>, ids: seq<int>)
    requires configured ==> Paging.Ends(fetch(bound), Hospitals.DefaultBatchSize)
    ensures !configured ==> ids == [] && params == []
    ensures configured ==> exists last: nat ::
      && Paging.IsLastPage(fetch, Hospitals.DefaultBatchSize, 0, last)
      && ids == (if fetch(last).QueryError? then []
                 else Paging.Gathered(fetch, Paging.AsIs, 0, last) + Paging.Tail(fetch(last), Paging.AsIs))
    ensures params == StaticParams(ids)
    ensures |params| == |ids|
    ensures forall i :: 0 <= i < |ids| ==> Text.ParseInt(params[i].id) == Some(ids[i])
  {
    ids := GetStaticHospitalIds(configured, fetch, bound);
    params := StaticParams(ids);
    forall i | 0 <= i < |ids| ensures Text.ParseInt(params[i].id) == Some(ids[i]) {
      StaticParamsReadBack(ids, i);
    }
  }
}
