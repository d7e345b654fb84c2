/** The synchronisation script of lib/fetchData.ts: read every page of the
    public-data API, convert the usable items to storage rows and upsert them
    in batches. The API key is a parameter, each page's reply is the oracle
    `responses` and each batch's database outcome is the oracle `upsertOk`. */
module HospitalSync {
  import opened Wrappers
  import opened Text
  import opened Records
  import Paging
  import Dedup
  import Seqs

  /** Rows requested per page (`numOfRows`). */
  const NumOfRows: nat := 100
  /** Rows per upsert batch. */
  const UpsertBatchSize: nat := 100

  /** `fetchHospitalData`: fails when the key is missing; otherwise the
      items of the reply whose `ykiho` is a string, in reply order, and no
      items when the request failed or the body had none. */
  function FetchHospitalData(apiKey: Option<string>, resp: Response): (r: Result<seq<PublicRecord>>)
    ensures r.Failure? <==> !Truthy(apiKey)
    ensures r.Failure? ==> r.error == MissingApiKey
    ensures r.Success? ==>
      var items := ResponseItems(resp);
      var d := Seqs.DefinedFrom(Accepted(HasStringKey), items, 0);
      && |r.value| == |d|
      && forall j :: 0 <= j < |r.value| ==> items[d[j]] == Record(r.value[j]) && r.value[j].ykiho.Some?
    ensures r.Success? ==> forall x :: x in r.value <==> Record(x) in ResponseItems(resp) && x.ykiho.Some?
    ensures r.Success? && (resp.RequestFailed? || resp.NoItems?) ==> r.value == []
  {
    if !Truthy(apiKey) then Failure(MissingApiKey)
    else Success(RecordsWhere(HasStringKey, ResponseItems(resp)))
  }

  /** With a key, the fetched page is as long as the reply exactly when
      every item of the reply has a string key; this length is what the
      sync loop compares with `numOfRows`. */
  lemma FetchKeepsWholeReply(apiKey: Option<string>, resp: Response)
    requires Truthy(apiKey)
    ensures |FetchHospitalData(apiKey, resp).value| == |ResponseItems(resp)|
        <==> forall i :: 0 <= i < |ResponseItems(resp)| ==> HasStringKey(ResponseItems(resp)[i])
  {
    RecordsWhereKeepsAll(HasStringKey, ResponseItems(resp));
  }

  /** The page the sync loop sees for one reply (the key is present). */
  function PageOf(resp: Response): Paging.Page<PublicRecord> {
    Paging.Rows(RecordsWhere(HasStringKey, ResponseItems(resp)))
  }

  function Pages(responses: nat -> Response): nat -> Paging.Page<PublicRecord> {
    (p: nat) => PageOf(responses(p))
  }

  /** The loop's end test counts the items left after the filter: a full
      reply of `NumOfRows` items with one item lacking a string key ends the
      sync, even though later pages may hold more items. */
  lemma FilteredFullPageEndsSync(resp: Response, i: nat)
    requires |ResponseItems(resp)| == NumOfRows
    requires i < NumOfRows && !HasStringKey(ResponseItems(resp)[i])
    ensures Paging.Ends(PageOf(resp), NumOfRows)
  {
    RecordsWhereDrops(HasStringKey, ResponseItems(resp), i);
  }

  datatype SyncResult =
    | Aborted(error: Error)          // the error is rethrown
    | NoData                         // nothing collected: return early
    | Synced(total: nat, tally: Dedup.Tally)

  /** `syncAllHospitalData`. Pages are numbered from 1; `bound` is a page
      at which the API stops, which the source needs in order to finish. */
  method SyncAllHospitalData(apiKey: Option<string>, responses: nat -> Response,
                             upsertOk: nat -> bool, ghost bound: nat)
    returns (result: SyncResult, collected: seq<HospitalRow>, last: nat)
    requires 1 <= bound && Paging.Ends(PageOf(responses(bound)), NumOfRows)
    ensures result == Aborted(MissingApiKey) <==> !Truthy(apiKey)
    ensures Truthy(apiKey) ==>
      && Paging.IsLastPage(Pages(responses), NumOfRows, 1, last)
      && collected == Paging.Gathered(Pages(responses), RowsOfComplete, 1, last)
                      + Paging.Tail(Pages(responses)(last), RowsOfComplete)
    ensures result == NoData <==> Truthy(apiKey) && collected == []
    ensures result.Synced? ==>
      && result.total == |collected|
      && result.tally.success + result.tally.failed == |Dedup.Dedup(collected)|
  {
    if !Truthy(apiKey) {
      return Aborted(MissingApiKey), [], 0;
    }
    var failed;
    collected, failed, last := Paging.FetchAll(Pages(responses), RowsOfComplete, 1, NumOfRows, bound);
    if |collected| == 0 {
      return NoData, collected, last;
    }
    var tally, _ := Dedup.BulkUpsertHospitals(collected, UpsertBatchSize, upsertOk);
    result := Synced(|collected|, tally);
  }
}
