/** The page reader of lib/public-data-api.ts. It differs from the sync
    script's reader only in its item filter, which demands a non-empty
    `ykiho` rather than a string one. */
module PublicData {
  import opened Wrappers
  import opened Text
  import opened Records
  import Paging
  import Seqs

  /** `fetchHospitalDataFromAPI`: fails when the key is missing; otherwise
      the items of the reply with a non-empty `ykiho`, in reply order. */
  function FetchHospitalDataFromAPI(apiKey: Option<string>, resp: Response): (r: Result<seq<PublicRecord>>)
    ensures r.Failure? <==> !Truthy(apiKey)
    ensures r.Failure? ==> r.error == MissingApiKey
    ensures r.Success? ==>
      var items := ResponseItems(resp);
      var d := Seqs.DefinedFrom(Accepted(HasTruthyKey), items, 0);
      && |r.value| == |d|
      && forall j :: 0 <= j < |r.value| ==> items[d[j]] == Record(r.value[j]) && Truthy(r.value[j].ykiho)
    ensures r.Success? ==> forall x :: x in r.value <==> Record(x) in ResponseItems(resp) && Truthy(x.ykiho)
    ensures r.Success? && (resp.RequestFailed? || resp.NoItems?) ==> r.value == []
  {
    if !Truthy(apiKey) then Failure(MissingApiKey)
    else Success(RecordsWhere(HasTruthyKey, ResponseItems(resp)))
  }

  /** With a key, the fetched page is as long as the reply exactly when
      every item of the reply has a non-empty key; a shorter page ends
      `fetchAllHospitalData` even when the reply was full. */
  lemma FetchKeepsWholeReply(apiKey: Option<string>, resp: Response)
    requires Truthy(apiKey)
    ensures |FetchHospitalDataFromAPI(apiKey, resp).value| == |ResponseItems(resp)|
        <==> forall i :: 0 <= i < |ResponseItems(resp)| ==> HasTruthyKey(ResponseItems(resp)[i])
  {
    RecordsWhereKeepsAll(HasTruthyKey, ResponseItems(resp));
  }

  function Pages(responses: nat -> Response): nat -> Paging.Page<PublicRecord> {
    (p: nat) => Paging.Rows(RecordsWhere(HasTruthyKey, ResponseItems(responses(p))))
  }

  /** `fetchAllHospitalData`: pages from 1 until an empty or short one,
      all their items in page order; a missing key is thrown to the caller.
      `bound` is a page at which the API stops. */
  method FetchAllHospitalData(apiKey: Option<string>, responses: nat -> Response,
                              numOfRows: nat, ghost bound: nat)
    returns (r: Result<seq<PublicRecord>>, last: nat)
    requires 1 <= bound && Paging.Ends(Pages(responses)(bound), numOfRows)
    ensures r.Failure? <==> !Truthy(apiKey)
    ensures r.Failure? ==> r.error == MissingApiKey
    ensures r.Success? ==>
      && Paging.IsLastPage(Pages(responses), numOfRows, 1, last)
      && r.value == Paging.Gathered(Pages(responses), Paging.AsIs, 1, last)
                    + Paging.Tail(Pages(responses)(last), Paging.AsIs)
    ensures r.Success? ==> forall i :: 0 <= i < |r.value| ==> Truthy(r.value[i].ykiho)
  {
    if !Truthy(apiKey) {
      return Failure(MissingApiKey), 0;
    }
    var all, _, lastPage := Paging.FetchAll(Pages(responses), Paging.AsIs, 1, numOfRows, bound);
    GatheredKeys(responses, 1, lastPage);
    r, last := Success(all), lastPage;
  }

  /** Every item gathered from the pages has a non-empty key. */
  lemma {:induction false} GatheredKeys(responses: nat -> Response, first: nat, last: nat)
    ensures forall x :: x in Paging.Gathered(Pages(responses), Paging.AsIs, first, last) ==> Truthy(x.ykiho)
    ensures forall x :: x in Paging.Tail(Pages(responses)(last), Paging.AsIs) ==> Truthy(x.ykiho)
    decreases last
  {
    PageKeys(responses, last);
    if last > first {
      GatheredKeys(responses, first, last - 1);
      PageKeys(responses, last - 1);
      assert Paging.Gathered(Pages(responses), Paging.AsIs, first, last)
          == Paging.Gathered(Pages(responses), Paging.AsIs, first, last - 1)
             + Paging.PageRows(Pages(responses)(last - 1));
    }
  }

  /** Every item of one page has a non-empty key. */
  lemma PageKeys(responses: nat -> Response, p: nat)
    ensures forall x :: x in Paging.PageRows(Pages(responses)(p)) ==> Truthy(x.ykiho)
    ensures forall x :: x in Paging.Tail(Pages(responses)(p), Paging.AsIs) ==> Truthy(x.ykiho)
  {
    var page := RecordsWhere(HasTruthyKey, ResponseItems(responses(p)));
    assert Pages(responses)(p) == Paging.Rows(page);
  }
}
