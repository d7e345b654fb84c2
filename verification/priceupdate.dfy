/** scripts/update-treatment-prices.ts: refresh the stored treatment price of
    every hospital. A price the public service reports wins; a hospital with
    no reported and no stored price gets its province's average, stored
    negated to mark it as an estimate. The tables, the service and the
    outcome of each write are parameters. */
module PriceUpdate {
  import opened Wrappers
  import Text
  import opened Js
  import TreatmentPrice
  import RegionalAverage
  import Seqs

  /** A row of the hospital list: `ykiho` is never null (the query excludes
      it) but may be empty; the stored price is `null` or a number. */
  datatype HospitalRow = HospitalRow(ykiho: string, address: Option<string>, treatment_price: JsValue)

  /** The item codes tried for every hospital. */
  const ItemCodes: seq<string> := ["N0001", "N0002", "N0003", "N0004", "N0005"]

  /** The key of a hospital whose key is not empty. */
  function KeyIfPresent(h: HospitalRow): Option<string> {
    if h.ykiho != "" then Some(h.ykiho) else None
  }

  /** The truthy `ykiho`s (`ykihoList`): one for each hospital with a
      non-empty key, in the order of those hospitals. */
  function YkihoList(hospitals: seq<HospitalRow>): (r: seq<string>)
    ensures var d := Seqs.DefinedFrom(KeyIfPresent, hospitals, 0);
      && |r| == |d|
      && forall j :: 0 <= j < |r| ==> r[j] == hospitals[d[j]].ykiho && r[j] != ""
    ensures forall y :: y in r <==> y != "" && exists i :: 0 <= i < |hospitals| && hospitals[i].ykiho == y
    ensures |r| <= |hospitals|
  {
    var r := Seqs.FilterMap(KeyIfPresent, hospitals);
    forall y
      ensures y in r <==> y != "" && exists i :: 0 <= i < |hospitals| && hospitals[i].ykiho == y
    {
      Seqs.FilterMapMember(KeyIfPresent, hospitals, y);
      if y != "" && exists i :: 0 <= i < |hospitals| && hospitals[i].ykiho == y {
        var i :| 0 <= i < |hospitals| && hospitals[i].ykiho == y;
        assert KeyIfPresent(hospitals[i]) == Some(y);
      }
    }
    r
  }

  /** What the loop does for one hospital. */
  datatype Decision =
    | Skip
      /** store the price the service reported */
    | Observed(price: int)
      /** store the province average, negated; `Null` when the average is
          `NaN` (a JSON body cannot carry it) */
    | Estimate(stored: JsValue)

  /** `-averagePrice` as it is written. */
  function Negated(average: Option<int>): (r: JsValue)
    ensures average.Some? ==> r == Num(-average.value)
    ensures average.None? ==> r == Null
  {
    if average.Some? then Num(-average.value) else Null
  }

  /** The decision for one hospital, given the service's price for it and
      the regional average its address would get. */
  function Decide(h: HospitalRow, apiPrice: Option<int>, regional: Option<RegionalAverage.RegionalAverage>): (d: Decision)
    ensures h.ykiho == "" ==> d == Skip
    ensures d.Observed? <==> h.ykiho != "" && apiPrice.Some? && apiPrice.value != 0
    ensures d.Observed? ==> d.price == apiPrice.value
    ensures d.Estimate? ==> !Truthy(h.treatment_price) && Text.Truthy(h.address) && regional.Some?
    ensures d.Estimate? ==> d.stored == Negated(regional.value.averagePrice)
    ensures (&& h.ykiho != "" && (apiPrice.None? || apiPrice.value == 0) && !Truthy(h.treatment_price)
             && Text.Truthy(h.address) && regional.Some?) ==> d.Estimate?
  {
    if h.ykiho == "" then Skip
    else if apiPrice.Some? && apiPrice.value != 0 then Observed(apiPrice.value)
    else if !Truthy(h.treatment_price) && Text.Truthy(h.address) && regional.Some? then
      Estimate(Negated(regional.value.averagePrice))
    else Skip
  }

  /** A hospital that already has a stored price never gets an estimate,
      and a reported price is always positive. */
  lemma DecideNeverOverwritesWithEstimate(
    h: HospitalRow, ykihos: seq<string>, replies: (string, string) -> TreatmentPrice.PriceReply,
    regional: Option<RegionalAverage.RegionalAverage>
  )
    ensures Truthy(h.treatment_price) ==> !Decide(h, TreatmentPrice.FirstPrice(h.ykiho, ItemCodes, replies), regional).Estimate?
    ensures Decide(h, TreatmentPrice.FirstPrice(h.ykiho, ItemCodes, replies), regional).Observed? ==>
      Decide(h, TreatmentPrice.FirstPrice(h.ykiho, ItemCodes, replies), regional).price > 0
  {
  }

  /** The regional average for hospital `i`'s address. `hospitalTables(i)`
      is the hospitals table as the i-th step reads it: earlier steps of the
      same run may have written to it. */
  function RegionalFor(
    h: HospitalRow, areaRows: string -> Option<RegionalAverage.AreaRow>,
    hospitalTable: string -> Option<seq<JsValue>>
  ): Option<RegionalAverage.RegionalAverage> {
    if h.address.Some? then RegionalAverage.GetRegionalAveragePriceForAddress(h.address.value, areaRows, hospitalTable)
    else None
  }

  /** The number of decisions among the first `n` of the given kind whose
      write succeeded. */
  function Written(decisions: seq<Decision>, writeOk: nat -> bool, estimates: bool, n: nat): (c: nat)
    requires n <= |decisions|
    ensures c <= n
  {
    if n == 0 then 0
    else
      var d := decisions[n - 1];
      var counts := writeOk(n - 1) && (if estimates then d.Estimate? else d.Observed?);
      Written(decisions, writeOk, estimates, n - 1) + (if counts then 1 else 0)
  }

  /** A hospital is counted at most once. */
  lemma {:induction false} WrittenDisjoint(decisions: seq<Decision>, writeOk: nat -> bool, n: nat)
    requires n <= |decisions|
    ensures Written(decisions, writeOk, false, n) + Written(decisions, writeOk, true, n) <= n
  {
    if n > 0 {
      WrittenDisjoint(decisions, writeOk, n - 1);
    }
  }

  /** The decision for every hospital: the service's first price for its
      `ykiho`, and the regional average as the i-th step would read it. */
  function Plan(
    hs: seq<HospitalRow>, replies: (string, string) -> TreatmentPrice.PriceReply,
    areaRows: string -> Option<RegionalAverage.AreaRow>, hospitalTables: nat -> (string -> Option<seq<JsValue>>)
  ): (r: seq<Decision>)
    ensures |r| == |hs|
  {
    seq(|hs|, i requires 0 <= i < |hs| =>
      Decide(hs[i], TreatmentPrice.FirstPrice(hs[i].ykiho, ItemCodes, replies),
             RegionalFor(hs[i], areaRows, hospitalTables(i))))
  }

  lemma PlanAt(
    hs: seq<HospitalRow>, replies: (string, string) -> TreatmentPrice.PriceReply,
    areaRows: string -> Option<RegionalAverage.AreaRow>, hospitalTables: nat -> (string -> Option<seq<JsValue>>), i: nat
  )
    requires i < |hs|
    ensures Plan(hs, replies, areaRows, hospitalTables)[i]
         == Decide(hs[i], TreatmentPrice.FirstPrice(hs[i].ykiho, ItemCodes, replies),
                   RegionalFor(hs[i], areaRows, hospitalTables(i)))
  {
  }

  /** The closing counts: prices from the service, regional estimates, and
      the rest (`hospitals.length - updatedCount - regionalAverageCount`). */
  datatype Report = NoHospitals | Report(updated: nat, regional: nat, missing: int)

  /** `updateTreatmentPrices`. `hospitals` is the list query's reply (`None`
      when it fails); `hospitalTables(i)` the hospitals table as the regional
      fallback for hospital `i` reads it; `writeOk(i)` whether the write for
      hospital `i` succeeds. Also returns the decision taken for each
      hospital. */
  method UpdateTreatmentPrices(
    apiKey: Option<string>,
    hospitals: Option<seq<HospitalRow>>,
    replies: (string, string) -> TreatmentPrice.PriceReply,
    areaRows: string -> Option<RegionalAverage.AreaRow>,
    hospitalTables: nat -> (string -> Option<seq<JsValue>>),
    writeOk: nat -> bool
  ) returns (r: Result<Report>, decisions: seq<Decision>)
    ensures hospitals.None? ==> r == Failure(QueryFailed)
    ensures hospitals == Some([]) ==> r == Success(NoHospitals)
    ensures hospitals.Some? && hospitals.value != [] ==>
      (r.Failure? <==> !Text.Truthy(apiKey) && YkihoList(hospitals.value) != [])
    ensures r.Failure? && hospitals.Some? ==> r.error == MissingApiKey
    ensures r.Success? && hospitals.Some? && hospitals.value != [] ==>
      var hs := hospitals.value;
      var plan := Plan(hs, replies, areaRows, hospitalTables);
      && decisions == plan
      && r.value == Report(Written(plan, writeOk, false, |hs|), Written(plan, writeOk, true, |hs|),
                           |hs| - Written(plan, writeOk, false, |hs|) - Written(plan, writeOk, true, |hs|))
    ensures r.Success? && r.value.Report? ==> r.value.missing >= 0
  {
    decisions := [];
    if hospitals.None? {
      return Failure(QueryFailed), decisions;
    }
    var hs := hospitals.value;
    if hs == [] {
      return Success(NoHospitals), decisions;
    }
    var ykihos := YkihoList(hs);
    var batch := TreatmentPrice.FetchTreatmentPricesBatch(apiKey, ykihos, ItemCodes, replies);
    if batch.Failure? {
      return Failure(batch.error), decisions;
    }
    var updated, regional;
    decisions, updated, regional := ApplyDecisions(hs, batch.value, ykihos, replies, areaRows, hospitalTables, writeOk);
    return Success(Report(updated, regional, |hs| - updated - regional)), decisions;
  }

  /** The loop over the hospitals with the batch's price map in hand. */
  method ApplyDecisions(
    hs: seq<HospitalRow>, priceMap: map<string, int>, ykihos: seq<string>,
    replies: (string, string) -> TreatmentPrice.PriceReply,
    areaRows: string -> Option<RegionalAverage.AreaRow>,
    hospitalTables: nat -> (string -> Option<seq<JsValue>>),
    writeOk: nat -> bool
  ) returns (decisions: seq<Decision>, updated: nat, regional: nat)
    requires forall y :: y in priceMap <==> y in ykihos && TreatmentPrice.FirstPrice(y, ItemCodes, replies).Some?
    requires forall y :: y in priceMap ==> Some(priceMap[y]) == TreatmentPrice.FirstPrice(y, ItemCodes, replies)
    requires ykihos == YkihoList(hs)
    ensures decisions == Plan(hs, replies, areaRows, hospitalTables)
    ensures updated == Written(decisions, writeOk, false, |hs|)
    ensures regional == Written(decisions, writeOk, true, |hs|)
    ensures updated + regional <= |hs|
  {
    ghost var plan := Plan(hs, replies, areaRows, hospitalTables);
    decisions, updated, regional := [], 0, 0;
    for i := 0 to |hs|
      invariant decisions == plan[..i]
      invariant updated == Written(plan, writeOk, false, i)
      invariant regional == Written(plan, writeOk, true, i)
    {
      var d := DecideOne(hs, i, priceMap, ykihos, replies, areaRows, hospitalTables);
      Seqs.PrefixSnoc(plan, i);
      decisions := decisions + [d];
      if d.Observed? && writeOk(i) {
        updated := updated + 1;
      } else if d.Estimate? && writeOk(i) {
        regional := regional + 1;
      }
    }
    Seqs.WholePrefix(plan);
    WrittenDisjoint(plan, writeOk, |hs|);
  }

  /** One pass of the loop: the price from the batch's map, else the
      regional fallback. */
  method DecideOne(
    hs: seq<HospitalRow>, i: nat, priceMap: map<string, int>, ykihos: seq<string>,
    replies: (string, string) -> TreatmentPrice.PriceReply,
    areaRows: string -> Option<RegionalAverage.AreaRow>, hospitalTables: nat -> (string -> Option<seq<JsValue>>)
  ) returns (d: Decision)
    requires i < |hs|
    requires forall y :: y in priceMap <==> y in ykihos && TreatmentPrice.FirstPrice(y, ItemCodes, replies).Some?
    requires forall y :: y in priceMap ==> Some(priceMap[y]) == TreatmentPrice.FirstPrice(y, ItemCodes, replies)
    requires ykihos == YkihoList(hs)
    ensures d == Plan(hs, replies, areaRows, hospitalTables)[i]
  {
    var h := hs[i];
    assert h.ykiho != "" ==> h.ykiho in ykihos;
    var regional := RegionalFor(h, areaRows, hospitalTables(i));
    d := Decide(h, ApiPrice(priceMap, h.ykiho), regional);
    DecideWithPriceMap(h, priceMap, ykihos, replies, regional);
    PlanAt(hs, replies, areaRows, hospitalTables, i);
  }

  /** `priceMap.get(ykiho)`. */
  function ApiPrice(priceMap: map<string, int>, ykiho: string): (r: Option<int>)
    ensures r.Some? <==> ykiho in priceMap
    ensures r.Some? ==> r.value == priceMap[ykiho]
  {
    if ykiho in priceMap then Some(priceMap[ykiho]) else None
  }

  /** Reading the service's price from the batch's map decides as reading
      it directly would. */
  lemma DecideWithPriceMap(
    h: HospitalRow, priceMap: map<string, int>, ykihos: seq<string>,
    replies: (string, string) -> TreatmentPrice.PriceReply, regional: Option<RegionalAverage.RegionalAverage>
  )
    requires forall y :: y in priceMap <==> y in ykihos && TreatmentPrice.FirstPrice(y, ItemCodes, replies).Some?
    requires forall y :: y in priceMap ==> Some(priceMap[y]) == TreatmentPrice.FirstPrice(y, ItemCodes, replies)
    requires h.ykiho != "" ==> h.ykiho in ykihos
    ensures Decide(h, ApiPrice(priceMap, h.ykiho), regional)
         == Decide(h, TreatmentPrice.FirstPrice(h.ykiho, ItemCodes, replies), regional)
  {
    if h.ykiho != "" {
      assert ApiPrice(priceMap, h.ykiho) == TreatmentPrice.FirstPrice(h.ykiho, ItemCodes, replies);
    }
  }
}
