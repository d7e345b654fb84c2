/** scripts/sync-area-prices.ts: for each item code, the provincial
    statistics fetched from the service, completed with fixed rows for three
    provinces and a national row, renamed to the `area_prices` columns. The
    service's replies are the parameter of AreaPrice's fetch. */
module SyncArea {
  import opened Wrappers
  import Address
  import AreaPrice

  type AreaPriceData = AreaPrice.AreaPriceData

  /** The item codes synchronised: manual therapy and physical therapy. */
  const ItemCodes: seq<string> := ["N0001", "N0002"]

  /** One of the script's own fallback prices. */
  datatype FallbackPrice = FallbackPrice(region: string, avgPrice: int, maxPrice: int, minPrice: int)

  const FallbackData: seq<FallbackPrice> := [
    FallbackPrice("서울특별시", 150000, 200000, 100000),
    FallbackPrice("경기도", 130000, 180000, 90000),
    FallbackPrice("부산광역시", 120000, 170000, 80000)
  ]

  const National := "전국"

  /** A fallback row: the current item code, the manual-therapy name
      whatever the code, and no data behind it. */
  function FallbackRow(fb: FallbackPrice, itemCd: string): (r: AreaPriceData)
    ensures r.region == fb.region && r.itemCd == itemCd && r.count == 0
  {
    AreaPrice.AreaPriceData(fb.region, itemCd, "도수치료", fb.avgPrice, fb.maxPrice, fb.minPrice, 0)
  }

  function NationalRow(itemCd: string): (r: AreaPriceData)
    ensures r.region == National && r.itemCd == itemCd && r.count == 0
    ensures 0 < r.minPrice <= r.avgPrice <= r.maxPrice
  {
    AreaPrice.AreaPriceData(National, itemCd, "도수치료", 125000, 200000, 65000, 0)
  }

  predicate HasRegion(ps: seq<AreaPriceData>, region: string) {
    exists i :: 0 <= i < |ps| && ps[i].region == region
  }

  /** The rows of `fbs` whose province `existing` lacks, in order. */
  function FallbackRows(existing: seq<AreaPriceData>, fbs: seq<FallbackPrice>, itemCd: string): (r: seq<AreaPriceData>)
    ensures |r| <= |fbs|
  {
    if fbs == [] then []
    else
      var rest := FallbackRows(existing, fbs[1..], itemCd);
      if HasRegion(existing, fbs[0].region) then rest else [FallbackRow(fbs[0], itemCd)] + rest
  }

  /** A row is added for a fallback province exactly when it is missing,
      and it is that province's fallback row. */
  lemma {:induction false} FallbackRowsSpec(existing: seq<AreaPriceData>, fbs: seq<FallbackPrice>, itemCd: string)
    ensures forall i :: 0 <= i < |fbs| && !HasRegion(existing, fbs[i].region) ==>
      FallbackRow(fbs[i], itemCd) in FallbackRows(existing, fbs, itemCd)
    ensures forall p :: p in FallbackRows(existing, fbs, itemCd) ==>
      exists i :: 0 <= i < |fbs| && !HasRegion(existing, fbs[i].region) && p == FallbackRow(fbs[i], itemCd)
  {
    if fbs != [] {
      FallbackRowsSpec(existing, fbs[1..], itemCd);
      forall i | 1 <= i < |fbs| ensures fbs[i] == fbs[1..][i - 1] {}
      var rest := FallbackRows(existing, fbs[1..], itemCd);
      forall p | p in FallbackRows(existing, fbs, itemCd)
        ensures exists i :: 0 <= i < |fbs| && !HasRegion(existing, fbs[i].region) && p == FallbackRow(fbs[i], itemCd)
      {
        if p in rest {
          var j :| 0 <= j < |fbs[1..]| && !HasRegion(existing, fbs[1..][j].region) && p == FallbackRow(fbs[1..][j], itemCd);
          assert fbs[j + 1] == fbs[1..][j];
        }
      }
    }
  }

  /** The national row when no row is national yet. */
  function WithNational(rows: seq<AreaPriceData>, itemCd: string): (r: seq<AreaPriceData>)
  {
    if HasRegion(rows, National) then rows else rows + [NationalRow(itemCd)]
  }

  /** `finalPrices`: the fetched statistics, then the missing fallback
      provinces, then the national row when none is there. */
  function FinalPrices(apiPrices: seq<AreaPriceData>, itemCd: string): (r: seq<AreaPriceData>)
  {
    WithNational(apiPrices + FallbackRows(apiPrices, FallbackData, itemCd), itemCd)
  }

  /** The statistics come first, unchanged and in order; at most the three
      fallback rows and the national row follow. */
  lemma FinalPricesPrefix(apiPrices: seq<AreaPriceData>, itemCd: string)
    ensures var r := FinalPrices(apiPrices, itemCd);
      && |apiPrices| <= |r| <= |apiPrices| + 4
      && r[..|apiPrices|] == apiPrices
  {
    var r := FinalPrices(apiPrices, itemCd);
    var merged := apiPrices + FallbackRows(apiPrices, FallbackData, itemCd);
    assert r[..|apiPrices|] == merged[..|apiPrices|];
  }

  /** The rows after the statistics are fallback rows for exactly the
      fallback provinces the statistics lack, plus possibly the national
      row. */
  lemma FinalPricesFallbacks(apiPrices: seq<AreaPriceData>, itemCd: string, k: nat)
    requires k < |FallbackData|
    ensures var r := FinalPrices(apiPrices, itemCd);
      !HasRegion(apiPrices, FallbackData[k].region) <==> FallbackRow(FallbackData[k], itemCd) in r[|apiPrices|..]
  {
    var fbs := FallbackRows(apiPrices, FallbackData, itemCd);
    var merged := apiPrices + fbs;
    var r := FinalPrices(apiPrices, itemCd);
    FallbackRowsSpec(apiPrices, FallbackData, itemCd);
    assert merged[|apiPrices|..] == fbs;
    assert r[|apiPrices|..] == fbs || r[|apiPrices|..] == fbs + [NationalRow(itemCd)];
    if FallbackRow(FallbackData[k], itemCd) in r[|apiPrices|..] {
      var p := FallbackRow(FallbackData[k], itemCd);
      assert p.region != National;
      assert p in fbs;
      var i :| 0 <= i < |FallbackData| && !HasRegion(apiPrices, FallbackData[i].region) && p == FallbackRow(FallbackData[i], itemCd);
      assert FallbackData[i].region == FallbackData[k].region;
    }
  }

  /** There is always a national row, so the list is never empty: the
      script's "no statistics" branch cannot be taken. The national row is
      appended exactly when the statistics have none. */
  lemma FinalPricesNational(apiPrices: seq<AreaPriceData>, itemCd: string)
    ensures HasRegion(FinalPrices(apiPrices, itemCd), National)
    ensures |FinalPrices(apiPrices, itemCd)| > 0
    ensures HasRegion(apiPrices, National) ==>
      FinalPrices(apiPrices, itemCd) == apiPrices + FallbackRows(apiPrices, FallbackData, itemCd)
    ensures !HasRegion(apiPrices, National) ==>
      FinalPrices(apiPrices, itemCd) == apiPrices + FallbackRows(apiPrices, FallbackData, itemCd) + [NationalRow(itemCd)]
  {
    var fbs := FallbackRows(apiPrices, FallbackData, itemCd);
    var merged := apiPrices + fbs;
    FallbackRowsSpec(apiPrices, FallbackData, itemCd);
    assert !HasRegion(fbs, National) by {
      forall i | 0 <= i < |fbs| ensures fbs[i].region != National {
        assert fbs[i] in fbs;
      }
    }
    assert HasRegion(merged, National) <==> HasRegion(apiPrices, National) by {
      forall i | |apiPrices| <= i < |merged| ensures merged[i].region != National {
        assert merged[i] == fbs[i - |apiPrices|];
      }
      if HasRegion(merged, National) {
        var i :| 0 <= i < |merged| && merged[i].region == National;
        assert apiPrices[i].region == National;
      }
      if HasRegion(apiPrices, National) {
        var i :| 0 <= i < |apiPrices| && apiPrices[i].region == National;
        assert merged[i].region == National;
      }
    }
    if !HasRegion(merged, National) {
      var r := merged + [NationalRow(itemCd)];
      assert r[|merged|].region == National;
    }
  }

  predicate DistinctRegions(ps: seq<AreaPriceData>) {
    forall i, j :: 0 <= i < j < |ps| ==> ps[i].region != ps[j].region
  }

  lemma {:induction false} FallbackRowsDistinct(existing: seq<AreaPriceData>, fbs: seq<FallbackPrice>, itemCd: string)
    requires forall i, j :: 0 <= i < j < |fbs| ==> fbs[i].region != fbs[j].region
    ensures DistinctRegions(FallbackRows(existing, fbs, itemCd))
  {
    if fbs != [] {
      var tail := fbs[1..];
      assert forall i, j :: 0 <= i < j < |tail| ==> tail[i].region != tail[j].region by {
        forall i, j | 0 <= i < j < |tail| ensures tail[i].region != tail[j].region {
          assert tail[i] == fbs[i + 1] && tail[j] == fbs[j + 1];
        }
      }
      FallbackRowsDistinct(existing, tail, itemCd);
      FallbackRowsSpec(existing, tail, itemCd);
      var rest := FallbackRows(existing, tail, itemCd);
      forall q | q in rest ensures q.region != fbs[0].region {
        var i :| 0 <= i < |tail| && !HasRegion(existing, tail[i].region) && q == FallbackRow(tail[i], itemCd);
        assert tail[i] == fbs[i + 1];
      }
      if !HasRegion(existing, fbs[0].region) {
        var r := [FallbackRow(fbs[0], itemCd)] + rest;
        forall i, j | 0 <= i < j < |r| ensures r[i].region != r[j].region {
          if i == 0 {
            assert r[j] == rest[j - 1] && rest[j - 1] in rest;
          } else {
            assert r[i] == rest[i - 1] && r[j] == rest[j - 1];
          }
        }
      }
    }
  }

  /** When the fetched statistics name each province once, so does the
      list that is stored. */
  lemma FinalPricesDistinct(apiPrices: seq<AreaPriceData>, itemCd: string)
    requires DistinctRegions(apiPrices)
    ensures DistinctRegions(FinalPrices(apiPrices, itemCd))
  {
    var fbs := FallbackRows(apiPrices, FallbackData, itemCd);
    var merged := apiPrices + fbs;
    FallbackRowsDistinct(apiPrices, FallbackData, itemCd);
    FallbackRowsSpec(apiPrices, FallbackData, itemCd);
    forall i, j | 0 <= i < j < |merged| ensures merged[i].region != merged[j].region {
      if j >= |apiPrices| && i < |apiPrices| {
        var q := fbs[j - |apiPrices|];
        assert q in fbs;
        var k :| 0 <= k < |FallbackData| && !HasRegion(apiPrices, FallbackData[k].region) && q == FallbackRow(FallbackData[k], itemCd);
      } else if i >= |apiPrices| {
        assert merged[i] == fbs[i - |apiPrices|] && merged[j] == fbs[j - |apiPrices|];
      }
    }
    if !HasRegion(merged, National) {
      var r := merged + [NationalRow(itemCd)];
      forall i, j | 0 <= i < j < |r| ensures r[i].region != r[j].region {
        if j == |merged| {
          assert r[i] == merged[i];
        } else {
          assert r[i] == merged[i] && r[j] == merged[j];
        }
      }
    }
  }

  /** A row of `area_prices`; `updated_at` is left out. */
  datatype StoredRow = StoredRow(region: string, item_cd: string, item_nm: string,
                                 avg_price: int, max_price: int, min_price: int, data_count: nat)

  function ToStored(p: AreaPriceData): StoredRow {
    StoredRow(p.region, p.itemCd, p.itemNm, p.avgPrice, p.maxPrice, p.minPrice, p.count)
  }

  function FromStored(s: StoredRow): AreaPriceData {
    AreaPrice.AreaPriceData(s.region, s.item_cd, s.item_nm, s.avg_price, s.max_price, s.min_price, s.data_count)
  }

  /** `dataToInsert`: one row per statistic, in order. */
  function DataToInsert(ps: seq<AreaPriceData>): (r: seq<StoredRow>)
    ensures |r| == |ps|
    ensures forall i :: 0 <= i < |ps| ==> FromStored(r[i]) == ps[i]
  {
    seq(|ps|, i requires 0 <= i < |ps| => ToStored(ps[i]))
  }

  /** The rename loses nothing: the stored rows determine the statistics. */
  lemma DataToInsertInjective(ps: seq<AreaPriceData>, qs: seq<AreaPriceData>)
    requires DataToInsert(ps) == DataToInsert(qs)
    ensures ps == qs
  {
    assert |ps| == |qs|;
    forall i | 0 <= i < |ps| ensures ps[i] == qs[i] {
      assert FromStored(DataToInsert(ps)[i]) == FromStored(DataToInsert(qs)[i]);
    }
  }

  /** With the three fallback provinces present, no fallback row is added. */
  lemma NoFallbackWhenCovered(existing: seq<AreaPriceData>, itemCd: string)
    requires HasRegion(existing, "서울특별시") && HasRegion(existing, "경기도") && HasRegion(existing, "부산광역시")
    ensures FallbackRows(existing, FallbackData, itemCd) == []
  {
    var fbs := FallbackData;
    assert FallbackRows(existing, fbs[3..], itemCd) == [];
    assert fbs[2..][0].region == "부산광역시" && fbs[2..][1..] == fbs[3..];
    assert FallbackRows(existing, fbs[2..], itemCd) == [];
    assert fbs[1..][0].region == "경기도" && fbs[1..][1..] == fbs[2..];
    assert FallbackRows(existing, fbs[1..], itemCd) == [];
    assert fbs[0].region == "서울특별시";
  }

  /** Statistics for the seventeen provinces, in list order, cover the
      three fallback provinces and hold no national row. */
  lemma ProvincesCovered(api: seq<AreaPriceData>)
    requires |api| == |Address.Regions|
    requires forall i :: 0 <= i < |api| ==> api[i].region == Address.Regions[i]
    ensures HasRegion(api, "서울특별시") && HasRegion(api, "경기도") && HasRegion(api, "부산광역시")
    ensures !HasRegion(api, National)
  {
    var regions := Address.Regions;
    assert api[0].region == regions[0] == "서울특별시";
    assert api[8].region == regions[8] == "경기도";
    assert api[1].region == regions[1] == "부산광역시";
    assert National !in regions;
    forall i | 0 <= i < |api| ensures api[i].region != National {
      assert regions[i] in regions;
    }
  }

  /** Statistics for the seventeen provinces get only the national row. */
  lemma OnlyNationalForAllProvinces(api: seq<AreaPriceData>, itemCd: string)
    requires |api| == |Address.Regions|
    requires forall i :: 0 <= i < |api| ==> api[i].region == Address.Regions[i]
    ensures FinalPrices(api, itemCd) == api + [NationalRow(itemCd)]
  {
    ProvincesCovered(api);
    NoFallbackWhenCovered(api, itemCd);
    FinalPricesNational(api, itemCd);
    assert api + [] == api;
  }

  /** Fetched for the seventeen provinces, every province is present (the
      fetch substitutes its own fallback for any province without data), so
      the script's three fallback rows are never added and only the
      national row is appended. */
  lemma FetchedProvincesNeedOnlyNational(itemCd: string, replies: nat -> AreaPrice.StatsReply)
    ensures var api := AreaPrice.Present(AreaPrice.Replies(Address.Regions, itemCd, replies));
      FinalPrices(api, itemCd) == api + [NationalRow(itemCd)]
  {
    var regions := Address.Regions;
    var api := AreaPrice.Present(AreaPrice.Replies(regions, itemCd, replies));
    assert forall i :: 0 <= i < |regions| ==> regions[i] in regions;
    AreaPrice.KnownRegionsAllPresent(regions, itemCd, replies);
    OnlyNationalForAllProvinces(api, itemCd);
  }
}
