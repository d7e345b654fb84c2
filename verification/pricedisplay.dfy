/** components/TreatmentPriceDashboard.tsx: what the hospital page shows
    about the treatment price. A stored price is the hospital's own when
    positive and a regional estimate when negative; without one the page
    falls back to the province's average, and without that to a "being
    prepared" panel. Only the decisions are modelled, not the markup. */
module PriceDisplay {
  import opened Wrappers
  import Address
  import RegionalAverage
  import Hospitals
  import opened Js
  import PriceUpdate

  /** The `areaAveragePrice` property: not passed, `null`, or a value. */
  datatype AreaProp = Absent | NullArea | Area(average: RegionalAverage.AreaAverage)

  /** What the price card shows. */
  datatype PriceView =
      /** the fallback panel, linking to the cheapest hospitals of `region`
          (empty when the address names no province) */
    | Preparing(region: string)
    | Dashboard(
        /** the number shown, `None` for "정보 없음" */
        displayPrice: Option<int>,
        /** the "지역 평균" badge and the "(예상)" mark */
        estimateBadge: bool,
        /** the province's average line, when shown */
        areaLine: Option<int>,
        /** its (min, max) range, when shown */
        areaRange: Option<(int, int)>,
        /** the note that a stored regional average is shown */
        regionalNote: bool
      )

  function Abs(n: int): nat {
    if n < 0 then -n else n
  }

  /** The card for a hospital with stored price `treatmentPrice` (absent or
      a number) and address `address`. */
  function View(treatmentPrice: Option<int>, address: string, area: AreaProp): (v: PriceView)
    ensures v.Preparing? <==> (treatmentPrice.None? || treatmentPrice.value == 0) && !area.Area?
    ensures v.Preparing? ==> v.region == Address.ExtractRegion(address).GetOr("")
    ensures v.Dashboard? && treatmentPrice.Some? && treatmentPrice.value != 0 ==>
      v.displayPrice == Some(Abs(treatmentPrice.value)) && v.areaLine.None?
    ensures v.Dashboard? ==> (v.estimateBadge <==> (treatmentPrice.Some? && treatmentPrice.value < 0) || v.areaLine.Some?)
    ensures v.Dashboard? ==> (v.regionalNote <==> treatmentPrice.Some? && treatmentPrice.value < 0)
    ensures v.Dashboard? && v.areaLine.Some? ==> area.Area? && v.areaLine.value == area.average.avgPrice
    ensures v.Dashboard? && v.areaRange.Some? ==> v.areaLine.Some?
    ensures v.Dashboard? && v.displayPrice.Some? ==> v.displayPrice.value != 0
    ensures (treatmentPrice.None? || treatmentPrice.value == 0) && area.Area? ==>
      && v.Dashboard?
      && v.areaLine == Some(area.average.avgPrice)
      && v.estimateBadge && !v.regionalNote
      && (area.average.avgPrice != 0 ==> v.displayPrice == Some(area.average.avgPrice))
      && (area.average.avgPrice == 0 ==> v.displayPrice.None?)
    ensures v.Dashboard? && v.areaLine.Some? ==>
      var a := area.average;
      && (v.areaRange.Some? <==> a.maxPrice.Some? && a.maxPrice.value != 0 && a.minPrice.Some? && a.minPrice.value != 0)
      && (v.areaRange.Some? ==> v.areaRange.value == (a.minPrice.value, a.maxPrice.value))
  {
    var isRegionalAverage := treatmentPrice.Some? && treatmentPrice.value < 0;
    var price: Option<int> := if treatmentPrice.Some? && treatmentPrice.value != 0 then Some(Abs(treatmentPrice.value)) else None;
    if price.None? && !area.Area? then
      Preparing(Address.ExtractRegion(address).GetOr(""))
    else
      var displayPrice :=
        if price.Some? then price
        else if area.Area? && area.average.avgPrice != 0 then Some(area.average.avgPrice)
        else None;
      // `areaAveragePrice !== null` holds here whenever `price === null`
      var isAreaAverage := price.None?;
      var areaLine := if isAreaAverage && area.Area? then Some(area.average.avgPrice) else None;
      var areaRange :=
        if areaLine.Some? && area.average.maxPrice.Some? && area.average.maxPrice.value != 0
           && area.average.minPrice.Some? && area.average.minPrice.value != 0
        then Some((area.average.minPrice.value, area.average.maxPrice.value))
        else None;
      Dashboard(displayPrice, isRegionalAverage || isAreaAverage, areaLine, areaRange,
                isRegionalAverage && !isAreaAverage)
  }

  /** A price the service reported and the update stored is shown as it is,
      without any estimate mark. */
  lemma ObservedPriceShownPlain(p: int, address: string, area: AreaProp)
    requires p > 0
    ensures var h := Hospitals.NormalizePrice(Num(p));
      View(h, address, area) == Dashboard(Some(p), false, None, None, false)
  {
  }

  /** A regional estimate stored by the update (the average, negated) comes
      back on the page as that average, marked as an estimate, whatever the
      area property holds. */
  lemma EstimateShownAsRegional(average: int, address: string, area: AreaProp)
    requires average > 0
    ensures PriceUpdate.Negated(Some(average)) == Num(-average)
    ensures var h := Hospitals.NormalizePrice(PriceUpdate.Negated(Some(average)));
      View(h, address, area) == Dashboard(Some(average), true, None, None, true)
  {
  }

  /** Without a stored price the province's average is shown in its place,
      marked as an estimate, with its range when both extremes are known. */
  lemma AreaAverageShown(address: string, avg: int, lo: int, hi: int)
    requires avg != 0 && lo != 0 && hi != 0
    ensures var area := Area(RegionalAverage.AreaAverage(Address.Regions[0], avg, Some(hi), Some(lo)));
      View(None, address, area) == Dashboard(Some(avg), true, Some(avg), Some((lo, hi)), false)
  {
  }

  /** The two estimate explanations never appear together. */
  lemma NotesExclusive(treatmentPrice: Option<int>, address: string, area: AreaProp)
    ensures var v := View(treatmentPrice, address, area);
      v.Dashboard? ==> !(v.areaLine.Some? && v.regionalNote)
  {
  }

  /** The fallback panel's link names the province the address starts
      with. */
  lemma PreparingExample()
    ensures View(None, "서울특별시 강남구 테헤란로 123", NullArea) == Preparing("서울특별시")
  {
    Address.ExtractRegionExample();
  }
}
