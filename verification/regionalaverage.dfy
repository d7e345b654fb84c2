/** lib/calculate-regional-average.ts: the average price of a province, read
    from the `area_prices` table when it has a row and otherwise computed from
    the prices stored for the province's hospitals. Both table reads are
    parameters. */
module RegionalAverage {
  import opened Wrappers
  import Text
  import opened Js
  import Address
  import Stats
  import Seqs

  /** A row of `area_prices`; `max_price` and `min_price` may be null. */
  datatype AreaRow = AreaRow(region: string, avg_price: int, max_price: Option<int>, min_price: Option<int>)

  /** The reply of `getAreaAveragePrice`; `None` extremes are `undefined`. */
  datatype AreaAverage = AreaAverage(region: string, avgPrice: int, maxPrice: Option<int>, minPrice: Option<int>)

  /** `v || undefined` for a nullable number: null and zero become
      `undefined`. */
  function NonZero(v: Option<int>): (r: Option<int>)
    ensures r.Some? <==> v.Some? && v.value != 0
    ensures r.Some? ==> r == v
  {
    if v.Some? && v.value != 0 then v else None
  }

  /** `getAreaAveragePrice`; `row` is the single matching row, or `None`
      when the query fails or finds none. */
  function GetAreaAveragePrice(row: Option<AreaRow>): (r: Option<AreaAverage>)
    ensures r.Some? <==> row.Some?
    ensures r.Some? ==> r.value.region == row.value.region && r.value.avgPrice == row.value.avg_price
    ensures r.Some? ==> r.value.maxPrice == NonZero(row.value.max_price)
    ensures r.Some? ==> r.value.minPrice == NonZero(row.value.min_price)
  {
    match row
    case None => None
    case Some(d) => Some(AreaAverage(d.region, d.avg_price, NonZero(d.max_price), NonZero(d.min_price)))
  }

  // ---------------------------------------------------------------------
  // The fallback computed from hospital prices
  // ---------------------------------------------------------------------

  /** What one stored price contributes: nothing (zero), its magnitude (a
      negative price is itself a regional estimate), or `NaN`. */
  datatype Sample = Skip | Magnitude(n: nat) | NotANumber


  /** Zero is dropped, `NaN` kept, and the rest taken by `Math.abs`. */
  function FromParsed(price: Option<int>): (r: Sample)
    ensures r.Magnitude? ==> r.n > 0
  {
    match price
    case None => NotANumber
    case Some(p) =>
      if p == 0 then Skip
      else if p < 0 then Magnitude(-p)
      else Magnitude(p)
  }

  /** A number as it is; anything else as `parseInt(String(v || '0'), 10)`,
      where a falsy value becomes "0" and is dropped and `true` becomes
      "true", which is `NaN` (`SampleOfText` shows the two agree); then zero
      is dropped and the rest taken by `Math.abs`. */
  function SampleOf(v: JsValue): (r: Sample)
    ensures v.Num? ==> (r.Skip? <==> v.n == 0)
    ensures v.Num? && v.n > 0 ==> r == Magnitude(v.n)
    ensures v.Num? && v.n < 0 ==> r == Magnitude(-v.n)
    ensures r.Magnitude? ==> r.n > 0
  {
    match v
    case Num(n) => FromParsed(Some(n))
    case Str(s) => if s != "" then FromParsed(Text.ParseInt(s)) else Skip
    case Bool(b) => if b then NotANumber else Skip
    case _ => Skip
  }

  /** A value that is not a number contributes what
      `parseInt(String(v || '0'), 10)` gives: a non-empty text is `NaN`
      exactly when `parseInt` finds no number in it, and a falsy value
      (absent, `null`, `false`, zero, empty) is dropped. */
  lemma SampleOfText(v: JsValue)
    ensures !v.Num? ==> SampleOf(v) == FromParsed(Text.ParseInt(ToJsString(Or(v, Str("0")))))
    ensures v.Str? && v.s != "" ==> (SampleOf(v).NotANumber? <==> Text.ParseInt(v.s).None?)
    ensures !Truthy(v) ==> SampleOf(v).Skip?
  {
    if !v.Num? && !Truthy(v) {
      SampleOfFalsy(v);
    } else if v == Bool(true) {
      assert ToJsString(Or(v, Str("0"))) == "true";
      Text.ParseIntTrue();
    }
  }

  lemma SampleOfFalsy(v: JsValue)
    requires !v.Num? && !Truthy(v)
    ensures FromParsed(Text.ParseInt(ToJsString(Or(v, Str("0"))))) == Skip
  {
    assert ToJsString(Or(v, Str("0"))) == "0";
    Text.ParseIntZero();
  }

  /** The sample of a value that is not dropped. */
  function Kept(v: JsValue): (r: Option<Sample>)
    ensures r.Some? <==> !SampleOf(v).Skip?
    ensures r.Some? ==> r.value == SampleOf(v)
  {
    var s := SampleOf(v);
    if s.Skip? then None else Some(s)
  }

  /** The prices kept from the stored values: the sample of every value that
      is not dropped, one each, in the order of the values. */
  function Prices(values: seq<JsValue>): (r: seq<Sample>)
    ensures |r| <= |values|
    ensures forall i :: 0 <= i < |r| ==> !r[i].Skip?
    ensures forall i :: 0 <= i < |r| && r[i].Magnitude? ==> r[i].n > 0
    ensures |r| == |Seqs.DefinedFrom(Kept, values, 0)|
    ensures forall j :: 0 <= j < |r| ==> r[j] == SampleOf(values[Seqs.DefinedFrom(Kept, values, 0)[j]])
    ensures forall i :: 0 <= i < |values| && !SampleOf(values[i]).Skip? ==> SampleOf(values[i]) in r
    ensures r == [] <==> forall i :: 0 <= i < |values| ==> SampleOf(values[i]).Skip?
  {
    Seqs.FilterMap(Kept, values)
  }

  /** The magnitudes of `NaN`-free samples. */
  function Magnitudes(samples: seq<Sample>): (r: seq<int>)
    requires forall i :: 0 <= i < |samples| ==> samples[i].Magnitude?
    ensures |r| == |samples|
    ensures forall i :: 0 <= i < |r| ==> r[i] == samples[i].n
  {
    seq(|samples|, i requires 0 <= i < |samples| && samples[i].Magnitude? => samples[i].n)
  }

  /** `Math.round(sum / n)` of the kept prices; `None` is `NaN`, which one
      unparsable price spreads to the whole mean. */
  function MeanOf(samples: seq<Sample>): (r: Option<int>)
    requires samples != [] && forall i :: 0 <= i < |samples| ==> !samples[i].Skip?
    ensures r.None? <==> NotANumber in samples
    ensures NotANumber !in samples ==>
      r == Some(Stats.RoundHalfUp(Stats.Sum(Magnitudes(samples)), |samples|))
  {
    if NotANumber in samples then None
    else
      var ms := Magnitudes(samples);
      Stats.MeanBetweenExtremes(ms);
      Some(Stats.RoundHalfUp(Stats.Sum(ms), |ms|))
  }

  /** The mean of `NaN`-free samples lies between the least and the greatest
      magnitude, so it is positive. */
  lemma MeanBetween(samples: seq<Sample>)
    requires samples != [] && forall i :: 0 <= i < |samples| ==> samples[i].Magnitude? && samples[i].n > 0
    ensures NotANumber !in samples
    ensures Stats.MinOf(Magnitudes(samples)) <= MeanOf(samples).value <= Stats.MaxOf(Magnitudes(samples))
    ensures MeanOf(samples).value > 0
  {
    var ms := Magnitudes(samples);
    Stats.MeanBetweenExtremes(ms);
    assert Stats.MinOf(ms) in ms;
  }

  // ---------------------------------------------------------------------
  // getRegionalAveragePriceForAddress
  // ---------------------------------------------------------------------

  /** The reply; `averagePrice == None` is `NaN`, `None` extremes are
      `undefined`. */
  datatype RegionalAverage = RegionalAverage(region: string, averagePrice: Option<int>, maxPrice: Option<int>, minPrice: Option<int>)

  /** `getRegionalAveragePriceForAddress(address)`. `areaRows(region)` is
      the `area_prices` row of a province; `hospitalPrices(region)` the
      non-null `treatment_price` values of the hospitals whose address
      contains it, or `None` when that query fails. */
  function GetRegionalAveragePriceForAddress(
    address: string,
    areaRows: string -> Option<AreaRow>,
    hospitalPrices: string -> Option<seq<JsValue>>
  ): (r: Option<RegionalAverage>)
    ensures Address.ExtractRegion(address).None? ==> r.None?
    ensures Address.ExtractRegion(address).Some? ==>
      var region := Address.ExtractRegion(address).value;
      && (areaRows(region).Some? ==>
            var a := areaRows(region).value;
            r == Some(RegionalAverage(a.region, Some(a.avg_price), NonZero(a.max_price), NonZero(a.min_price))))
      && (areaRows(region).None? ==>
            && (r.None? <==> hospitalPrices(region).None? || Prices(hospitalPrices(region).value) == [])
            && (r.Some? ==> r.value.region == region && r.value.maxPrice.None? && r.value.minPrice.None?)
            && (r.Some? ==> r.value.averagePrice == MeanOf(Prices(hospitalPrices(region).value))))
  {
    match Address.ExtractRegion(address)
    case None => None
    case Some(region) =>
      match GetAreaAveragePrice(areaRows(region))
      case Some(a) => Some(RegionalAverage(a.region, Some(a.avgPrice), a.maxPrice, a.minPrice))
      case None =>
        match hospitalPrices(region)
        case None => None
        case Some(values) =>
          var prices := Prices(values);
          if prices == [] then None
          else Some(RegionalAverage(region, MeanOf(prices), None, None))
  }

  /** Stored regional estimates (negative prices) count by their magnitude
      and zeros are ignored: 0, 100000 and -200000 average to 150000. */
  lemma MeanExample()
    ensures MeanOf(Prices([Num(0), Num(100000), Num(-200000)])) == Some(150000)
  {
    var values := [Num(0), Num(100000), Num(-200000)];
    assert Kept(values[0]) == None;
    assert Kept(values[1]) == Some(Magnitude(100000));
    assert Kept(values[2]) == Some(Magnitude(200000));
    assert Seqs.FilterMapFrom(Kept, values, 2) == [Magnitude(200000)];
    assert Seqs.FilterMapFrom(Kept, values, 0) == [Magnitude(100000), Magnitude(200000)];
    MeanOfPair(100000, 200000);
    assert Stats.RoundHalfUp(300000, 2) == 150000;
  }

  /** Two kept prices average to their rounded half sum. */
  lemma MeanOfPair(a: nat, b: nat)
    ensures MeanOf([Magnitude(a), Magnitude(b)]) == Some(Stats.RoundHalfUp(a + b, 2))
  {
    var ms := Magnitudes([Magnitude(a), Magnitude(b)]);
    assert ms == [a, b];
    assert Stats.Sum(ms) == a + b by {
      assert ms[..1] == [a];
      assert ms[..1][..0] == [];
      assert Stats.Sum(ms[..1]) == a;
    }
  }

  /** With only numeric prices the fallback mean is a positive number between
      the smallest and the largest magnitude. */
  lemma NumericPricesHaveMean(values: seq<JsValue>)
    requires forall i :: 0 <= i < |values| ==> values[i].Num?
    requires exists i :: 0 <= i < |values| && values[i].n != 0
    ensures Prices(values) != []
    ensures forall i :: 0 <= i < |Prices(values)| ==> Prices(values)[i].Magnitude?
    ensures MeanOf(Prices(values)).Some? && MeanOf(Prices(values)).value > 0
  {
    var k :| 0 <= k < |values| && values[k].n != 0;
    var r := Prices(values);
    var d := Seqs.DefinedFrom(Kept, values, 0);
    forall j | 0 <= j < |r| ensures r[j].Magnitude? {
      assert r[j] == SampleOf(values[d[j]]);
      NumberSample(values[d[j]]);
    }
    NumberSample(values[k]);
    MeanBetween(r);
  }

  /** A number is either dropped or kept by its magnitude. */
  lemma NumberSample(v: JsValue)
    requires v.Num?
    ensures SampleOf(v).Skip? || SampleOf(v).Magnitude?
    ensures v.n != 0 ==> !SampleOf(v).Skip?
  {
  }
}
