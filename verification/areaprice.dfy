/** Regional price statistics of lib/area-price-api.ts: the two spellings of
    province names, the statistic computed from one API reply, the
    hard-coded fallback table and the collection over many provinces. The
    API reply for each request is a parameter. */
module AreaPrice {
  import opened Wrappers
  import Text
  import opened Js
  import Address
  import Stats
  import Seqs

  // ---------------------------------------------------------------------
  // Province names
  // ---------------------------------------------------------------------

  /** The API's short names, aligned with `Address.Regions` (the database's
      full names); together they are `REGION_NAME_MAP` in its key order. */
  const Abbreviations: seq<string> := [
    "서울", "부산", "대구", "인천", "광주", "대전", "울산", "세종", "경기",
    "강원", "충북", "충남", "전북", "전남", "경북", "경남", "제주"
  ]

  /** The position of `x` in `xs` at or after `k`. */
  function IndexFrom(xs: seq<string>, x: string, k: nat): (r: Option<nat>)
    requires k <= |xs|
    ensures r.Some? ==> k <= r.value < |xs| && xs[r.value] == x
    ensures r.Some? ==> forall j :: k <= j < r.value ==> xs[j] != x
    ensures r.None? <==> forall j :: k <= j < |xs| ==> xs[j] != x
    decreases |xs| - k
  {
    if k == |xs| then None
    else if xs[k] == x then Some(k)
    else IndexFrom(xs, x, k + 1)
  }

  lemma RegionsDistinct()
    ensures forall i, j :: 0 <= i < j < |Address.Regions| ==> Address.Regions[i] != Address.Regions[j]
  {
  }

  lemma AbbreviationsDistinct()
    ensures forall i, j :: 0 <= i < j < |Abbreviations| ==> Abbreviations[i] != Abbreviations[j]
  {
  }

  lemma AbbreviationsShort()
    ensures forall i :: 0 <= i < |Abbreviations| ==> |Abbreviations[i]| == 2
    ensures forall i :: 0 <= i < |Address.Regions| ==> |Address.Regions[i]| >= 3
  {
  }

  /** `toApiRegionName`: the short name of a full province name, and any
      other string unchanged. */
  function ToApiRegionName(dbRegion: string): (r: string)
    ensures dbRegion !in Address.Regions ==> r == dbRegion
    ensures dbRegion in Address.Regions ==> r in Abbreviations
  {
    match IndexFrom(Address.Regions, dbRegion, 0)
    case Some(i) => Abbreviations[i]
    case None => dbRegion
  }

  /** The search stops at the first occurrence. */
  lemma IndexFromFirst(xs: seq<string>, x: string, i: nat)
    requires i < |xs| && xs[i] == x
    requires forall j :: 0 <= j < i ==> xs[j] != x
    ensures IndexFrom(xs, x, 0) == Some(i)
  {
  }

  /** The `i`-th province name maps to the `i`-th abbreviation. */
  lemma ToApiRegionNameOf(i: nat)
    requires i < |Address.Regions|
    ensures ToApiRegionName(Address.Regions[i]) == Abbreviations[i]
  {
    RegionsDistinct();
    IndexFromFirst(Address.Regions, Address.Regions[i], i);
  }

  /** The first table entry, from `k` on, whose short name equals, occurs in
      or contains `apiRegion`. */
  function MatchFrom(apiRegion: string, k: nat): (r: Option<nat>)
    requires k <= |Abbreviations|
    ensures r.Some? ==> k <= r.value < |Abbreviations| && AbbreviationMatches(apiRegion, r.value)
    ensures r.Some? ==> forall j :: k <= j < r.value ==> !AbbreviationMatches(apiRegion, j)
    ensures r.None? ==> forall j :: k <= j < |Abbreviations| ==> !AbbreviationMatches(apiRegion, j)
    decreases |Abbreviations| - k
  {
    if k == |Abbreviations| then None
    else if AbbreviationMatches(apiRegion, k) then Some(k)
    else MatchFrom(apiRegion, k + 1)
  }

  predicate AbbreviationMatches(apiRegion: string, k: nat)
    requires k < |Abbreviations|
  {
    apiRegion == Abbreviations[k]
    || Text.Includes(apiRegion, Abbreviations[k])
    || Text.Includes(Abbreviations[k], apiRegion)
  }

  /** `normalizeRegionName`: a full name is kept; otherwise the full name of
      the first entry whose short name matches; otherwise the input. (The
      source's second table lists only full names the first test already
      keeps, so it never changes the result.) */
  function NormalizeRegionName(apiRegion: string): (r: string)
    ensures apiRegion in Address.Regions ==> r == apiRegion
    ensures r == apiRegion || r in Address.Regions
    ensures apiRegion !in Address.Regions ==>
      (r in Address.Regions <==> exists k :: 0 <= k < |Abbreviations| && AbbreviationMatches(apiRegion, k))
    ensures apiRegion !in Address.Regions && MatchFrom(apiRegion, 0).Some? ==>
      r == Address.Regions[MatchFrom(apiRegion, 0).value]
  {
    if apiRegion in Address.Regions then apiRegion
    else match MatchFrom(apiRegion, 0)
      case Some(k) => Address.Regions[k]
      case None => apiRegion
  }

  /** A short name is normalised to the full name of the FIRST table entry it
      matches, even when later entries match too. */
  lemma NormalizeFirstMatch(apiRegion: string, k: nat)
    requires apiRegion !in Address.Regions
    requires k < |Abbreviations| && AbbreviationMatches(apiRegion, k)
    requires forall j :: 0 <= j < k ==> !AbbreviationMatches(apiRegion, j)
    ensures NormalizeRegionName(apiRegion) == Address.Regions[k]
  {
    var m := MatchFrom(apiRegion, 0);
    assert m.Some? && m.value == k;
  }

  /** Equal-length strings include each other only when equal. */
  lemma IncludesSameLength(a: string, b: string)
    requires |a| == |b| && Text.Includes(a, b)
    ensures a == b
  {
    var j: nat :| Text.OccursAt(a, b, j);
    assert a[j..j + |b|] == a;
  }

  /** Abbreviating a full name and normalising it back gives the full name. */
  lemma NormalizeInvertsToApi(i: nat)
    requires i < |Address.Regions|
    ensures NormalizeRegionName(ToApiRegionName(Address.Regions[i])) == Address.Regions[i]
  {
    var a := Abbreviations[i];
    AbbreviationsShort();
    AbbreviationsDistinct();
    ToApiRegionNameOf(i);
    assert a !in Address.Regions;
    forall j | 0 <= j < i ensures !AbbreviationMatches(a, j) {
      if Text.Includes(a, Abbreviations[j]) {
        IncludesSameLength(a, Abbreviations[j]);
      }
      if Text.Includes(Abbreviations[j], a) {
        IncludesSameLength(Abbreviations[j], a);
      }
    }
    assert AbbreviationMatches(a, i);
    MatchFromFirst(a, 0, i);
  }

  /** The search finds the first matching entry. */
  lemma MatchFromFirst(apiRegion: string, k: nat, i: nat)
    requires k <= i < |Abbreviations| && AbbreviationMatches(apiRegion, i)
    requires forall j :: 0 <= j < i ==> !AbbreviationMatches(apiRegion, j)
    ensures MatchFrom(apiRegion, k) == Some(i)
  {
  }

  /** The empty string is contained in every short name, so it normalises to
      the first province. */
  lemma NormalizeEmpty()
    ensures NormalizeRegionName("") == "서울특별시"
  {
    Text.IncludesSelf(Abbreviations[0]);
    assert AbbreviationMatches("", 0);
  }

  // ---------------------------------------------------------------------
  // Statistics of one reply
  // ---------------------------------------------------------------------

  /** One regional statistic (`AreaPriceData`). */
  datatype AreaPriceData = AreaPriceData(
    region: string,
    itemCd: string,
    itemNm: string,
    avgPrice: int,
    maxPrice: int,
    minPrice: int,
    count: nat
  )

  /** An element of the reply's `data` array: `null`, or an object with the
      four amount fields tried in order and the two name fields. */
  datatype StatItem =
    | NullItem
    | StatItem(amountKo: JsValue, amt: JsValue, priceKo: JsValue, price: JsValue,
               itemNameKo: Option<string>, itemNm: Option<string>)

  /** The reply: a failed call, a body without a non-empty `data` array, or
      the array. */
  datatype StatsReply = CallFailed | NoData | Data(items: seq<StatItem>)

  /** The amount of one item: the first truthy amount field (or "0"), as
      text, with every non-digit removed, then `parseInt`; `None` for
      `NaN`. */
  function ItemAmount(amountKo: JsValue, amt: JsValue, priceKo: JsValue, price: JsValue): (r: Option<int>)
    ensures r.Some? ==> r.value >= 0
    ensures !Truthy(Or(Or(Or(amountKo, amt), priceKo), price)) ==> r == Some(0)
  {
    var v := Or(Or(Or(amountKo, amt), priceKo), price);
    if !Truthy(v) then Some(0)
    else
      var digits := Text.FilterChars(ToJsString(v), Text.IsAsciiDigit);
      ParseDigits(digits);
      Text.ParseInt(digits)
  }

  /** `ItemAmount` is `parseInt(String(amt || "0").replace(/[^0-9]/g, ""), 10)`
      with `amt` the first truthy amount field. */
  lemma ItemAmountText(amountKo: JsValue, amt: JsValue, priceKo: JsValue, price: JsValue)
    ensures var v := Or(Or(Or(Or(amountKo, amt), priceKo), price), Str("0"));
      ItemAmount(amountKo, amt, priceKo, price)
        == Text.ParseInt(Text.FilterChars(ToJsString(v), Text.IsAsciiDigit))
  {
    var v := Or(Or(Or(amountKo, amt), priceKo), price);
    if !Truthy(v) {
      assert ToJsString(Or(v, Str("0"))) == "0";
      assert Text.FilterChars("0", Text.IsAsciiDigit) == "0" by {
        assert "0"[1..] == [];
      }
      Text.ParseIntZero();
    }
  }

  /** `parseInt` of a string of decimal digits is its value, or `NaN` when
      it is empty. */
  lemma ParseDigits(ds: string)
    requires forall i :: 0 <= i < |ds| ==> Text.IsAsciiDigit(ds[i])
    ensures ds == [] ==> Text.ParseInt(ds) == None
    ensures ds != [] ==> Text.ParseInt(ds).Some? && Text.ParseInt(ds).value >= 0
  {
    if ds != [] {
      assert !Text.IsSpace(ds[0]);
      assert Text.TrimStart(ds) == ds;
      assert ds[0] != '-' && ds[0] != '+';
      Text.DigitPrefixOfDigits(ds);
    }
  }

  /** The amount of an item; a `null` item has none. */
  function AmountOf(it: StatItem): Option<int> {
    if it.NullItem? then None else ItemAmount(it.amountKo, it.amt, it.priceKo, it.price)
  }

  /** The amount of an item when it passes `price > 0`. */
  function PositiveAmount(it: StatItem): (r: Option<int>)
    ensures r.Some? <==> AmountOf(it).Some? && AmountOf(it).value > 0
    ensures r.Some? ==> r == AmountOf(it)
  {
    var a := AmountOf(it);
    if a.Some? && a.value > 0 then a else None
  }

  /** `prices`: the amount of every item whose amount is positive, one per
      such item, in the order of the items. */
  function ValidPrices(items: seq<StatItem>): (r: seq<int>)
    requires NullItem !in items
    ensures |r| <= |items|
    ensures forall i :: 0 <= i < |r| ==> r[i] > 0
    ensures |r| == |Seqs.DefinedFrom(PositiveAmount, items, 0)|
    ensures forall j :: 0 <= j < |r| ==> AmountOf(items[Seqs.DefinedFrom(PositiveAmount, items, 0)[j]]) == Some(r[j])
    ensures forall i :: 0 <= i < |items| && AmountOf(items[i]).Some? && AmountOf(items[i]).value > 0 ==>
      AmountOf(items[i]).value in r
    ensures r == [] <==> forall i :: 0 <= i < |items| ==> PositiveAmount(items[i]).None?
  {
    Seqs.FilterMap(PositiveAmount, items)
  }

  /** `firstItem?.항목명 || firstItem?.itemNm || "도수치료"`. */
  function ItemName(first: StatItem): (r: string)
    requires first.StatItem?
    ensures r != ""
  {
    Text.OrElse(first.itemNameKo, Text.OrElse(first.itemNm, "도수치료"))
  }

  // ---------------------------------------------------------------------
  // Fallback table
  // ---------------------------------------------------------------------

  function Fallback(region: string, avg: int, max: int, min: int): AreaPriceData {
    AreaPriceData(region, "N0001", "도수치료", avg, max, min, 0)
  }

  /** `FALLBACK_PRICES`, keys and values in declaration order. */
  const FallbackPrices: seq<(string, AreaPriceData)> := [
    ("서울특별시", Fallback("서울특별시", 150000, 200000, 100000)),
    ("경기도", Fallback("경기도", 130000, 180000, 90000)),
    ("부산광역시", Fallback("부산광역시", 120000, 170000, 80000)),
    ("대구광역시", Fallback("대구광역시", 120000, 170000, 80000)),
    ("인천광역시", Fallback("인천광역시", 125000, 175000, 85000)),
    ("광주광역시", Fallback("광주광역시", 110000, 160000, 70000)),
    ("대전광역시", Fallback("대전광역시", 115000, 165000, 75000)),
    ("울산광역시", Fallback("울산광역시", 115000, 165000, 75000)),
    ("세종특별자치시", Fallback("세종특별자치시", 120000, 170000, 80000)),
    ("강원도", Fallback("강원도", 110000, 160000, 70000)),
    ("충청북도", Fallback("충청북도", 110000, 160000, 70000)),
    ("충청남도", Fallback("충청남도", 110000, 160000, 70000)),
    ("전라북도", Fallback("전라북도", 105000, 155000, 65000)),
    ("전라남도", Fallback("전라남도", 105000, 155000, 65000)),
    ("경상북도", Fallback("경상북도", 110000, 160000, 70000)),
    ("경상남도", Fallback("경상남도", 110000, 160000, 70000)),
    ("제주특별자치도", Fallback("제주특별자치도", 115000, 165000, 75000))
  ]

  /** `NATIONAL_AVERAGE`. */
  const NationalAverage := AreaPriceData("전국", "N0001", "도수치료", 125000, 200000, 65000, 0)

  /** Every fallback entry is a consistent statistic for its own key. */
  lemma FallbackPricesWellFormed()
    ensures |FallbackPrices| == |Address.Regions|
    ensures forall i :: 0 <= i < |FallbackPrices| ==>
      var (key, e) := FallbackPrices[i];
      && e.region == key && e.itemCd == "N0001" && e.count == 0
      && 0 < e.minPrice <= e.avgPrice <= e.maxPrice
    ensures forall r :: r in Address.Regions <==> exists i :: 0 <= i < |FallbackPrices| && FallbackPrices[i].0 == r
  {
    FallbackKeysCover();
    FallbackKeysAreRegions();
  }

  /** Every province has a fallback entry. */
  lemma FallbackKeysCover()
    ensures forall r :: r in Address.Regions ==> exists i :: 0 <= i < |FallbackPrices| && FallbackPrices[i].0 == r
  {
    forall r | r in Address.Regions ensures exists i :: 0 <= i < |FallbackPrices| && FallbackPrices[i].0 == r {
      var k :| 0 <= k < |Address.Regions| && Address.Regions[k] == r;
      var i := [0, 2, 3, 4, 5, 6, 7, 8, 1, 9, 10, 11, 12, 13, 14, 15, 16][k];
      assert FallbackPrices[i].0 == r;
    }
  }

  /** Every fallback key is a province. */
  lemma FallbackKeysAreRegions()
    ensures forall i :: 0 <= i < |FallbackPrices| ==> FallbackPrices[i].0 in Address.Regions
  {
    forall i | 0 <= i < |FallbackPrices| ensures FallbackPrices[i].0 in Address.Regions {
      var k := [0, 8, 1, 2, 3, 4, 5, 6, 7, 9, 10, 11, 12, 13, 14, 15, 16][i];
      assert Address.Regions[k] == FallbackPrices[i].0;
    }
  }

  /** The value stored under `key` in a table of entries; the first wins. */
  function Lookup(table: seq<(string, AreaPriceData)>, key: string): (r: Option<AreaPriceData>)
    ensures r.Some? ==> exists i :: 0 <= i < |table| && table[i] == (key, r.value)
    ensures r.None? <==> forall i :: 0 <= i < |table| ==> table[i].0 != key
  {
    if table == [] then None
    else if table[0].0 == key then Some(table[0].1)
    else
      var r := Lookup(table[1..], key);
      assert forall i :: 1 <= i < |table| ==> table[i] == table[1..][i - 1];
      r
  }

  /** `FALLBACK_PRICES[region] || null`. */
  function FallbackFor(region: string): (r: Option<AreaPriceData>)
    ensures r.Some? ==> r.value.region == region && r.value.count == 0 && r.value.itemCd == "N0001"
    ensures r.Some? ==> 0 < r.value.minPrice <= r.value.avgPrice <= r.value.maxPrice
    ensures r.Some? <==> region in Address.Regions
  {
    FallbackPricesWellFormed();
    Lookup(FallbackPrices, region)
  }

  // ---------------------------------------------------------------------
  // fetchAreaPriceStatistics
  // ---------------------------------------------------------------------

  /** `fetchAreaPriceStatistics(region, itemCd)` given the API's reply. A
      failed call, an empty reply, a `null` item (reading it throws) or no
      positive amount all give the fallback; otherwise the statistic of the
      positive amounts under the normalised province name. */
  function AreaStats(region: string, itemCd: string, reply: StatsReply): (r: Option<AreaPriceData>)
    ensures r.None? <==> region !in Address.Regions && r == FallbackFor(region)
    ensures r.Some? && r.value.count == 0 ==> r == FallbackFor(region)
    ensures r.Some? && r.value.count > 0 ==>
      && r.value.region == NormalizeRegionName(region)
      && r.value.itemCd == itemCd
      && 0 < r.value.minPrice <= r.value.avgPrice <= r.value.maxPrice
    ensures region in Address.Regions ==> r.Some? && r.value.region == region
    ensures !reply.Data? || reply.items == [] || NullItem in reply.items ==> r == FallbackFor(region)
    ensures reply.Data? && reply.items != [] && NullItem !in reply.items ==>
      var p := ValidPrices(reply.items);
      && (p == [] ==> r == FallbackFor(region))
      && (p != [] ==> r == Some(Statistic(NormalizeRegionName(region), itemCd, ItemName(reply.items[0]), p)))
  {
    if !reply.Data? || reply.items == [] || NullItem in reply.items then FallbackFor(region)
    else
      var prices := ValidPrices(reply.items);
      if prices == [] then FallbackFor(region)
      else Some(Statistic(NormalizeRegionName(region), itemCd, ItemName(reply.items[0]), prices))
  }

  /** The statistic of a non-empty list of positive prices: how many there
      are, their mean rounded as `Math.round` rounds, and their extremes. */
  function Statistic(region: string, itemCd: string, itemNm: string, p: seq<int>): (r: AreaPriceData)
    requires p != [] && forall i :: 0 <= i < |p| ==> p[i] > 0
    ensures r.region == region && r.itemCd == itemCd && r.itemNm == itemNm
    ensures r.count == |p|
    ensures Stats.Sum(p) >= 0 && r.avgPrice == Stats.RoundHalfUp(Stats.Sum(p), |p|)
    ensures r.maxPrice in p && forall i :: 0 <= i < |p| ==> p[i] <= r.maxPrice
    ensures r.minPrice in p && forall i :: 0 <= i < |p| ==> r.minPrice <= p[i]
    ensures 0 < r.minPrice <= r.avgPrice <= r.maxPrice
  {
    Stats.MeanBetweenExtremes(p);
    AreaPriceData(region, itemCd, itemNm, Stats.RoundHalfUp(Stats.Sum(p), |p|), Stats.MaxOf(p), Stats.MinOf(p), |p|)
  }

  /** When every item has a positive amount, every item is counted and each
      amount lies between the reported minimum and maximum. */
  lemma AreaStatsOfPricedItems(region: string, itemCd: string, items: seq<StatItem>)
    requires items != [] && NullItem !in items
    requires forall i :: 0 <= i < |items| ==> PositiveAmount(items[i]).Some?
    ensures var r := AreaStats(region, itemCd, Data(items));
      && r.Some? && r.value.count == |items|
      && r.value.minPrice <= r.value.avgPrice <= r.value.maxPrice
      && forall i :: 0 <= i < |items| ==> r.value.minPrice <= PositiveAmount(items[i]).value <= r.value.maxPrice
  {
    var p := ValidPrices(items);
    PricedItemsAllKept(items);
    assert AreaStats(region, itemCd, Data(items)) == Some(Statistic(NormalizeRegionName(region), itemCd, ItemName(items[0]), p));
  }

  lemma PricedItemsAllKept(items: seq<StatItem>)
    requires NullItem !in items
    requires forall i :: 0 <= i < |items| ==> PositiveAmount(items[i]).Some?
    ensures |ValidPrices(items)| == |items|
    ensures forall i :: 0 <= i < |items| ==> PositiveAmount(items[i]) == Some(ValidPrices(items)[i])
  {
    Seqs.FilterMapTotal(PositiveAmount, items);
  }

  /** The fallback row always carries item code "N0001", whatever code was
      requested. */
  lemma FallbackKeepsFirstItemCode(region: string, itemCd: string)
    requires region in Address.Regions
    ensures AreaStats(region, itemCd, CallFailed).value.itemCd == "N0001"
  {
  }

  // ---------------------------------------------------------------------
  // fetchAllAreaPriceStatistics
  // ---------------------------------------------------------------------

  /** The values of the present entries, in order. */
  function Present<T>(xs: seq<Option<T>>): (r: seq<T>)
    ensures |r| <= |xs|
  {
    if xs == [] then []
    else
      var prev := Present(xs[..|xs| - 1]);
      match xs[|xs| - 1]
      case Some(v) => prev + [v]
      case None => prev
  }

  /** When every entry is present, nothing is dropped and order is kept. */
  lemma {:induction false} PresentAllSome<T>(xs: seq<Option<T>>)
    requires forall i :: 0 <= i < |xs| ==> xs[i].Some?
    ensures |Present(xs)| == |xs|
    ensures forall i :: 0 <= i < |xs| ==> Present(xs)[i] == xs[i].value
  {
    if xs != [] {
      PresentAllSome(xs[..|xs| - 1]);
    }
  }

  lemma PresentSnoc<T>(xs: seq<Option<T>>, x: Option<T>)
    ensures Present(xs + [x]) == Present(xs) + (if x.Some? then [x.value] else [])
  {
    assert (xs + [x])[..|xs|] == xs;
  }

  /** The reply to each request, one per province. */
  function Replies(regions: seq<string>, itemCd: string, replies: nat -> StatsReply): (r: seq<Option<AreaPriceData>>)
    ensures |r| == |regions|
    ensures forall i :: 0 <= i < |regions| ==> r[i] == AreaStats(regions[i], itemCd, replies(i))
  {
    seq(|regions|, i requires 0 <= i < |regions| => AreaStats(regions[i], itemCd, replies(i)))
  }

  /** One more reply extends the present entries by at most that reply. */
  lemma PresentStep<T>(all: seq<Option<T>>, i: nat)
    requires i < |all|
    ensures Present(all[..i + 1]) == Present(all[..i]) + (if all[i].Some? then [all[i].value] else [])
  {
    assert all[..i + 1] == all[..i] + [all[i]];
    PresentSnoc(all[..i], all[i]);
  }

  /** `fetchAllAreaPriceStatistics`: the non-null statistics of the
      provinces, in request order; the reply to the i-th request is
      `replies(i)`. */
  method FetchAllAreaPriceStatistics(regions: seq<string>, itemCd: string, replies: nat -> StatsReply)
    returns (results: seq<AreaPriceData>)
    ensures results == Present(Replies(regions, itemCd, replies))
    ensures |results| <= |regions|
  {
    ghost var all := Replies(regions, itemCd, replies);
    results := [];
    var i := 0;
    while i < |regions|
      invariant 0 <= i <= |regions|
      invariant results == Present(all[..i])
    {
      var data := AreaStats(regions[i], itemCd, replies(i));
      assert data == all[i];
      PresentStep(all, i);
      if data.Some? {
        results := results + [data.value];
      }
      i := i + 1;
    }
    assert all[..|regions|] == all;
  }

  /** For known provinces nothing is dropped: one statistic per province, in
      request order, each under the requested name. */
  lemma KnownRegionsAllPresent(regions: seq<string>, itemCd: string, replies: nat -> StatsReply)
    requires forall i :: 0 <= i < |regions| ==> regions[i] in Address.Regions
    ensures |Present(Replies(regions, itemCd, replies))| == |regions|
    ensures forall i :: 0 <= i < |regions| ==> Present(Replies(regions, itemCd, replies))[i].region == regions[i]
  {
    var all := Replies(regions, itemCd, replies);
    PresentAllSome(all);
  }
}
