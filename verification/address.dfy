/** Address parsing and cost formatting (lib/utils.ts): the province-level
    region of a free-text Korean address, the district that follows it, the
    sorted region and district lists shown in the filter panel, and the
    display form of a cost. */
module Address {
  import opened Wrappers
  import opened Text
  import Sorted

  /** The seventeen provincial names, in the order `extractRegion` tries them. */
  const Regions: seq<string> := [
    "서울특별시", "부산광역시", "대구광역시", "인천광역시", "광주광역시",
    "대전광역시", "울산광역시", "세종특별자치시", "경기도", "강원도",
    "충청북도", "충청남도", "전라북도", "전라남도", "경상북도",
    "경상남도", "제주특별자치도"
  ]

  /** `Regions[i]` occurs in the address and no earlier name of the list does. */
  predicate IsFirstRegionOf(address: string, i: nat) {
    i < |Regions| && Includes(address, Regions[i])
    && forall j :: 0 <= j < i ==> !Includes(address, Regions[j])
  }

  function FirstRegionFrom(address: string, k: nat): (r: Option<nat>)
    requires k <= |Regions|
    requires forall j :: 0 <= j < k ==> !Includes(address, Regions[j])
    ensures r.Some? ==> IsFirstRegionOf(address, r.value)
    ensures r.None? ==> forall j :: 0 <= j < |Regions| ==> !Includes(address, Regions[j])
    decreases |Regions| - k
  {
    if k == |Regions| then None
    else if Includes(address, Regions[k]) then Some(k)
    else FirstRegionFrom(address, k + 1)
  }

  /** `extractRegion`: the first listed name contained in the address. */
  function ExtractRegion(address: string): (r: Option<string>)
    ensures r.None? <==> forall j :: 0 <= j < |Regions| ==> !Includes(address, Regions[j])
    ensures r.Some? ==> exists i: nat :: IsFirstRegionOf(address, i) && r.value == Regions[i]
  {
    match FirstRegionFrom(address, 0)
    case None => None
    case Some(i) => Some(Regions[i])
  }

  /** A found region is one of the seventeen names and occurs in the address. */
  lemma ExtractRegionSound(address: string)
    requires ExtractRegion(address).Some?
    ensures ExtractRegion(address).value in Regions
    ensures Includes(address, ExtractRegion(address).value)
  {
    var i := FirstRegionFrom(address, 0).value;
    assert Regions[i] in Regions;
  }

  lemma ExtractRegionExample()
    ensures ExtractRegion("서울특별시 강남구 테헤란로 123") == Some("서울특별시")
  {
    var a := "서울특별시 강남구 테헤란로 123";
    IncludesAt(a, Regions[0], 0);
  }

  /** The regular expression `/구$|시$|군$/`. */
  predicate HasDistrictSuffix(t: string) {
    |t| > 0 && (t[|t| - 1] == '구' || t[|t| - 1] == '시' || t[|t| - 1] == '군')
  }

  /** What is left of an address once its region is removed and trimmed. */
  function AfterRegion(address: string, region: string): string {
    Trim(RemoveFirst(address, region))
  }

  /** `extractDistrict`: the first word after the region, when it ends in
      구, 시 or 군. */
  function ExtractDistrict(address: string): (r: Option<string>)
    ensures ExtractRegion(address).None? ==> r.None?
    ensures r.Some? ==>
      var rest := AfterRegion(address, ExtractRegion(address).value);
      && HasDistrictSuffix(r.value) && NoSpace(r.value)
      && |r.value| <= |rest| && r.value == rest[..|r.value|]
      && (|r.value| == |rest| || IsSpace(rest[|r.value|]))
    ensures ExtractRegion(address).Some?
      && HasDistrictSuffix(FirstToken(AfterRegion(address, ExtractRegion(address).value)))
      ==> r.Some?
  {
    match ExtractRegion(address)
    case None => None
    case Some(region) =>
      var district := FirstToken(AfterRegion(address, region));
      if HasDistrictSuffix(district) then Some(district) else None
  }

  lemma AfterRegionExample()
    ensures AfterRegion("서울특별시 강남구 테헤란로 123", "서울특별시") == "강남구 테헤란로 123"
  {
    var rest := "강남구 테헤란로 123";
    assert "서울특별시 강남구 테헤란로 123" == "서울특별시" + ([' '] + rest);
    RemoveFirstPrefix("서울특별시", [' '] + rest);
    assert !IsSpace(rest[0]) && !IsSpace(rest[|rest| - 1]);
    TrimSpaceThen(rest);
  }

  lemma FirstTokenExample()
    ensures FirstToken("강남구 테헤란로 123") == "강남구"
  {
    assert !IsSpace('강') && !IsSpace('남') && !IsSpace('구') && IsSpace(' ');
  }

  lemma ExtractDistrictExample()
    ensures ExtractDistrict("서울특별시 강남구 테헤란로 123") == Some("강남구")
  {
    ExtractRegionExample();
    AfterRegionExample();
    FirstTokenExample();
  }

  /** The values `f` finds in `xs`, in order, repeats included. */
  function Found(xs: seq<string>, f: string -> Option<string>): (r: seq<string>)
    ensures forall g :: g in r <==> exists x :: x in xs && f(x) == Some(g)
  {
    if xs == [] then []
    else
      var rest := Found(xs[1..], f);
      assert forall x :: x in xs <==> x == xs[0] || x in xs[1..];
      match f(xs[0])
      case None => rest
      case Some(g) => [g] + rest
  }

  /** Every region found in `addresses`, in address order, repeats included. */
  function RegionsOf(addresses: seq<string>): (r: seq<string>)
    ensures forall g :: g in r <==> exists a :: a in addresses && ExtractRegion(a) == Some(g)
  {
    Found(addresses, ExtractRegion)
  }

  /** `extractAllRegions`: the distinct regions of the addresses, sorted. */
  function ExtractAllRegions(addresses: seq<string>): (r: seq<string>)
    ensures Sorted.StrictlySorted(r)
    ensures forall g :: g in r <==> exists a :: a in addresses && ExtractRegion(a) == Some(g)
  {
    Sorted.SortUnique(RegionsOf(addresses))
  }

  /** The district of an address that contains `region`. */
  function DistrictIn(region: string): string -> Option<string> {
    a => if Includes(a, region) then ExtractDistrict(a) else None
  }

  /** Every district of an address that contains `region`, repeats included. */
  function DistrictsOf(addresses: seq<string>, region: string): (r: seq<string>)
    ensures forall d :: d in r <==>
      exists a :: a in addresses && Includes(a, region) && ExtractDistrict(a) == Some(d)
  {
    Found(addresses, DistrictIn(region))
  }

  /** `extractDistrictsByRegion`: the distinct districts of the addresses that
      contain the region, sorted. */
  function ExtractDistrictsByRegion(addresses: seq<string>, region: string): (r: seq<string>)
    ensures Sorted.StrictlySorted(r)
    ensures forall d :: d in r <==>
      exists a :: a in addresses && Includes(a, region) && ExtractDistrict(a) == Some(d)
  {
    Sorted.SortUnique(DistrictsOf(addresses, region))
  }

  /** Every listed district is a genuine district: it ends in 구, 시 or 군,
      has no white space, and comes from an address that has a region. */
  lemma DistrictsAreDistricts(addresses: seq<string>, region: string, d: string)
    requires d in ExtractDistrictsByRegion(addresses, region)
    ensures HasDistrictSuffix(d) && NoSpace(d)
    ensures exists a :: a in addresses && Includes(a, region) && ExtractRegion(a).Some?
  {
    var a :| a in addresses && Includes(a, region) && ExtractDistrict(a) == Some(d);
  }

  /** The result of either list helper does not depend on the order of the
      addresses: it is the one sorted list of their distinct values. */
  lemma ExtractAllRegionsOrderFree(xs: seq<string>, ys: seq<string>)
    requires multiset(xs) == multiset(ys)
    ensures ExtractAllRegions(xs) == ExtractAllRegions(ys)
  {
    forall g ensures g in ExtractAllRegions(xs) <==> g in ExtractAllRegions(ys) {
      if g in ExtractAllRegions(xs) {
        var a :| a in xs && ExtractRegion(a) == Some(g);
        assert a in multiset(ys);
      }
      if g in ExtractAllRegions(ys) {
        var a :| a in ys && ExtractRegion(a) == Some(g);
        assert a in multiset(xs);
      }
    }
    Sorted.StrictlySortedUnique(ExtractAllRegions(xs), ExtractAllRegions(ys));
  }

  // ---------------------------------------------------------------------
  // formatCost
  // ---------------------------------------------------------------------

  /** Inserts a comma before every group of three digits counted from the
      right, as the ko-KR locale does. */
  function GroupThousands(digits: string): (r: string)
    decreases |digits|
  {
    if |digits| <= 3 then digits
    else GroupThousands(digits[..|digits| - 3]) + "," + digits[|digits| - 3..]
  }

  /** The digits of a formatted number, separators dropped. */
  function RemoveCommas(s: string): (r: string)
    ensures ',' !in r
  {
    if s == [] then [] else (if s[0] == ',' then [] else [s[0]]) + RemoveCommas(s[1..])
  }

  lemma RemoveCommasAppend(a: string, b: string)
    ensures RemoveCommas(a + b) == RemoveCommas(a) + RemoveCommas(b)
  {
    if a != [] {
      assert (a + b)[1..] == a[1..] + b;
      RemoveCommasAppend(a[1..], b);
    } else {
      assert a + b == b;
    }
  }

  lemma RemoveCommasNoComma(s: string)
    requires ',' !in s
    ensures RemoveCommas(s) == s
  {
    if s != [] {
      RemoveCommasNoComma(s[1..]);
      assert s == [s[0]] + s[1..];
    }
  }

  lemma NoCommaInDigits(digits: string)
    requires AllDigitsOf(digits, 10)
    ensures ',' !in digits
  {
    forall i | 0 <= i < |digits| ensures digits[i] != ',' {
      assert IsDigitOf(digits[i], 10);
    }
  }

  /** Grouping only inserts commas: removing them gives the digits back. */
  lemma {:induction false} GroupThousandsDigits(digits: string)
    requires AllDigitsOf(digits, 10)
    ensures RemoveCommas(GroupThousands(digits)) == digits
    decreases |digits|
  {
    NoCommaInDigits(digits);
    if |digits| <= 3 {
      RemoveCommasNoComma(digits);
    } else {
      var hi := digits[..|digits| - 3];
      var lo := digits[|digits| - 3..];
      assert AllDigitsOf(hi, 10) && AllDigitsOf(lo, 10);
      GroupThousandsDigits(hi);
      var g := GroupThousands(hi);
      NoCommaInDigits(lo);
      calc {
        RemoveCommas(GroupThousands(digits));
        { assert GroupThousands(digits) == (g + ",") + lo; }
        RemoveCommas((g + ",") + lo);
        { RemoveCommasAppend(g + ",", lo); }
        RemoveCommas(g + ",") + RemoveCommas(lo);
        { RemoveCommasAppend(g, ","); RemoveCommasNoComma(lo); }
        hi + RemoveCommas(",") + lo;
        { assert RemoveCommas(",") == ""; }
        hi + lo;
        { assert digits == hi + lo; }
        digits;
      }
    }
  }

  /** The commas stand exactly at the positions whose distance from the end
      is a positive multiple of four. */
  lemma {:induction false} GroupThousandsCommas(digits: string)
    requires AllDigitsOf(digits, 10)
    ensures var r := GroupThousands(digits);
      forall i :: 0 <= i < |r| ==> (r[i] == ',' <==> i > 0 && (|r| - i) % 4 == 0)
    ensures |GroupThousands(digits)| >= |digits|
    decreases |digits|
  {
    NoCommaInDigits(digits);
    if |digits| > 3 {
      var hi := digits[..|digits| - 3];
      var lo := digits[|digits| - 3..];
      assert AllDigitsOf(hi, 10) && AllDigitsOf(lo, 10);
      GroupThousandsCommas(hi);
      NoCommaInDigits(lo);
      var g := GroupThousands(hi);
      var r := g + "," + lo;
      assert GroupThousands(digits) == r;
      forall i | 0 <= i < |r| ensures r[i] == ',' <==> i > 0 && (|r| - i) % 4 == 0 {
        if i < |g| {
          assert r[i] == g[i];
          assert |r| - i == (|g| - i) + 4;
        } else if i > |g| {
          assert r[i] == lo[i - |g| - 1];
        }
      }
    }
  }

  /** `formatCost`: "정보 없음" when no cost is known, otherwise the number
      with thousands separators followed by "원". */
  function FormatCost(cost: Option<int>): (r: string)
    ensures cost.None? ==> r == "정보 없음"
    ensures cost.Some? ==> |r| >= 2 && r[|r| - 1] == '원'
    ensures cost.Some? && cost.value >= 0 ==> r == GroupedDecimal(cost.value) + "원"
    ensures cost.Some? && cost.value < 0 ==> r == "-" + GroupedDecimal(-cost.value) + "원"
  {
    match cost
    case None => "정보 없음"
    case Some(n) =>
      var magnitude: nat := if n < 0 then -n else n;
      var grouped := GroupedDecimal(magnitude);
      (if n < 0 then "-" else "") + grouped + "원"
  }

  /** The decimal digits of `n` with thousands separators. */
  function GroupedDecimal(n: nat): (r: string)
    ensures |r| >= 1
    ensures forall i :: 0 <= i < |r| ==> (r[i] == ',' <==> i > 0 && (|r| - i) % 4 == 0)
    ensures AllDigitsOf(RemoveCommas(r), 10) && RadixValue(RemoveCommas(r), 10) == n
  {
    var digits := Radix(n, 10);
    GroupThousandsDigits(digits);
    GroupThousandsCommas(digits);
    RadixRoundTrip(n, 10);
    GroupThousands(digits)
  }

  /** Reading a formatted non-negative cost back (dropping "원" and the
      commas) yields the cost itself, so no digit is lost or invented. */
  lemma FormatCostRoundTrip(n: nat)
    ensures var r := FormatCost(Some(n));
      var body := RemoveCommas(r[..|r| - 1]);
      AllDigitsOf(body, 10) && RadixValue(body, 10) == n
    ensures var r := FormatCost(Some(n));
      var text := r[..|r| - 1];
      forall i :: 0 <= i < |text| ==> (text[i] == ',' <==> i > 0 && (|text| - i) % 4 == 0)
  {
    var r := FormatCost(Some(n));
    assert r[..|r| - 1] == GroupedDecimal(n);
  }

  lemma FormatCostExample()
    ensures FormatCost(Some(50000)) == "50,000원"
    ensures FormatCost(None) == "정보 없음"
  {
    DecimalOf50000();
    GroupThousandsExample();
  }

  lemma DecimalOf50000()
    ensures Radix(50000, 10) == "50000"
  {
    assert Radix(5, 10) == "5";
    assert Radix(50, 10) == "50";
    assert Radix(500, 10) == "500";
    assert Radix(5000, 10) == "5000";
  }

  lemma GroupThousandsExample()
    ensures GroupThousands("50000") == "50,000"
  {
    assert "50000"[..2] == "50" && "50000"[2..] == "000";
  }
}
