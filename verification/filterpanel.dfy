/** The listing filters of types/hospital.ts and the state changes
    components/FilterPanel.tsx makes to them. Every handler replaces the
    filter object by a copy with some fields changed. */
module FilterPanel {
  import opened Wrappers
  import Text

  /** `sortBy`: by name, by address (region) or by cost. */
  datatype SortKey = ByName | ByRegion | ByCost

  /** `HospitalFilters`; `None` is an absent field. */
  datatype Filters = Filters(
    region: Option<string>,
    district: Option<string>,
    minCost: Option<int>,
    maxCost: Option<int>,
    searchQuery: Option<string>,
    sortBy: Option<SortKey>
  )

  /** The dashboard's first state: `{ sortBy: "name" }`. */
  const Initial := Filters(None, None, None, None, None, Some(ByName))

  /** `value || undefined` for a string from a select box. */
  function NonEmpty(value: string): (r: Option<string>)
    ensures r.Some? <==> value != ""
    ensures r.Some? ==> r.value == value
  {
    if value == "" then None else Some(value)
  }

  /** `handleRegionChange`: the new region ("전체" selects none) and no
      district; nothing else changes. */
  function RegionChanged(f: Filters, region: string): (r: Filters)
    ensures r.region == NonEmpty(region) && r.district.None?
    ensures r.minCost == f.minCost && r.maxCost == f.maxCost
    ensures r.searchQuery == f.searchQuery && r.sortBy == f.sortBy
  {
    f.(region := NonEmpty(region), district := None)
  }

  /** `handleDistrictChange`: only the district changes. */
  function DistrictChanged(f: Filters, district: string): (r: Filters)
    ensures r.district == NonEmpty(district)
    ensures r.region == f.region && r.minCost == f.minCost && r.maxCost == f.maxCost
    ensures r.searchQuery == f.searchQuery && r.sortBy == f.sortBy
  {
    f.(district := NonEmpty(district))
  }

  /** `handleCostRangeChange`: only the two cost bounds change, both at
      once. */
  function CostRangeChanged(f: Filters, min: Option<int>, max: Option<int>): (r: Filters)
    ensures r.minCost == min && r.maxCost == max
    ensures r.region == f.region && r.district == f.district
    ensures r.searchQuery == f.searchQuery && r.sortBy == f.sortBy
  {
    f.(minCost := min, maxCost := max)
  }

  /** `handleSortChange`: only the sort key changes. */
  function SortChanged(f: Filters, sortBy: SortKey): (r: Filters)
    ensures r.sortBy == Some(sortBy)
    ensures r.region == f.region && r.district == f.district
    ensures r.minCost == f.minCost && r.maxCost == f.maxCost && r.searchQuery == f.searchQuery
  {
    f.(sortBy := Some(sortBy))
  }

  /** `clearFilters`: keeps the search text and the sort key (name when
      none was chosen) and drops everything else. */
  function Cleared(f: Filters): (r: Filters)
    ensures r.region.None? && r.district.None? && r.minCost.None? && r.maxCost.None?
    ensures r.searchQuery == f.searchQuery
    ensures r.sortBy == Some(if f.sortBy.Some? then f.sortBy.value else ByName)
  {
    Filters(None, None, None, None, f.searchQuery, Some(if f.sortBy.Some? then f.sortBy.value else ByName))
  }

  /** `hasActiveFilters`: a region or district is chosen or a cost bound is
      set; the search text and the sort key do not count. */
  predicate HasActiveFilters(f: Filters) {
    Text.Truthy(f.region) || Text.Truthy(f.district) || f.minCost.Some? || f.maxCost.Some?
  }

  /** Clearing leaves no active filter, and clearing twice is clearing once. */
  lemma ClearedInactive(f: Filters)
    ensures !HasActiveFilters(Cleared(f))
    ensures Cleared(Cleared(f)) == Cleared(f)
  {
  }

  /** Clearing forgets every region, district and cost change made before
      it. */
  lemma ClearedForgetsChanges(f: Filters, region: string, district: string, min: Option<int>, max: Option<int>)
    ensures Cleared(RegionChanged(f, region)) == Cleared(f)
    ensures Cleared(DistrictChanged(f, district)) == Cleared(f)
    ensures Cleared(CostRangeChanged(f, min, max)) == Cleared(f)
  {
  }

  /** The filters are active exactly when something other than the search
      text and the sort key differs from the cleared state. */
  lemma ActiveIffNotCleared(f: Filters)
    requires f.region != Some("") && f.district != Some("")
    requires f.sortBy.Some?
    ensures HasActiveFilters(f) <==> f != Cleared(f)
  {
  }

  /** Choosing a region resets the district, so a district chosen under the
      previous region never survives the change. */
  lemma RegionChangeDropsDistrict(f: Filters, region: string, district: string)
    ensures RegionChanged(DistrictChanged(f, district), region) == RegionChanged(f, region)
  {
  }

  /** The district selector appears only once a region is chosen and it has
      districts. */
  predicate ShowDistrictSelector(selectedRegion: Option<string>, districts: seq<string>) {
    Text.Truthy(selectedRegion) && |districts| > 0
  }

  /** The dashboard passes its filter state's region as the selected one and
      its district list as the options, so after a region is deselected no
      selector shows. */
  lemma NoSelectorWithoutRegion(f: Filters, districts: seq<string>)
    ensures !ShowDistrictSelector(RegionChanged(f, "").region, districts)
  {
  }
}
