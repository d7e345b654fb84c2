/** The listing page of components/HospitalDashboard.tsx: the province and
    district choices offered, the search, province, district and cost
    filters, the sort, and where the in-feed ads go. */
module Dashboard {
  import opened Wrappers
  import Text
  import Seqs
  import Address
  import opened FilterPanel

  /** A hospital's `cost` as the page receives it: absent, `null` (every
      synchronised row stores `null`), or a number. */
  datatype Cost = Undefined | Null | Amount(value: int)

  /** The fields of a `Hospital` the page filters and sorts on. */
  datatype Listing = Listing(id: int, name: string, address: string, description: Option<string>, cost: Cost)

  /** A defined cost in a JavaScript comparison: `null` converts to 0. */
  function CostNumber(c: Cost): (n: int)
    requires !c.Undefined?
    ensures c.Null? ==> n == 0
    ensures c.Amount? ==> n == c.value
  {
    if c.Amount? then c.value else 0
  }

  function Addresses(hs: seq<Listing>): (r: seq<string>)
    ensures |r| == |hs|
    ensures forall i :: 0 <= i < |hs| ==> r[i] == hs[i].address
  {
    seq(|hs|, i requires 0 <= i < |hs| => hs[i].address)
  }

  /** `regions`: the distinct provinces of all addresses, sorted. */
  function Regions(hs: seq<Listing>): (r: seq<string>)
    ensures forall g :: g in r <==> exists i :: 0 <= i < |hs| && Address.ExtractRegion(hs[i].address) == Some(g)
  {
    var addresses := Addresses(hs);
    assert forall a :: a in addresses <==> exists i :: 0 <= i < |hs| && hs[i].address == a;
    Address.ExtractAllRegions(addresses)
  }

  /** `districts`: none without a chosen province; otherwise the distinct
      districts of the addresses that contain it, sorted. */
  function Districts(hs: seq<Listing>, region: Option<string>): (r: seq<string>)
    ensures !Text.Truthy(region) ==> r == []
    ensures Text.Truthy(region) ==> forall d :: d in r <==>
      exists i :: 0 <= i < |hs| && Text.Includes(hs[i].address, region.value)
                  && Address.ExtractDistrict(hs[i].address) == Some(d)
  {
    if !Text.Truthy(region) then []
    else
      var within := Seqs.Filter((a: string) => Text.Includes(a, region.value), Addresses(hs));
      assert forall a :: a in within <==> Text.Includes(a, region.value) && exists i :: 0 <= i < |hs| && hs[i].address == a;
      Address.ExtractDistrictsByRegion(within, region.value)
  }

  // ---------------------------------------------------------------------
  // Filters
  // ---------------------------------------------------------------------

  /** The search: the lower-cased, untrimmed query occurs in the lower-cased
      name, address or (non-empty) description. */
  predicate MatchesQuery(h: Listing, query: string) {
    || Text.Includes(Text.ToLowerAscii(h.name), query)
    || Text.Includes(Text.ToLowerAscii(h.address), query)
    || (Text.Truthy(h.description) && Text.Includes(Text.ToLowerAscii(h.description.value), query))
  }

  /** Whether a hospital survives every filter of `filteredHospitals`. The
      source applies them one after another; keeping what passes all of
      them is the same. */
  predicate Keep(h: Listing, f: Filters, searchQuery: string) {
    && (Text.Trim(searchQuery) == "" || MatchesQuery(h, Text.ToLowerAscii(searchQuery)))
    && (!Text.Truthy(f.region) || Text.Includes(h.address, f.region.value))
    && (!Text.Truthy(f.district) || Text.Includes(h.address, f.district.value))
    && (f.minCost.None? || (!h.cost.Undefined? && CostNumber(h.cost) >= f.minCost.value))
    && (f.maxCost.None? || h.cost.Undefined? || CostNumber(h.cost) <= f.maxCost.value)
  }

  /** The hospitals that pass, in their original order: every occurrence
      of a hospital that passes, and none of one that does not. */
  function Select(hs: seq<Listing>, f: Filters, searchQuery: string): (r: seq<Listing>)
    ensures forall h :: h in r <==> h in hs && Keep(h, f, searchQuery)
    ensures forall h :: multiset(r)[h] == if Keep(h, f, searchQuery) then multiset(hs)[h] else 0
    ensures Seqs.IsSubsequence(r, hs)
  {
    var keep := (h: Listing) => Keep(h, f, searchQuery);
    Seqs.FilterIsSubsequence(keep, hs);
    forall h ensures multiset(Seqs.Filter(keep, hs))[h] == if keep(h) then multiset(hs)[h] else 0 {
      Seqs.FilterMultiplicity(keep, hs, h);
    }
    Seqs.Filter(keep, hs)
  }

  /** A minimum cost drops hospitals whose cost is absent; a maximum alone
      keeps them. */
  lemma CostBoundsOnUnknownCost(h: Listing, f: Filters)
    requires h.cost.Undefined?
    ensures f.minCost.Some? ==> !Keep(h, f, "")
    ensures f.minCost.None? && !Text.Truthy(f.region) && !Text.Truthy(f.district) ==> Keep(h, f, "")
  {
    assert Text.Trim("") == "";
  }

  /** A `null` cost meets the cost bounds as 0 would: it passes a minimum of
      0 or below and fails a negative maximum. */
  lemma CostBoundsOnNullCost(h: Listing, f: Filters)
    requires h.cost.Null? && !Text.Truthy(f.region) && !Text.Truthy(f.district)
    ensures Keep(h, f, "") <==> (f.minCost.None? || f.minCost.value <= 0) && (f.maxCost.None? || 0 <= f.maxCost.value)
  {
    assert Text.Trim("") == "";
  }

  /** A query of white space alone filters nothing. */
  lemma BlankQueryKeepsAll(h: Listing, f: Filters, q: string)
    requires Text.Trim(q) == ""
    ensures Keep(h, f, q) <==> Keep(h, f, "")
  {
    assert Text.Trim("") == "";
  }

  // ---------------------------------------------------------------------
  // Sorting
  // ---------------------------------------------------------------------

  /** The value a hospital is ordered by: the collation rank of its name or
      address (`collation` stands for `localeCompare(…, "ko")`), or its cost
      with an absent or `null` cost as +Infinity (`None`), since
      `cost ?? Infinity` replaces both. */
  function SortValue(h: Listing, sortBy: SortKey, collation: string -> int): Option<int> {
    match sortBy
    case ByName => Some(collation(h.name))
    case ByRegion => Some(collation(h.address))
    case ByCost => if h.cost.Amount? then Some(h.cost.value) else None
  }

  /** The comparator's "not greater than": `None` is larger than every
      number and equal to itself (`Infinity - Infinity` is `NaN`, which the
      sort treats as equal). */
  predicate NotAfter(a: Option<int>, b: Option<int>) {
    b.None? || (a.Some? && a.value <= b.value)
  }

  lemma NotAfterTotal(a: Option<int>, b: Option<int>)
    ensures NotAfter(a, b) || NotAfter(b, a)
  {
  }

  predicate SortedBy(xs: seq<Listing>, sortBy: SortKey, collation: string -> int) {
    forall i, j :: 0 <= i < j < |xs| ==> NotAfter(SortValue(xs[i], sortBy, collation), SortValue(xs[j], sortBy, collation))
  }

  /** Places `x` after every element not after it. */
  function Insert(x: Listing, xs: seq<Listing>, sortBy: SortKey, collation: string -> int): (r: seq<Listing>)
    ensures |r| == |xs| + 1
    ensures multiset(r) == multiset(xs) + multiset{x}
  {
    if xs == [] then [x]
    else if NotAfter(SortValue(xs[0], sortBy, collation), SortValue(x, sortBy, collation)) then
      var rest := Insert(x, xs[1..], sortBy, collation);
      assert xs == [xs[0]] + xs[1..];
      [xs[0]] + rest
    else [x] + xs
  }

  /** Every element of `xs` has a sort value not before `v`. */
  predicate NoneBefore(v: Option<int>, xs: seq<Listing>, sortBy: SortKey, collation: string -> int) {
    forall j :: 0 <= j < |xs| ==> NotAfter(v, SortValue(xs[j], sortBy, collation))
  }

  lemma {:induction false} InsertNoneBefore(v: Option<int>, x: Listing, xs: seq<Listing>, sortBy: SortKey, collation: string -> int)
    requires NoneBefore(v, xs, sortBy, collation) && NotAfter(v, SortValue(x, sortBy, collation))
    ensures NoneBefore(v, Insert(x, xs, sortBy, collation), sortBy, collation)
  {
    if xs != [] && NotAfter(SortValue(xs[0], sortBy, collation), SortValue(x, sortBy, collation)) {
      InsertNoneBefore(v, x, xs[1..], sortBy, collation);
    }
  }

  lemma SortedCons(y: Listing, ys: seq<Listing>, sortBy: SortKey, collation: string -> int)
    requires NoneBefore(SortValue(y, sortBy, collation), ys, sortBy, collation)
    requires SortedBy(ys, sortBy, collation)
    ensures SortedBy([y] + ys, sortBy, collation)
  {
    var r := [y] + ys;
    forall i, j | 0 <= i < j < |r|
      ensures NotAfter(SortValue(r[i], sortBy, collation), SortValue(r[j], sortBy, collation))
    {
      assert r[j] == ys[j - 1];
      if i > 0 {
        assert r[i] == ys[i - 1];
      }
    }
  }

  lemma {:induction false} InsertSorted(x: Listing, xs: seq<Listing>, sortBy: SortKey, collation: string -> int)
    requires SortedBy(xs, sortBy, collation)
    ensures SortedBy(Insert(x, xs, sortBy, collation), sortBy, collation)
  {
    if xs == [] {
      return;
    }
    var head := SortValue(xs[0], sortBy, collation);
    assert NoneBefore(head, xs[1..], sortBy, collation) by {
      forall j | 0 <= j < |xs[1..]|
        ensures NotAfter(head, SortValue(xs[1..][j], sortBy, collation))
      {
        assert xs[1..][j] == xs[j + 1];
      }
    }
    if NotAfter(head, SortValue(x, sortBy, collation)) {
      assert SortedBy(xs[1..], sortBy, collation) by {
        forall i, j | 0 <= i < j < |xs[1..]|
          ensures NotAfter(SortValue(xs[1..][i], sortBy, collation), SortValue(xs[1..][j], sortBy, collation))
        {
          assert xs[1..][i] == xs[i + 1] && xs[1..][j] == xs[j + 1];
        }
      }
      InsertSorted(x, xs[1..], sortBy, collation);
      InsertNoneBefore(head, x, xs[1..], sortBy, collation);
      SortedCons(xs[0], Insert(x, xs[1..], sortBy, collation), sortBy, collation);
    } else {
      var v := SortValue(x, sortBy, collation);
      NotAfterTotal(head, v);
      assert NoneBefore(v, xs, sortBy, collation) by {
        forall j | 0 <= j < |xs| ensures NotAfter(v, SortValue(xs[j], sortBy, collation)) {
          if j > 0 {
            NotAfterTransitive(v, head, SortValue(xs[j], sortBy, collation));
          }
        }
      }
      SortedCons(x, xs, sortBy, collation);
    }
  }

  lemma NotAfterTransitive(a: Option<int>, b: Option<int>, c: Option<int>)
    requires NotAfter(a, b) && NotAfter(b, c)
    ensures NotAfter(a, c)
  {
  }

  /** `result.sort(...)`: a stable sort, inserting each element after the
      equal ones already placed. */
  function Sort(xs: seq<Listing>, sortBy: SortKey, collation: string -> int): (r: seq<Listing>)
    ensures |r| == |xs|
    ensures multiset(r) == multiset(xs)
  {
    if xs == [] then []
    else
      var init := xs[..|xs| - 1];
      assert xs == init + [xs[|xs| - 1]];
      Insert(xs[|xs| - 1], Sort(init, sortBy, collation), sortBy, collation)
  }

  lemma {:induction false} SortSorted(xs: seq<Listing>, sortBy: SortKey, collation: string -> int)
    ensures SortedBy(Sort(xs, sortBy, collation), sortBy, collation)
  {
    if xs != [] {
      SortSorted(xs[..|xs| - 1], sortBy, collation);
      InsertSorted(xs[|xs| - 1], Sort(xs[..|xs| - 1], sortBy, collation), sortBy, collation);
    }
  }

  /** `filteredHospitals`. */
  function FilteredHospitals(hs: seq<Listing>, f: Filters, searchQuery: string, collation: string -> int): (r: seq<Listing>)
  {
    Sort(Select(hs, f, searchQuery), if f.sortBy.Some? then f.sortBy.value else ByName, collation)
  }

  /** The listing is a reordering of the hospitals that pass the filters,
      which keep their original relative order before sorting, and it is
      ordered by the chosen key. */
  lemma FilteredHospitalsSpec(hs: seq<Listing>, f: Filters, searchQuery: string, collation: string -> int)
    ensures var r := FilteredHospitals(hs, f, searchQuery, collation);
      && multiset(r) == multiset(Select(hs, f, searchQuery))
      && Seqs.IsSubsequence(Select(hs, f, searchQuery), hs)
      && (forall h :: h in r <==> h in hs && Keep(h, f, searchQuery))
      && (forall h :: multiset(r)[h] == if Keep(h, f, searchQuery) then multiset(hs)[h] else 0)
      && SortedBy(r, if f.sortBy.Some? then f.sortBy.value else ByName, collation)
  {
    var sel := Select(hs, f, searchQuery);
    var r := FilteredHospitals(hs, f, searchQuery, collation);
    SortSorted(sel, if f.sortBy.Some? then f.sortBy.value else ByName, collation);
    forall h ensures h in r <==> h in sel {
      assert h in r <==> h in multiset(r);
      assert h in sel <==> h in multiset(sel);
    }
  }

  /** Sorted by cost, hospitals whose cost is absent or `null` come last and
      the others by ascending cost. */
  lemma CostOrder(xs: seq<Listing>, collation: string -> int, i: nat, j: nat)
    requires SortedBy(xs, ByCost, collation)
    requires i < j < |xs|
    ensures !xs[i].cost.Amount? ==> !xs[j].cost.Amount?
    ensures xs[j].cost.Amount? ==> xs[i].cost.Amount? && xs[i].cost.value <= xs[j].cost.value
  {
    assert NotAfter(SortValue(xs[i], ByCost, collation), SortValue(xs[j], ByCost, collation));
  }

  // ---------------------------------------------------------------------
  // In-feed ads
  // ---------------------------------------------------------------------

  /** An ad follows card `i` of `n` when it is a fifth card and not the last
      one. */
  predicate AdAfter(i: nat, n: nat) {
    (i + 1) % 5 == 0 && i + 1 < n
  }

  /** The number of ads after the first `k` cards. */
  function AdsIn(k: nat, n: nat): (c: nat)
    ensures c <= k
  {
    if k == 0 then 0 else AdsIn(k - 1, n) + (if AdAfter(k - 1, n) then 1 else 0)
  }

  lemma {:induction false} AdsBefore(k: nat, n: nat)
    requires k < n
    ensures AdsIn(k, n) == k / 5
  {
    if k > 0 {
      AdsBefore(k - 1, n);
    }
  }

  /** A list of `n >= 1` cards carries `(n - 1) / 5` ads: one after every
      fifth card, but never after the last. */
  lemma {:induction false} AdCount(n: nat)
    requires n >= 1
    ensures AdsIn(n, n) == (n - 1) / 5
  {
    AdsBefore(n - 1, n);
    assert !AdAfter(n - 1, n);
  }
}
