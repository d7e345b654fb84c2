# Physical-therapy clinic directory — a Dafny model of its core

The system is a Next.js directory of Korean physical-therapy clinics. It has
four parts, and this project models the logic of each:

- **Ingest.** It pulls hospital records from the public-data hospital API and
  normalises them into rows. It removes duplicate `ykiho` keys (요양기관기호,
  the institution code) and upserts the rows in batches. It also derives URL
  slugs from the hospital names.
- **Prices.** It fetches each hospital's non-covered treatment price, trying
  the item codes N0001–N0005 in turn. When a hospital has no price, it stores
  the province's regional average instead, *negated*, so that a negative
  price means "estimate". It also collects per-province price statistics,
  with hard-coded fallbacks.
- **Reading.** It pages through the `hospitals` table, reads rows back from
  snake_case to camelCase, and builds the static-generation parameters.
- **Display.** It parses provinces (시/도) and districts (시/군/구) out of
  addresses, filters, sorts and paginates the list with in-feed ads, keeps
  the filter panel's state, and decides what the price card shows.

Each source file is one Dafny module:

- `Address` — lib/utils.ts
- `Records`, `Dedup`, `HospitalSync` — lib/fetchData.ts and lib/data-transformer.ts
- `PublicData` — lib/public-data-api.ts
- `Slug` — lib/slug-utils.ts
- `AreaPrice` — lib/area-price-api.ts
- `RegionalAverage` — lib/calculate-regional-average.ts
- `TreatmentPrice` — lib/treatment-price-api.ts
- `PriceUpdate` — scripts/update-treatment-prices.ts
- `SyncArea` — scripts/sync-area-prices.ts
- `Hospitals` — lib/hospitals.ts
- `StaticGen` — lib/static-generation.ts
- `Dashboard`, `FilterPanel`, `PriceDisplay` — the three components

Shared helpers:

- `Wrappers`: `Option` and `Result`.
- `Js`: JavaScript values with truthiness, `||` and `String()`.
- `Text`: trimming, `includes`, `replace`, ASCII lower-casing, radix
  digits, `parseInt` and decimal printing.
- `Seqs`: filter, map, filter-map (the values a partial function gives, one per defined position, in order), subsequences and batches.
- `Sorted`: the `Array.from(new Set(xs)).sort()` idiom.
- `Stats`: sum, max, min and `Math.round` of a mean.
- `Paging`: the "read pages until a short one" loop that every fetcher shares.

The outside world appears only as parameters:

- The public-data API's reply for page *n* is `responses(n)`.
- The statistics API's reply for the *i*-th province is `replies(i)`.
- The price API's reply for a `(ykiho, itemCd)` pair is `replies(ykiho, itemCd)`.
- A database page is `fetch(p)`.
- Whether the *i*-th write succeeds is `writeOk(i)` or `upsertOk(i)`.
- Whether an API key is set is an `Option<string>`.
- Locale collation (`localeCompare(…, "ko")`) is a rank function `collation`.

Every paging loop in the source ends only when the remote side returns a
short page. Each paging method therefore takes a ghost page number `bound`
at which the remote side is known to do so. The contracts then describe the
first such page, wherever it lies.

Where the code and its documentation disagree, the model follows the code:

- The two record transforms build different descriptions. With a category
  but no subject, `transformToSupabaseSchema` gives `"category"`, while
  `transformPublicDataToHospital` gives `"category - "`.
  `Records.DescriptionsDifferWithoutSubject` states this.
- The ingest loops decide whether another page exists from the length of
  the page *after* filtering, not from the number of items the API
  returned. A full page that contains one item without a `ykiho` therefore
  ends the sync early. `HospitalSync.FilteredFullPageEndsSync` exhibits
  this.
- `fetchAllAreaPriceStatistics` already substitutes a province's own
  fallback when the province has no data. As a result, the three fallback
  rows of `sync-area-prices.ts` are never added for the seventeen provinces
  (`SyncArea.FetchedProvincesNeedOnlyNational`), and its "no statistics"
  branch is unreachable (`SyncArea.FinalPricesNational`).
- `Hospital.cost` is typed as an optional number, but every synchronised
  row stores `null` there. The dashboard's cost filters test only for
  `undefined`, so a `null` cost compares as 0. It passes a minimum of 0 or
  less and fails a negative maximum, while the cost sort still puts it
  last (`Dashboard.CostBoundsOnNullCost`, `Dashboard.CostOrder`).

## Model

| member | source | states |
|---|---|---|
| Address.ExtractRegion | lib/utils.ts:5-33 | The result is `null` exactly when the address contains none of the 17 province names; otherwise it is the first province of the fixed list that the address contains. |
| Address.ExtractRegionSound | lib/utils.ts:26-30 | A province that is found is one of the 17 names and occurs in the address. |
| Address.ExtractRegionExample | lib/utils.ts:1-5 | The documented example "서울특별시 강남구 테헤란로 123" yields "서울특별시". |
| Address.ExtractDistrict | lib/utils.ts:39-54 | Without a province there is no district. A district, when found, is the first whitespace-separated word after removing the first occurrence of the province. It ends in 구, 시 or 군 and holds no space. |
| Address.ExtractDistrictExample | lib/utils.ts:35-39 | The documented example yields "강남구". |
| Address.ExtractAllRegions | lib/utils.ts:70-79 | The result is sorted by code unit and has no duplicates. It holds exactly the provinces found in some address. |
| Address.ExtractAllRegionsOrderFree | lib/utils.ts:70-79 | Reordering the addresses does not change the list. |
| Address.ExtractDistrictsByRegion | lib/utils.ts:84-98 | The result is sorted and has no duplicates. It holds exactly the districts of the addresses that contain the given province. |
| Address.DistrictsAreDistricts | lib/utils.ts:84-98 | Every listed district ends in 구/시/군, has no space, and comes from an address that contains the province. |
| Address.GroupThousandsDigits | lib/utils.ts:64 | Dropping the separators from the ko-KR grouping of a digit string gives the digits back. |
| Address.GroupThousandsCommas | lib/utils.ts:64 | In the grouping, a character is a separator exactly when it is not the first and its distance from the end is a multiple of four: one comma before every three digits counted from the right. |
| Address.FormatCost | lib/utils.ts:60-65 | No cost gives "정보 없음". A non-negative cost gives its decimal digits with thousands separators, followed by 원; a negative one gives "-" and then the same for its magnitude. `Address.GroupedDecimal` states where the commas stand and that the digits read back as the value. |
| Address.FormatCostRoundTrip | lib/utils.ts:60-65 | Dropping 원 and the separators from a formatted non-negative cost gives its decimal digits, so `parseInt` reads the cost back. The commas stand exactly every three digits from the right. |
| Address.FormatCostExample | lib/utils.ts:56-65 | 50000 is formatted as "50,000원". |
| Records.ResponseItems | lib/fetchData.ts:53-59 | A single item becomes a one-element list. Missing items and failed requests give no items. |
| Records.RecordsWhere | lib/fetchData.ts:65-71 | The result has one record for each item the filter accepts, in item order: the j-th record is the item at the j-th accepted position. It holds exactly the accepted records. |
| Records.RecordsWhereDrops | lib/fetchData.ts:65-71 | A single rejected item makes the result shorter than the reply. |
| Records.RecordsWhereKeepsAll | lib/fetchData.ts:65-71 | The result is as long as the reply exactly when the filter accepts every item. |
| Records.StripPhone | lib/fetchData.ts:111-113 | The result is no longer than the number and contains no hyphen or whitespace. |
| Records.StripPhoneAppend | lib/data-transformer.ts:19-21 | Stripping acts character by character: it distributes over concatenation. |
| Records.TrimAfterStripIsNoop | lib/fetchData.ts:111-113 | The `.trim()` after stripping never changes the number. |
| Records.Specialties | lib/fetchData.ts:118-122 | The specialty list exists exactly when the subject name is non-empty, and it is then that one name. |
| Records.CappedKey | lib/fetchData.ts:134-135 | The key is a prefix of `ykiho` of at most 50 characters. It is empty exactly when `ykiho` is missing or empty. Otherwise its length is that of `ykiho` up to 50 characters and 50 beyond that, so a short `ykiho` is kept whole. |
| Records.RowDescription | lib/fetchData.ts:124-129 | A description exists exactly when the category is non-empty. It starts with the category, and " - subject" follows only when there is a subject. |
| Records.DraftDescription | lib/data-transformer.ts:37-39 | A description exists exactly when the category is non-empty. It is always "category - subject", with an empty subject when there is none. |
| Records.ToRow | lib/fetchData.ts:103-154 | This is the database row for a record: the capped key, the name or "병원명 없음", the slug of the name, the `addr` or "", the stripped phone or `null`, the description and the specialties. |
| Records.ToDraft | lib/data-transformer.ts:7-44 | The hospital draft keeps `ykiho`. The phone is stripped, or "" when missing. The description always carries " - ". |
| Records.TransformsAgree | lib/data-transformer.ts:7-44 | The two transforms agree on name, address, specialties and phone. They agree on the key when it is at most 50 characters, and on the description when there is a subject. |
| Records.DescriptionsDifferWithoutSubject | lib/data-transformer.ts:37-39 | With a category and no subject, the row says "category" and the draft says "category - ". |
| Records.TransformPublicDataArray | lib/data-transformer.ts:49-55 | One draft per item that has both `ykiho` and a name, in item order: the j-th draft is the draft of the j-th such item. Their number is the number of such items, every such item's draft is present, and every draft has a key and a name. |
| Records.RowsOfComplete | lib/fetchData.ts:270-272 | One row per record that has both a key and a name, in record order: the j-th row is the row of the j-th such record. Their number is the number of such records, and every row has a key, a name and a slug. |
| Records.RowsOfCompleteKeeps | lib/fetchData.ts:270-272 | Every record with a key and a name yields its row. |
| Dedup.DedupKeys | lib/fetchData.ts:159-174 | Deduplication keeps every non-empty key. No key appears twice and no kept row has an empty key. |
| Dedup.DedupKeepsLast | lib/fetchData.ts:164-170 | Every kept row is the last row of the input with that key. |
| Dedup.DedupKeepsEveryLast | lib/fetchData.ts:164-170 | The last row of every non-empty key is kept. |
| Dedup.DedupIsSubsequence | lib/fetchData.ts:172-173 | The kept rows stay in their input order. |
| Dedup.DedupOfDistinct | lib/fetchData.ts:159-174 | Input with distinct non-empty keys is returned unchanged. |
| Dedup.DedupIdempotent | lib/fetchData.ts:159-174 | Deduplicating twice is the same as once. |
| Dedup.DedupOfSlice | lib/fetchData.ts:190-196 | The per-batch "safety" deduplication never changes a batch of already deduplicated rows. |
| Dedup.RemoveDuplicateYkiho | lib/fetchData.ts:159-174 | The backwards scan with a seen-map, then reversed, computes the reference deduplication. |
| Dedup.BulkUpsertHospitals | lib/fetchData.ts:179-244 | The deduplicated rows are split into consecutive batches of `batchSize`. Successes and failures add up to the number of unique rows, and successes are the sizes of the batches whose upsert succeeded. |
| Paging.FetchAll | lib/static-generation.ts:21-56 | Pages are read from `first` to the first page that is short, empty or failed. The method reports whether it failed and returns the concatenated rows of the full pages followed by the last page's rows. |
| Paging.TableLastPage | lib/hospitals.ts:99-109 | Reading a table by `range(p*size, (p+1)*size-1)` first sees a short page at page `len/size`. |
| Paging.FetchAllReadsWholeTable | lib/hospitals.ts:99-172 | Paging through a table returns the whole table, in order. |
| HospitalSync.FetchHospitalData | lib/fetchData.ts:33-84 | A missing API key is an error. Otherwise the result has one record per reply item with a string `ykiho`, in reply order: the j-th record is the j-th such item. Failures or missing items give an empty page. |
| HospitalSync.FetchKeepsWholeReply | lib/fetchData.ts:65-71 | With a key, the fetched page is as long as the reply exactly when every item has a string `ykiho`. This is the length the sync loop compares with `numOfRows`. |
| HospitalSync.FilteredFullPageEndsSync | lib/fetchData.ts:65-71 | A full API page with one item lacking a string `ykiho` counts as the last page. |
| HospitalSync.SyncAllHospitalData | lib/fetchData.ts:249-312 | Without an API key the sync aborts with the missing-key error, which the source rethrows. Otherwise it gathers the complete rows of every page up to the first short one, reports "no data" exactly when none were gathered, and counts each unique row once. |
| PublicData.FetchHospitalDataFromAPI | lib/public-data-api.ts:26-74 | A missing key is an error. Otherwise the result has one record per reply item with a truthy `ykiho`, in reply order: the j-th record is the j-th such item. |
| PublicData.FetchKeepsWholeReply | lib/public-data-api.ts:61 | With a key, the fetched page is as long as the reply exactly when every item has a truthy `ykiho`. A shorter page ends `fetchAllHospitalData` even when the reply was full. |
| PublicData.FetchAllHospitalData | lib/public-data-api.ts:79-109 | A missing key is an error. Otherwise the result is the pages' records up to the first short page, and all of them have a key. |
| PublicData.GatheredKeys | lib/public-data-api.ts:61 | Every record gathered across pages has a truthy `ykiho`. |
| Slug.Clean | lib/slug-utils.ts:31-41 | The cleaned name is a well-formed slug: lower-case letters, digits and Hangul syllables joined by single hyphens, with no hyphen at either end. It keeps every letter, digit and syllable of the lower-cased name, in order. |
| Slug.CleanIsScan | lib/slug-utils.ts:31-41 | The four replacements amount to one pass over the lower-cased name. It keeps every Hangul syllable, a-z letter and digit, puts one hyphen wherever white space or hyphens separate two of them, and drops everything else. |
| Slug.CleanJoin | lib/slug-utils.ts:31-41 | Two names joined by a space clean to their cleaned forms joined by one hyphen. When one of them cleans to nothing, the result is the other's cleaned form. |
| Slug.CleanWithoutSeparators | lib/slug-utils.ts:31-41 | A name without white space or hyphens cleans to its lower-cased syllables, letters and digits, in order. |
| Slug.CleanFixesCleanSlugs | lib/slug-utils.ts:31-41 | Cleaning leaves a well-formed slug unchanged. |
| Slug.CleanIdempotent | lib/slug-utils.ts:31-41 | Cleaning twice is the same as once. |
| Slug.ToInt32 | lib/slug-utils.ts:73 | `hash & hash` is a signed 32-bit value congruent to the input modulo 2^32. |
| Slug.HashStepIsMultiplyAdd | lib/slug-utils.ts:72-73 | `(hash << 5) - hash + c` truncated to 32 bits is `31*hash + c` modulo 2^32. |
| Slug.SimpleHash | lib/slug-utils.ts:68-76 | The hash is 1 to 6 base-36 digits with no leading zero, whose value is the absolute 32-bit hash, so `substring(0, 8)` never cuts it. |
| Slug.Tagged | lib/slug-utils.ts:59 | "slug-hash" cut to 100 characters is non-empty and starts with the slug, or is a prefix of it. |
| Slug.GenerateSlug | lib/slug-utils.ts:5-63 | Only an empty name gives an empty slug. Every slug uses only the slug alphabet and never starts with a hyphen. |
| Slug.PlainSlugIsCleanName | lib/slug-utils.ts:31-62 | Without Hangul, the slug is the cleaned name, or "hospital" when that is empty. |
| Slug.HangulSlugShape | lib/slug-utils.ts:45-59 | With Hangul, the slug is at most 100 characters. It is the cleaned name followed by "-" and the hash, cut to 100. |
| Slug.HangulSlugEndsWithHash | lib/slug-utils.ts:56-59 | With Hangul and a cleaned name of at most 92 characters, the whole hash survives the cut. |
| Slug.LongHangulSlugsLoseHash | lib/slug-utils.ts:59 | Two Hangul names whose cleaned forms share the first 100 characters get the same slug, so the hash no longer keeps them apart. |
| Slug.PlainSlugIsStable | lib/slug-utils.ts:5-63 | Without Hangul, slugging a slug gives it back. |
| Slug.GenerateSlugExample | lib/slug-utils.ts:5-63 | "" gives "", and a name with only punctuation gives "hospital". |
| Slug.CandidatesDistinct | lib/slug-utils.ts:85-91 | The base slug and "base-1", "base-2", … are pairwise different. |
| Slug.EnsureUniqueSlug | lib/slug-utils.ts:81-94 | The returned slug is the first candidate in the order base, base-1, base-2, … that the uniqueness check accepts. |
| AreaPrice.ToApiRegionName | lib/area-price-api.ts:70-72 | A name that is not one of the 17 provinces is unchanged. A province name becomes one of the two-letter abbreviations. |
| AreaPrice.ToApiRegionNameOf | lib/area-price-api.ts:9-27 | The i-th province name maps to the i-th abbreviation of REGION_NAME_MAP, because the 17 names are distinct. |
| AreaPrice.NormalizeRegionName | lib/area-price-api.ts:33-65 | A full province name is kept. Anything else becomes the province of the first table entry whose abbreviation it equals, contains or is contained in, or stays unchanged when there is none. |
| AreaPrice.NormalizeFirstMatch | lib/area-price-api.ts:39-48 | When several abbreviations match, the name normalises to the province of the first one in table order. |
| AreaPrice.NormalizeInvertsToApi | lib/area-price-api.ts:9-72 | Normalising the abbreviation of a province gives the province back. |
| AreaPrice.NormalizeEmpty | lib/area-price-api.ts:40-48 | The empty name is contained in every abbreviation, so it normalises to 서울특별시. |
| AreaPrice.ItemAmount | lib/area-price-api.ts:372-377 | The amount read from 금액/amt/가격/price after dropping non-digits is never negative. With no truthy field it is 0. |
| AreaPrice.ItemAmountText | lib/area-price-api.ts:372-377 | The model agrees with `parseInt(String(amt \|\| "0").replace(/[^0-9]/g, ""), 10)` on every input. |
| AreaPrice.ValidPrices | lib/area-price-api.ts:369-379 | The result holds one value for each item whose amount is positive, that item's amount, in the order of the items; nothing else is kept, and it is empty exactly when no amount is positive. |
| AreaPrice.ItemName | lib/area-price-api.ts:402 | The item name is never empty: it is 항목명, then itemNm, then 도수치료. |
| AreaPrice.FallbackPricesWellFormed | lib/area-price-api.ts:155-309 | There is one fallback per province, for exactly the 17 provinces. Each is labelled with its province and has count 0 and min ≤ avg ≤ max. |
| AreaPrice.FallbackFor | lib/area-price-api.ts:155-309 | A fallback exists exactly for the 17 provinces. It is labelled with that province, has count 0, item N0001 and ordered positive prices. |
| AreaPrice.AreaStats | lib/area-price-api.ts:329-425 | A failed call, an empty reply, a `null` item or no positive amount gives the province's fallback, which is `null` for an unknown province. Otherwise the result is the statistic of the valid prices, under the normalised province, with the requested item code and the first item's name. |
| AreaPrice.Statistic | lib/area-price-api.ts:387-405 | The count is the number of prices, the average is their sum divided by the count and rounded half up, and max and min are the largest and smallest price; 0 < min ≤ avg ≤ max. |
| AreaPrice.AreaStatsOfPricedItems | lib/area-price-api.ts:369-405 | When every item has a positive amount, every item is counted and each amount lies between the reported minimum and maximum. |
| AreaPrice.FallbackKeepsFirstItemCode | lib/area-price-api.ts:421-423 | When the call fails, the fallback reports item N0001 whatever item was asked for. |
| AreaPrice.FetchAllAreaPriceStatistics | lib/area-price-api.ts:437-463 | The result is the per-province results that exist, in the provinces' order, and there are at most as many as provinces. |
| AreaPrice.KnownRegionsAllPresent | lib/area-price-api.ts:437-463 | For known provinces every province yields one result, labelled with it and in order. |
| Stats.RoundHalfUp | lib/area-price-api.ts:388-391 | This is `Math.round(sum / n)`: the integer nearest the mean, with halves rounded up. |
| Stats.MeanBetweenExtremes | lib/area-price-api.ts:388-393 | The rounded mean of non-negative prices lies between their minimum and maximum. |
| RegionalAverage.NonZero | lib/calculate-regional-average.ts:29-30 | `x \|\| undefined` keeps exactly the non-zero values. |
| RegionalAverage.GetAreaAveragePrice | lib/calculate-regional-average.ts:9-32 | A missing row gives `null`. Otherwise the region and average are copied, and max and min are kept only when non-zero. |
| RegionalAverage.SampleOf | lib/calculate-regional-average.ts:72-78 | Zero is skipped. A non-zero number counts by its magnitude, which is always positive. |
| RegionalAverage.SampleOfText | lib/calculate-regional-average.ts:73-77 | For every non-number the model agrees with `parseInt(String(v \|\| '0'), 10)`. A non-empty text price that does not parse is NaN. Falsy prices are skipped. |
| RegionalAverage.Prices | lib/calculate-regional-average.ts:71-79 | The result holds the sample of every stored value that is not dropped, one each, in the order of the values. It is empty exactly when every value is dropped, and the kept magnitudes are positive. |
| RegionalAverage.MeanOf | lib/calculate-regional-average.ts:85-87 | The average is NaN exactly when some sample is NaN. Otherwise it is the sum of the magnitudes divided by their number, rounded half up. |
| RegionalAverage.MeanBetween | lib/calculate-regional-average.ts:85-87 | The average of positive magnitudes is positive and lies between their minimum and maximum. |
| RegionalAverage.GetRegionalAveragePriceForAddress | lib/calculate-regional-average.ts:38-90 | Without a province the result is `null`. The area-price row takes precedence. Without one, the result is the mean magnitude of the province's stored prices, or `null` when none count. |
| RegionalAverage.MeanOfPair | lib/calculate-regional-average.ts:85-87 | Two kept prices average to half their sum, rounded half up. |
| RegionalAverage.MeanExample | lib/calculate-regional-average.ts:72-87 | Prices 0, 100000 and −200000 average to 150000: the zero is ignored and the estimate counts by its magnitude. |
| RegionalAverage.NumericPricesHaveMean | lib/calculate-regional-average.ts:71-89 | Numeric prices, not all zero, always give a positive average. |
| TreatmentPrice.PriceFor | lib/treatment-price-api.ts:43-56 | A reported price is always positive. |
| TreatmentPrice.PriceForText | lib/treatment-price-api.ts:52-53 | For a present first item the model agrees with `parseInt(amt \|\| "0", 10)`, kept only when positive. |
| TreatmentPrice.PriceForFirstAmount | lib/treatment-price-api.ts:47-54 | A price exists exactly when the first item's amount parses to a positive number, and it is that number. |
| TreatmentPrice.PriceForDecimal | lib/treatment-price-api.ts:52-53 | A decimal amount n gives n when positive and nothing otherwise. |
| TreatmentPrice.FetchTreatmentPrice | lib/treatment-price-api.ts:21-72 | A missing key is an error. Otherwise the result is the reply's price, which is positive when it exists. |
| TreatmentPrice.FirstPrice | lib/treatment-price-api.ts:79-95 | There is no price exactly when no code yields one. Otherwise the price is one code's positive price. |
| TreatmentPrice.FirstOf | lib/treatment-price-api.ts:83-94 | The search over item codes finds no price exactly when no code gives one. Otherwise its result is one code's price. |
| TreatmentPrice.AttemptsFirst | lib/treatment-price-api.ts:83-92 | Codes are asked in order. The last code asked is the first with a price, and every code is asked only when none has a price. |
| TreatmentPrice.FetchTreatmentPriceWithMultipleCodes | lib/treatment-price-api.ts:79-95 | The loop returns the first price over the codes, after exactly the requests `AttemptsOf` counts. Without an API key the first request fails. |
| TreatmentPrice.FetchTreatmentPricesBatch | lib/treatment-price-api.ts:101-150 | The map's keys are exactly the hospitals that have a price, and each value is that hospital's first price. A missing key is an error only when a call is made. |
| PriceUpdate.YkihoList | scripts/update-treatment-prices.ts:39-41 | One key per hospital with a non-empty `ykiho`, in hospital order: the j-th key is that of the j-th such hospital. The list holds exactly those keys. |
| PriceUpdate.Negated | scripts/update-treatment-prices.ts:80 | An estimate is stored as the negated average. A NaN average is stored as `null`. |
| PriceUpdate.Decide | scripts/update-treatment-prices.ts:55-88 | A hospital without a key is skipped. A non-zero service price is written as observed. Otherwise, exactly the hospitals with no stored price, an address and a regional average get the negated estimate. |
| PriceUpdate.DecideNeverOverwritesWithEstimate | scripts/update-treatment-prices.ts:60-70 | A stored price is never replaced by an estimate, and an observed price is positive. |
| PriceUpdate.WrittenDisjoint | scripts/update-treatment-prices.ts:52-53 | Observed and estimated writes together never exceed the number of hospitals. |
| PriceUpdate.PlanAt | scripts/update-treatment-prices.ts:55-88 | Each hospital's decision uses its first service price and the regional average that its step reads. |
| PriceUpdate.DecideWithPriceMap | scripts/update-treatment-prices.ts:58-60 | Looking the key up in the batch's price map gives the same decision as asking the service directly. |
| PriceUpdate.ApplyDecisions | scripts/update-treatment-prices.ts:55-88 | The loop takes the planned decision for every hospital. It counts the successful observed and estimated writes, which together never exceed the hospitals. |
| PriceUpdate.UpdateTreatmentPrices | scripts/update-treatment-prices.ts:13-102 | A failed query is an error and no hospitals ends early. A missing key fails only when some hospital has a key. Otherwise the report holds the successful writes of each kind and the non-negative remainder. |
| PriceUpdate.ApiPrice | scripts/update-treatment-prices.ts:58 | The lookup finds a price exactly for the keys in the map. |
| PriceDisplay.View | components/TreatmentPriceDashboard.tsx:16-124 | The "being prepared" panel appears exactly when there is neither a price nor an area average. A stored price shows its magnitude, with the estimate badge and note when negative. Without a price, the area average is the displayed price, shown with the badge and the area line, and the range appears exactly when both extremes are non-zero. |
| PriceDisplay.AreaAverageShown | components/TreatmentPriceDashboard.tsx:73-114 | With no stored price and an area average with both extremes, the card shows the average as the price, with the badge, the area line and the range. |
| PriceDisplay.ObservedPriceShownPlain | components/TreatmentPriceDashboard.tsx:16-20 | A positive stored price is shown as is, without the estimate badge. |
| PriceDisplay.EstimateShownAsRegional | components/TreatmentPriceDashboard.tsx:16-20 | A stored estimate −a is shown as a, with the badge and the regional note. |
| PriceDisplay.NotesExclusive | components/TreatmentPriceDashboard.tsx:106-124 | The area-average line and the regional-estimate note never appear together. |
| PriceDisplay.PreparingExample | components/TreatmentPriceDashboard.tsx:23-39 | With no price and a `null` area average, the panel links to the address's province. |
| Dashboard.Regions | components/HospitalDashboard.tsx:28-31 | The province list holds exactly the provinces of the hospitals' addresses. |
| Dashboard.Districts | components/HospitalDashboard.tsx:34-40 | Without a selected province the list is empty. Otherwise it holds exactly the districts of the addresses that contain the province. |
| Dashboard.Select | components/HospitalDashboard.tsx:43-75 | The result is a subsequence of the hospitals. It holds every occurrence of each hospital that passes the search, province, district and cost filters, and none of one that fails. |
| Dashboard.CostNumber | components/HospitalDashboard.tsx:66-75 | In the cost comparisons a `null` cost counts as 0 and a number as itself. |
| Dashboard.CostBoundsOnUnknownCost | components/HospitalDashboard.tsx:66-75 | A hospital whose cost is absent fails any minimum cost but passes any maximum. |
| Dashboard.CostBoundsOnNullCost | components/HospitalDashboard.tsx:66-75 | A `null` cost, which every synchronised row has, passes a minimum exactly when the minimum is at most 0 and a maximum exactly when the maximum is at least 0. |
| Dashboard.BlankQueryKeepsAll | components/HospitalDashboard.tsx:47 | A query of only whitespace filters nothing. |
| Dashboard.SortSorted | components/HospitalDashboard.tsx:78-90 | Sorting orders the list by the chosen key. |
| Dashboard.FilteredHospitalsSpec | components/HospitalDashboard.tsx:43-93 | The listing is a permutation of the kept hospitals, with every occurrence of each kept hospital and none of the others. It is ordered by the chosen key, which defaults to the name. |
| Dashboard.CostOrder | components/HospitalDashboard.tsx:84-87 | By cost, the numeric costs ascend, and hospitals whose cost is absent or `null` come last. |
| Dashboard.AdsBefore | components/HospitalDashboard.tsx:165 | An ad follows every fifth card: before card k there are ⌊k/5⌋ ads. |
| Dashboard.AdCount | components/HospitalDashboard.tsx:165 | A list of n cards carries ⌊(n−1)/5⌋ ads: there is never one after the last card. |
| FilterPanel.NonEmpty | components/FilterPanel.tsx:23 | An empty selection clears the filter; any other selection sets it. |
| FilterPanel.RegionChanged | components/FilterPanel.tsx:20-26 | Choosing a province sets it and clears the district. Nothing else changes. |
| FilterPanel.DistrictChanged | components/FilterPanel.tsx:28-33 | Choosing a district sets it. Nothing else changes. |
| FilterPanel.CostRangeChanged | components/FilterPanel.tsx:35-41 | Setting the cost range sets both bounds. Nothing else changes. |
| FilterPanel.SortChanged | components/FilterPanel.tsx:43-48 | Choosing a sort key sets it. Nothing else changes. |
| FilterPanel.Cleared | components/FilterPanel.tsx:50-55 | Clearing drops the province, district and costs. It keeps the query, and it keeps the sort key or defaults it to the name. |
| FilterPanel.ClearedInactive | components/FilterPanel.tsx:50-61 | After clearing no filter is active, and clearing again changes nothing. |
| FilterPanel.ClearedForgetsChanges | components/FilterPanel.tsx:20-55 | Clearing forgets any province, district or cost change. |
| FilterPanel.ActiveIffNotCleared | components/FilterPanel.tsx:50-61 | A filter is active exactly when clearing would change the state. |
| FilterPanel.RegionChangeDropsDistrict | components/FilterPanel.tsx:20-33 | A district chosen before a province change is forgotten. |
| FilterPanel.NoSelectorWithoutRegion | components/FilterPanel.tsx:97 | After the province is cleared, the district selector is hidden. |
| SyncArea.FallbackRowsSpec | scripts/sync-area-prices.ts:80-95 | Exactly the fallback provinces missing from the statistics get a row, labelled with the item code and with count 0. |
| SyncArea.FinalPricesPrefix | scripts/sync-area-prices.ts:67-109 | The statistics come first, unchanged. At most four rows follow. |
| SyncArea.FinalPricesFallbacks | scripts/sync-area-prices.ts:80-95 | A fallback province's row is added exactly when the statistics lack that province. |
| SyncArea.FinalPricesNational | scripts/sync-area-prices.ts:97-114 | A national row is always present. It is appended exactly when the statistics have none, so the list is never empty. |
| SyncArea.FinalPricesDistinct | scripts/sync-area-prices.ts:67-109 | Merging keeps provinces distinct when the statistics' provinces are distinct. |
| SyncArea.DataToInsert | scripts/sync-area-prices.ts:120-129 | Every stored row reads back as the price row it came from. |
| SyncArea.DataToInsertInjective | scripts/sync-area-prices.ts:120-129 | Different price lists are stored differently. |
| SyncArea.NoFallbackWhenCovered | scripts/sync-area-prices.ts:80-95 | With Seoul, Gyeonggi and Busan present, no fallback row is added. |
| SyncArea.FetchedProvincesNeedOnlyNational | scripts/sync-area-prices.ts:47-109 | For the 17 fetched provinces, the merge adds only the national row. |
| Hospitals.NormalizePrice | lib/hospitals.ts:154-158 | A number is kept. Missing, `null` and `false` give no price. A text gives its parsed value when that is non-zero. |
| Hospitals.NormalizePriceText | lib/hospitals.ts:154-158 | For a value that is neither missing nor a number, the model agrees with `parseInt(String(v \|\| '0'), 10)` with zero and NaN dropped. |
| Hospitals.NormalizePriceIdempotent | lib/hospitals.ts:154-158 | Normalising a normalised price changes nothing. |
| Hospitals.NormalizePriceOfText | lib/hospitals.ts:154-158 | The text of a decimal n reads back as n, except 0, which gives no price. |
| Hospitals.ToHospital | lib/hospitals.ts:151-161 | The snake_case fields take precedence when truthy, and the camelCase ones are used otherwise. The price is the normalised stored price, so numeric prices are kept. |
| Hospitals.ToHospitalKeepsCamelCase | lib/hospitals.ts:151-161 | Without snake_case fields the camelCase ones and the numeric price pass through unchanged. |
| Hospitals.GetHospitalById | lib/hospitals.ts:4-27 | Only a missing row gives `null`, and a found row gives the hospital the shared mapping makes of it. |
| Paging.ReadAll | lib/hospitals.ts:47-82 | The rows of every page up to the first short or empty one are returned in order, and a query error is an error; lib/static-generation.ts:62-108 is the same reader over other columns. |
| Hospitals.GetAllHospitals | lib/hospitals.ts:88-184 | The method pages by 1000. It returns the mapped rows up to the first short page, and on an error it returns what it already has, or nothing when that is the first page. |
| Hospitals.AllHospitalsOfTable | lib/hospitals.ts:99-172 | Over a whole table, the method returns every row, mapped, in order. |
| StaticGen.ProcessInBatches | lib/static-generation.ts:7-16 | The items are split into consecutive batches of `batchSize`, with no batch when there are no items. |
| StaticGen.GetStaticHospitalIds | lib/static-generation.ts:114-130 | Without configuration the list is empty. Otherwise it is the paged ids, or empty on an error. |
| StaticGen.StaticParams | lib/static-generation.ts:139-141 | There is one parameter per id, its decimal text. |
| StaticGen.StaticParamsReadBack | lib/static-generation.ts:139-141 | Each parameter parses back to its id. |
| StaticGen.StaticParamsDistinct | lib/static-generation.ts:139-141 | Different ids give different parameters. |
| StaticGen.GenerateHospitalStaticParams | lib/static-generation.ts:135-142 | Without configuration there are no ids and no parameters. Otherwise the ids are the paged ids up to the last page, or none after a failed page. The parameters are those ids' decimal texts, one per id in order, and each reads back as its id. |

## Left out

- Coordinates (`latitude`/`longitude` via `parseFloat`) are left out, because they are floating point. The rows do not carry them.
- `callApiWithRetry` and its re-encoding of the service key on retry are left out. The statistics call is one reply per province; network errors become `CallFailed`.
- Logging, timing, the `setTimeout` delays between calls, and HTTP parameters such as the timeout are left out, because they do not affect results.
- The `hangulToRoman` table in `generateSlug` is never used by the code, so it is left out.
- The `fullNameMap` branch of `normalizeRegionName` is unreachable: every one of its keys is a full province name caught by the first check. It is left out.
- `getAllHospitalIds` (unpaged) and `getFilteredHospitals` are left out. They are thin database queries outside the core.
- The React rendering, markup, links and ad components are left out. Only the decisions behind them are modelled.
- Dashboard.SortValue: `localeCompare(…, "ko")` is an opaque rank function. Sorting by name and by address is proved ordered by that rank, not by Korean collation rules.
- JavaScript numbers are modelled as integers throughout (`Js.JsValue`, `Dashboard.Cost`, the price columns and the statistics). Fractional values and `-0` are not modelled. The one `NaN` that matters is noted under RegionalAverage.MeanOf.
- Address.FormatCost: `toLocaleString("ko-KR")` is modelled for integers only. Fractional costs are not modelled.
- Slug.SimpleHash: strings are sequences of Unicode scalar values, not UTF-16 code units as in JavaScript. A character outside the Basic Multilingual Plane is folded into the hash once, where JavaScript folds its two surrogates, so the hash matches only for names inside that plane.
- Slug.Tagged: the 100-character cut counts scalar values where JavaScript counts UTF-16 code units. The two agree only on names inside the Basic Multilingual Plane.
- Sorted.Before: `sort()` compares UTF-16 code units. Comparing scalar values gives the same order only on text inside the Basic Multilingual Plane.
- Dashboard.MatchesQuery: `toLowerCase` is modelled as ASCII-only lower-casing (`Text.ToLowerAscii`), not JavaScript's full Unicode case mapping. Hangul has no case, but other capitals, such as accented Latin or Greek letters, are not lowered in the search.
- Slug.Clean: `toLowerCase` is modelled as ASCII-only lower-casing here too. A non-ASCII capital is removed as a disallowed character, where JavaScript might first lower it to a letter that is also removed; the regular expression keeps only Hangul syllables and ASCII, so the slug is the same unless a capital lowers into ASCII (such as the Kelvin sign K).
- RegionalAverage.MeanOf: NaN, which arises from a text price that does not parse, is modelled as `None`. `PriceUpdate.Negated` then stores it as `null`, as `-NaN` does in JSON.
- PriceUpdate.UpdateTreatmentPrices: each step's regional-average lookup reads the hospitals table as `hospitalTables(i)`. The feedback of earlier writes into that table is not modelled.
- Paging.FetchAll: the source loops until the remote side returns a short page. The methods require a ghost page at which it does, and they are not modelled for a remote side that never does.
- Hospitals.GetAllHospitals: the `count: 'exact'` total is only logged, so it is left out.
