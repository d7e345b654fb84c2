/** Hospital records of the public-data API and their two storage shapes:
    the database row built by `transformToSupabaseSchema` (lib/fetchData.ts)
    and the draft built by `transformPublicDataToHospital`
    (lib/data-transformer.ts). Coordinates are not modelled. */
module Records {
  import opened Wrappers
  import opened Text
  import Slug
  import Seqs

  /** The string fields of one API item; `None` stands for a missing field. */
  datatype PublicRecord = PublicRecord(
    ykiho: Option<string>,      // 요양기관기호, the institution key
    yadmNm: Option<string>,     // institution name
    addr: Option<string>,
    telno: Option<string>,
    clcdNm: Option<string>,     // institution category
    dgsbjtCdNm: Option<string>  // medical subject
  )

  /** One element of `items.item`: an object, or a null or primitive value. */
  datatype RawItem = NotRecord | Record(fields: PublicRecord)

  /** What an API request produced: a failure (axios throws), a body without
      `items`, a single object, or an array. */
  datatype Response =
    | RequestFailed
    | NoItems
    | OneItem(item: RawItem)
    | ItemList(items: seq<RawItem>)

  /** The storage row (`SupabaseHospitalData`). Its `operating_hours` and
      `cost` columns are always null and are not represented. */
  datatype HospitalRow = HospitalRow(
    ykiho: string,
    name: string,
    slug: string,
    address: string,
    phone: Option<string>,
    description: Option<string>,
    specialties: Option<seq<string>>
  )

  /** The shape `transformPublicDataToHospital` returns. */
  datatype HospitalDraft = HospitalDraft(
    ykiho: Option<string>,
    name: string,
    address: string,
    phone: string,
    description: Option<string>,
    specialties: Option<seq<string>>
  )

  const MissingName := "병원명 없음"
  const MaxYkihoLength := 50

  // ---------------------------------------------------------------------
  // Response items
  // ---------------------------------------------------------------------

  /** `Array.isArray(items) ? items : [items]`, and nothing when the request
      failed or the body had no items. */
  function ResponseItems(resp: Response): (r: seq<RawItem>)
    ensures resp.OneItem? ==> r == [resp.item]
    ensures resp.RequestFailed? || resp.NoItems? ==> r == []
  {
    match resp
    case RequestFailed => []
    case NoItems => []
    case OneItem(item) => [item]
    case ItemList(items) => items
  }

  /** The item filter of `fetchHospitalData`: an object whose `ykiho` is a
      string, possibly empty. */
  predicate HasStringKey(item: RawItem) {
    item.Record? && item.fields.ykiho.Some?
  }

  /** The item filter of `fetchHospitalDataFromAPI`: `item && item.ykiho`. */
  predicate HasTruthyKey(item: RawItem) {
    item.Record? && Truthy(item.fields.ykiho)
  }

  /** The record of an item that `p` accepts, and nothing for any other
      item. */
  function Accepted(p: RawItem -> bool): RawItem -> Option<PublicRecord> {
    (item: RawItem) => if item.Record? && p(item) then Some(item.fields) else None
  }

  /** `items.filter(p)`: the records of the accepted items, one for each
      accepted position and in the order of those positions. */
  function RecordsWhere(p: RawItem -> bool, items: seq<RawItem>): (r: seq<PublicRecord>)
    ensures |r| <= |items|
    ensures var d := Seqs.DefinedFrom(Accepted(p), items, 0);
      && |r| == |d|
      && forall j :: 0 <= j < |r| ==> items[d[j]] == Record(r[j]) && p(items[d[j]])
    ensures forall x :: x in r <==> Record(x) in items && p(Record(x))
  {
    var r := Seqs.FilterMap(Accepted(p), items);
    RecordsWhereMembers(p, items);
    r
  }

  lemma RecordsWhereMembers(p: RawItem -> bool, items: seq<RawItem>)
    ensures forall x :: x in Seqs.FilterMap(Accepted(p), items) <==> Record(x) in items && p(Record(x))
  {
    forall x
      ensures x in Seqs.FilterMap(Accepted(p), items) <==> Record(x) in items && p(Record(x))
    {
      Seqs.FilterMapMember(Accepted(p), items, x);
      if Record(x) in items && p(Record(x)) {
        var i :| 0 <= i < |items| && items[i] == Record(x);
        assert Accepted(p)(items[i]) == Some(x);
      }
    }
  }

  /** An item the filter rejects makes the result shorter than the input. */
  lemma RecordsWhereDrops(p: RawItem -> bool, items: seq<RawItem>, i: nat)
    requires i < |items| && !(items[i].Record? && p(items[i]))
    ensures |RecordsWhere(p, items)| < |items|
  {
    Seqs.DefinedFromMissing(Accepted(p), items, 0, i);
  }

  /** The filter keeps the whole page exactly when it accepts every item. */
  lemma RecordsWhereKeepsAll(p: RawItem -> bool, items: seq<RawItem>)
    ensures |RecordsWhere(p, items)| == |items| <==> forall i :: 0 <= i < |items| ==> items[i].Record? && p(items[i])
  {
    Seqs.FilterMapKeepsAll(Accepted(p), items);
  }

  // ---------------------------------------------------------------------
  // Field derivations
  // ---------------------------------------------------------------------

  /** The characters of `/[-\s]/`. */
  predicate IsPhoneSeparator(c: char) {
    c == '-' || IsSpace(c)
  }

  /** `telno.replace(/[-\s]/g, '')`. */
  function StripPhone(t: string): (r: string)
    ensures |r| <= |t|
    ensures forall i :: 0 <= i < |r| ==> !IsPhoneSeparator(r[i])
  {
    if t == [] then []
    else (if IsPhoneSeparator(t[0]) then [] else [t[0]]) + StripPhone(t[1..])
  }

  /** Stripping works piece by piece, so it removes separators wherever they
      stand and keeps every other character in its place. */
  lemma StripPhoneAppend(a: string, b: string)
    ensures StripPhone(a + b) == StripPhone(a) + StripPhone(b)
  {
    if a != [] {
      assert (a + b)[1..] == a[1..] + b;
      StripPhoneAppend(a[1..], b);
    } else {
      assert a + b == b;
    }
  }

  /** A number without separators is left as it is. */
  lemma StripPhoneKeepsClean(t: string)
    requires forall i :: 0 <= i < |t| ==> !IsPhoneSeparator(t[i])
    ensures StripPhone(t) == t
  {
    if t != [] {
      StripPhoneKeepsClean(t[1..]);
      assert t == [t[0]] + t[1..];
    }
  }

  /** The `.trim()` that follows the strip in `transformToSupabaseSchema`
      has nothing left to remove. */
  lemma TrimAfterStripIsNoop(t: string)
    ensures Trim(StripPhone(t)) == StripPhone(t)
  {
    var s := StripPhone(t);
    if s != [] {
      assert !IsSpace(s[0]) && !IsSpace(s[|s| - 1]);
      assert TrimStart(s) == s;
    }
  }

  /** `dgsbjtCdNm ? [dgsbjtCdNm] : null`; both transforms agree on it. */
  function Specialties(subject: Option<string>): (r: Option<seq<string>>)
    ensures r.Some? <==> Truthy(subject)
    ensures r.Some? ==> r.value == [subject.value] && r.value[0] != ""
  {
    if Truthy(subject) then Some([subject.value]) else None
  }

  /** `ykiho ? ykiho.substring(0, 50) : ""`. */
  function CappedKey(key: Option<string>): (r: string)
    ensures |r| <= MaxYkihoLength
    ensures !Truthy(key) ==> r == ""
    ensures Truthy(key) ==> r != "" && |r| <= |key.value| && r == key.value[..|r|]
    ensures Truthy(key) ==> |r| == if |key.value| <= MaxYkihoLength then |key.value| else MaxYkihoLength
    ensures Truthy(key) && |key.value| <= MaxYkihoLength ==> r == key.value
  {
    if Truthy(key) then Slug.Prefix(key.value, MaxYkihoLength) else ""
  }

  /** The description of a storage row: the category, followed by
      " - subject" only when there is a subject. */
  function RowDescription(category: Option<string>, subject: Option<string>): (r: Option<string>)
    ensures r.None? <==> !Truthy(category)
    ensures r.Some? ==> |category.value| <= |r.value| && r.value[..|category.value|] == category.value
    ensures r.Some? && !Truthy(subject) ==> r.value == category.value
    ensures r.Some? && Truthy(subject) ==> r.value[|category.value|..] == " - " + subject.value
  {
    if Truthy(category) then
      Some(category.value + (if Truthy(subject) then " - " + subject.value else ""))
    else None
  }

  /** The description of a draft: the category and " - " always, then the
      subject or nothing. */
  function DraftDescription(category: Option<string>, subject: Option<string>): (r: Option<string>)
    ensures r.None? <==> !Truthy(category)
    ensures r.Some? ==> r.value == category.value + " - " + OrElse(subject, "")
  {
    if Truthy(category) then Some(category.value + " - " + OrElse(subject, "")) else None
  }

  // ---------------------------------------------------------------------
  // The two transforms
  // ---------------------------------------------------------------------

  /** `transformToSupabaseSchema`. */
  function ToRow(p: PublicRecord): (r: HospitalRow)
    ensures r.ykiho == CappedKey(p.ykiho)
    ensures |r.ykiho| <= MaxYkihoLength && (r.ykiho == "" <==> !Truthy(p.ykiho))
    ensures r.address == OrElse(p.addr, "")
    ensures Truthy(p.yadmNm) ==> r.name == p.yadmNm.value
    ensures !Truthy(p.yadmNm) ==> r.name == MissingName && r.slug == ""
    ensures Truthy(p.yadmNm) ==> r.slug != "" && r.slug == Slug.GenerateSlug(p.yadmNm.value)
    ensures r.phone.None? <==> !Truthy(p.telno)
    ensures r.phone.Some? ==> r.phone.value == StripPhone(p.telno.value)
    ensures r.description == RowDescription(p.clcdNm, p.dgsbjtCdNm)
    ensures r.specialties == Specialties(p.dgsbjtCdNm)
  {
    assert Truthy(p.telno) ==> Trim(StripPhone(p.telno.value)) == StripPhone(p.telno.value) by {
      if Truthy(p.telno) {
        TrimAfterStripIsNoop(p.telno.value);
      }
    }
    HospitalRow(
      ykiho := CappedKey(p.ykiho),
      name := OrElse(p.yadmNm, MissingName),
      slug := Slug.GenerateSlug(OrElse(p.yadmNm, "")),
      address := OrElse(p.addr, ""),
      phone := if Truthy(p.telno) then Some(Trim(StripPhone(p.telno.value))) else None,
      description := RowDescription(p.clcdNm, p.dgsbjtCdNm),
      specialties := Specialties(p.dgsbjtCdNm)
    )
  }

  /** `transformPublicDataToHospital`. */
  function ToDraft(p: PublicRecord): (r: HospitalDraft)
    ensures r.ykiho == p.ykiho
    ensures r.phone == (if Truthy(p.telno) then StripPhone(p.telno.value) else "")
    ensures r.description == DraftDescription(p.clcdNm, p.dgsbjtCdNm)
  {
    HospitalDraft(
      ykiho := p.ykiho,
      name := OrElse(p.yadmNm, MissingName),
      address := OrElse(p.addr, ""),
      phone := if Truthy(p.telno) then StripPhone(p.telno.value) else "",
      description := DraftDescription(p.clcdNm, p.dgsbjtCdNm),
      specialties := Specialties(p.dgsbjtCdNm)
    )
  }

  /** How the two transforms relate on the same record: the same name,
      address and specialties; the same phone digits with `null` in place of
      ""; the same key up to the 50-character cap; and the same description
      whenever a subject is present. */
  lemma TransformsAgree(p: PublicRecord)
    ensures ToRow(p).name == ToDraft(p).name
    ensures ToRow(p).address == ToDraft(p).address
    ensures ToRow(p).specialties == ToDraft(p).specialties
    ensures ToRow(p).phone.GetOr("") == ToDraft(p).phone
    ensures Truthy(p.ykiho) && |p.ykiho.value| <= MaxYkihoLength ==> Some(ToRow(p).ykiho) == ToDraft(p).ykiho
    ensures Truthy(p.dgsbjtCdNm) ==> ToRow(p).description == ToDraft(p).description
  {
    if Truthy(p.telno) {
      TrimAfterStripIsNoop(p.telno.value);
    }
    if Truthy(p.dgsbjtCdNm) && Truthy(p.clcdNm) {
      var c, d := p.clcdNm.value, p.dgsbjtCdNm.value;
      assert c + (" - " + d) == c + " - " + d;
    }
  }

  /** Without a subject the draft keeps a dangling separator that the row
      does not have. */
  lemma DescriptionsDifferWithoutSubject(category: string)
    requires category != ""
    ensures RowDescription(Some(category), None) == Some(category)
    ensures DraftDescription(Some(category), None) == Some(category + " - ")
  {
    assert OrElse(None, "") == "";
    assert category + " - " + "" == category + " - ";
    assert category + "" == category;
  }

  // ---------------------------------------------------------------------
  // Whole-array transforms
  // ---------------------------------------------------------------------

  /** A record with a non-empty key and a non-empty name. */
  predicate CompleteRecord(x: PublicRecord) {
    Truthy(x.ykiho) && Truthy(x.yadmNm)
  }

  /** `data && data.ykiho && data.yadmNm`. */
  predicate IsComplete(item: RawItem) {
    item.Record? && CompleteRecord(item.fields)
  }

  /** The draft of a complete item, and nothing for any other item. */
  function DraftIfComplete(item: RawItem): Option<HospitalDraft> {
    if IsComplete(item) then Some(ToDraft(item.fields)) else None
  }

  /** `transformPublicDataArray`: the drafts of the complete items, one for
      each complete position and in the order of those positions. */
  function TransformPublicDataArray(items: seq<RawItem>): (r: seq<HospitalDraft>)
    ensures |r| == Seqs.Count(IsComplete, items)
    ensures var d := Seqs.DefinedFrom(DraftIfComplete, items, 0);
      && |r| == |d|
      && forall j :: 0 <= j < |r| ==> IsComplete(items[d[j]]) && r[j] == ToDraft(items[d[j]].fields)
    ensures forall i :: 0 <= i < |r| ==> Truthy(r[i].ykiho) && r[i].name != ""
    ensures forall x :: x in items && IsComplete(x) ==> ToDraft(x.fields) in r
  {
    var r := Seqs.FilterMap(DraftIfComplete, items);
    Seqs.DefinedFromCount(DraftIfComplete, IsComplete, items, 0);
    assert items[0..] == items;
    r
  }

  /** A row with a key, a name and a slug. */
  predicate Keyed(row: HospitalRow) {
    row.ykiho != "" && row.name != "" && row.slug != ""
  }

  /** The row of a complete record, and nothing for any other record. */
  function RowIfComplete(x: PublicRecord): Option<HospitalRow> {
    if CompleteRecord(x) then Some(ToRow(x)) else None
  }

  /** The per-page conversion of `syncAllHospitalData`: the rows of the
      records with a non-empty key and name, one for each such position and
      in the order of those positions. */
  function RowsOfComplete(records: seq<PublicRecord>): (r: seq<HospitalRow>)
    ensures |r| == Seqs.Count(CompleteRecord, records)
    ensures var d := Seqs.DefinedFrom(RowIfComplete, records, 0);
      && |r| == |d|
      && forall j :: 0 <= j < |r| ==> CompleteRecord(records[d[j]]) && r[j] == ToRow(records[d[j]])
    ensures forall i :: 0 <= i < |r| ==> Keyed(r[i])
  {
    var r := Seqs.FilterMap(RowIfComplete, records);
    Seqs.DefinedFromCount(RowIfComplete, CompleteRecord, records, 0);
    assert records[0..] == records;
    RowsKeyed(records);
    r
  }

  lemma RowsKeyed(records: seq<PublicRecord>)
    ensures forall i :: 0 <= i < |Seqs.FilterMap(RowIfComplete, records)| ==> Keyed(Seqs.FilterMap(RowIfComplete, records)[i])
  {
    var r := Seqs.FilterMap(RowIfComplete, records);
    var d := Seqs.DefinedFrom(RowIfComplete, records, 0);
    forall i | 0 <= i < |r|
      ensures Keyed(r[i])
    {
      assert RowIfComplete(records[d[i]]) == Some(r[i]);
      KeyedRow(records[d[i]]);
    }
  }

  lemma KeyedRow(x: PublicRecord)
    requires CompleteRecord(x)
    ensures Keyed(ToRow(x))
  {
  }

  /** Every complete record contributes its row. */
  lemma RowsOfCompleteKeeps(records: seq<PublicRecord>, x: PublicRecord)
    requires x in records && CompleteRecord(x)
    ensures ToRow(x) in RowsOfComplete(records)
  {
    var i :| 0 <= i < |records| && records[i] == x;
    assert RowIfComplete(records[i]) == Some(ToRow(x));
  }
}
