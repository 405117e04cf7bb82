/**
 * The ID extraction of the facility export workflow: from the `data` array
 * embedded in a facility listing page it picks the `LicenseID` and `LinkId`
 * values worth sending, joins each list with commas for the export form,
 * and skips the export when both lists are empty.
 */
module FacilityIds {
  import opened Wrappers
  import opened Text

  /** A JSON value as `json.loads` gives it. */
  datatype Json =
    | JNull
    | JBool(b: bool)
    | JNum(n: int)
    | JStr(s: string)
    | JArr(items: seq<Json>)
    | JObj(fields: map<string, Json>)

  /** Python truthiness of a decoded JSON value. */
  predicate Truthy(j: Json) {
    match j
    case JNull => false
    case JBool(b) => b
    case JNum(n) => n != 0
    case JStr(s) => s != ""
    case JArr(items) => items != []
    case JObj(fields) => fields != map[]
  }

  /** Why extraction raises: a record that is not an object, or a truthy ID that is not text. */
  datatype IdError = NotAnObject | NotText(key: string)

  /** The two ID lists of a listing. */
  datatype Ids = Ids(licenseIds: seq<string>, linkIds: seq<string>)

  const LicenseKey := "LicenseID"
  const LinkKey := "LinkId"

  /**
   * The records scanned: the first element when it is itself a list,
   * otherwise the whole array.
   */
  function Scanned(data: seq<Json>): (r: seq<Json>)
    requires data != []
    ensures data[0].JArr? ==> r == data[0].items
    ensures !data[0].JArr? ==> r == data
  {
    if data[0].JArr? then data[0].items else data
  }

  /**
   * The filter of one record for `key`: a record that is not an object
   * raises; a missing or falsy value is skipped; a text is kept, unstripped,
   * when it is not all whitespace; any other truthy value raises, since it
   * has no `strip`.
   */
  function KeepId(record: Json, key: string): (r: Result<Option<string>, IdError>)
    ensures r == Err(NotAnObject) <==> !record.JObj?
    ensures r.Ok? && r.value.Some? ==>
      && key in record.fields && record.fields[key] == JStr(r.value.value)
      && Strip(r.value.value) != ""
    ensures record.JObj? && key in record.fields && record.fields[key].JStr? && Strip(record.fields[key].s) != "" ==>
      r == Ok(Some(record.fields[key].s))
    ensures r == Err(NotText(key)) <==>
      record.JObj? && key in record.fields && Truthy(record.fields[key]) && !record.fields[key].JStr?
    ensures r == Ok(None) <==>
      && record.JObj?
      && (key !in record.fields || !Truthy(record.fields[key]) || (record.fields[key].JStr? && Strip(record.fields[key].s) == ""))
  {
    if !record.JObj? then Err(NotAnObject)
    else if key !in record.fields || !Truthy(record.fields[key]) then Ok(None)
    else match record.fields[key]
      case JStr(s) => Ok(if Strip(s) != "" then Some(s) else None)
      case _ => Err(NotText(key))
  }

  /** The record carries a kept value for `key`. */
  predicate Kept(record: Json, key: string) {
    KeepId(record, key).Ok? && KeepId(record, key).value.Some?
  }

  /** No record before position `k` raises. */
  predicate AllKept(records: seq<Json>, key: string, k: nat)
    requires k <= |records|
  {
    forall j :: 0 <= j < k ==> KeepId(records[j], key).Ok?
  }

  /**
   * One list comprehension of `extract_ids_filtered`: the kept values for
   * `key`, in record order; the first record that raises ends it.
   */
  function PickIds(records: seq<Json>, key: string): (r: Result<seq<string>, IdError>)
    ensures r.Ok? <==> forall k :: 0 <= k < |records| ==> KeepId(records[k], key).Ok?
    ensures r.Err? ==> exists k :: 0 <= k < |records| && KeepId(records[k], key) == Err(r.error) && AllKept(records, key, k)
    ensures r.Ok? ==> |r.value| <= |records|
  {
    if records == [] then Ok([])
    else
      var first := KeepId(records[0], key);
      if first.Err? then Err(first.error)
      else
        var rest := PickIds(records[1..], key);
        if rest.Err? then
          assert exists k :: 1 <= k < |records| && KeepId(records[k], key) == Err(rest.error) && AllKept(records, key, k) by {
            var k :| 0 <= k < |records[1..]| && KeepId(records[1..][k], key) == Err(rest.error) && AllKept(records[1..], key, k);
            assert records[k + 1] == records[1..][k];
            forall j | 0 <= j < k + 1 ensures KeepId(records[j], key).Ok? {
              if j > 0 { assert records[j] == records[1..][j - 1]; }
            }
            assert AllKept(records, key, k + 1);
          }
          Err(rest.error)
        else
          assert forall k :: 1 <= k < |records| ==> records[k] == records[1..][k - 1];
          Ok((if first.value.Some? then [first.value.value] else []) + rest.value)
  }

  /** The positions of the records, from `from` on, that carry a kept value for `key`. */
  function KeptPositions(records: seq<Json>, key: string, from: nat): (r: seq<nat>)
    requires from <= |records|
    ensures forall k :: k in r <==> from <= k < |records| && Kept(records[k], key)
    ensures forall m :: 0 <= m < |r| ==> from <= r[m] < |records|
    ensures forall a, b :: 0 <= a < b < |r| ==> r[a] < r[b]
    decreases |records| - from
  {
    if from == |records| then []
    else
      var rest := KeptPositions(records, key, from + 1);
      assert forall b :: 0 <= b < |rest| ==> rest[b] > from by {
        forall b | 0 <= b < |rest| ensures rest[b] > from {
          assert rest[b] in rest;
        }
      }
      (if Kept(records[from], key) then [from] else []) + rest
  }

  /**
   * The picked IDs are exactly the kept values, in record order: the
   * `k`-th ID is the text under `key` of the `k`-th record that keeps one.
   * So the list is a subsequence of the records' values, unstripped.
   */
  lemma {:induction false} PickIdsAreKeptValues(records: seq<Json>, key: string)
    requires PickIds(records, key).Ok?
    ensures var ids, pos := PickIds(records, key).value, KeptPositions(records, key, 0);
      && |ids| == |pos|
      && forall m :: 0 <= m < |ids| ==> key in records[pos[m]].fields && records[pos[m]].fields[key] == JStr(ids[m])
  {
    assert records[0..] == records;
    PickIdsFrom(records, key, 0);
    var ids, pos := PickIds(records, key).value, KeptPositions(records, key, 0);
    forall m | 0 <= m < |ids| ensures key in records[pos[m]].fields && records[pos[m]].fields[key] == JStr(ids[m]) {
      assert ValueAt(records, key, pos[m], ids[m]);
    }
  }

  /** Record `p` holds the text `v` under `key`. */
  predicate ValueAt(records: seq<Json>, key: string, p: nat, v: string) {
    p < |records| && records[p].JObj? && key in records[p].fields && records[p].fields[key] == JStr(v)
  }

  /** The `m`-th value sits in the `m`-th given record. */
  predicate ValuesAt(records: seq<Json>, key: string, ids: seq<string>, pos: seq<nat>) {
    |ids| == |pos| && forall m :: 0 <= m < |ids| ==> ValueAt(records, key, pos[m], ids[m])
  }

  lemma ValuesAtCons(records: seq<Json>, key: string, v: string, p: nat, ids: seq<string>, pos: seq<nat>)
    requires ValueAt(records, key, p, v) && ValuesAt(records, key, ids, pos)
    ensures ValuesAt(records, key, [v] + ids, [p] + pos)
  {
    forall m | 0 <= m < |ids| + 1 ensures ValueAt(records, key, ([p] + pos)[m], ([v] + ids)[m]) {
      if m > 0 {
        assert ([v] + ids)[m] == ids[m - 1] && ([p] + pos)[m] == pos[m - 1];
      }
    }
  }

  lemma {:induction false} PickIdsFrom(records: seq<Json>, key: string, from: nat)
    requires from <= |records| && PickIds(records[from..], key).Ok?
    ensures ValuesAt(records, key, PickIds(records[from..], key).value, KeptPositions(records, key, from))
    decreases |records| - from
  {
    if from < |records| {
      var tail := records[from..];
      assert tail[1..] == records[from + 1..];
      assert tail[0] == records[from];
      PickIdsFrom(records, key, from + 1);
      var rest, restPos := PickIds(records[from + 1..], key).value, KeptPositions(records, key, from + 1);
      if Kept(records[from], key) {
        var v := KeepId(records[from], key).value.value;
        assert PickIds(tail, key).value == [v] + rest;
        assert KeptPositions(records, key, from) == [from] + restPos;
        ValuesAtCons(records, key, v, from, rest, restPos);
      } else {
        assert PickIds(tail, key).value == rest;
        assert KeptPositions(records, key, from) == restPos;
      }
    }
  }

  /** Every picked ID has a non-whitespace character. */
  lemma PickedIdsNotBlank(records: seq<Json>, key: string)
    requires PickIds(records, key).Ok?
    ensures forall id :: id in PickIds(records, key).value ==> exists i :: 0 <= i < |id| && !IsSpace(id[i])
  {
    PickIdsAreKeptValues(records, key);
    var ids, pos := PickIds(records, key).value, KeptPositions(records, key, 0);
    forall id | id in ids ensures exists i :: 0 <= i < |id| && !IsSpace(id[i]) {
      var m :| 0 <= m < |ids| && ids[m] == id;
      assert pos[m] in pos;
      assert Strip(id) != "";
      StripEmpty(id);
    }
  }

  /**
   * `extract_ids_filtered`: an empty array gives two empty lists; otherwise
   * both lists are picked from the scanned records, license IDs first.
   */
  function ExtractIdsFiltered(data: seq<Json>): (r: Result<Ids, IdError>)
    ensures data == [] ==> r == Ok(Ids([], []))
    ensures data != [] ==>
      (r.Ok? <==> PickIds(Scanned(data), LicenseKey).Ok? && PickIds(Scanned(data), LinkKey).Ok?)
    ensures data != [] && r.Ok? ==>
      && PickIds(Scanned(data), LicenseKey) == Ok(r.value.licenseIds)
      && PickIds(Scanned(data), LinkKey) == Ok(r.value.linkIds)
    ensures r.Ok? && data != [] ==> |r.value.licenseIds| <= |Scanned(data)| && |r.value.linkIds| <= |Scanned(data)|
  {
    if data == [] then Ok(Ids([], []))
    else
      var facilities := Scanned(data);
      var licenseIds :- PickIds(facilities, LicenseKey);
      var linkIds :- PickIds(facilities, LinkKey);
      Ok(Ids(licenseIds, linkIds))
  }

  /**
   * The exception handler of `get_facility_ids`: an extraction that raises
   * is reported and yields two empty lists.
   */
  function ListingIds(data: seq<Json>): (r: Ids)
    ensures ExtractIdsFiltered(data).Ok? ==> r == ExtractIdsFiltered(data).value
    ensures ExtractIdsFiltered(data).Err? ==> r == Ids([], [])
  {
    match ExtractIdsFiltered(data)
    case Ok(ids) => ids
    case Err(_) => Ids([], [])
  }

  /** A pick is empty exactly when no record keeps a value for the key. */
  lemma PickIdsEmpty(records: seq<Json>, key: string)
    requires PickIds(records, key).Ok?
    ensures PickIds(records, key).value == [] <==> forall k :: 0 <= k < |records| ==> !Kept(records[k], key)
  {
    PickIdsAreKeptValues(records, key);
    var pos := KeptPositions(records, key, 0);
    if pos != [] {
      assert pos[0] in pos;
    }
  }

  /** The two lists are filtered independently: a record may give a license ID and no link ID. */
  lemma ListsIndependent()
    ensures ExtractIdsFiltered([JObj(map[LicenseKey := JStr("L1")])]) == Ok(Ids(["L1"], []))
  {
    var rec := JObj(map[LicenseKey := JStr("L1")]);
    assert LinkKey != LicenseKey by {
      assert |LinkKey| != |LicenseKey|;
    }
    assert Strip("L1") == "L1" by {
      assert Trimmed("L1");
    }
    assert KeepId(rec, LicenseKey) == Ok(Some("L1"));
    assert KeepId(rec, LinkKey) == Ok(None);
    assert [rec][1..] == [];
    assert Scanned([rec]) == [rec];
    assert ["L1"] + [] == ["L1"];
    assert PickIds([rec], LicenseKey) == Ok(["L1"]);
    assert PickIds([rec], LinkKey) == Ok([]);
    var r := ExtractIdsFiltered([rec]);
    assert r.Ok? && r.value.licenseIds == ["L1"] && r.value.linkIds == [];
  }

  // ---- the export form ---------------------------------------------------------

  /** `sep.join(parts)`. */
  function Join(parts: seq<string>, sep: char): (r: string)
    ensures parts == [] ==> r == ""
  {
    if parts == [] then ""
    else if |parts| == 1 then parts[0]
    else parts[0] + [sep] + Join(parts[1..], sep)
  }

  /** `s.split(sep)`: the pieces between separators; the empty text splits into one empty piece. */
  function Split(s: string, sep: char): (r: seq<string>)
    ensures |r| >= 1
    decreases |s|
  {
    if s == [] then [""]
    else
      var rest := Split(s[1..], sep);
      if s[0] == sep then [""] + rest
      else [[s[0]] + rest[0]] + rest[1..]
  }

  lemma {:induction false} SplitAppend(a: string, b: string, sep: char)
    requires sep !in a
    ensures Split(a + [sep] + b, sep) == [a] + Split(b, sep)
    decreases |a|
  {
    if a == [] {
      assert a + [sep] + b == [sep] + b;
      assert ([sep] + b)[1..] == b;
    } else {
      assert (a + [sep] + b)[1..] == a[1..] + [sep] + b;
      assert (a + [sep] + b)[0] == a[0] && a[0] != sep;
      SplitAppend(a[1..], b, sep);
      assert [a[0]] + a[1..] == a;
    }
  }

  lemma {:induction false} SplitPlain(a: string, sep: char)
    requires sep !in a
    ensures Split(a, sep) == [a]
    decreases |a|
  {
    if a != [] {
      assert a[0] != sep;
      SplitPlain(a[1..], sep);
      assert [a[0]] + a[1..] == a;
    }
  }

  /**
   * Joining loses nothing when no part holds the separator: splitting the
   * joined text gives the parts back.
   */
  lemma {:induction false} SplitJoin(parts: seq<string>, sep: char)
    requires parts != []
    requires forall k :: 0 <= k < |parts| ==> sep !in parts[k]
    ensures Split(Join(parts, sep), sep) == parts
  {
    if |parts| == 1 {
      SplitPlain(parts[0], sep);
    } else {
      SplitJoin(parts[1..], sep);
      SplitAppend(parts[0], Join(parts[1..], sep), sep);
    }
  }

  function NonEmpty(ids: seq<string>): (r: seq<string>)
    ensures |r| <= |ids|
    ensures forall k :: 0 <= k < |r| ==> r[k] != ""
    ensures forall id :: id in r <==> id in ids && id != ""
  {
    if ids == [] then [] else (if ids[0] != "" then [ids[0]] else []) + NonEmpty(ids[1..])
  }

  /** `",".join(str(id) for id in ids if id)`: the non-empty IDs, in order, joined with commas. */
  function JoinIds(ids: seq<string>): string {
    Join(NonEmpty(ids), ',')
  }

  /**
   * The form fields read back: when no ID holds a comma, splitting a form
   * field at the commas gives the non-empty IDs in order, and no IDs give
   * the empty field.
   */
  lemma JoinIdsRoundTrip(ids: seq<string>)
    requires forall k :: 0 <= k < |ids| ==> ',' !in ids[k]
    ensures NonEmpty(ids) == [] ==> JoinIds(ids) == ""
    ensures NonEmpty(ids) != [] ==> Split(JoinIds(ids), ',') == NonEmpty(ids)
  {
    if NonEmpty(ids) != [] {
      var parts := NonEmpty(ids);
      forall k | 0 <= k < |parts| ensures ',' !in parts[k] {
        assert parts[k] in parts;
      }
      SplitJoin(parts, ',');
    }
  }

  /** The ID fields of the export form. */
  datatype ExportForm = ExportForm(licenseField: string, linkField: string)

  /**
   * The short-circuit of `get_and_export_facility_data`: with no license ID
   * and no link ID there is no export; otherwise the export form carries
   * both joined lists.
   */
  function ExportPlan(ids: Ids): (r: Option<ExportForm>)
    ensures r.None? <==> ids.licenseIds == [] && ids.linkIds == []
    ensures r.Some? ==> r.value.licenseField == JoinIds(ids.licenseIds) && r.value.linkField == JoinIds(ids.linkIds)
  {
    if ids.licenseIds == [] && ids.linkIds == [] then None
    else Some(ExportForm(JoinIds(ids.licenseIds), JoinIds(ids.linkIds)))
  }

  /**
   * The IDs a listing sends: picked IDs are never empty, so every one of
   * them reaches its form field, and the field splits back into the list.
   */
  lemma ExportSendsEveryId(data: seq<Json>)
    requires ExtractIdsFiltered(data).Ok?
    requires var ids := ExtractIdsFiltered(data).value;
      forall id :: id in ids.licenseIds + ids.linkIds ==> ',' !in id
    ensures var ids := ExtractIdsFiltered(data).value;
      ExportPlan(ids).Some? ==>
        && (ids.licenseIds != [] ==> Split(ExportPlan(ids).value.licenseField, ',') == ids.licenseIds)
        && (ids.linkIds != [] ==> Split(ExportPlan(ids).value.linkField, ',') == ids.linkIds)
  {
    var ids := ExtractIdsFiltered(data).value;
    if data != [] {
      PickedIdsNotBlank(Scanned(data), LicenseKey);
      PickedIdsNotBlank(Scanned(data), LinkKey);
      NonEmptyKeepsAll(ids.licenseIds);
      NonEmptyKeepsAll(ids.linkIds);
      forall k | 0 <= k < |ids.licenseIds| ensures ',' !in ids.licenseIds[k] {
        assert ids.licenseIds[k] in ids.licenseIds + ids.linkIds;
      }
      forall k | 0 <= k < |ids.linkIds| ensures ',' !in ids.linkIds[k] {
        assert ids.linkIds[k] in ids.licenseIds + ids.linkIds;
      }
      JoinIdsRoundTrip(ids.licenseIds);
      JoinIdsRoundTrip(ids.linkIds);
    }
  }

  /**
   * No export is attempted exactly when the extraction raised, the array
   * was empty, or no scanned record keeps a license ID or a link ID.
   */
  lemma NoExportIff(data: seq<Json>)
    ensures ExportPlan(ListingIds(data)).None? <==>
      || ExtractIdsFiltered(data).Err?
      || data == []
      || forall k :: 0 <= k < |Scanned(data)| ==> !Kept(Scanned(data)[k], LicenseKey) && !Kept(Scanned(data)[k], LinkKey)
  {
    if data != [] && ExtractIdsFiltered(data).Ok? {
      PickIdsEmpty(Scanned(data), LicenseKey);
      PickIdsEmpty(Scanned(data), LinkKey);
    }
  }

  lemma {:induction false} NonEmptyKeepsAll(ids: seq<string>)
    requires forall id :: id in ids ==> id != ""
    ensures NonEmpty(ids) == ids
  {
    if ids != [] {
      assert forall id :: id in ids[1..] ==> id in ids;
      NonEmptyKeepsAll(ids[1..]);
      assert ids[0] in ids;
      assert NonEmpty(ids) == [ids[0]] + NonEmpty(ids[1..]);
      assert [ids[0]] + ids[1..] == ids;
    }
  }
}
