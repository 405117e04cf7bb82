/**
 * The table-row extraction of the facility search scraper
 * (`FloridaHealthScraper`): from the tables of a search result page it
 * builds one facility record per data row that mentions the searched
 * name, and falls back to a placeholder record when nothing is found.
 * The parsed page is given as header texts plus rows of cells, each cell
 * with its stripped text and its first link.
 */
module Scraper {
  import opened Wrappers
  import opened Text

  /** The first `<a>` element inside a cell, with its `href` attribute when it has one. */
  datatype Link = Link(href: Option<string>)

  /** One `<td>` or `<th>` of a row: its text as `get_text(strip=True)` gives it, and its first link. */
  datatype HtmlCell = HtmlCell(text: string, link: Option<Link>)

  /** One `<table>`: the texts of all its `<th>` elements, and its `<tr>` rows as lists of cells. */
  datatype HtmlTable = HtmlTable(headerTexts: seq<string>, rows: seq<seq<HtmlCell>>)

  /** The record built for one facility. */
  datatype FacilityInfo = FacilityInfo(
    name: string,
    facilityType: string,
    ahcaNumber: string,
    phoneNumber: string,
    licensedBeds: string,
    licenseId: string,
    streetAddress: string,
    streetCity: string,
    streetZip: string,
    streetState: string)

  const DefaultAddressIndex: nat := 3
  const DefaultFacilityType := "Healthcare Facility"

  // ---- column positions and rows --------------------------------------------

  /** The header texts of a table, lower-cased. */
  function Headers(t: HtmlTable): (r: seq<string>)
    ensures |r| == |t.headerTexts|
    ensures forall k :: 0 <= k < |r| ==> r[k] == Lower(t.headerTexts[k])
  {
    seq(|t.headerTexts|, k requires 0 <= k < |t.headerTexts| => Lower(t.headerTexts[k]))
  }

  /** The first position of `h` in `headers`, if any. */
  function IndexOf(headers: seq<string>, h: string): (r: Option<nat>)
    ensures r.None? <==> h !in headers
    ensures r.Some? ==> r.value < |headers| && headers[r.value] == h
    ensures r.Some? ==> forall k :: 0 <= k < r.value ==> headers[k] != h
  {
    if headers == [] then None
    else if headers[0] == h then Some(0)
    else match IndexOf(headers[1..], h)
      case None => None
      case Some(k) => Some(k + 1)
  }

  /**
   * The address column: the first header reading "street address", or
   * column 3 when no header does (in particular when there are none).
   */
  function AddressIndex(headers: seq<string>): (r: nat)
    ensures "street address" in headers ==>
      r < |headers| && headers[r] == "street address" && forall k :: 0 <= k < r ==> headers[k] != "street address"
    ensures "street address" !in headers ==> r == DefaultAddressIndex
  {
    if headers != [] && "street address" in headers then IndexOf(headers, "street address").value
    else DefaultAddressIndex
  }

  /** The rows that may hold data: all of them, or all but the first when the table has headers. */
  function DataRows(t: HtmlTable): (r: seq<seq<HtmlCell>>)
    ensures t.headerTexts == [] ==> r == t.rows
    ensures t.headerTexts != [] && t.rows != [] ==> r == t.rows[1..]
    ensures t.headerTexts != [] && t.rows == [] ==> r == []
    ensures |r| <= |t.rows|
  {
    if t.headerTexts != [] then (if t.rows == [] then [] else t.rows[1..]) else t.rows
  }

  function Texts(cells: seq<HtmlCell>): (r: seq<string>)
    ensures |r| == |cells|
    ensures forall k :: 0 <= k < |cells| ==> r[k] == cells[k].text
  {
    seq(|cells|, k requires 0 <= k < |cells| => cells[k].text)
  }

  /**
   * A row yields a record when it has at least two cells and one of its
   * texts contains the searched name, both lower-cased.
   */
  predicate RowMatches(cells: seq<HtmlCell>, facilityName: string) {
    |cells| >= 2 && exists k :: 0 <= k < |cells| && Contains(Lower(cells[k].text), Lower(facilityName))
  }

  // ---- field extraction -----------------------------------------------------

  /** A text that is all digits with a value strictly between 0 and 10000. */
  predicate IsBedCount(s: string) {
    IsDigits(s) && 0 < DigitsValue(s) < 10000
  }

  predicate NoBedCountBefore(texts: seq<string>, k: nat)
    requires k <= |texts|
  {
    forall j :: 0 <= j < k ==> !IsBedCount(texts[j])
  }

  /** The first cell text that is a bed count, or the empty text when none is. */
  function FirstBedCount(texts: seq<string>): (r: string)
    ensures r == "" <==> forall k :: 0 <= k < |texts| ==> !IsBedCount(texts[k])
    ensures r != "" ==> exists k :: 0 <= k < |texts| && texts[k] == r && IsBedCount(r) && NoBedCountBefore(texts, k)
  {
    if texts == [] then ""
    else if IsBedCount(texts[0]) then texts[0]
    else
      var r := FirstBedCount(texts[1..]);
      assert r != "" ==> exists k :: 1 <= k < |texts| && texts[k] == r && IsBedCount(r) && NoBedCountBefore(texts, k) by {
        if r != "" {
          var k :| 0 <= k < |texts[1..]| && texts[1..][k] == r && IsBedCount(r) && NoBedCountBefore(texts[1..], k);
          assert texts[k + 1] == r && NoBedCountBefore(texts, k + 1);
        }
      }
      r
  }

  /** `extract_beds`: scans the texts in order and returns at the first bed count. */
  method ExtractBeds(texts: seq<string>) returns (beds: string)
    ensures beds == FirstBedCount(texts)
  {
    var k := 0;
    while k < |texts|
      invariant 0 <= k <= |texts|
      invariant forall j :: 0 <= j < k ==> !IsBedCount(texts[j])
    {
      if IsDigits(texts[k]) && 0 < DigitsValue(texts[k]) < 10000 {
        FirstBedCountAt(texts, k);
        return texts[k];
      }
      k := k + 1;
    }
    return "";
  }

  /** When no text before position `k` is a bed count and text `k` is, it is the first bed count. */
  lemma {:induction false} FirstBedCountAt(texts: seq<string>, k: nat)
    requires k < |texts| && IsBedCount(texts[k])
    requires forall j :: 0 <= j < k ==> !IsBedCount(texts[j])
    ensures FirstBedCount(texts) == texts[k]
  {
    if k > 0 {
      FirstBedCountAt(texts[1..], k - 1);
    }
  }

  /** The text of `s` up to its first occurrence of `sep`, or all of it when there is none. */
  function CutAt(s: string, sep: string): (r: string)
    requires |sep| > 0
    ensures IsPrefix(r, s) && !Contains(r, sep)
    ensures |r| == |s| || IsPrefix(sep, s[|r|..])
  {
    match FindFirst(s, sep)
    case None => s
    case Some(j) =>
      NoOccurrenceBefore(s, sep, j);
      s[..j]
  }

  /** With no occurrence of `sep` starting before `j`, the first `j` characters hold none. */
  lemma NoOccurrenceBefore(s: string, sep: string, j: nat)
    requires |sep| > 0 && j <= |s|
    requires forall k :: 0 <= k < j ==> !IsPrefix(sep, s[k..])
    ensures !Contains(s[..j], sep)
  {
    ContainsAt(s[..j], sep);
    forall k | 0 <= k <= j ensures !IsPrefix(sep, s[..j][k..]) {
      if k < j && |sep| <= j - k {
        assert s[..j][k..][..|sep|] == s[k..][..|sep|];
      }
    }
  }

  const LidMarker := "LID="

  /** Position `i` holds the first "LID=" of `href`. */
  predicate FirstMarker(href: string, i: nat) {
    i <= |href| && IsPrefix(LidMarker, href[i..]) && forall k :: 0 <= k < i ==> !IsPrefix(LidMarker, href[k..])
  }

  /** `r` is what `href` holds from `start` on, up to the end, an '&' or another "LID=". */
  predicate IdAfter(href: string, start: nat, r: string) {
    && start + |r| <= |href|
    && href[start..start + |r|] == r
    && (start + |r| == |href| || href[start + |r|] == '&' || IsPrefix(LidMarker, href[start + |r|..]))
  }

  /**
   * The license id inside an `href` that contains "LID=": the text after the
   * first "LID=", cut at the next "LID=" and then at the first '&'. It holds
   * neither, and it ends where the `href` does or at an '&' or a "LID=".
   */
  function IdFromHref(href: string): (r: string)
    requires Contains(href, LidMarker)
    ensures !Contains(r, "&") && !Contains(r, LidMarker)
    ensures exists i: nat :: i + |LidMarker| <= |href| && FirstMarker(href, i) && IdAfter(href, i + |LidMarker|, r)
  {
    var i := FindFirst(href, LidMarker).value;
    var rest := href[i + |LidMarker|..];
    var segment := CutAt(rest, LidMarker);
    var r := CutAt(segment, "&");
    IdFromHrefFacts(href, i, segment, r);
    r
  }

  lemma IdFromHrefFacts(href: string, i: nat, segment: string, r: string)
    requires i + |LidMarker| <= |href| && FirstMarker(href, i)
    requires segment == CutAt(href[i + |LidMarker|..], LidMarker) && r == CutAt(segment, "&")
    ensures !Contains(r, LidMarker)
    ensures IdAfter(href, i + |LidMarker|, r)
  {
    var start := i + |LidMarker|;
    var rest := href[start..];
    NotContainsPrefix(segment, |r|, LidMarker);
    assert r == segment[..|r|];
    assert href[start..start + |r|] == rest[..|r|] == r;
    if |r| < |segment| {
      assert segment[|r|..][..1] == "&";
      assert href[start + |r|] == segment[|r|];
    } else if |segment| < |rest| {
      assert rest[|segment|..] == href[start + |r|..];
    }
  }

  /**
   * `extract_license_id`: with a link whose `href` contains "LID=", the id
   * that href carries; otherwise the empty text.
   */
  function ExtractLicenseId(cell: HtmlCell): (r: string)
    ensures !Contains(r, "&") && !Contains(r, LidMarker)
    ensures cell.link.None? || cell.link.value.href.None? || !Contains(cell.link.value.href.value, LidMarker) ==> r == ""
    ensures cell.link.Some? && cell.link.value.href.Some? && Contains(cell.link.value.href.value, LidMarker) ==>
      var href := cell.link.value.href.value;
      exists i: nat :: i + |LidMarker| <= |href| && FirstMarker(href, i) && IdAfter(href, i + |LidMarker|, r)
  {
    var href := if cell.link.Some? && cell.link.value.href.Some? then cell.link.value.href.value else "";
    if Contains(href, LidMarker) then IdFromHref(href) else ""
  }

  // ---- records -----------------------------------------------------------

  /** Cell text `k`, or `default` when the row is shorter. */
  function TextAt(texts: seq<string>, k: nat, default: string): string {
    if |texts| > k then texts[k] else default
  }

  /**
   * The record of a matching row. The phone number comes from the given
   * extractor; the other fields are read from the cells.
   */
  function RowRecord(cells: seq<HtmlCell>, addressIdx: nat, phone: seq<string> -> string): (r: FacilityInfo)
    requires |cells| >= 2
    ensures var texts := Texts(cells);
      && r.ahcaNumber == texts[0] && r.name == texts[1]
      && r.facilityType == (if |texts| > 2 then texts[2] else DefaultFacilityType)
      && r.phoneNumber == phone(texts) && r.licensedBeds == FirstBedCount(texts)
      && r.licenseId == ExtractLicenseId(cells[1])
      && r.streetAddress == (if |texts| > addressIdx then texts[addressIdx] else "")
      && r.streetCity == (if |texts| > addressIdx + 1 then texts[addressIdx + 1] else "")
      && r.streetZip == (if |texts| > addressIdx + 2 then texts[addressIdx + 2] else "")
      && r.streetState == "FL"
  {
    var texts := Texts(cells);
    FacilityInfo(
      TextAt(texts, 1, ""),
      TextAt(texts, 2, DefaultFacilityType),
      TextAt(texts, 0, ""),
      phone(texts),
      FirstBedCount(texts),
      ExtractLicenseId(cells[1]),
      TextAt(texts, addressIdx, ""),
      TextAt(texts, addressIdx + 1, ""),
      TextAt(texts, addressIdx + 2, ""),
      "FL")
  }

  /** The records of the matching rows among `rows`, in row order. */
  function RowsRecords(rows: seq<seq<HtmlCell>>, facilityName: string, addressIdx: nat, phone: seq<string> -> string): seq<FacilityInfo>
  {
    if rows == [] then []
    else
      var last := rows[|rows| - 1];
      RowsRecords(rows[..|rows| - 1], facilityName, addressIdx, phone)
        + (if RowMatches(last, facilityName) then [RowRecord(last, addressIdx, phone)] else [])
  }

  /** The records of one table. */
  function TableRecords(t: HtmlTable, facilityName: string, phone: seq<string> -> string): seq<FacilityInfo> {
    RowsRecords(DataRows(t), facilityName, AddressIndex(Headers(t)), phone)
  }

  /** The records of all tables, table by table. */
  function TablesRecords(tables: seq<HtmlTable>, facilityName: string, phone: seq<string> -> string): seq<FacilityInfo> {
    if tables == [] then []
    else TablesRecords(tables[..|tables| - 1], facilityName, phone) + TableRecords(tables[|tables| - 1], facilityName, phone)
  }

  /**
   * The inner step of `parse_table` for one row: skip a row of fewer than
   * two cells, look for the searched name in its texts, and build the
   * record of a row that mentions it.
   */
  method ParseRow(cells: seq<HtmlCell>, facilityName: string, addressIdx: nat, phone: seq<string> -> string)
    returns (record: Option<FacilityInfo>)
    ensures record.Some? <==> RowMatches(cells, facilityName)
    ensures record.Some? ==> record.value == RowRecord(cells, addressIdx, phone)
  {
    if |cells| < 2 {
      return None;
    }
    var texts := Texts(cells);
    var found := AnyMentions(texts, Lower(facilityName));
    if !found {
      return None;
    }
    var beds := ExtractBeds(texts);
    record := Some(FacilityInfo(
      if |texts| > 1 then texts[1] else "",
      if |texts| > 2 then texts[2] else DefaultFacilityType,
      if |texts| > 0 then texts[0] else "",
      phone(texts),
      beds,
      ExtractLicenseId(cells[1]),
      if |texts| > addressIdx then texts[addressIdx] else "",
      if |texts| > addressIdx + 1 then texts[addressIdx + 1] else "",
      if |texts| > addressIdx + 2 then texts[addressIdx + 2] else "",
      "FL"));
    assert record.value == RowRecord(cells, addressIdx, phone);
  }

  /** `any(name in text.lower() for text in texts)`, scanning until the first hit. */
  method AnyMentions(texts: seq<string>, lowered: string) returns (found: bool)
    ensures found <==> exists j :: 0 <= j < |texts| && Contains(Lower(texts[j]), lowered)
  {
    found := false;
    var k := 0;
    while k < |texts| && !found
      invariant 0 <= k <= |texts|
      invariant found <==> exists j :: 0 <= j < k && Contains(Lower(texts[j]), lowered)
    {
      found := Contains(Lower(texts[k]), lowered);
      k := k + 1;
    }
  }

  /**
   * `parse_table`: for each table in order, choose the address column,
   * skip the header row, and append a record for every row that matches
   * the searched name.
   */
  method ParseTable(tables: seq<HtmlTable>, facilityName: string, phone: seq<string> -> string)
    returns (facilities: seq<FacilityInfo>)
    ensures facilities == TablesRecords(tables, facilityName, phone)
  {
    facilities := [];
    var ti := 0;
    while ti < |tables|
      invariant 0 <= ti <= |tables|
      invariant facilities == TablesRecords(tables[..ti], facilityName, phone)
    {
      var table := tables[ti];
      var headers := Headers(table);
      var addressIdx := if headers != [] && "street address" in headers then IndexOf(headers, "street address").value else DefaultAddressIndex;
      var rows := DataRows(table);
      assert addressIdx == AddressIndex(Headers(table));
      var found := ParseRows(rows, facilityName, addressIdx, phone);
      facilities := facilities + found;
      TablesRecordsStep(tables, ti, facilityName, phone);
      ti := ti + 1;
    }
    assert tables[..|tables|] == tables;
  }

  /** The row loop of `parse_table` over the data rows of one table. */
  method ParseRows(rows: seq<seq<HtmlCell>>, facilityName: string, addressIdx: nat, phone: seq<string> -> string)
    returns (found: seq<FacilityInfo>)
    ensures found == RowsRecords(rows, facilityName, addressIdx, phone)
  {
    found := [];
    var ri := 0;
    while ri < |rows|
      invariant 0 <= ri <= |rows|
      invariant found == RowsRecords(rows[..ri], facilityName, addressIdx, phone)
    {
      RowsRecordsStep(rows, ri, facilityName, addressIdx, phone);
      var record := ParseRow(rows[ri], facilityName, addressIdx, phone);
      if record.Some? {
        found := found + [record.value];
      }
      ri := ri + 1;
    }
    assert rows[..|rows|] == rows;
  }

  lemma RowsRecordsStep(rows: seq<seq<HtmlCell>>, k: nat, facilityName: string, addressIdx: nat, phone: seq<string> -> string)
    requires k < |rows|
    ensures RowsRecords(rows[..k + 1], facilityName, addressIdx, phone) ==
      RowsRecords(rows[..k], facilityName, addressIdx, phone)
        + (if RowMatches(rows[k], facilityName) then [RowRecord(rows[k], addressIdx, phone)] else [])
  {
    assert rows[..k + 1][..k] == rows[..k];
  }

  lemma TablesRecordsStep(tables: seq<HtmlTable>, k: nat, facilityName: string, phone: seq<string> -> string)
    requires k < |tables|
    ensures TablesRecords(tables[..k + 1], facilityName, phone) ==
      TablesRecords(tables[..k], facilityName, phone) + TableRecords(tables[k], facilityName, phone)
  {
    assert tables[..k + 1][..k] == tables[..k];
  }

  // ---- properties of the records ----------------------------------------------

  /** The number of rows that may hold data, over all tables. */
  function TotalDataRows(tables: seq<HtmlTable>): nat {
    if tables == [] then 0 else TotalDataRows(tables[..|tables| - 1]) + |DataRows(tables[|tables| - 1])|
  }

  lemma {:induction false} RowsRecordsCount(rows: seq<seq<HtmlCell>>, facilityName: string, addressIdx: nat, phone: seq<string> -> string)
    ensures |RowsRecords(rows, facilityName, addressIdx, phone)| <= |rows|
  {
    if rows != [] {
      RowsRecordsCount(rows[..|rows| - 1], facilityName, addressIdx, phone);
    }
  }

  /** At most one record per data row: the records never outnumber the data rows. */
  lemma {:induction false} RecordsCount(tables: seq<HtmlTable>, facilityName: string, phone: seq<string> -> string)
    ensures |TablesRecords(tables, facilityName, phone)| <= TotalDataRows(tables)
  {
    if tables != [] {
      RecordsCount(tables[..|tables| - 1], facilityName, phone);
      var t := tables[|tables| - 1];
      RowsRecordsCount(DataRows(t), facilityName, AddressIndex(Headers(t)), phone);
    }
  }

  lemma {:induction false} RowsRecordsSource(rows: seq<seq<HtmlCell>>, facilityName: string, addressIdx: nat, phone: seq<string> -> string, x: FacilityInfo)
    requires x in RowsRecords(rows, facilityName, addressIdx, phone)
    ensures exists k :: 0 <= k < |rows| && RowMatches(rows[k], facilityName) && x == RowRecord(rows[k], addressIdx, phone)
  {
    var init := rows[..|rows| - 1];
    var last := rows[|rows| - 1];
    if x in RowsRecords(init, facilityName, addressIdx, phone) {
      RowsRecordsSource(init, facilityName, addressIdx, phone, x);
      var k :| 0 <= k < |init| && RowMatches(init[k], facilityName) && x == RowRecord(init[k], addressIdx, phone);
      assert rows[k] == init[k];
    } else {
      assert RowMatches(last, facilityName) && x == RowRecord(last, addressIdx, phone);
    }
  }

  /** `x` is the record of data row `k` of `t`, which matches the searched name. */
  predicate RecordOfRow(t: HtmlTable, k: nat, facilityName: string, phone: seq<string> -> string, x: FacilityInfo)
    requires k < |DataRows(t)|
  {
    RowMatches(DataRows(t)[k], facilityName) && x == RowRecord(DataRows(t)[k], AddressIndex(Headers(t)), phone)
  }

  /**
   * Every record is the record of a data row of some table that matches
   * the searched name, built with that table's address column.
   */
  lemma {:induction false} RecordSource(tables: seq<HtmlTable>, facilityName: string, phone: seq<string> -> string, x: FacilityInfo)
    requires x in TablesRecords(tables, facilityName, phone)
    ensures exists ti, k :: 0 <= ti < |tables| && 0 <= k < |DataRows(tables[ti])| && RecordOfRow(tables[ti], k, facilityName, phone, x)
  {
    var n := |tables| - 1;
    var init, t := tables[..n], tables[n];
    if x in TablesRecords(init, facilityName, phone) {
      RecordSource(init, facilityName, phone, x);
      var ti, k :| 0 <= ti < |init| && 0 <= k < |DataRows(init[ti])| && RecordOfRow(init[ti], k, facilityName, phone, x);
      assert tables[ti] == init[ti];
      assert RecordOfRow(tables[ti], k, facilityName, phone, x);
    } else {
      var rows := DataRows(t);
      assert x in RowsRecords(rows, facilityName, AddressIndex(Headers(t)), phone);
      RowsRecordsSource(rows, facilityName, AddressIndex(Headers(t)), phone, x);
      var k :| 0 <= k < |rows| && RowMatches(rows[k], facilityName) && x == RowRecord(rows[k], AddressIndex(Headers(t)), phone);
      assert RecordOfRow(tables[n], k, facilityName, phone, x);
    }
  }

  /** A matching data row always yields its record: no matching row is lost. */
  lemma {:induction false} RowsRecordsComplete(rows: seq<seq<HtmlCell>>, facilityName: string, addressIdx: nat, phone: seq<string> -> string, k: nat)
    requires k < |rows| && RowMatches(rows[k], facilityName)
    ensures RowRecord(rows[k], addressIdx, phone) in RowsRecords(rows, facilityName, addressIdx, phone)
  {
    if k < |rows| - 1 {
      RowsRecordsComplete(rows[..|rows| - 1], facilityName, addressIdx, phone, k);
    }
  }

  /** The records of the first tables are a prefix of the records of all of them. */
  lemma {:induction false} RecordsPrefix(tables: seq<HtmlTable>, m: nat, facilityName: string, phone: seq<string> -> string)
    requires m <= |tables|
    ensures TablesRecords(tables[..m], facilityName, phone) <= TablesRecords(tables, facilityName, phone)
    decreases |tables|
  {
    if m < |tables| {
      var n := |tables| - 1;
      assert tables[..n][..m] == tables[..m];
      RecordsPrefix(tables[..n], m, facilityName, phone);
      var a, b, c := TablesRecords(tables[..m], facilityName, phone), TablesRecords(tables[..n], facilityName, phone), TablesRecords(tables, facilityName, phone);
      assert c == b + TableRecords(tables[n], facilityName, phone);
      assert a == b[..|a|] && b == c[..|b|];
      assert a == c[..|a|];
    } else {
      assert tables[..m] == tables;
    }
  }

  /** The same for one table, with its own address column. */
  lemma TableRecordsComplete(t: HtmlTable, facilityName: string, phone: seq<string> -> string, k: nat)
    requires k < |DataRows(t)| && RowMatches(DataRows(t)[k], facilityName)
    ensures RowRecord(DataRows(t)[k], AddressIndex(Headers(t)), phone) in TableRecords(t, facilityName, phone)
  {
    RowsRecordsComplete(DataRows(t), facilityName, AddressIndex(Headers(t)), phone, k);
  }

  /**
   * Across all tables no matching row is lost either: every data row of any
   * table that matches the searched name yields its record, built with that
   * table's address column.
   */
  lemma RecordsComplete(tables: seq<HtmlTable>, facilityName: string, phone: seq<string> -> string, ti: nat, k: nat)
    requires ti < |tables| && k < |DataRows(tables[ti])| && RowMatches(DataRows(tables[ti])[k], facilityName)
    ensures RowRecord(DataRows(tables[ti])[k], AddressIndex(Headers(tables[ti])), phone) in TablesRecords(tables, facilityName, phone)
  {
    TableRecordsComplete(tables[ti], facilityName, phone, k);
    RecordsOfTable(tables, ti, facilityName, phone, RowRecord(DataRows(tables[ti])[k], AddressIndex(Headers(tables[ti])), phone));
  }

  /** A record of any one table is a record of all of them. */
  lemma RecordsOfTable(tables: seq<HtmlTable>, ti: nat, facilityName: string, phone: seq<string> -> string, x: FacilityInfo)
    requires ti < |tables| && x in TableRecords(tables[ti], facilityName, phone)
    ensures x in TablesRecords(tables, facilityName, phone)
  {
    TablesRecordsStep(tables, ti, facilityName, phone);
    RecordsPrefix(tables, ti + 1, facilityName, phone);
    InPrefix(x, TablesRecords(tables[..ti], facilityName, phone), TableRecords(tables[ti], facilityName, phone), TablesRecords(tables, facilityName, phone));
  }

  lemma InPrefix<T>(x: T, before: seq<T>, own: seq<T>, all: seq<T>)
    requires x in own && before + own <= all
    ensures x in all
  {
    var j :| 0 <= j < |own| && own[j] == x;
    assert (before + own)[|before| + j] == x;
  }

  // ---- fallback -----------------------------------------------------------

  /** `create_fallback_result`: one placeholder record carrying only the searched name. */
  function CreateFallbackResult(facilityName: string): (r: seq<FacilityInfo>)
    ensures |r| == 1 && r[0].name == facilityName
    ensures r[0].licensedBeds == "" && r[0].licenseId == "" && r[0].streetZip == "" && r[0].streetState == "FL"
  {
    [FacilityInfo(facilityName, DefaultFacilityType, "Not found", "Contact FL Health Department", "", "", "Florida", "Various", "", "FL")]
  }

  /** The placeholder depends on the searched name only through its name field. */
  lemma FallbackOnlyNameVaries(a: string, b: string)
    ensures CreateFallbackResult(a)[0].(name := b) == CreateFallbackResult(b)[0]
  {
  }
}
