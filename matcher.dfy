/**
 * The license reconciliation engine (`DataMatcher`): it compares a facility
 * table against a provider table and sorts the differences into licenses
 * whose expiration must be updated, licenses that are new for a known
 * facility name, and provider licenses that have expired without a
 * matching facility.
 */
module DataMatcher {
  import opened Wrappers
  import opened Text
  import opened Tables

  /** The source columns that hold a record's name, license number and expiration date. */
  datatype ColumnConfig = ColumnConfig(name: string, license: string, expiration: string)

  const FacilityColumns := ColumnConfig("Name", "License Number", "License Expiration Date")
  const ProviderColumns := ColumnConfig("NAME", "LICENSE_NB", "EXPIRATION_DATE")

  function Required(cfg: ColumnConfig): seq<string> {
    [cfg.name, cfg.license, cfg.expiration]
  }

  // Working columns the matcher adds, and the tags it writes.
  const NameKeyCol := "name_clean"
  const LicenseKeyCol := "license_clean"
  const FacilityDateCol := "facility_exp_date"
  const ProviderDateCol := "provider_exp_date"
  const WorkingColumns := [NameKeyCol, LicenseKeyCol, FacilityDateCol, ProviderDateCol]
  const TimestampCol := "match_timestamp"
  const CriteriaCol := "match_criteria"
  const UpdateCriteria := "name_and_license_match_with_exp_date_filter"
  const NewCriteria := "name_match_but_new_license"
  const ExpiredCriteria := "expired_license_not_in_facilities"

  /** The working columns are four different names. */
  lemma WorkingColumnsDistinct()
    ensures NameKeyCol != LicenseKeyCol
    ensures NameKeyCol != FacilityDateCol && NameKeyCol != ProviderDateCol
    ensures LicenseKeyCol != FacilityDateCol && LicenseKeyCol != ProviderDateCol
    ensures FacilityDateCol != ProviderDateCol
  {
    assert |NameKeyCol| == 10 && |LicenseKeyCol| == 13 && |FacilityDateCol| == 17 && |ProviderDateCol| == 17;
    assert FacilityDateCol[0] != ProviderDateCol[0];
  }

  /** The two stamp columns differ from each other and from every working column. */
  lemma StampColumnsDistinct()
    ensures TimestampCol != CriteriaCol
    ensures TimestampCol !in WorkingColumns && CriteriaCol !in WorkingColumns
  {
    assert |TimestampCol| == 15 && |CriteriaCol| == 14;
    assert |NameKeyCol| == 10 && |LicenseKeyCol| == 13 && |FacilityDateCol| == 17 && |ProviderDateCol| == 17;
  }

  /** A configuration whose source columns are not working columns of the matcher. */
  predicate ConfigOk(cfg: ColumnConfig) {
    cfg.name !in WorkingColumns && cfg.license !in WorkingColumns && cfg.expiration !in WorkingColumns
  }

  // ---- validation and summary -------------------------------------------

  /** The required columns of `cfg` that `t` lacks, in configuration order. */
  function MissingColumns(cfg: ColumnConfig, t: Table): (r: seq<string>)
    ensures forall c :: c in r <==> c in Required(cfg) && c !in t.columns
    ensures r == [] <==> forall c :: c in Required(cfg) ==> c in t.columns
    ensures r == (if cfg.name in t.columns then [] else [cfg.name])
      + ((if cfg.license in t.columns then [] else [cfg.license])
      + (if cfg.expiration in t.columns then [] else [cfg.expiration]))
  {
    var r := Filter(Required(cfg), c => c !in t.columns);
    assert r != [] ==> r[0] in r;
    FilterThree(cfg.name, cfg.license, cfg.expiration, c => c !in t.columns);
    r
  }

  /**
   * A run may proceed only when both tables are present and non-empty and
   * each has all three of its required columns.
   */
  function ValidateInput(facilities: Option<Table>, providers: Option<Table>): (ok: bool)
    ensures ok <==>
      && facilities.Some? && !Empty(facilities.value)
      && providers.Some? && !Empty(providers.value)
      && (forall c :: c in Required(FacilityColumns) ==> c in facilities.value.columns)
      && (forall c :: c in Required(ProviderColumns) ==> c in providers.value.columns)
  {
    if facilities.None? || Empty(facilities.value) then false
    else if providers.None? || Empty(providers.value) then false
    else if MissingColumns(FacilityColumns, facilities.value) != [] then false
    else if MissingColumns(ProviderColumns, providers.value) != [] then false
    else true
  }

  /** The readiness part of a summary, present only when both tables are given. */
  datatype Readiness = Readiness(
    facilityColumnsReady: bool,
    providerColumnsReady: bool,
    readyForMatching: bool,
    missingFacilityColumns: Option<seq<string>>,
    missingProviderColumns: Option<seq<string>>)

  datatype MatchingSummary = MatchingSummary(
    facilityRecords: nat,
    providerRecords: nat,
    facilityColumns: seq<string>,
    providerColumns: seq<string>,
    expectedFacilityColumns: seq<string>,
    expectedProviderColumns: seq<string>,
    readiness: Option<Readiness>)

  /**
   * What a caller can learn about two tables before matching them: their
   * sizes and columns, the expected columns, and, when both are given,
   * whether the required columns are there and which ones are missing.
   */
  function GetMatchingSummary(facilities: Option<Table>, providers: Option<Table>): (s: MatchingSummary)
    ensures s.facilityRecords == (if facilities.Some? then |facilities.value.rows| else 0)
    ensures s.providerRecords == (if providers.Some? then |providers.value.rows| else 0)
    ensures s.facilityColumns == (if facilities.Some? then facilities.value.columns else [])
    ensures s.providerColumns == (if providers.Some? then providers.value.columns else [])
    ensures s.expectedFacilityColumns == Required(FacilityColumns)
    ensures s.expectedProviderColumns == Required(ProviderColumns)
    ensures s.readiness.Some? <==> facilities.Some? && providers.Some?
    ensures s.readiness.Some? ==>
      var rd := s.readiness.value;
      && (rd.facilityColumnsReady <==> forall c :: c in Required(FacilityColumns) ==> c in facilities.value.columns)
      && (rd.providerColumnsReady <==> forall c :: c in Required(ProviderColumns) ==> c in providers.value.columns)
      && (rd.readyForMatching <==> rd.facilityColumnsReady && rd.providerColumnsReady)
      && (rd.missingFacilityColumns.Some? <==> !rd.facilityColumnsReady)
      && (rd.missingProviderColumns.Some? <==> !rd.providerColumnsReady)
      && (rd.missingFacilityColumns.Some? ==> rd.missingFacilityColumns.value == MissingColumns(FacilityColumns, facilities.value))
      && (rd.missingProviderColumns.Some? ==> rd.missingProviderColumns.value == MissingColumns(ProviderColumns, providers.value))
  {
    var readiness :=
      if facilities.Some? && providers.Some? then
        var fMissing := MissingColumns(FacilityColumns, facilities.value);
        var pMissing := MissingColumns(ProviderColumns, providers.value);
        Some(Readiness(
          fMissing == [], pMissing == [], fMissing == [] && pMissing == [],
          if fMissing == [] then None else Some(fMissing),
          if pMissing == [] then None else Some(pMissing)))
      else None;
    MatchingSummary(
      if facilities.Some? then |facilities.value.rows| else 0,
      if providers.Some? then |providers.value.rows| else 0,
      if facilities.Some? then facilities.value.columns else [],
      if providers.Some? then providers.value.columns else [],
      Required(FacilityColumns),
      Required(ProviderColumns),
      readiness)
  }

  /**
   * Validation and the summary agree: a run proceeds exactly when the
   * summary reports both tables ready and each has at least one record.
   */
  lemma ValidationAgreesWithSummary(facilities: Option<Table>, providers: Option<Table>)
    ensures var s := GetMatchingSummary(facilities, providers);
      ValidateInput(facilities, providers) <==>
        s.readiness.Some? && s.readiness.value.readyForMatching && s.facilityRecords > 0 && s.providerRecords > 0
  {
    if facilities.Some? && providers.Some? && |facilities.value.columns| == 0 {
      assert FacilityColumns.name in Required(FacilityColumns);
    }
    if facilities.Some? && providers.Some? && |providers.value.columns| == 0 {
      assert ProviderColumns.name in Required(ProviderColumns);
    }
  }

  // ---- normalization -------------------------------------------------------

  /**
   * One row with two key columns added: the name key is written first, and
   * the license key is computed from the row that already has it.
   */
  function AddKeys(r: Row, nameCol: string, licenseCol: string, nameKey: Cell -> Cell, licenseKey: Cell -> Cell): (x: Row)
    ensures x.Keys == r.Keys + {NameKeyCol, LicenseKeyCol}
    ensures forall c :: c in r && c != NameKeyCol && c != LicenseKeyCol ==> x[c] == r[c]
    ensures x[NameKeyCol] == nameKey(Get(r, nameCol))
    ensures licenseCol != NameKeyCol ==> x[LicenseKeyCol] == licenseKey(Get(r, licenseCol))
  {
    WorkingColumnsDistinct();
    var named := r[NameKeyCol := nameKey(Get(r, nameCol))];
    named[LicenseKeyCol := licenseKey(Get(named, licenseCol))]
  }

  /** One row as `_clean_data_for_matching` leaves it. */
  function CleanRow(r: Row, nameCol: string, licenseCol: string): (x: Row)
    ensures x.Keys == r.Keys + {NameKeyCol, LicenseKeyCol}
    ensures forall c :: c in r && c != NameKeyCol && c != LicenseKeyCol ==> x[c] == r[c]
    ensures x[NameKeyCol] == NameCell(Get(r, nameCol))
    ensures licenseCol != NameKeyCol ==> x[LicenseKeyCol] == LicenseCell(Get(r, licenseCol))
  {
    AddKeys(r, nameCol, licenseCol, NameCell, LicenseCell)
  }

  /** The `name_clean` value of a name cell. */
  function NameCell(c: Cell): (r: Cell)
    ensures r.Str?
  {
    Str(NameKey(AsStr(c)))
  }

  /** The `license_clean` value of a license cell. */
  function LicenseCell(c: Cell): (r: Cell)
    ensures r.Str?
  {
    Str(LicenseKey(AsStr(c)))
  }

  /**
   * A copy of the table with `name_clean` and `license_clean` added: every
   * other cell and the row count are unchanged, and the keys are the
   * normalized texts of the name and license cells.
   */
  function CleanForMatching(t: Table, nameCol: string, licenseCol: string): (r: Table)
    requires Valid(t) && nameCol in t.columns && licenseCol in t.columns
    ensures Valid(r)
    ensures r.columns == WithName(WithName(t.columns, NameKeyCol), LicenseKeyCol)
    ensures |r.rows| == |t.rows|
    ensures forall i :: 0 <= i < |t.rows| ==> r.rows[i] == CleanRow(t.rows[i], nameCol, licenseCol)
  {
    var cols := WithName(WithName(t.columns, NameKeyCol), LicenseKeyCol);
    var rows := seq(|t.rows|, i requires 0 <= i < |t.rows| => CleanRow(t.rows[i], nameCol, licenseCol));
    Table(cols, rows)
  }

  /** Cleaning adds the two key columns and changes no other cell. */
  lemma CleanAddsKeys(t: Table, nameCol: string, licenseCol: string, i: int)
    requires Valid(t) && nameCol in t.columns && licenseCol in t.columns
    requires nameCol != NameKeyCol && licenseCol != NameKeyCol
    requires 0 <= i < |t.rows|
    ensures var r := CleanForMatching(t, nameCol, licenseCol);
      && (forall c :: c in t.rows[i] && c != NameKeyCol && c != LicenseKeyCol ==> r.rows[i][c] == t.rows[i][c])
      && r.rows[i][NameKeyCol] == Str(NameKey(AsStr(t.rows[i][nameCol])))
      && r.rows[i][LicenseKeyCol] == Str(LicenseKey(AsStr(t.rows[i][licenseCol])))
      && IsNameKey(r.rows[i][NameKeyCol].s)
      && IsLicenseKey(r.rows[i][LicenseKeyCol].s)
  {
    NameKeyNormalized(AsStr(t.rows[i][nameCol]));
    LicenseKeyNormalized(AsStr(t.rows[i][licenseCol]));
  }

  /** `pd.to_datetime(..., errors="coerce")` on a cell that already holds a date: dates stay, the rest becomes missing. */
  function ParsedDate(c: Cell): (r: Cell)
    ensures r.When? || r.Null?
    ensures r.When? ==> r == c
  {
    if c.When? then c else Null
  }

  /** The table with a column `dateCol` holding the parsed dates of column `expCol`. */
  function AddParsedDates(t: Table, expCol: string, dateCol: string): (r: Table)
    requires Valid(t)
    ensures Valid(r)
    ensures r.columns == WithName(t.columns, dateCol)
    ensures |r.rows| == |t.rows|
    ensures forall i :: 0 <= i < |t.rows| ==> r.rows[i] == t.rows[i][dateCol := ParsedDate(Get(t.rows[i], expCol))]
  {
    var cols := WithName(t.columns, dateCol);
    var rows := seq(|t.rows|, i requires 0 <= i < |t.rows| => t.rows[i][dateCol := ParsedDate(Get(t.rows[i], expCol))]);
    assert forall i :: 0 <= i < |t.rows| ==> rows[i].Keys == ColumnSet(cols);
    Table(cols, rows)
  }

  predicate HasKeys(r: Row) {
    Get(r, NameKeyCol) != Null && Get(r, LicenseKeyCol) != Null
  }

  /** `dropna(subset=["name_clean", "license_clean"])`. */
  function DropMissingKeys(t: Table): Table {
    Table(t.columns, Filter(t.rows, HasKeys))
  }

  /** The comparison key pair of a row. */
  function KeyOf(r: Row): (Cell, Cell) {
    (Get(r, NameKeyCol), Get(r, LicenseKeyCol))
  }

  /** One row of a prepared side: keys added, then the parsed expiration date. */
  function PrepareRow(r: Row, cfg: ColumnConfig, dateCol: string): Row {
    var cleaned := CleanRow(r, cfg.name, cfg.license);
    cleaned[dateCol := ParsedDate(Get(cleaned, cfg.expiration))]
  }

  lemma PreparedRowHasKeys(r: Row, cfg: ColumnConfig, dateCol: string)
    requires dateCol == FacilityDateCol || dateCol == ProviderDateCol
    ensures HasKeys(PrepareRow(r, cfg, dateCol))
  {
    WorkingColumnsDistinct();
    var cleaned := CleanRow(r, cfg.name, cfg.license);
    assert cleaned[NameKeyCol].Str? && cleaned[LicenseKeyCol].Str?;
  }

  /**
   * One side made ready for matching: keys added, expiration parsed into
   * `dateCol`, rows without keys dropped. The keys are text, so no row is
   * dropped: the prepared table has one prepared row for every input row.
   */
  function PrepareSide(t: Table, cfg: ColumnConfig, dateCol: string): (r: Table)
    requires Valid(t) && cfg.name in t.columns && cfg.license in t.columns
    requires dateCol == FacilityDateCol || dateCol == ProviderDateCol
    ensures Valid(r)
    ensures r.columns == WithName(WithName(WithName(t.columns, NameKeyCol), LicenseKeyCol), dateCol)
    ensures |r.rows| == |t.rows|
    ensures forall i :: 0 <= i < |t.rows| ==> r.rows[i] == PrepareRow(t.rows[i], cfg, dateCol)
  {
    var cleaned := CleanForMatching(t, cfg.name, cfg.license);
    var dated := AddParsedDates(cleaned, cfg.expiration, dateCol);
    assert forall i :: 0 <= i < |t.rows| ==> dated.rows[i] == PrepareRow(t.rows[i], cfg, dateCol);
    forall i | 0 <= i < |t.rows| ensures HasKeys(dated.rows[i]) {
      PreparedRowHasKeys(t.rows[i], cfg, dateCol);
    }
    FilterKeepsAll(dated.rows, HasKeys);
    DropMissingKeys(dated)
  }

  /**
   * A prepared row keeps every source cell, carries the normalized keys of
   * its name and license cells and the parsed date of its expiration cell.
   */
  lemma PreparedRowContents(r: Row, cfg: ColumnConfig, dateCol: string)
    requires ConfigOk(cfg) && dateCol in WorkingColumns[2..]
    ensures var x := PrepareRow(r, cfg, dateCol);
      && (forall c :: c in r && c !in WorkingColumns ==> c in x && x[c] == r[c])
      && KeyOf(x) == (Str(NameKey(AsStr(Get(r, cfg.name)))), Str(LicenseKey(AsStr(Get(r, cfg.license)))))
      && x[dateCol] == ParsedDate(Get(r, cfg.expiration))
      && IsNameKey(x[NameKeyCol].s) && IsLicenseKey(x[LicenseKeyCol].s)
  {
    NameKeyNormalized(AsStr(Get(r, cfg.name)));
    LicenseKeyNormalized(AsStr(Get(r, cfg.license)));
  }

  /** Both prepared tables: the facility side and the provider side. */
  function PrepareForMatching(facilities: Table, providers: Table): (Table, Table)
    requires Valid(facilities) && FacilityColumns.name in facilities.columns && FacilityColumns.license in facilities.columns
    requires Valid(providers) && ProviderColumns.name in providers.columns && ProviderColumns.license in providers.columns
  {
    (PrepareSide(facilities, FacilityColumns, FacilityDateCol), PrepareSide(providers, ProviderColumns, ProviderDateCol))
  }

  // ---- merging on the key pair ----------------------------------------------

  predicate IsKeyCol(c: string) {
    c == NameKeyCol || c == LicenseKeyCol
  }

  /** The columns of one side that are not join keys, in order. */
  function NonKey(cols: seq<string>): (r: seq<string>)
    ensures forall c :: c in r <==> c in cols && !IsKeyCol(c)
  {
    Filter(cols, c => !IsKeyCol(c))
  }

  /** The name a left column takes in `pd.merge`: a non-key name both sides have gets the left suffix. */
  function LeftName(c: string, right: seq<string>, suffix: string): string {
    if !IsKeyCol(c) && c in right then c + suffix else c
  }

  /** The name a non-key right column takes in `pd.merge`. */
  function RightName(c: string, left: seq<string>, suffix: string): string {
    if c in left then c + suffix else c
  }

  /** The columns of a merge on the key pair: the left columns, then the right non-key columns. */
  function MergedColumns(left: seq<string>, right: seq<string>, ls: string, rs: string): (r: seq<string>)
    ensures |r| == |left| + |NonKey(right)|
  {
    MapSeq(left, c => LeftName(c, right, ls)) + MapSeq(NonKey(right), c => RightName(c, left, rs))
  }

  /** One merged row: the left row's cells, then the right row's non-key cells, under the merged names. */
  function MergeRow(l: Row, r: Row, left: seq<string>, right: seq<string>, ls: string, rs: string): (m: Row)
    ensures m.Keys == ColumnSet(MergedColumns(left, right, ls, rs))
  {
    RowOf(MergedColumns(left, right, ls, rs), MergeCells(l, r, left, right))
  }

  /** The cells of a merged row, in merged-column order. */
  function MergeCells(l: Row, r: Row, left: seq<string>, right: seq<string>): (m: seq<Cell>)
    ensures |m| == |left| + |NonKey(right)|
  {
    MapSeq(left, c => Get(l, c)) + MapSeq(NonKey(right), c => Get(r, c))
  }

  /** A left column whose name the merge keeps holds the left row's cell. */
  lemma MergedLeftCell(l: Row, r: Row, left: seq<string>, right: seq<string>, ls: string, rs: string, c: string)
    requires Distinct(MergedColumns(left, right, ls, rs))
    requires c in left && (IsKeyCol(c) || c !in right)
    ensures c in MergeRow(l, r, left, right, ls, rs) && MergeRow(l, r, left, right, ls, rs)[c] == Get(l, c)
  {
    var k :| 0 <= k < |left| && left[k] == c;
    assert MergedColumns(left, right, ls, rs)[k] == LeftName(c, right, ls) == c;
    assert MergeCells(l, r, left, right)[k] == Get(l, c);
    MergedRead(l, r, left, right, ls, rs, k);
  }

  /** A right non-key column the left side lacks holds the right row's cell. */
  lemma MergedRightCell(l: Row, r: Row, left: seq<string>, right: seq<string>, ls: string, rs: string, c: string)
    requires Distinct(MergedColumns(left, right, ls, rs))
    requires c in right && !IsKeyCol(c) && c !in left
    ensures c in MergeRow(l, r, left, right, ls, rs) && MergeRow(l, r, left, right, ls, rs)[c] == Get(r, c)
  {
    var nk := NonKey(right);
    var k :| 0 <= k < |nk| && nk[k] == c;
    MergedRightAt(l, r, left, right, ls, rs, k);
    assert RightName(c, left, rs) == c;
    MergedRead(l, r, left, right, ls, rs, |left| + k);
  }

  /** The merged name and cell at the `k`-th right non-key column. */
  lemma MergedRightAt(l: Row, r: Row, left: seq<string>, right: seq<string>, ls: string, rs: string, k: nat)
    requires k < |NonKey(right)|
    ensures MergedColumns(left, right, ls, rs)[|left| + k] == RightName(NonKey(right)[k], left, rs)
    ensures MergeCells(l, r, left, right)[|left| + k] == Get(r, NonKey(right)[k])
  {
  }

  /** With distinct merged names, the merged row holds each merged cell under its own name. */
  lemma MergedRead(l: Row, r: Row, left: seq<string>, right: seq<string>, ls: string, rs: string, i: nat)
    requires Distinct(MergedColumns(left, right, ls, rs)) && i < |left| + |NonKey(right)|
    ensures var names := MergedColumns(left, right, ls, rs);
      names[i] in MergeRow(l, r, left, right, ls, rs) && MergeRow(l, r, left, right, ls, rs)[names[i]] == MergeCells(l, r, left, right)[i]
  {
    var names, cells := MergedColumns(left, right, ls, rs), MergeCells(l, r, left, right);
    assert MergeRow(l, r, left, right, ls, rs) == RowOf(names, cells);
    RowOfGet(names, cells, i);
  }

  /** A merged row carries the left row's key pair. */
  lemma MergedKeys(l: Row, r: Row, left: seq<string>, right: seq<string>, ls: string, rs: string)
    requires Distinct(MergedColumns(left, right, ls, rs))
    requires NameKeyCol in left && LicenseKeyCol in left
    ensures KeyOf(MergeRow(l, r, left, right, ls, rs)) == KeyOf(l)
  {
    MergedLeftCell(l, r, left, right, ls, rs, NameKeyCol);
    MergedLeftCell(l, r, left, right, ls, rs, LicenseKeyCol);
  }

  // ---- pairing rows -------------------------------------------------------------

  predicate Increasing(s: seq<nat>) {
    forall a, b :: 0 <= a < b < |s| ==> s[a] < s[b]
  }

  /** The positions in `rows` from `from` on whose key pair is `key`, in order. */
  function MatchesFrom(key: (Cell, Cell), rows: seq<Row>, from: nat): (r: seq<nat>)
    requires from <= |rows|
    ensures forall j :: j in r <==> from <= j < |rows| && KeyOf(rows[j]) == key
    ensures Increasing(r)
    decreases |rows| - from
  {
    if from == |rows| then []
    else
      var rest := MatchesFrom(key, rows, from + 1);
      var r := (if KeyOf(rows[from]) == key then [from] else []) + rest;
      assert forall b :: 0 <= b < |rest| ==> rest[b] > from by {
        forall b | 0 <= b < |rest| ensures rest[b] > from {
          assert rest[b] in rest;
        }
      }
      r
  }

  /** Pairs in the order of their left position, then their right position. */
  predicate LexIncreasing(s: seq<(nat, nat)>) {
    forall a, b :: 0 <= a < b < |s| ==> LexLess(s[a], s[b])
  }

  /** Each right position `j` paired with a fixed left position `i`. */
  function PairWith(i: nat, js: seq<nat>): (r: seq<(nat, nat)>)
    ensures |r| == |js|
    ensures forall k :: 0 <= k < |js| ==> r[k] == (i, js[k])
  {
    MapSeq(js, j => (i, j))
  }

  /**
   * The row pairs of an inner merge, from left position `from` on: for each
   * left row in order, its matches among the right rows in order.
   */
  function PairsFrom(left: seq<Row>, right: seq<Row>, from: nat): (r: seq<(nat, nat)>)
    requires from <= |left|
    ensures forall i, j :: (i, j) in r <==> from <= i < |left| && 0 <= j < |right| && KeyOf(left[i]) == KeyOf(right[j])
    ensures forall k :: 0 <= k < |r| ==> from <= r[k].0 < |left| && r[k].1 < |right|
    ensures LexIncreasing(r)
    decreases |left| - from
  {
    if from == |left| then []
    else
      var ms := MatchesFrom(KeyOf(left[from]), right, 0);
      var head := PairWith(from, ms);
      var rest := PairsFrom(left, right, from + 1);
      PairsStepMembers(left, right, from, ms, rest);
      PairsStepBounds(left, right, from, ms, rest);
      ConcatLexIncreasing(from, ms, rest);
      head + rest
  }

  /** The pairs of one left position, then those of the later ones, are all the equal-key pairs from it on. */
  lemma PairsStepMembers(left: seq<Row>, right: seq<Row>, from: nat, ms: seq<nat>, rest: seq<(nat, nat)>)
    requires from < |left|
    requires forall j :: j in ms <==> 0 <= j < |right| && KeyOf(right[j]) == KeyOf(left[from])
    requires forall i, j :: (i, j) in rest <==> from + 1 <= i < |left| && 0 <= j < |right| && KeyOf(left[i]) == KeyOf(right[j])
    ensures forall i, j :: (i, j) in PairWith(from, ms) + rest <==>
      from <= i < |left| && 0 <= j < |right| && KeyOf(left[i]) == KeyOf(right[j])
  {
    var head := PairWith(from, ms);
    forall i, j ensures (i, j) in head <==> i == from && j in ms {
      if (i, j) in head {
        var k :| 0 <= k < |head| && head[k] == (i, j);
        assert ms[k] == j;
      }
      if i == from && j in ms {
        var k :| 0 <= k < |ms| && ms[k] == j;
        assert head[k] == (i, j);
      }
    }
  }

  /** The same pairs stay within both row ranges. */
  lemma PairsStepBounds(left: seq<Row>, right: seq<Row>, from: nat, ms: seq<nat>, rest: seq<(nat, nat)>)
    requires from < |left|
    requires forall j :: j in ms ==> j < |right|
    requires forall k :: 0 <= k < |rest| ==> from + 1 <= rest[k].0 < |left| && rest[k].1 < |right|
    ensures var r := PairWith(from, ms) + rest; forall k :: 0 <= k < |r| ==> from <= r[k].0 < |left| && r[k].1 < |right|
  {
    var head := PairWith(from, ms);
    forall k | 0 <= k < |head| ensures head[k].1 < |right| {
      assert head[k].1 == ms[k] && ms[k] in ms;
    }
  }

  /** One left position's pairs, then pairs of later left positions, stay in order. */
  lemma ConcatLexIncreasing(i: nat, js: seq<nat>, rest: seq<(nat, nat)>)
    requires Increasing(js) && LexIncreasing(rest)
    requires forall k :: 0 <= k < |rest| ==> i < rest[k].0
    ensures LexIncreasing(PairWith(i, js) + rest)
  {
    var head := PairWith(i, js);
    var r := head + rest;
    forall a, b | 0 <= a < b < |r| ensures LexLess(r[a], r[b]) {
      if b < |head| {
        assert r[a] == (i, js[a]) && r[b] == (i, js[b]);
      } else if a < |head| {
        assert r[a] == (i, js[a]) && r[b] == rest[b - |head|];
      } else {
        assert r[a] == rest[a - |head|] && r[b] == rest[b - |head|];
      }
    }
  }

  predicate LexLess(a: (nat, nat), b: (nat, nat)) {
    a.0 < b.0 || (a.0 == b.0 && a.1 < b.1)
  }

  /** Filtering keeps pairs in order. */
  lemma {:induction false} FilterLexIncreasing(s: seq<(nat, nat)>, p: ((nat, nat)) -> bool)
    requires LexIncreasing(s)
    ensures LexIncreasing(Filter(s, p))
  {
    if s != [] {
      var rest := Filter(s[1..], p);
      assert LexIncreasing(s[1..]);
      FilterLexIncreasing(s[1..], p);
      forall x | x in rest ensures LexLess(s[0], x) {
        var k :| 0 <= k < |s[1..]| && s[1..][k] == x;
        assert s[k + 1] == x;
      }
      var r := Filter(s, p);
      if p(s[0]) {
        assert r == [s[0]] + rest;
        forall a, b | 0 <= a < b < |r| ensures LexLess(r[a], r[b]) {
          if a > 0 {
            assert r[a] == rest[a - 1] && r[b] == rest[b - 1];
          } else {
            assert r[b] == rest[b - 1] && r[b] in rest;
          }
        }
      } else {
        assert r == rest;
      }
    }
  }

  /**
   * The row pairs of an inner merge of `left` with `right` on the key pair:
   * every pair with equal keys, in left order and then right order.
   */
  function InnerPairs(left: seq<Row>, right: seq<Row>): (r: seq<(nat, nat)>)
    ensures forall i, j :: (i, j) in r <==> 0 <= i < |left| && 0 <= j < |right| && KeyOf(left[i]) == KeyOf(right[j])
    ensures forall k :: 0 <= k < |r| ==> r[k].0 < |left| && r[k].1 < |right|
    ensures LexIncreasing(r)
  {
    PairsFrom(left, right, 0)
  }

  /** The merged row of one pair of an inner merge, facility on the left. */
  function MergePair(f: Table, p: Table, pr: (nat, nat)): Row {
    if pr.0 < |f.rows| && pr.1 < |p.rows| then
      MergeRow(f.rows[pr.0], p.rows[pr.1], f.columns, p.columns, "_facility", "_provider")
    else map[]
  }

  /** `MergePair` as a function value, so every use names the same one. */
  function Merger(f: Table, p: Table): ((nat, nat)) -> Row {
    pr => MergePair(f, p, pr)
  }

  // ---- update licenses ------------------------------------------------------

  /** Why a stage raised in the original program. */
  datatype MatchError =
    | KeyError(column: string)   // a working column was renamed by a suffix
    | MergeError                 // the suffixes would give two columns one name
    | IndicatorClash             // a table already has a column the merge indicator needs

  /** A merged row whose facility date is present and strictly later than its present provider date. */
  predicate Supersedes(m: Row) {
    var fd, pd := Get(m, FacilityDateCol), Get(m, ProviderDateCol);
    fd.When? && pd.When? && Before(pd.d, fd.d)
  }

  /** The same test, read off the two rows of a pair before merging. */
  predicate SupersedesPair(f: Table, p: Table, pr: (nat, nat)) {
    pr.0 < |f.rows| && pr.1 < |p.rows| &&
    var fd, pd := Get(f.rows[pr.0], FacilityDateCol), Get(p.rows[pr.1], ProviderDateCol);
    fd.When? && pd.When? && Before(pd.d, fd.d)
  }

  function UpdateColumns(f: Table, p: Table): seq<string> {
    MergedColumns(f.columns, p.columns, "_facility", "_provider")
  }

  /**
   * `_find_update_licenses`: the inner merge of facilities with providers on
   * the key pair, kept where both dates are present and the facility date is
   * later. A merge with no rows gives the empty frame.
   */
  function FindUpdateLicenses(f: Table, p: Table): (r: Result<Table, MatchError>)
    ensures r.Ok? && r.value != EmptyFrame ==> r.value.columns == UpdateColumns(f, p)
    ensures r.Ok? ==> forall m :: m in r.value.rows ==> Supersedes(m)
  {
    var cols := UpdateColumns(f, p);
    if !Distinct(cols) then Err(MergeError)
    else
      var merged := MapSeq(InnerPairs(f.rows, p.rows), Merger(f, p));
      if Empty(Table(cols, merged)) then Ok(EmptyFrame)
      else if FacilityDateCol !in cols then Err(KeyError(FacilityDateCol))
      else if ProviderDateCol !in cols then Err(KeyError(ProviderDateCol))
      else Ok(Table(cols, Filter(merged, Supersedes)))
  }

  /** Both sides are rectangular and carry the key pair and their own date column. */
  predicate Matchable(f: Table, p: Table) {
    && Valid(f) && Valid(p)
    && NameKeyCol in f.columns && LicenseKeyCol in f.columns && FacilityDateCol in f.columns
    && NameKeyCol in p.columns && LicenseKeyCol in p.columns && ProviderDateCol in p.columns
  }

  /** Neither side has a column named after the other side's date column. */
  predicate NoDateClash(f: Table, p: Table) {
    FacilityDateCol !in p.columns && ProviderDateCol !in f.columns
  }

  /** The date test on a merged row is the date test on the pair it came from. */
  lemma SupersedesMerged(f: Table, p: Table, pr: (nat, nat))
    requires Matchable(f, p) && NoDateClash(f, p) && Distinct(UpdateColumns(f, p))
    requires pr.0 < |f.rows| && pr.1 < |p.rows|
    ensures Supersedes(MergePair(f, p, pr)) == SupersedesPair(f, p, pr)
  {
    WorkingColumnsDistinct();
    var l, r := f.rows[pr.0], p.rows[pr.1];
    MergedLeftCell(l, r, f.columns, p.columns, "_facility", "_provider", FacilityDateCol);
    MergedRightCell(l, r, f.columns, p.columns, "_facility", "_provider", ProviderDateCol);
  }

  /** Without a date clash both date columns keep their names in the merge. */
  lemma UpdateColumnsKeepDates(f: Table, p: Table)
    requires Matchable(f, p) && NoDateClash(f, p) && Distinct(UpdateColumns(f, p))
    ensures FacilityDateCol in UpdateColumns(f, p) && ProviderDateCol in UpdateColumns(f, p)
  {
    WorkingColumnsDistinct();
    MergedLeftCell(map[], map[], f.columns, p.columns, "_facility", "_provider", FacilityDateCol);
    MergedRightCell(map[], map[], f.columns, p.columns, "_facility", "_provider", ProviderDateCol);
  }

  /**
   * The pairs an update keeps: every (facility, provider) pair with equal
   * key pairs whose facility date is present and strictly later than the
   * present provider date. Equal or missing dates are excluded, and a key
   * shared by several rows on both sides fans out into every combination.
   * They come in facility order and then provider order.
   */
  function UpdatePairs(f: Table, p: Table): (r: seq<(nat, nat)>)
    ensures forall i, j :: (i, j) in r <==>
      && 0 <= i < |f.rows| && 0 <= j < |p.rows|
      && KeyOf(f.rows[i]) == KeyOf(p.rows[j])
      && Get(f.rows[i], FacilityDateCol).When? && Get(p.rows[j], ProviderDateCol).When?
      && Before(Get(p.rows[j], ProviderDateCol).d, Get(f.rows[i], FacilityDateCol).d)
    ensures LexIncreasing(r)
  {
    FilterLexIncreasing(InnerPairs(f.rows, p.rows), pr => SupersedesPair(f, p, pr));
    Filter(InnerPairs(f.rows, p.rows), pr => SupersedesPair(f, p, pr))
  }

  /**
   * The update set exactly: the merged rows of the kept pairs, in facility
   * order and then provider order.
   */
  lemma UpdateLicensesExact(f: Table, p: Table)
    requires Matchable(f, p) && NoDateClash(f, p) && Distinct(UpdateColumns(f, p))
    requires InnerPairs(f.rows, p.rows) != []
    ensures FindUpdateLicenses(f, p) == Ok(Table(UpdateColumns(f, p), MapSeq(UpdatePairs(f, p), Merger(f, p))))
  {
    var pairs := InnerPairs(f.rows, p.rows);
    var merge := Merger(f, p);
    forall pr | pr in pairs
      ensures Supersedes(merge(pr)) == SupersedesPair(f, p, pr)
    {
      SupersedesMerged(f, p, pr);
    }
    FilterMapSeq(pairs, merge, pr => SupersedesPair(f, p, pr), Supersedes);
    UpdateColumnsKeepDates(f, p);
  }


  // ---- new licenses -----------------------------------------------------------

  /** `set(providers["name_clean"].unique())`. */
  function ProviderNames(p: Table): (r: set<Cell>)
    ensures forall c :: c in r <==> exists j :: 0 <= j < |p.rows| && KeyOf(p.rows[j]).0 == c
  {
    set j | 0 <= j < |p.rows| :: KeyOf(p.rows[j]).0
  }

  /** `set(providers["license_clean"].unique())`. */
  function ProviderLicenses(p: Table): (r: set<Cell>)
    ensures forall c :: c in r <==> exists j :: 0 <= j < |p.rows| && KeyOf(p.rows[j]).1 == c
  {
    set j | 0 <= j < |p.rows| :: KeyOf(p.rows[j]).1
  }

  /** A facility row whose name the providers know under a license number they do not. */
  predicate IsNewLicense(r: Row, names: set<Cell>, licenses: set<Cell>) {
    Get(r, NameKeyCol) in names && Get(r, LicenseKeyCol) !in licenses
  }

  /**
   * `_find_new_licenses`: the facility rows, in order and with all their
   * columns, whose name key some provider row has and whose license key no
   * provider row has.
   */
  function FindNewLicenses(f: Table, p: Table): (r: Table)
    ensures r.columns == f.columns
    ensures |r.rows| <= |f.rows|
    ensures forall x :: x in r.rows <==>
      && x in f.rows
      && (exists j :: 0 <= j < |p.rows| && KeyOf(p.rows[j]).0 == KeyOf(x).0)
      && (forall j :: 0 <= j < |p.rows| ==> KeyOf(p.rows[j]).1 != KeyOf(x).1)
  {
    Table(f.columns, Filter(f.rows, NewMask(p)))
  }

  /** The row mask of `_find_new_licenses`, built from the provider key sets. */
  function NewMask(p: Table): Row -> bool {
    var names, licenses := ProviderNames(p), ProviderLicenses(p);
    x => IsNewLicense(x, names, licenses)
  }

  /** The positions of the facility rows that carry a new license, in increasing order. */
  function NewPositions(f: Table, p: Table): (r: seq<nat>)
    ensures forall i :: i in r <==>
      && 0 <= i < |f.rows|
      && (exists j :: 0 <= j < |p.rows| && KeyOf(p.rows[j]).0 == KeyOf(f.rows[i]).0)
      && (forall j :: 0 <= j < |p.rows| ==> KeyOf(p.rows[j]).1 != KeyOf(f.rows[i]).1)
    ensures Increasing(r)
  {
    Positions(f.rows, NewMask(p), 0)
  }

  /**
   * The new licenses are the facility rows at the new-license positions,
   * in facility order, each once, with the facility columns.
   */
  lemma NewLicensesExact(f: Table, p: Table)
    ensures var r, pos := FindNewLicenses(f, p), NewPositions(f, p);
      && r.columns == f.columns
      && |r.rows| == |pos|
      && forall k :: 0 <= k < |pos| ==> r.rows[k] == f.rows[pos[k]]
  {
    FilterAtPositions(f.rows, NewMask(p));
  }

  /**
   * No new license shares its key pair with an update: its license key is
   * unknown to the providers, while every update row joins a provider row
   * with the same key pair.
   */
  lemma NewLicensesNotUpdated(f: Table, p: Table)
    requires Matchable(f, p)
    requires FindUpdateLicenses(f, p).Ok?
    ensures forall x, y :: x in FindNewLicenses(f, p).rows && y in FindUpdateLicenses(f, p).value.rows ==>
      KeyOf(x) != KeyOf(y)
  {
    forall x, y | x in FindNewLicenses(f, p).rows && y in FindUpdateLicenses(f, p).value.rows
      ensures KeyOf(x) != KeyOf(y)
    {
      var pr := UpdateRowSource(f, p, y);
      assert KeyOf(p.rows[pr.1]).1 != KeyOf(x).1;
    }
  }

  /** Every update row is the merged row of an equal-key pair, and carries that key pair. */
  lemma UpdateRowSource(f: Table, p: Table, y: Row) returns (pr: (nat, nat))
    requires Matchable(f, p)
    requires FindUpdateLicenses(f, p).Ok? && y in FindUpdateLicenses(f, p).value.rows
    ensures pr in InnerPairs(f.rows, p.rows)
    ensures pr.0 < |f.rows| && pr.1 < |p.rows|
    ensures y == MergePair(f, p, pr)
    ensures KeyOf(y) == KeyOf(f.rows[pr.0]) == KeyOf(p.rows[pr.1])
  {
    var pairs := InnerPairs(f.rows, p.rows);
    var merged := MapSeq(pairs, Merger(f, p));
    assert y in merged;
    var k :| 0 <= k < |merged| && merged[k] == y;
    pr := pairs[k];
    assert pr in pairs;
    assert y == Merger(f, p)(pr) == MergePair(f, p, pr);
    assert Distinct(UpdateColumns(f, p));
    MergedKeys(f.rows[pr.0], p.rows[pr.1], f.columns, p.columns, "_facility", "_provider");
  }

  // ---- expired licenses ---------------------------------------------------------

  /** No facility row has this key pair. */
  predicate Unmatched(f: Table, key: (Cell, Cell)) {
    forall i :: 0 <= i < |f.rows| ==> KeyOf(f.rows[i]) != key
  }

  /** The positions of provider rows, from `from` on, that no facility row matches, in order. */
  function UnmatchedFrom(p: Table, f: Table, from: nat): (r: seq<nat>)
    requires from <= |p.rows|
    ensures forall j :: j in r <==> from <= j < |p.rows| && Unmatched(f, KeyOf(p.rows[j]))
    ensures Increasing(r)
    decreases |p.rows| - from
  {
    if from == |p.rows| then []
    else
      var rest := UnmatchedFrom(p, f, from + 1);
      assert forall b :: 0 <= b < |rest| ==> rest[b] > from by {
        forall b | 0 <= b < |rest| ensures rest[b] > from {
          assert rest[b] in rest;
        }
      }
      (if Unmatched(f, KeyOf(p.rows[from])) then [from] else []) + rest
  }

  /**
   * The provider rows a left merge with indicator marks `left_only`: those
   * with no facility row on the same key pair, in provider order.
   */
  function LeftOnly(p: Table, f: Table): seq<nat> {
    UnmatchedFrom(p, f, 0)
  }

  function LeftMergedColumns(p: Table, f: Table): seq<string> {
    MergedColumns(p.columns, f.columns, "_provider", "_facility")
  }

  /** The merged column names that remain once the names ending in `_facility` are dropped. */
  function NoMatchColumns(p: Table, f: Table): seq<string> {
    Filter(LeftMergedColumns(p, f), c => !EndsWith(c, "_facility"))
  }

  /** The merged column names ending in `_facility`. */
  function FacilitySuffixed(p: Table, f: Table): set<string> {
    ColumnSet(Filter(LeftMergedColumns(p, f), c => EndsWith(c, "_facility")))
  }

  /**
   * A left-only row of the merge, with its facility cells missing, after the
   * columns ending in `_facility` are dropped.
   */
  function NoMatchRow(p: Table, f: Table, j: nat): Row {
    if j < |p.rows| then
      MergeRow(p.rows[j], map[], p.columns, f.columns, "_provider", "_facility")
        - FacilitySuffixed(p, f)
    else map[]
  }

  /** The left-only rows at the given provider positions. */
  function NoMatchRows(p: Table, f: Table, js: seq<nat>): (r: seq<Row>)
    ensures |r| == |js|
    ensures forall k :: 0 <= k < |js| ==> r[k] == NoMatchRow(p, f, js[k])
  {
    MapSeq(js, (j: nat) => NoMatchRow(p, f, j))
  }

  /** A provider date that is present and on or before `today`. */
  predicate IsExpired(r: Row, today: Date) {
    var d := Get(r, ProviderDateCol);
    d.When? && OnOrBefore(d.d, today)
  }

  /**
   * `_find_expired_licenses`: the provider rows that no facility row matches
   * on the key pair, with the facility columns gone, kept where the provider
   * date is present and on or before `today`. No unmatched row gives the
   * empty frame.
   */
  function FindExpiredLicenses(f: Table, p: Table, today: Date): (r: Result<Table, MatchError>)
    ensures r.Ok? && r.value != EmptyFrame ==> r.value.columns == NoMatchColumns(p, f)
    ensures r.Ok? ==> forall m :: m in r.value.rows ==> IsExpired(m, today)
    ensures r == Err(IndicatorClash) <==> !IndicatorFree(p.columns) || !IndicatorFree(f.columns)
  {
    if !IndicatorFree(p.columns) || !IndicatorFree(f.columns) then Err(IndicatorClash)
    else if !Distinct(LeftMergedColumns(p, f)) then Err(MergeError)
    else
      var noMatch := Table(NoMatchColumns(p, f), NoMatchRows(p, f, LeftOnly(p, f)));
      if Empty(noMatch) then Ok(EmptyFrame)
      else if ProviderDateCol !in noMatch.columns then Err(KeyError(ProviderDateCol))
      else Ok(Table(noMatch.columns, Filter(noMatch.rows, m => IsExpired(m, today))))
  }

  const MergeIndicator := "_merge"

  /**
   * `pd.merge(..., indicator=True)` raises a `ValueError` when either table
   * has a column named `_left_indicator`, `_right_indicator` or `_merge`.
   */
  predicate IndicatorFree(cols: seq<string>) {
    "_left_indicator" !in cols && "_right_indicator" !in cols && MergeIndicator !in cols
  }

  /** The provider rows an expiry check keeps: unmatched, with a present date on or before `today`. */
  function ExpiredRows(f: Table, p: Table, today: Date): (r: seq<nat>)
    ensures forall j :: j in r <==>
      && 0 <= j < |p.rows|
      && (forall i :: 0 <= i < |f.rows| ==> KeyOf(f.rows[i]) != KeyOf(p.rows[j]))
      && Get(p.rows[j], ProviderDateCol).When?
      && OnOrBefore(Get(p.rows[j], ProviderDateCol).d, today)
    ensures Increasing(r)
  {
    FilterIncreasing(LeftOnly(p, f), (j: nat) => j < |p.rows| && IsExpired(p.rows[j], today));
    Filter(LeftOnly(p, f), (j: nat) => j < |p.rows| && IsExpired(p.rows[j], today))
  }

  /** Filtering keeps positions in order. */
  lemma {:induction false} FilterIncreasing(s: seq<nat>, p: nat -> bool)
    requires Increasing(s)
    ensures Increasing(Filter(s, p))
  {
    if s != [] {
      var rest := Filter(s[1..], p);
      assert Increasing(s[1..]);
      FilterIncreasing(s[1..], p);
      forall x | x in rest ensures s[0] < x {
        var k :| 0 <= k < |s[1..]| && s[1..][k] == x;
        assert s[k + 1] == x;
      }
      var r := Filter(s, p);
      if p(s[0]) {
        assert r == [s[0]] + rest;
        forall a, b | 0 <= a < b < |r| ensures r[a] < r[b] {
          if a > 0 {
            assert r[a] == rest[a - 1] && r[b] == rest[b - 1];
          } else {
            assert r[b] == rest[b - 1] && r[b] in rest;
          }
        }
      } else {
        assert r == rest;
      }
    }
  }

  /** Names ending in `_provider` or with no suffix never end in `_facility`. */
  lemma NotFacilitySuffixed(c: string)
    requires c == NameKeyCol || c == LicenseKeyCol || c == ProviderDateCol
    ensures !EndsWith(c, "_facility")
  {
    assert c[|c| - 1] != 'y';
  }

  /**
   * A left-only row keeps the provider row's key pair and its provider date,
   * when no facility column is named like the provider date.
   */
  lemma NoMatchRowCells(f: Table, p: Table, j: nat)
    requires Matchable(f, p) && NoDateClash(f, p) && Distinct(LeftMergedColumns(p, f))
    requires j < |p.rows|
    ensures KeyOf(NoMatchRow(p, f, j)) == KeyOf(p.rows[j])
    ensures Get(NoMatchRow(p, f, j), ProviderDateCol) == Get(p.rows[j], ProviderDateCol)
    ensures ProviderDateCol in NoMatchColumns(p, f)
  {
    WorkingColumnsDistinct();
    var l := p.rows[j];
    var m := MergeRow(l, map[], p.columns, f.columns, "_provider", "_facility");
    var gone := FacilitySuffixed(p, f);
    MergedKeys(l, map[], p.columns, f.columns, "_provider", "_facility");
    MergedLeftCell(l, map[], p.columns, f.columns, "_provider", "_facility", ProviderDateCol);
    NotFacilitySuffixed(NameKeyCol);
    NotFacilitySuffixed(LicenseKeyCol);
    NotFacilitySuffixed(ProviderDateCol);
    assert NameKeyCol !in gone && LicenseKeyCol !in gone && ProviderDateCol !in gone;
    assert NoMatchRow(p, f, j) == m - gone;
  }

  /**
   * The expired set exactly: the left-only rows of the providers that have a
   * date on or before `today`, in provider order. The comparison is
   * inclusive, and a missing date never counts as expired.
   */
  lemma ExpiredLicensesExact(f: Table, p: Table, today: Date)
    requires Matchable(f, p) && NoDateClash(f, p)
    requires IndicatorFree(p.columns) && IndicatorFree(f.columns)
    requires Distinct(LeftMergedColumns(p, f)) && LeftOnly(p, f) != []
    ensures FindExpiredLicenses(f, p, today) ==
      Ok(Table(NoMatchColumns(p, f), NoMatchRows(p, f, ExpiredRows(f, p, today))))
  {
    var only := LeftOnly(p, f);
    var row := (j: nat) => NoMatchRow(p, f, j);
    forall j | j in only
      ensures IsExpired(row(j), today) == (j < |p.rows| && IsExpired(p.rows[j], today))
    {
      NoMatchRowCells(f, p, j);
    }
    FilterMapSeq(only, row, (j: nat) => j < |p.rows| && IsExpired(p.rows[j], today), m => IsExpired(m, today));
    NoMatchRowCells(f, p, only[0]);
  }

  /**
   * No expired row shares its key pair with an update row: an update row
   * carries the key pair of a facility row, and an expired row one that no
   * facility row has.
   */
  lemma ExpiredNotUpdated(f: Table, p: Table, today: Date)
    requires Matchable(f, p) && NoDateClash(f, p)
    requires FindUpdateLicenses(f, p).Ok? && FindExpiredLicenses(f, p, today).Ok?
    ensures forall x, y :: x in FindExpiredLicenses(f, p, today).value.rows && y in FindUpdateLicenses(f, p).value.rows ==>
      KeyOf(x) != KeyOf(y)
  {
    forall x, y | x in FindExpiredLicenses(f, p, today).value.rows && y in FindUpdateLicenses(f, p).value.rows
      ensures KeyOf(x) != KeyOf(y)
    {
      var pr := UpdateRowSource(f, p, y);
      var j := ExpiredRowSource(f, p, today, x);
      assert KeyOf(f.rows[pr.0]) != KeyOf(p.rows[j]);
    }
  }

  /** Every expired row is the left-only row of an unmatched provider row, and carries its key pair. */
  lemma ExpiredRowSource(f: Table, p: Table, today: Date, x: Row) returns (j: nat)
    requires Matchable(f, p) && NoDateClash(f, p)
    requires FindExpiredLicenses(f, p, today).Ok? && x in FindExpiredLicenses(f, p, today).value.rows
    ensures j < |p.rows| && Unmatched(f, KeyOf(p.rows[j]))
    ensures x == NoMatchRow(p, f, j) && KeyOf(x) == KeyOf(p.rows[j])
  {
    var only := LeftOnly(p, f);
    var rows := NoMatchRows(p, f, only);
    assert x in rows;
    var k :| 0 <= k < |rows| && rows[k] == x;
    j := only[k];
    assert j in only;
    NoMatchRowCells(f, p, j);
  }

  /**
   * No expired row shares its key pair with a new license: a new license's
   * license key is unknown to the providers, and an expired row carries a
   * provider's license key.
   */
  lemma ExpiredNotNew(f: Table, p: Table, today: Date)
    requires Matchable(f, p) && NoDateClash(f, p)
    requires FindExpiredLicenses(f, p, today).Ok?
    ensures forall x, y :: x in FindExpiredLicenses(f, p, today).value.rows && y in FindNewLicenses(f, p).rows ==>
      KeyOf(x) != KeyOf(y)
  {
    forall x, y | x in FindExpiredLicenses(f, p, today).value.rows && y in FindNewLicenses(f, p).rows
      ensures KeyOf(x) != KeyOf(y)
    {
      var j := ExpiredRowSource(f, p, today, x);
      assert KeyOf(p.rows[j]).1 != KeyOf(y).1;
    }
  }

  // ---- the stage results are tables ------------------------------------------

  /** Keeping some rows of a rectangular table leaves it rectangular. */
  lemma FilterRowsValid(cols: seq<string>, rows: seq<Row>, keep: Row -> bool)
    requires Valid(Table(cols, rows))
    ensures Valid(Table(cols, Filter(rows, keep)))
  {
    var kept := Filter(rows, keep);
    forall i | 0 <= i < |kept| ensures kept[i].Keys == ColumnSet(cols) {
      assert kept[i] in rows;
    }
  }

  /** The new licenses form a rectangular table. */
  lemma NewLicensesValid(f: Table, p: Table)
    requires Valid(f)
    ensures Valid(FindNewLicenses(f, p))
  {
    FilterRowsValid(f.columns, f.rows, NewMask(p));
  }

  /** The update licenses, when the merge succeeds, form a rectangular table. */
  lemma UpdateLicensesValid(f: Table, p: Table)
    requires FindUpdateLicenses(f, p).Ok?
    ensures Valid(FindUpdateLicenses(f, p).value)
  {
    var cols := UpdateColumns(f, p);
    var pairs := InnerPairs(f.rows, p.rows);
    var merged := MapSeq(pairs, Merger(f, p));
    if !Empty(Table(cols, merged)) {
      forall k | 0 <= k < |merged| ensures merged[k].Keys == ColumnSet(cols) {
        assert pairs[k].0 < |f.rows| && pairs[k].1 < |p.rows|;
      }
      FilterRowsValid(cols, merged, Supersedes);
    }
  }

  /** The columns a left-only row keeps are exactly the remaining merged columns. */
  lemma NoMatchRowKeys(p: Table, f: Table, j: nat)
    requires j < |p.rows|
    ensures NoMatchRow(p, f, j).Keys == ColumnSet(NoMatchColumns(p, f))
  {
    var all := LeftMergedColumns(p, f);
    assert ColumnSet(all) - FacilitySuffixed(p, f) == ColumnSet(NoMatchColumns(p, f));
  }

  /** The expired licenses, when the merge succeeds, form a rectangular table. */
  lemma ExpiredLicensesValid(f: Table, p: Table, today: Date)
    requires FindExpiredLicenses(f, p, today).Ok?
    ensures Valid(FindExpiredLicenses(f, p, today).value)
  {
    var only := LeftOnly(p, f);
    var rows := NoMatchRows(p, f, only);
    var noMatch := Table(NoMatchColumns(p, f), rows);
    if !Empty(noMatch) {
      FilterDistinct(LeftMergedColumns(p, f), c => !EndsWith(c, "_facility"));
      forall k | 0 <= k < |rows| ensures rows[k].Keys == ColumnSet(noMatch.columns) {
        assert only[k] in only;
        NoMatchRowKeys(p, f, only[k]);
      }
      FilterRowsValid(noMatch.columns, rows, m => IsExpired(m, today));
    }
  }

  // ---- finalizing -------------------------------------------------------------

  /** The working columns a table actually has. */
  function PresentWorkingColumns(t: Table): (r: seq<string>)
    ensures forall c :: c in r <==> c in WorkingColumns && c in t.columns
  {
    Filter(WorkingColumns, c => c in t.columns)
  }

  /** One result table as `_finalize_results` leaves it (see FinalizeTableContents). */
  function FinalizeTable(t: Table, criteria: string, stamp: Timestamp): (r: Table)
    ensures Empty(t) ==> r == t
  {
    if Empty(t) then t
    else AddColumn(AddColumn(DropColumns(t, PresentWorkingColumns(t)), TimestampCol, Moment(stamp)), CriteriaCol, Str(criteria))
  }

  /**
   * A finalized table that is not empty has lost the working columns it
   * had, and every row is stamped with the match time and the criteria
   * tag, while every other cell is kept; finalizing keeps a table
   * rectangular.
   */
  lemma FinalizeTableContents(t: Table, criteria: string, stamp: Timestamp)
    ensures var r := FinalizeTable(t, criteria, stamp);
      !Empty(t) ==>
      && (forall c :: c in r.columns <==> (c in t.columns && c !in WorkingColumns) || c == TimestampCol || c == CriteriaCol)
      && |r.rows| == |t.rows|
      && (forall i :: 0 <= i < |t.rows| ==>
            && TimestampCol in r.rows[i] && r.rows[i][TimestampCol] == Moment(stamp)
            && CriteriaCol in r.rows[i] && r.rows[i][CriteriaCol] == Str(criteria))
      && (forall i, c :: 0 <= i < |t.rows| && c in t.rows[i] && c !in WorkingColumns && c != TimestampCol && c != CriteriaCol ==>
            c in r.rows[i] && r.rows[i][c] == t.rows[i][c])
    ensures Valid(t) ==> Valid(FinalizeTable(t, criteria, stamp))
  {
    if !Empty(t) {
      StampColumnsDistinct();
      var gone := PresentWorkingColumns(t);
      var kept := DropColumns(t, gone);
      var stamped := AddColumn(kept, TimestampCol, Moment(stamp));
      var r := AddColumn(stamped, CriteriaCol, Str(criteria));
      assert ColumnSet(r.columns) == ColumnSet(kept.columns) + {TimestampCol, CriteriaCol};
      forall c ensures c in r.columns <==> (c in t.columns && c !in WorkingColumns) || c == TimestampCol || c == CriteriaCol {
        assert c in r.columns <==> c in ColumnSet(r.columns);
      }
      forall i | 0 <= i < |t.rows|
        ensures TimestampCol in r.rows[i] && r.rows[i][TimestampCol] == Moment(stamp)
        ensures CriteriaCol in r.rows[i] && r.rows[i][CriteriaCol] == Str(criteria)
      {
        assert r.rows[i] == stamped.rows[i][CriteriaCol := Str(criteria)];
        assert stamped.rows[i] == kept.rows[i][TimestampCol := Moment(stamp)];
      }
      if Valid(t) {
        assert Valid(kept);
      }
    }
  }

  /**
   * The column order of a finalized table that is not empty: the columns
   * that are not working columns, in their order, then the stamp column and
   * the criteria column, each appended unless the table already had it.
   */
  lemma FinalizeTableColumns(t: Table, criteria: string, stamp: Timestamp)
    ensures var r, kept := FinalizeTable(t, criteria, stamp), Filter(t.columns, Without(WorkingColumns));
      && (!Empty(t) ==> r.columns == WithName(WithName(kept, TimestampCol), CriteriaCol))
      && (!Empty(t) && TimestampCol !in t.columns && CriteriaCol !in t.columns ==> r.columns == kept + [TimestampCol, CriteriaCol])
  {
    if !Empty(t) {
      FilterCongruent(t.columns, Without(PresentWorkingColumns(t)), Without(WorkingColumns));
      var kept := Filter(t.columns, Without(WorkingColumns));
      if TimestampCol !in t.columns && CriteriaCol !in t.columns {
        StampColumnsDistinct();
        assert TimestampCol !in kept && CriteriaCol !in kept;
        assert CriteriaCol !in kept + [TimestampCol];
        assert kept + [TimestampCol] + [CriteriaCol] == kept + [TimestampCol, CriteriaCol];
      }
    }
  }

  /**
   * `_finalize_results`: each result table that is not empty is reassigned
   * to its drop-and-stamp copy, with its own criteria tag and its own
   * reading of the clock.
   */
  method FinalizeResults(update: Table, newLicenses: Table, expired: Table, s1: Timestamp, s2: Timestamp, s3: Timestamp)
    returns (u: Table, n: Table, e: Table)
    ensures u == FinalizeTable(update, UpdateCriteria, s1)
    ensures n == FinalizeTable(newLicenses, NewCriteria, s2)
    ensures e == FinalizeTable(expired, ExpiredCriteria, s3)
  {
    u, n, e := update, newLicenses, expired;
    if !Empty(u) {
      u := DropColumns(u, PresentWorkingColumns(u));
      u := AddColumn(u, TimestampCol, Moment(s1));
      u := AddColumn(u, CriteriaCol, Str(UpdateCriteria));
    }
    if !Empty(n) {
      n := DropColumns(n, PresentWorkingColumns(n));
      n := AddColumn(n, TimestampCol, Moment(s2));
      n := AddColumn(n, CriteriaCol, Str(NewCriteria));
    }
    if !Empty(e) {
      e := DropColumns(e, PresentWorkingColumns(e));
      e := AddColumn(e, TimestampCol, Moment(s3));
      e := AddColumn(e, CriteriaCol, Str(ExpiredCriteria));
    }
  }

  // ---- formatting expiration dates ---------------------------------------------

  /** The two source expiration columns, the only ones ever reformatted. */
  const ExpirationColumns := [FacilityColumns.expiration, ProviderColumns.expiration]

  predicate HoldsDate(c: Cell) {
    c.When? || c.Moment?
  }

  /**
   * `is_datetime64_any_dtype(df[col])`: every cell of the column is a date,
   * a timestamp or missing, and at least one is not missing.
   */
  predicate IsDateColumn(rows: seq<Row>, c: string) {
    && (forall i :: 0 <= i < |rows| ==> HoldsDate(Get(rows[i], c)) || Get(rows[i], c).Null?)
    && (exists i :: 0 <= i < |rows| && HoldsDate(Get(rows[i], c)))
  }

  /** `.dt.strftime("%m/%d/%Y")` on one cell; a missing value stays missing. */
  function FormatCell(c: Cell): Cell {
    match c
    case When(d) => Str(UsDate(d))
    case Moment(t) => Str(UsDate(t.date))
    case _ => c
  }

  /** The columns `_format_expiration_dates` rewrites: expiration columns that hold dates. */
  function ColumnsToFormat(t: Table): set<string> {
    set c | c in t.columns && c in ExpirationColumns && IsDateColumn(t.rows, c)
  }

  function FormatRow(r: Row, cs: set<string>): Row {
    map c | c in r :: if c in cs then FormatCell(r[c]) else r[c]
  }

  /** The table `_format_expiration_dates` leaves behind. */
  function FormatDates(t: Table): Table {
    Table(t.columns, seq(|t.rows|, i requires 0 <= i < |t.rows| => FormatRow(t.rows[i], ColumnsToFormat(t))))
  }

  /**
   * Formatting rewrites only expiration columns that hold dates, keeps every
   * other cell, and loses no date: a formatted date reads back as itself.
   */
  lemma FormatDatesCells(t: Table, i: int, c: string)
    requires 0 <= i < |t.rows| && c in t.rows[i]
    ensures FormatDates(t).columns == t.columns && |FormatDates(t).rows| == |t.rows|
    ensures c in FormatDates(t).rows[i]
    ensures c !in ExpirationColumns || !IsDateColumn(t.rows, c) ==> FormatDates(t).rows[i][c] == t.rows[i][c]
    ensures c in t.columns && c in ExpirationColumns && IsDateColumn(t.rows, c) && t.rows[i][c].When? ==>
      FormatDates(t).rows[i][c].Str? && ParseUsDate(FormatDates(t).rows[i][c].s) == Some(t.rows[i][c].d)
  {
    if t.rows[i][c].When? {
      UsDateRoundTrip(t.rows[i][c].d);
    }
  }

  /** Formatting twice is formatting once: formatted columns hold text and are no longer date columns. */
  lemma FormatDatesIdempotent(t: Table)
    requires Valid(t)
    ensures FormatDates(FormatDates(t)) == FormatDates(t)
  {
    var u := FormatDates(t);
    var cs := ColumnsToFormat(t);
    forall c | c in cs ensures !IsDateColumn(u.rows, c) {
      var i :| 0 <= i < |t.rows| && HoldsDate(Get(t.rows[i], c));
      assert u.rows[i][c] == FormatCell(t.rows[i][c]);
    }
    forall c | c in t.columns && c in ExpirationColumns && c !in cs ensures !IsDateColumn(u.rows, c) {
      assert forall i :: 0 <= i < |t.rows| ==> Get(u.rows[i], c) == Get(t.rows[i], c);
    }
    assert ColumnsToFormat(u) == {};
    forall i | 0 <= i < |u.rows| ensures FormatRow(u.rows[i], ColumnsToFormat(u)) == u.rows[i] {
    }
  }

  /** Column `col` of every row rewritten as formatted text. */
  function FormatColumn(rows: seq<Row>, col: string): (r: seq<Row>)
    ensures |r| == |rows|
    ensures forall i :: 0 <= i < |rows| ==> r[i] == rows[i][col := FormatCell(Get(rows[i], col))]
  {
    seq(|rows|, i requires 0 <= i < |rows| => rows[i][col := FormatCell(Get(rows[i], col))])
  }

  /** The rows once the first `k` columns have been visited. */
  ghost function FormattedUpTo(t: Table, k: nat): seq<Row>
    requires k <= |t.columns|
  {
    var cs := ColumnsToFormat(t) * ColumnSet(t.columns[..k]);
    seq(|t.rows|, i requires 0 <= i < |t.rows| => FormatRow(t.rows[i], cs))
  }

  lemma FormatRowNone(r: Row)
    ensures FormatRow(r, {}) == r
  {
    assert forall c :: c in r ==> FormatRow(r, {})[c] == r[c];
  }

  /** Formatting one more column of a row, a column not yet formatted. */
  lemma FormatRowAdd(r: Row, cs: set<string>, col: string)
    requires col !in cs && col in r
    ensures col in FormatRow(r, cs) && FormatRow(r, cs)[col] == r[col]
    ensures FormatRow(r, cs + {col}) == FormatRow(r, cs)[col := FormatCell(r[col])]
  {
    var a, b := FormatRow(r, cs + {col}), FormatRow(r, cs)[col := FormatCell(r[col])];
    assert a.Keys == b.Keys;
    assert forall c :: c in a ==> a[c] == b[c];
  }

  lemma FormatStart(t: Table)
    ensures FormattedUpTo(t, 0) == t.rows
  {
    assert ColumnsToFormat(t) * ColumnSet(t.columns[..0]) == {};
    forall i | 0 <= i < |t.rows| ensures FormatRow(t.rows[i], {}) == t.rows[i] {
      FormatRowNone(t.rows[i]);
    }
  }

  lemma FormatEnd(t: Table)
    ensures FormattedUpTo(t, |t.columns|) == FormatDates(t).rows
  {
    assert t.columns[..|t.columns|] == t.columns;
    assert ColumnsToFormat(t) * ColumnSet(t.columns) == ColumnsToFormat(t);
  }

  /** Column `k` is still untouched after the first `k` columns were visited. */
  lemma FormatUntouched(t: Table, k: nat)
    requires Valid(t) && k < |t.columns|
    ensures forall i :: 0 <= i < |t.rows| ==>
      t.columns[k] in FormattedUpTo(t, k)[i] && FormattedUpTo(t, k)[i][t.columns[k]] == t.rows[i][t.columns[k]]
  {
    var col := t.columns[k];
    var cs := ColumnsToFormat(t) * ColumnSet(t.columns[..k]);
    assert col !in t.columns[..k];
    assert col !in cs;
    forall i | 0 <= i < |t.rows|
      ensures col in FormattedUpTo(t, k)[i] && FormattedUpTo(t, k)[i][col] == t.rows[i][col]
    {
      assert col in t.rows[i];
    }
  }

  /**
   * Visiting column `k`: the date test on the partly formatted rows agrees
   * with the test on the original table, since column `k` is still
   * untouched, and rewriting it gives the rows after `k + 1` columns.
   */
  lemma FormatStep(t: Table, k: nat)
    requires Valid(t) && k < |t.columns|
    ensures var rows, col := FormattedUpTo(t, k), t.columns[k];
      && ((col in ExpirationColumns && IsDateColumn(rows, col)) <==> col in ColumnsToFormat(t))
      && FormattedUpTo(t, k + 1) == (if col in ColumnsToFormat(t) then FormatColumn(rows, col) else rows)
  {
    FormatStepTest(t, k);
    FormatStepRows(t, k);
  }

  lemma FormatStepTest(t: Table, k: nat)
    requires Valid(t) && k < |t.columns|
    ensures var rows, col := FormattedUpTo(t, k), t.columns[k];
      (col in ExpirationColumns && IsDateColumn(rows, col)) <==> col in ColumnsToFormat(t)
  {
    var rows, col := FormattedUpTo(t, k), t.columns[k];
    FormatUntouched(t, k);
    assert forall i :: 0 <= i < |t.rows| ==> Get(rows[i], col) == Get(t.rows[i], col);
    assert IsDateColumn(rows, col) <==> IsDateColumn(t.rows, col);
  }

  lemma FormatStepRows(t: Table, k: nat)
    requires Valid(t) && k < |t.columns|
    ensures var rows, col := FormattedUpTo(t, k), t.columns[k];
      FormattedUpTo(t, k + 1) == (if col in ColumnsToFormat(t) then FormatColumn(rows, col) else rows)
  {
    var rows, col := FormattedUpTo(t, k), t.columns[k];
    var cs := ColumnsToFormat(t) * ColumnSet(t.columns[..k]);
    var cs1 := ColumnsToFormat(t) * ColumnSet(t.columns[..k + 1]);
    assert col !in t.columns[..k];
    assert col !in cs;
    assert t.columns[..k + 1] == t.columns[..k] + [col];
    assert ColumnSet(t.columns[..k + 1]) == ColumnSet(t.columns[..k]) + {col};
    if col in ColumnsToFormat(t) {
      assert cs1 == cs + {col};
      forall i | 0 <= i < |t.rows| ensures FormattedUpTo(t, k + 1)[i] == FormatColumn(rows, col)[i] {
        assert col in t.rows[i];
        FormatRowAdd(t.rows[i], cs, col);
      }
    } else {
      assert cs1 == cs;
    }
  }

  /** A result table as an object whose columns a method overwrites in place. */
  class Frame {
    var columns: seq<string>
    var rows: seq<Row>

    constructor (t: Table)
      ensures columns == t.columns && rows == t.rows
    {
      columns := t.columns;
      rows := t.rows;
    }

    function Contents(): Table
      reads this
    {
      Table(columns, rows)
    }

    /**
     * `_format_expiration_dates`: walks the columns in order and overwrites
     * each expiration column that holds dates with its MM/DD/YYYY text.
     */
    method FormatExpirationDates()
      requires Valid(Contents())
      modifies this
      ensures Contents() == FormatDates(old(Contents()))
    {
      ghost var t := Contents();
      FormatStart(t);
      var k := 0;
      while k < |columns|
        invariant 0 <= k <= |columns|
        invariant columns == t.columns
        invariant rows == FormattedUpTo(t, k)
      {
        var col := columns[k];
        FormatStep(t, k);
        if col in ExpirationColumns && IsDateColumn(rows, col) {
          rows := FormatColumn(rows, col);
        }
        k := k + 1;
      }
      FormatEnd(t);
    }
  }

  // ---- the whole run ----------------------------------------------------------

  /** The three result tables of a run. */
  datatype MatchResults = MatchResults(update: Table, newLicenses: Table, expired: Table)

  /** What a run that stops early returns: three empty frames. */
  const NoResults := MatchResults(EmptyFrame, EmptyFrame, EmptyFrame)

  /**
   * The readings of `pd.Timestamp.now()` a run takes: the normalized date the
   * expiry test compares against, then one stamp per finalized result.
   */
  datatype Clock = Clock(today: Date, updateStamp: Timestamp, newStamp: Timestamp, expiredStamp: Timestamp)

  /** An input that is given is a rectangular table. */
  predicate Rectangular(t: Option<Table>) {
    t.Some? ==> Valid(t.value)
  }

  /** The stamp and criteria columns are not expiration columns. */
  lemma StampColumnsNotExpiration()
    ensures TimestampCol !in ExpirationColumns && CriteriaCol !in ExpirationColumns
  {
    assert TimestampCol[0] == 'm' && CriteriaCol[0] == 'm';
    assert FacilityColumns.expiration[0] == 'L' && ProviderColumns.expiration[0] == 'E';
  }

  /** A result as saving it leaves it: a non-empty one has its expiration dates formatted in place. */
  function SavedView(t: Table): Table {
    if Empty(t) then t else FormatDates(t)
  }

  /** One result table as the run returns it: finalized, and formatted when the run saved its output. */
  function Sheet(t: Table, criteria: string, stamp: Timestamp, saved: bool): Table {
    var x := FinalizeTable(t, criteria, stamp);
    if saved then SavedView(x) else x
  }

  /**
   * A returned result table: an empty stage result stays as it was; a
   * non-empty one keeps its rows in order, loses its working columns,
   * carries the stamp and the criteria tag on every row, and keeps every
   * other cell, except that saving may turn a date of an expiration column
   * into MM/DD/YYYY text that reads back as the same date.
   */
  lemma SheetContents(t: Table, criteria: string, stamp: Timestamp, saved: bool)
    requires Valid(t)
    ensures Empty(t) ==> Sheet(t, criteria, stamp, saved) == t
    ensures !Empty(t) ==> var r := Sheet(t, criteria, stamp, saved);
      && Valid(r)
      && (forall c :: c in r.columns <==> (c in t.columns && c !in WorkingColumns) || c == TimestampCol || c == CriteriaCol)
      && |r.rows| == |t.rows|
      && (forall i :: 0 <= i < |t.rows| ==>
            && TimestampCol in r.rows[i] && r.rows[i][TimestampCol] == Moment(stamp)
            && CriteriaCol in r.rows[i] && r.rows[i][CriteriaCol] == Str(criteria))
      && (forall i, c :: 0 <= i < |t.rows| && c in t.rows[i] && c !in WorkingColumns && c != TimestampCol && c != CriteriaCol ==>
            && c in r.rows[i]
            && (!saved || c !in ExpirationColumns ==> r.rows[i][c] == t.rows[i][c])
            && (r.rows[i][c] == t.rows[i][c] || r.rows[i][c] == FormatCell(t.rows[i][c]))
            && (t.rows[i][c].When? && r.rows[i][c] != t.rows[i][c] ==>
                  r.rows[i][c].Str? && ParseUsDate(r.rows[i][c].s) == Some(t.rows[i][c].d)))
  {
    var x := FinalizeTable(t, criteria, stamp);
    FinalizeTableContents(t, criteria, stamp);
    if !Empty(t) && saved {
      StampColumnsNotExpiration();
      forall i | 0 <= i < |t.rows| ensures
        && TimestampCol in FormatDates(x).rows[i] && FormatDates(x).rows[i][TimestampCol] == Moment(stamp)
        && CriteriaCol in FormatDates(x).rows[i] && FormatDates(x).rows[i][CriteriaCol] == Str(criteria)
      {
        FormatDatesCells(x, i, TimestampCol);
        FormatDatesCells(x, i, CriteriaCol);
      }
      forall i, c | 0 <= i < |t.rows| && c in t.rows[i] && c !in WorkingColumns && c != TimestampCol && c != CriteriaCol
        ensures var y := FormatDates(x).rows[i];
          && c in y
          && (c !in ExpirationColumns ==> y[c] == t.rows[i][c])
          && (y[c] == t.rows[i][c] || y[c] == FormatCell(t.rows[i][c]))
          && (t.rows[i][c].When? && y[c] != t.rows[i][c] ==> y[c].Str? && ParseUsDate(y[c].s) == Some(t.rows[i][c].d))
      {
        FormatDatesCells(x, i, c);
        if t.rows[i][c].When? {
          UsDateRoundTrip(t.rows[i][c].d);
        }
      }
      FormatDatesValid(x);
    }
  }

  /** Formatting keeps a table rectangular. */
  lemma FormatDatesValid(t: Table)
    requires Valid(t)
    ensures Valid(FormatDates(t))
  {
  }

  /**
   * A run on the two prepared tables: a stage that raises gives three
   * empty frames; otherwise each stage result is finalized and, when the
   * output was saved, formatted in place.
   */
  function RunOutcome(f: Table, p: Table, saveOutput: bool, clock: Clock): (r: MatchResults)
    requires Valid(f) && Valid(p)
    ensures FindUpdateLicenses(f, p).Err? || FindExpiredLicenses(f, p, clock.today).Err? ==> r == NoResults
    ensures FindUpdateLicenses(f, p).Ok? && FindExpiredLicenses(f, p, clock.today).Ok? ==>
      && Valid(FindUpdateLicenses(f, p).value) && Valid(FindNewLicenses(f, p)) && Valid(FindExpiredLicenses(f, p, clock.today).value)
      && r.update == Sheet(FindUpdateLicenses(f, p).value, UpdateCriteria, clock.updateStamp, saveOutput)
      && r.newLicenses == Sheet(FindNewLicenses(f, p), NewCriteria, clock.newStamp, saveOutput)
      && r.expired == Sheet(FindExpiredLicenses(f, p, clock.today).value, ExpiredCriteria, clock.expiredStamp, saveOutput)
  {
    var update, expired := FindUpdateLicenses(f, p), FindExpiredLicenses(f, p, clock.today);
    if update.Err? || expired.Err? then NoResults
    else
      UpdateLicensesValid(f, p);
      NewLicensesValid(f, p);
      ExpiredLicensesValid(f, p, clock.today);
      MatchResults(
        Sheet(update.value, UpdateCriteria, clock.updateStamp, saveOutput),
        Sheet(FindNewLicenses(f, p), NewCriteria, clock.newStamp, saveOutput),
        Sheet(expired.value, ExpiredCriteria, clock.expiredStamp, saveOutput))
  }

  /**
   * `match_provider_facility_data` as a value: invalid input gives three
   * empty frames, valid input the run on the two prepared tables.
   */
  function MatchOutcome(facilities: Option<Table>, providers: Option<Table>, saveOutput: bool, clock: Clock): (r: MatchResults)
    requires Rectangular(facilities) && Rectangular(providers)
    ensures !ValidateInput(facilities, providers) ==> r == NoResults
    ensures ValidateInput(facilities, providers) ==>
      var (f, p) := PrepareForMatching(facilities.value, providers.value);
      Valid(f) && Valid(p) && r == RunOutcome(f, p, saveOutput, clock)
  {
    if !ValidateInput(facilities, providers) then NoResults
    else
      var (f, p) := PrepareForMatching(facilities.value, providers.value);
      RunOutcome(f, p, saveOutput, clock)
  }

  /**
   * Saving changes only how expiration dates read: with and without saving
   * a run returns the same columns, the same rows, and the same cells
   * outside the expiration columns.
   */
  lemma SavingOnlyFormatsDates(facilities: Option<Table>, providers: Option<Table>, clock: Clock)
    requires Rectangular(facilities) && Rectangular(providers)
    ensures var saved, unsaved := MatchOutcome(facilities, providers, true, clock), MatchOutcome(facilities, providers, false, clock);
      && SameButDates(saved.update, unsaved.update)
      && SameButDates(saved.newLicenses, unsaved.newLicenses)
      && SameButDates(saved.expired, unsaved.expired)
  {
    if ValidateInput(facilities, providers) {
      var (f, p) := PrepareForMatching(facilities.value, providers.value);
      RunSavingOnlyFormatsDates(f, p, clock);
    }
  }

  lemma RunSavingOnlyFormatsDates(f: Table, p: Table, clock: Clock)
    requires Valid(f) && Valid(p)
    ensures var saved, unsaved := RunOutcome(f, p, true, clock), RunOutcome(f, p, false, clock);
      && SameButDates(saved.update, unsaved.update)
      && SameButDates(saved.newLicenses, unsaved.newLicenses)
      && SameButDates(saved.expired, unsaved.expired)
  {
    if FindUpdateLicenses(f, p).Ok? && FindExpiredLicenses(f, p, clock.today).Ok? {
      SheetSavedSameButDates(FindUpdateLicenses(f, p).value, UpdateCriteria, clock.updateStamp);
      SheetSavedSameButDates(FindNewLicenses(f, p), NewCriteria, clock.newStamp);
      SheetSavedSameButDates(FindExpiredLicenses(f, p, clock.today).value, ExpiredCriteria, clock.expiredStamp);
    }
  }

  lemma SheetSavedSameButDates(t: Table, criteria: string, stamp: Timestamp)
    ensures SameButDates(Sheet(t, criteria, stamp, true), Sheet(t, criteria, stamp, false))
  {
    SavedViewSameButDates(FinalizeTable(t, criteria, stamp));
  }

  /** Two tables with the same columns and rows that differ at most in the format of expiration dates. */
  predicate SameButDates(a: Table, b: Table) {
    && a.columns == b.columns
    && |a.rows| == |b.rows|
    && forall i :: 0 <= i < |a.rows| ==>
         && a.rows[i].Keys == b.rows[i].Keys
         && forall c :: c in a.rows[i] ==> a.rows[i][c] == b.rows[i][c] || (c in ExpirationColumns && a.rows[i][c] == FormatCell(b.rows[i][c]))
  }

  lemma SavedViewSameButDates(t: Table)
    ensures SameButDates(SavedView(t), t)
  {
    if !Empty(t) {
      forall i, c | 0 <= i < |t.rows| && c in t.rows[i]
        ensures c in FormatDates(t).rows[i]
        ensures FormatDates(t).rows[i][c] == t.rows[i][c] || (c in ExpirationColumns && FormatDates(t).rows[i][c] == FormatCell(t.rows[i][c]))
      {
        FormatDatesCells(t, i, c);
      }
    }
  }

  /**
   * `_save_results_to_excel` as it affects the results: each non-empty
   * result frame has its expiration dates formatted in place, so the
   * caller's results change with it. Writing the workbook is not modelled.
   */
  method SaveResults(update: Frame, newLicenses: Frame, expired: Frame)
    requires update != newLicenses && update != expired && newLicenses != expired
    requires Valid(update.Contents()) && Valid(newLicenses.Contents()) && Valid(expired.Contents())
    modifies update, newLicenses, expired
    ensures update.Contents() == SavedView(old(update.Contents()))
    ensures newLicenses.Contents() == SavedView(old(newLicenses.Contents()))
    ensures expired.Contents() == SavedView(old(expired.Contents()))
  {
    if !Empty(update.Contents()) {
      update.FormatExpirationDates();
    }
    if !Empty(newLicenses.Contents()) {
      newLicenses.FormatExpirationDates();
    }
    if !Empty(expired.Contents()) {
      expired.FormatExpirationDates();
    }
  }

  /**
   * `match_provider_facility_data`: validate, prepare both sides, then run
   * the stages; invalid input gives three empty frames.
   */
  method MatchProviderFacilityData(facilities: Option<Table>, providers: Option<Table>, saveOutput: bool, clock: Clock)
    returns (results: MatchResults)
    requires Rectangular(facilities) && Rectangular(providers)
    ensures results == MatchOutcome(facilities, providers, saveOutput, clock)
  {
    if !ValidateInput(facilities, providers) {
      return NoResults;
    }
    var (f, p) := PrepareForMatching(facilities.value, providers.value);
    results := RunStages(f, p, saveOutput, clock);
  }

  /**
   * The body of the run after preparation: the three stages, then
   * finalizing, then saving when asked. A stage that raises ends the run
   * with three empty frames, as the handler around the run does.
   */
  method RunStages(f: Table, p: Table, saveOutput: bool, clock: Clock) returns (results: MatchResults)
    requires Valid(f) && Valid(p)
    ensures results == RunOutcome(f, p, saveOutput, clock)
  {
    var update := FindUpdateLicenses(f, p);
    var newLicenses := FindNewLicenses(f, p);
    var expired := FindExpiredLicenses(f, p, clock.today);
    if update.Err? || expired.Err? {
      return NoResults;
    }
    UpdateLicensesValid(f, p);
    NewLicensesValid(f, p);
    ExpiredLicensesValid(f, p, clock.today);
    var u, n, e := FinalizeResults(update.value, newLicenses, expired.value, clock.updateStamp, clock.newStamp, clock.expiredStamp);
    FinalizeTableContents(update.value, UpdateCriteria, clock.updateStamp);
    FinalizeTableContents(newLicenses, NewCriteria, clock.newStamp);
    FinalizeTableContents(expired.value, ExpiredCriteria, clock.expiredStamp);
    var uf := new Frame(u);
    var nf := new Frame(n);
    var ef := new Frame(e);
    if saveOutput {
      SaveResults(uf, nf, ef);
    }
    results := MatchResults(uf.Contents(), nf.Contents(), ef.Contents());
  }
}
