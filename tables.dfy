/**
 * The tabular values the license matcher works on: cells, rows keyed by
 * column name, and tables that keep their column order beside their rows.
 * The operations are the few pandas operations the matcher uses: reading
 * a cell, adding or overwriting a column, dropping columns, keeping the
 * rows a mask selects, and `astype(str)` on one cell.
 */
module Tables {
  import opened Wrappers
  import opened Text

  type Year = y: int | 1000 <= y <= 9999 witness 1000
  type Month = m: int | 1 <= m <= 12 witness 1
  type Day = d: int | 1 <= d <= 31 witness 1
  type Hour = h: int | 0 <= h < 24
  type Minute = m: int | 0 <= m < 60
  type Second = s: int | 0 <= s < 60

  /** A calendar date, with a four-digit year. */
  datatype Date = Date(year: Year, month: Month, day: Day)

  /** A point in time to the second, as `pd.Timestamp.now()` gives it. */
  datatype Timestamp = Timestamp(date: Date, hour: Hour, minute: Minute, second: Second)

  /** Chronological order on dates. */
  predicate Before(a: Date, b: Date) {
    || a.year < b.year
    || (a.year == b.year && a.month < b.month)
    || (a.year == b.year && a.month == b.month && a.day < b.day)
  }

  predicate OnOrBefore(a: Date, b: Date) {
    a == b || Before(a, b)
  }

  /** Before is a strict total order, so the matcher's date filters are well defined. */
  lemma BeforeIsStrictTotalOrder(a: Date, b: Date, c: Date)
    ensures !Before(a, a)
    ensures Before(a, b) && Before(b, c) ==> Before(a, c)
    ensures a != b ==> Before(a, b) || Before(b, a)
    ensures !(Before(a, b) && Before(b, a))
  {
  }

  /** One cell of a table. `Null` is pandas' missing value (NaN / NaT). */
  datatype Cell =
    | Str(s: string)
    | Int(n: int)
    | When(d: Date)
    | Moment(t: Timestamp)
    | Null

  type Row = map<string, Cell>

  /** A table: its column names in order, and its rows. */
  datatype Table = Table(columns: seq<string>, rows: seq<Row>)

  /** `pd.DataFrame()`: no columns, no rows. */
  const EmptyFrame := Table([], [])

  /** `df.empty`: no rows or no columns. */
  predicate Empty(t: Table) {
    |t.rows| == 0 || |t.columns| == 0
  }

  predicate Distinct(cols: seq<string>) {
    forall i, j :: 0 <= i < j < |cols| ==> cols[i] != cols[j]
  }

  function ColumnSet(cols: seq<string>): set<string> {
    set c | c in cols
  }

  /** A table is rectangular: distinct column names, and every row has exactly those columns. */
  predicate Valid(t: Table) {
    && Distinct(t.columns)
    && forall i :: 0 <= i < |t.rows| ==> t.rows[i].Keys == ColumnSet(t.columns)
  }

  /** The value of column `c` in a row; a column the row lacks reads as missing. */
  function Get(r: Row, c: string): Cell {
    if c in r then r[c] else Null
  }

  // ---- formatting single cells -------------------------------------------

  /** `str(ts)` of a date-only timestamp: YYYY-MM-DD. */
  function IsoDate(d: Date): string {
    NatToString(d.year) + "-" + Pad2(d.month) + "-" + Pad2(d.day)
  }

  /** `strftime("%m/%d/%Y")`. */
  function UsDate(d: Date): (r: string)
    ensures |r| == 10 && r[2] == '/' && r[5] == '/'
  {
    Pad2(d.month) + "/" + Pad2(d.day) + "/" + NatToString(d.year)
  }

  /** Reading an MM/DD/YYYY text back (the inverse of UsDate). */
  function ParseUsDate(s: string): Option<Date> {
    if |s| == 10 && s[2] == '/' && s[5] == '/' && IsDigits(s[..2]) && IsDigits(s[3..5]) && IsDigits(s[6..])
    then
      var m, d, y := DigitsValue(s[..2]), DigitsValue(s[3..5]), DigitsValue(s[6..]);
      if 1 <= m <= 12 && 1 <= d <= 31 && 1000 <= y <= 9999 then Some(Date(y, m, d)) else None
    else None
  }

  /** Formatting a date as MM/DD/YYYY loses nothing: it reads back as the same date. */
  lemma UsDateRoundTrip(d: Date)
    ensures ParseUsDate(UsDate(d)) == Some(d)
  {
    var s := UsDate(d);
    assert s[..2] == Pad2(d.month);
    assert s[3..5] == Pad2(d.day);
    assert s[6..] == NatToString(d.year);
  }

  /** `astype(str)` on one cell; a missing value becomes the text "nan". */
  function AsStr(c: Cell): string {
    match c
    case Str(s) => s
    case Int(n) => IntToString(n)
    case When(d) => IsoDate(d)
    case Moment(t) => IsoDate(t.date) + " " + Pad2(t.hour) + ":" + Pad2(t.minute) + ":" + Pad2(t.second)
    case Null => "nan"
  }

  // ---- sequences ---------------------------------------------------------

  /** The elements of `s` that satisfy `p`, in their order. */
  function Filter<T(!new)>(s: seq<T>, p: T -> bool): (r: seq<T>)
    ensures |r| <= |s|
    ensures forall x :: x in r <==> x in s && p(x)
  {
    if s == [] then [] else (if p(s[0]) then [s[0]] else []) + Filter(s[1..], p)
  }

  /** The kept elements of a three-element sequence, written out. */
  lemma FilterThree<T(!new)>(a: T, b: T, c: T, p: T -> bool)
    ensures Filter([a, b, c], p) == (if p(a) then [a] else []) + ((if p(b) then [b] else []) + (if p(c) then [c] else []))
  {
    var ka, kb, kc := (if p(a) then [a] else []), (if p(b) then [b] else []), (if p(c) then [c] else []);
    assert [c][1..] == [] && Filter([c], p) == kc + Filter([], p) == kc;
    assert [b, c][1..] == [c] && Filter([b, c], p) == kb + kc;
    assert [a, b, c][1..] == [b, c];
  }

  /** Filtering works piecewise: the kept elements of `a + b` are those of `a`, then those of `b`. */
  lemma {:induction false} FilterAppend<T(!new)>(a: seq<T>, b: seq<T>, p: T -> bool)
    ensures Filter(a + b, p) == Filter(a, p) + Filter(b, p)
  {
    if a == [] {
      assert a + b == b;
    } else {
      assert (a + b)[1..] == a[1..] + b;
      FilterAppend(a[1..], b, p);
    }
  }

  /** A mask that keeps every element keeps the sequence as it is. */
  lemma {:induction false} FilterKeepsAll<T(!new)>(s: seq<T>, p: T -> bool)
    requires forall x :: x in s ==> p(x)
    ensures Filter(s, p) == s
  {
    if s != [] {
      FilterKeepsAll(s[1..], p);
    }
  }

  /** The positions, from `from` on, of the elements of `s` that satisfy `p`, in increasing order. */
  function Positions<T>(s: seq<T>, p: T -> bool, from: nat): (r: seq<nat>)
    requires from <= |s|
    ensures forall i :: i in r <==> from <= i < |s| && p(s[i])
    ensures forall k :: 0 <= k < |r| ==> from <= r[k] < |s|
    ensures forall a, b :: 0 <= a < b < |r| ==> r[a] < r[b]
    decreases |s| - from
  {
    if from == |s| then []
    else
      var rest := Positions(s, p, from + 1);
      assert forall b :: 0 <= b < |rest| ==> rest[b] > from;
      (if p(s[from]) then [from] else []) + rest
  }

  /** `r` lists the elements of `s` at the positions `pos`, in that order. */
  ghost predicate AtPositions<T>(r: seq<T>, s: seq<T>, pos: seq<nat>) {
    |r| == |pos| && forall k :: 0 <= k < |r| ==> pos[k] < |s| && r[k] == s[pos[k]]
  }

  lemma AtPositionsCons<T>(x: T, r: seq<T>, s: seq<T>, i: nat, pos: seq<nat>)
    requires i < |s| && s[i] == x && AtPositions(r, s, pos)
    ensures AtPositions([x] + r, s, [i] + pos)
  {
    forall k | 0 <= k < |r| + 1 ensures ([i] + pos)[k] < |s| && ([x] + r)[k] == s[([i] + pos)[k]] {
      if k > 0 {
        assert ([x] + r)[k] == r[k - 1] && ([i] + pos)[k] == pos[k - 1];
      }
    }
  }

  lemma {:induction false} FilterFrom<T(!new)>(s: seq<T>, p: T -> bool, from: nat)
    requires from <= |s|
    ensures AtPositions(Filter(s[from..], p), s, Positions(s, p, from))
    decreases |s| - from
  {
    if from < |s| {
      var tail := s[from..];
      assert tail[1..] == s[from + 1..];
      assert tail[0] == s[from];
      FilterFrom(s, p, from + 1);
      var rest, restPos := Filter(s[from + 1..], p), Positions(s, p, from + 1);
      if p(s[from]) {
        assert Filter(tail, p) == [s[from]] + rest;
        AtPositionsCons(s[from], rest, s, from, restPos);
      } else {
        assert Filter(tail, p) == rest;
      }
    }
  }

  /**
   * Filtering keeps order and multiplicity: the `k`-th kept element is the
   * element at the `k`-th position that satisfies the mask.
   */
  lemma FilterAtPositions<T(!new)>(s: seq<T>, p: T -> bool)
    ensures var r, pos := Filter(s, p), Positions(s, p, 0);
      |r| == |pos| && forall k :: 0 <= k < |r| ==> r[k] == s[pos[k]]
  {
    assert s[0..] == s;
    FilterFrom(s, p, 0);
  }

  /** Masks that agree on the elements of `s` filter it alike. */
  lemma {:induction false} FilterCongruent<T(!new)>(s: seq<T>, p: T -> bool, q: T -> bool)
    requires forall x :: x in s ==> p(x) == q(x)
    ensures Filter(s, p) == Filter(s, q)
  {
    if s != [] {
      assert forall x :: x in s[1..] ==> x in s;
      FilterCongruent(s[1..], p, q);
    }
  }

  /** `f` applied to every element, in order. */
  function MapSeq<A, B>(s: seq<A>, f: A -> B): (r: seq<B>)
    ensures |r| == |s|
    ensures forall k :: 0 <= k < |s| ==> r[k] == f(s[k])
  {
    if s == [] then [] else [f(s[0])] + MapSeq(s[1..], f)
  }

  /**
   * Filtering the images equals taking the images of the filtered elements,
   * when the mask on an image agrees with a mask on its element.
   */
  lemma {:induction false} FilterMapSeq<A(!new), B(!new)>(s: seq<A>, f: A -> B, p: A -> bool, q: B -> bool)
    requires forall x :: x in s ==> q(f(x)) == p(x)
    ensures Filter(MapSeq(s, f), q) == MapSeq(Filter(s, p), f)
  {
    if s != [] {
      FilterMapSeq(s[1..], f, p, q);
      assert MapSeq(s, f)[1..] == MapSeq(s[1..], f);
      if p(s[0]) {
        assert Filter(s, p) == [s[0]] + Filter(s[1..], p);
      } else {
        assert Filter(s, p) == Filter(s[1..], p);
      }
    }
  }

  /** Filtering a sequence of distinct elements leaves them distinct. */
  lemma {:induction false} FilterDistinct(s: seq<string>, p: string -> bool)
    requires Distinct(s)
    ensures Distinct(Filter(s, p))
  {
    if s != [] {
      assert Distinct(s[1..]);
      FilterDistinct(s[1..], p);
      var rest := Filter(s[1..], p);
      assert s[0] !in s[1..];
      assert s[0] !in rest;
      var r := Filter(s, p);
      if p(s[0]) {
        assert r == [s[0]] + rest;
        forall a, b | 0 <= a < b < |r| ensures r[a] != r[b] {
          if a == 0 {
            assert r[b] == rest[b - 1] && r[b] in rest;
          } else {
            assert r[a] == rest[a - 1] && r[b] == rest[b - 1];
          }
        }
      }
    }
  }

  predicate EndsWith(s: string, suffix: string) {
    |suffix| <= |s| && s[|s| - |suffix|..] == suffix
  }

  // ---- building rows ---------------------------------------------------

  /** The row that holds `cells[k]` under `names[k]`; a later name wins over an earlier equal one. */
  function RowOf(names: seq<string>, cells: seq<Cell>): (r: Row)
    requires |names| == |cells|
    ensures r.Keys == ColumnSet(names)
  {
    if names == [] then map[]
    else RowOf(names[..|names| - 1], cells[..|cells| - 1])[names[|names| - 1] := cells[|cells| - 1]]
  }

  /** With distinct names, every cell can be read back under its own name. */
  lemma {:induction false} RowOfGet(names: seq<string>, cells: seq<Cell>, k: int)
    requires |names| == |cells| && Distinct(names) && 0 <= k < |names|
    ensures names[k] in RowOf(names, cells) && RowOf(names, cells)[names[k]] == cells[k]
  {
    var n := |names| - 1;
    var init := RowOf(names[..n], cells[..n]);
    assert RowOf(names, cells) == init[names[n] := cells[n]];
    if k < n {
      assert Distinct(names[..n]);
      RowOfGet(names[..n], cells[..n], k);
      assert names[..n][k] == names[k] && cells[..n][k] == cells[k];
      assert names[k] != names[n];
    }
  }

  // ---- column operations -------------------------------------------------

  /** The column list after `df[c] = ...`: an existing column keeps its place, a new one goes last. */
  function WithName(cols: seq<string>, c: string): (r: seq<string>)
    ensures ColumnSet(r) == ColumnSet(cols) + {c}
    ensures Distinct(cols) ==> Distinct(r)
  {
    if c in cols then cols else cols + [c]
  }

  /** `df[c] = value` with one value for every row. */
  function AddColumn(t: Table, c: string, v: Cell): (r: Table)
    ensures r.columns == WithName(t.columns, c)
    ensures |r.rows| == |t.rows|
    ensures forall i :: 0 <= i < |t.rows| ==> r.rows[i] == t.rows[i][c := v]
    ensures Valid(t) ==> Valid(r)
  {
    Table(WithName(t.columns, c), seq(|t.rows|, i requires 0 <= i < |t.rows| => t.rows[i][c := v]))
  }

  /** The mask that keeps the names not in `cs`. */
  function Without(cs: seq<string>): string -> bool {
    c => c !in cs
  }

  /**
   * `df.drop(columns=cs)` for columns the table has. The remaining columns
   * keep their order (see FilterAtPositions) and stay distinct.
   */
  function DropColumns(t: Table, cs: seq<string>): (r: Table)
    ensures r.columns == Filter(t.columns, Without(cs))
    ensures forall c :: c in r.columns <==> c in t.columns && c !in cs
    ensures Distinct(t.columns) ==> Distinct(r.columns)
    ensures |r.rows| == |t.rows|
    ensures forall i, c :: 0 <= i < |t.rows| ==> (c in r.rows[i] <==> c in t.rows[i] && c !in cs)
    ensures forall i, c :: 0 <= i < |t.rows| && c in t.rows[i] && c !in cs ==> r.rows[i][c] == t.rows[i][c]
  {
    var gone := ColumnSet(cs);
    assert forall c :: c in gone <==> c in cs;
    assert Distinct(t.columns) ==> Distinct(Filter(t.columns, Without(cs))) by {
      if Distinct(t.columns) {
        FilterDistinct(t.columns, Without(cs));
      }
    }
    Table(Filter(t.columns, Without(cs)),
          seq(|t.rows|, i requires 0 <= i < |t.rows| => t.rows[i] - gone))
  }
}
