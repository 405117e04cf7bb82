/**
 * The Python string operations the matcher and the scrapers rely on:
 * `str.strip()`, `str.upper()`, `str.lower()`, `re.sub(r"\s+", " ", s)`,
 * `in` on strings, `str.find`-style searching, `str.isdigit()`, `int(...)`
 * and `str(int)`. Whitespace is Python's `str.isspace()` set; case mapping
 * and digits are ASCII only.
 */
module Text {
  import opened Wrappers

  /** Python's `str.isspace()` for one character (also the `\s` class of `re` on text). */
  predicate IsSpace(c: char) {
    var n := c as int;
    || n == 0x20
    || 0x09 <= n <= 0x0D
    || 0x1C <= n <= 0x1F
    || n == 0x85 || n == 0xA0 || n == 0x1680
    || 0x2000 <= n <= 0x200A
    || n == 0x2028 || n == 0x2029 || n == 0x202F || n == 0x205F || n == 0x3000
  }

  predicate IsAsciiLower(c: char) { 'a' <= c <= 'z' }

  predicate IsAsciiUpper(c: char) { 'A' <= c <= 'Z' }

  /** Upper-casing one character: whitespace stays whitespace, and no lower-case letter is left. */
  function UpperChar(c: char): (r: char)
    ensures IsSpace(r) <==> IsSpace(c)
    ensures !IsAsciiLower(r)
    ensures !IsAsciiLower(c) ==> r == c
  {
    if IsAsciiLower(c) then (c as int - 32) as char else c
  }

  /** Lower-casing one character: whitespace stays whitespace, and no upper-case letter is left. */
  function LowerChar(c: char): (r: char)
    ensures IsSpace(r) <==> IsSpace(c)
    ensures !IsAsciiUpper(r)
    ensures !IsAsciiUpper(c) ==> r == c
  {
    if IsAsciiUpper(c) then (c as int + 32) as char else c
  }

  /** `s.upper()` on ASCII letters; every other character is kept. */
  function Upper(s: string): (r: string)
    ensures |r| == |s|
    ensures forall i :: 0 <= i < |s| ==> r[i] == UpperChar(s[i])
  {
    seq(|s|, i requires 0 <= i < |s| => UpperChar(s[i]))
  }

  /** `s.lower()` on ASCII letters; every other character is kept. */
  function Lower(s: string): (r: string)
    ensures |r| == |s|
    ensures forall i :: 0 <= i < |s| ==> r[i] == LowerChar(s[i])
  {
    seq(|s|, i requires 0 <= i < |s| => LowerChar(s[i]))
  }

  /** The length of the leading whitespace run. */
  function LeadingSpaces(s: string): (n: nat)
    ensures n <= |s|
    ensures forall i :: 0 <= i < n ==> IsSpace(s[i])
    ensures n < |s| ==> !IsSpace(s[n])
  {
    if s != [] && IsSpace(s[0]) then 1 + LeadingSpaces(s[1..]) else 0
  }

  /** The length of the trailing whitespace run. */
  function TrailingSpaces(s: string): (n: nat)
    ensures n <= |s|
    ensures forall i :: |s| - n <= i < |s| ==> IsSpace(s[i])
    ensures n < |s| ==> !IsSpace(s[|s| - n - 1])
  {
    if s != [] && IsSpace(s[|s| - 1]) then 1 + TrailingSpaces(s[..|s| - 1]) else 0
  }

  /** `s.lstrip()`. */
  function TrimLeft(s: string): string {
    s[LeadingSpaces(s)..]
  }

  /** `s.rstrip()`. */
  function TrimRight(s: string): string {
    s[..|s| - TrailingSpaces(s)]
  }

  /** No whitespace at either end. */
  predicate Trimmed(s: string) {
    s == [] || (!IsSpace(s[0]) && !IsSpace(s[|s| - 1]))
  }

  /** `s.strip()`: whitespace dropped at both ends. */
  function Strip(s: string): (r: string)
    ensures Trimmed(r)
    ensures Trimmed(s) ==> r == s
  {
    var l := TrimLeft(s);
    var r := TrimRight(l);
    assert r != [] ==> r[0] == l[0];
    assert Trimmed(s) && s != [] ==> LeadingSpaces(s) == 0 && TrailingSpaces(s) == 0;
    r
  }

  /**
   * Strip keeps the middle of `s` that starts at the first and ends at the
   * last non-whitespace character: everything it drops is whitespace.
   */
  lemma StripMiddle(s: string)
    ensures var a := LeadingSpaces(s);
      && a + |Strip(s)| <= |s| && Strip(s) == s[a..a + |Strip(s)|]
      && (forall i :: 0 <= i < a ==> IsSpace(s[i]))
      && (forall i :: a + |Strip(s)| <= i < |s| ==> IsSpace(s[i]))
  {
    var a := LeadingSpaces(s);
    var l := s[a..];
    var b := TrailingSpaces(l);
    assert Strip(s) == l[..|l| - b];
    assert l[..|l| - b] == s[a..a + (|l| - b)];
    forall i | a + (|l| - b) <= i < |s|
      ensures IsSpace(s[i])
    {
      assert s[i] == l[i - a];
    }
  }

  /** Strip gives the empty text exactly when `s` is all whitespace. */
  lemma StripEmpty(s: string)
    ensures Strip(s) == [] <==> forall i :: 0 <= i < |s| ==> IsSpace(s[i])
  {
    StripMiddle(s);
    var a := LeadingSpaces(s);
    if Strip(s) != [] {
      assert !IsSpace(s[a]);
    }
  }

  /** The character `re.sub(r"\s+", " ", ...)` writes for `c` at the head of a run. */
  function SpaceOr(c: char): char {
    if IsSpace(c) then ' ' else c
  }

  /**
   * `re.sub(r"\s+", " ", s)`: every maximal run of whitespace becomes one
   * space. A whitespace character followed by another is dropped; the last
   * of a run is written as a space.
   */
  function CollapseSpaces(s: string): (r: string)
    ensures |r| <= |s|
    ensures r == [] <==> s == []
    ensures s != [] ==> r[0] == SpaceOr(s[0])
  {
    if s == [] then []
    else if IsSpace(s[0]) && |s| > 1 && IsSpace(s[1]) then CollapseSpaces(s[1..])
    else [SpaceOr(s[0])] + CollapseSpaces(s[1..])
  }

  /**
   * A position whose character survives the collapse: a non-whitespace
   * character, or the last whitespace character of a run.
   */
  predicate RunEnd(s: string, i: nat)
    requires i < |s|
  {
    !IsSpace(s[i]) || i + 1 == |s| || !IsSpace(s[i + 1])
  }

  /** The surviving positions of `s` from `from` on, in increasing order. */
  function WrittenPositions(s: string, from: nat): (r: seq<nat>)
    requires from <= |s|
    ensures forall i :: i in r <==> from <= i < |s| && RunEnd(s, i)
    ensures forall k :: 0 <= k < |r| ==> from <= r[k] < |s|
    ensures forall a, b :: 0 <= a < b < |r| ==> r[a] < r[b]
    decreases |s| - from
  {
    if from == |s| then []
    else
      var rest := WrittenPositions(s, from + 1);
      assert forall b :: 0 <= b < |rest| ==> rest[b] > from;
      (if RunEnd(s, from) then [from] else []) + rest
  }

  /** `r` holds, in order, the characters of `s` at `pos`, whitespace written as a space. */
  predicate CollapsedAt(r: string, s: string, pos: seq<nat>) {
    |r| == |pos| && forall k :: 0 <= k < |r| ==> pos[k] < |s| && r[k] == SpaceOr(s[pos[k]])
  }

  lemma CollapsedAtCons(r: string, s: string, i: nat, pos: seq<nat>)
    requires i < |s| && CollapsedAt(r, s, pos)
    ensures CollapsedAt([SpaceOr(s[i])] + r, s, [i] + pos)
  {
    var r', pos' := [SpaceOr(s[i])] + r, [i] + pos;
    assert forall k :: 0 < k < |r'| ==> r'[k] == r[k - 1] && pos'[k] == pos[k - 1];
  }

  /** One step of the collapse, read at the head of `s[from..]`. */
  lemma CollapseStep(s: string, from: nat)
    requires from < |s|
    ensures CollapseSpaces(s[from..]) ==
      if RunEnd(s, from) then [SpaceOr(s[from])] + CollapseSpaces(s[from + 1..]) else CollapseSpaces(s[from + 1..])
  {
    var t := s[from..];
    assert t[0] == s[from] && t[1..] == s[from + 1..];
    assert |t| > 1 ==> t[1] == s[from + 1];
  }

  lemma {:induction false} CollapseFrom(s: string, from: nat)
    requires from <= |s|
    ensures CollapsedAt(CollapseSpaces(s[from..]), s, WrittenPositions(s, from))
    decreases |s| - from
  {
    if from < |s| {
      CollapseFrom(s, from + 1);
      CollapseStep(s, from);
      if RunEnd(s, from) {
        CollapsedAtCons(CollapseSpaces(s[from + 1..]), s, from, WrittenPositions(s, from + 1));
      }
    }
  }

  /**
   * The collapse exactly: the characters at the surviving positions, in
   * order, each whitespace written as a plain space. So every non-whitespace
   * character is kept and every maximal whitespace run leaves one space.
   */
  lemma CollapseWritten(s: string)
    ensures var r, pos := CollapseSpaces(s), WrittenPositions(s, 0);
      |r| == |pos| && forall k :: 0 <= k < |r| ==> r[k] == SpaceOr(s[pos[k]])
  {
    assert s[0..] == s;
    CollapseFrom(s, 0);
  }

  /** The non-whitespace characters of `s`, in order. */
  function NonSpace(s: string): (r: string)
    ensures forall i :: 0 <= i < |r| ==> !IsSpace(r[i])
  {
    if s == [] then [] else (if IsSpace(s[0]) then [] else [s[0]]) + NonSpace(s[1..])
  }

  /** Collapsing keeps every non-whitespace character, in order, and adds none. */
  lemma {:induction false} CollapseKeepsNonSpace(s: string)
    ensures NonSpace(CollapseSpaces(s)) == NonSpace(s)
  {
    if s != [] {
      CollapseKeepsNonSpace(s[1..]);
      var rt := CollapseSpaces(s[1..]);
      if !(IsSpace(s[0]) && |s| > 1 && IsSpace(s[1])) {
        var r := [SpaceOr(s[0])] + rt;
        assert r[0] == SpaceOr(s[0]) && r[1..] == rt;
        assert IsSpace(SpaceOr(s[0])) == IsSpace(s[0]);
      }
    }
  }

  /** The collapsed text holds no whitespace other than plain spaces. */
  lemma {:induction false} CollapseOnlySpaces(s: string)
    ensures forall i :: 0 <= i < |CollapseSpaces(s)| && IsSpace(CollapseSpaces(s)[i]) ==> CollapseSpaces(s)[i] == ' '
  {
    if s != [] {
      CollapseOnlySpaces(s[1..]);
      var r := CollapseSpaces(s);
      var rt := CollapseSpaces(s[1..]);
      if !(IsSpace(s[0]) && |s| > 1 && IsSpace(s[1])) {
        assert r == [SpaceOr(s[0])] + rt;
        assert forall i :: 0 < i < |r| ==> r[i] == rt[i - 1];
      }
    }
  }

  /** Collapsing whitespace introduces no lower-case ASCII letter. */
  lemma {:induction false} CollapseNoLower(s: string)
    requires forall i :: 0 <= i < |s| ==> !IsAsciiLower(s[i])
    ensures forall i :: 0 <= i < |CollapseSpaces(s)| ==> !IsAsciiLower(CollapseSpaces(s)[i])
  {
    if s != [] {
      CollapseNoLower(s[1..]);
      var r := CollapseSpaces(s);
      var rt := CollapseSpaces(s[1..]);
      if !(IsSpace(s[0]) && |s| > 1 && IsSpace(s[1])) {
        assert r == [SpaceOr(s[0])] + rt;
        assert forall i :: 0 < i < |r| ==> r[i] == rt[i - 1];
      }
    }
  }

  /** The collapsed text never holds two spaces in a row. */
  lemma {:induction false} CollapseNoDoubleSpace(s: string)
    ensures forall i :: 0 <= i < |CollapseSpaces(s)| - 1 ==> !(CollapseSpaces(s)[i] == ' ' && CollapseSpaces(s)[i + 1] == ' ')
  {
    if s != [] {
      CollapseNoDoubleSpace(s[1..]);
      var r := CollapseSpaces(s);
      var rt := CollapseSpaces(s[1..]);
      if !(IsSpace(s[0]) && |s| > 1 && IsSpace(s[1])) {
        assert r == [SpaceOr(s[0])] + rt;
        assert forall i :: 0 < i < |r| ==> r[i] == rt[i - 1];
        assert |s| > 1 ==> rt[0] == SpaceOr(s[1]);
      }
    }
  }

  /** A text that ends in a non-whitespace character keeps that last character. */
  lemma {:induction false} CollapseLast(s: string)
    requires s != [] && !IsSpace(s[|s| - 1])
    ensures CollapseSpaces(s) != [] && CollapseSpaces(s)[|CollapseSpaces(s)| - 1] == s[|s| - 1]
  {
    if |s| > 1 {
      CollapseLast(s[1..]);
    }
  }

  /** Whitespace only as single spaces. */
  predicate SingleSpaced(s: string) {
    && (forall i :: 0 <= i < |s| ==> IsSpace(s[i]) ==> s[i] == ' ')
    && (forall i :: 0 <= i < |s| - 1 ==> !(s[i] == ' ' && s[i + 1] == ' '))
  }

  /** Collapsing a text whose whitespace is already single spaces changes nothing. */
  lemma {:induction false} CollapseFixed(s: string)
    requires SingleSpaced(s)
    ensures CollapseSpaces(s) == s
  {
    if s != [] {
      assert SingleSpaced(s[1..]);
      CollapseFixed(s[1..]);
      assert |s| > 1 && IsSpace(s[0]) ==> !IsSpace(s[1]);
      assert s == [s[0]] + s[1..];
    }
  }

  /** The comparison key of a facility name: stripped, upper-cased, whitespace runs collapsed. */
  function NameKey(s: string): string {
    CollapseSpaces(Upper(Strip(s)))
  }

  /** The comparison key of a license number: stripped and upper-cased. */
  function LicenseKey(s: string): string {
    Upper(Strip(s))
  }

  /** What a normalized name key looks like. */
  predicate IsNameKey(k: string) {
    && SingleSpaced(k)
    && Trimmed(k)
    && forall i :: 0 <= i < |k| ==> !IsAsciiLower(k[i])
  }

  /** What a normalized license key looks like. */
  predicate IsLicenseKey(k: string) {
    && Trimmed(k)
    && forall i :: 0 <= i < |k| ==> !IsAsciiLower(k[i])
  }

  /**
   * A name key has no leading or trailing blank, no whitespace other than
   * single spaces, and no lower-case ASCII letter.
   */
  lemma NameKeyNormalized(s: string)
    ensures IsNameKey(NameKey(s))
  {
    var u := Upper(Strip(s));
    var r := CollapseSpaces(u);
    CollapseOnlySpaces(u);
    CollapseNoLower(u);
    CollapseNoDoubleSpace(u);
    if u != [] {
      assert !IsSpace(u[0]) && !IsSpace(u[|u| - 1]);
      CollapseLast(u);
    }
  }

  /** Normalizing a name key again gives the same key. */
  lemma NameKeyIdempotent(s: string)
    ensures NameKey(NameKey(s)) == NameKey(s)
  {
    var k := NameKey(s);
    NameKeyNormalized(s);
    assert Strip(k) == k;
    assert Upper(k) == k;
    CollapseFixed(k);
  }

  /** A license key has no whitespace at either end and no lower-case ASCII letter. */
  lemma LicenseKeyNormalized(s: string)
    ensures IsLicenseKey(LicenseKey(s))
  {
  }

  /** Normalizing a license key again gives the same key. */
  lemma LicenseKeyIdempotent(s: string)
    ensures LicenseKey(LicenseKey(s)) == LicenseKey(s)
  {
    var k := LicenseKey(s);
    assert Trimmed(k);
    assert Strip(k) == k;
    assert Upper(k) == k;
  }

  // ---- searching --------------------------------------------------------

  predicate IsPrefix(p: string, s: string) {
    |p| <= |s| && s[..|p|] == p
  }

  /** Python's `needle in hay`. */
  predicate Contains(hay: string, needle: string)
    decreases |hay|
  {
    IsPrefix(needle, hay) || (hay != [] && Contains(hay[1..], needle))
  }

  /** An occurrence at position `k` makes `needle in hay` true, and only such a one does. */
  lemma {:induction false} ContainsAt(hay: string, needle: string)
    ensures Contains(hay, needle) <==> exists k :: 0 <= k <= |hay| && IsPrefix(needle, hay[k..])
    decreases |hay|
  {
    if IsPrefix(needle, hay) {
      assert hay[0..] == hay;
    }
    if hay != [] {
      ContainsAt(hay[1..], needle);
      forall k | 1 <= k <= |hay|
        ensures hay[1..][k - 1..] == hay[k..]
      {
      }
      if exists k :: 0 <= k <= |hay| && IsPrefix(needle, hay[k..]) {
        var k :| 0 <= k <= |hay| && IsPrefix(needle, hay[k..]);
        if k > 0 {
          assert IsPrefix(needle, hay[1..][k - 1..]);
        }
      }
      if Contains(hay[1..], needle) {
        var k :| 0 <= k <= |hay[1..]| && IsPrefix(needle, hay[1..][k..]);
        assert hay[1..][k..] == hay[k + 1..];
        assert IsPrefix(needle, hay[k + 1..]);
      }
    } else {
      assert hay[0..] == hay;
    }
  }

  /** The first position where `needle` occurs in `hay`, if any. */
  function FindFirst(hay: string, needle: string): (r: Option<nat>)
    ensures r.None? <==> !Contains(hay, needle)
    ensures r.Some? ==> r.value <= |hay| && IsPrefix(needle, hay[r.value..])
    ensures r.Some? ==> forall k :: 0 <= k < r.value ==> !IsPrefix(needle, hay[k..])
    decreases |hay|
  {
    if IsPrefix(needle, hay) then
      assert hay[0..] == hay;
      Some(0)
    else if hay == [] then
      None
    else
      match FindFirst(hay[1..], needle)
      case None => None
      case Some(i) =>
        assert forall k :: 1 <= k <= |hay| ==> hay[1..][k - 1..] == hay[k..];
        Some(i + 1)
  }

  /** A prefix of a text that holds no occurrence of `needle` holds none either. */
  lemma NotContainsPrefix(s: string, n: nat, needle: string)
    requires n <= |s| && !Contains(s, needle)
    ensures !Contains(s[..n], needle)
  {
    ContainsAt(s, needle);
    ContainsAt(s[..n], needle);
    if Contains(s[..n], needle) {
      var k :| 0 <= k <= n && IsPrefix(needle, s[..n][k..]);
      assert IsPrefix(needle, s[k..]);
    }
  }

  // ---- digits -----------------------------------------------------------

  predicate IsDigit(c: char) { '0' <= c <= '9' }

  /** Python's `s.isdigit()` on ASCII digits: non-empty and all digits. */
  predicate IsDigits(s: string) {
    |s| > 0 && forall i :: 0 <= i < |s| ==> IsDigit(s[i])
  }

  /** `int(s)` for a text made of digits. */
  function DigitsValue(s: string): nat
    requires forall i :: 0 <= i < |s| ==> IsDigit(s[i])
  {
    if s == [] then 0
    else
      assert IsDigit(s[|s| - 1]);
      DigitsValue(s[..|s| - 1]) * 10 + (s[|s| - 1] as int - '0' as int)
  }

  /** `str(n)` for a natural number: decimal digits that read back as `n`. */
  function NatToString(n: nat): (r: string)
    ensures IsDigits(r) && DigitsValue(r) == n
    ensures |r| > 1 ==> r[0] != '0'
    ensures n < 10 <==> |r| == 1
    ensures 10 <= n < 100 ==> |r| == 2
    ensures 100 <= n < 1000 ==> |r| == 3
    ensures 1000 <= n < 10000 ==> |r| == 4
  {
    if n < 10 then [(n + '0' as int) as char]
    else
      var p := NatToString(n / 10);
      var r := p + [(n % 10 + '0' as int) as char];
      assert r[..|r| - 1] == p;
      r
  }

  /** `str(n)` for an integer. */
  function IntToString(n: int): string {
    if n < 0 then "-" + NatToString(-n) else NatToString(n)
  }

  /** A number below 100 as exactly two digits (strftime's `%m` and `%d`). */
  function Pad2(n: nat): (r: string)
    requires n < 100
    ensures |r| == 2 && IsDigits(r) && DigitsValue(r) == n
  {
    if n < 10 then
      var r := "0" + NatToString(n);
      assert r[..1] == "0";
      r
    else NatToString(n)
  }
}
