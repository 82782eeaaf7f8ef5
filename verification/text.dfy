/** Character classes and string helpers with the meaning they have in the
    JavaScript the extension is written in: `\s`, `\w`, `[a-z]`, `[A-Z]`,
    `String.prototype.includes`, `toLowerCase`, `trim`-emptiness and `Array.prototype.join`. */
module Text {

  /** JavaScript `\s`: the ECMAScript WhiteSpace and LineTerminator code points,
      tested by code-point range first (below the space only TAB to CR count, and
      nothing between the space and NO-BREAK SPACE). */
  predicate IsWhitespace(c: char) {
    if c <= ' ' then c == ' ' || '\t' <= c <= '\r'
    else if c < '\U{00A0}' then false
    else
      || c == '\U{00A0}' || c == '\U{1680}' || ('\U{2000}' <= c <= '\U{200A}')
      || c == '\U{2028}' || c == '\U{2029}' || c == '\U{202F}' || c == '\U{205F}'
      || c == '\U{3000}' || c == '\U{FEFF}'
  }

  /** JavaScript `[a-z]`. */
  predicate IsLower(c: char) {
    'a' <= c <= 'z'
  }

  /** JavaScript `[A-Z]`. */
  predicate IsUpper(c: char) {
    'A' <= c <= 'Z'
  }

  predicate IsDigit(c: char) {
    '0' <= c <= '9'
  }

  /** JavaScript `\w` (without the `u` and `i` flags): `[A-Za-z0-9_]`. */
  predicate IsWordChar(c: char) {
    IsLower(c) || IsUpper(c) || IsDigit(c) || c == '_'
  }

  /** Case folding of one character, on the ASCII letters only. */
  function ToLowerChar(c: char): (r: char)
    ensures IsUpper(c) ==> IsLower(r)
    ensures !IsUpper(c) ==> r == c
  {
    if IsUpper(c) then (c as int - 'A' as int + 'a' as int) as char else c
  }

  /** `s.toLowerCase()`, restricted to ASCII letters. */
  function Lower(s: string): (r: string)
    ensures |r| == |s|
    ensures forall i :: 0 <= i < |s| ==> r[i] == ToLowerChar(s[i])
  {
    seq(|s|, i requires 0 <= i < |s| => ToLowerChar(s[i]))
  }

  /** Lower-casing leaves a string without ASCII capitals unchanged. */
  lemma LowerOfLower(s: string)
    requires forall i :: 0 <= i < |s| ==> !IsUpper(s[i])
    ensures Lower(s) == s
  {
  }

  lemma LowerAppend(a: string, b: string)
    ensures Lower(a + b) == Lower(a) + Lower(b)
  {
  }

  predicate StartsWith(s: string, p: string) {
    |p| <= |s| && s[..|p|] == p
  }

  /** `p[j..]` occurs in `s` at offset `i + j`. */
  predicate MatchesAt(s: string, p: string, i: nat, j: nat)
    decreases |p| - j
  {
    if j >= |p| then true
    else if i + j >= |s| then false
    else if s[i + j] != p[j] then false
    else MatchesAt(s, p, i, j + 1)
  }

  /** `p` occurs in `s` at some offset `i` or later. */
  predicate ContainsFrom(s: string, p: string, i: nat)
    decreases |s| - i
  {
    if i + |p| > |s| then false
    else if MatchesAt(s, p, i, 0) then true
    else ContainsFrom(s, p, i + 1)
  }

  /** `s.includes(p)`: `p` occurs as a contiguous substring of `s`. */
  predicate Contains(s: string, p: string) {
    ContainsFrom(s, p, 0)
  }

  lemma {:induction false} MatchesAtAppendRight(s: string, t: string, p: string, i: nat, j: nat)
    requires MatchesAt(s, p, i, j)
    ensures MatchesAt(s + t, p, i, j)
    decreases |p| - j
  {
    if j < |p| {
      MatchesAtAppendRight(s, t, p, i, j + 1);
    }
  }

  lemma {:induction false} ContainsFromAppendRight(s: string, t: string, p: string, i: nat)
    requires ContainsFrom(s, p, i)
    ensures ContainsFrom(s + t, p, i)
    decreases |s| - i
  {
    if MatchesAt(s, p, i, 0) {
      MatchesAtAppendRight(s, t, p, i, 0);
    } else {
      ContainsFromAppendRight(s, t, p, i + 1);
    }
  }

  /** A pattern found in `s` is still found once something is appended to `s`. */
  lemma ContainsAppendRight(s: string, t: string, p: string)
    requires Contains(s, p)
    ensures Contains(s + t, p)
  {
    ContainsFromAppendRight(s, t, p, 0);
  }

  lemma {:induction false} MatchesAtShift(s: string, t: string, p: string, i: nat, j: nat)
    requires MatchesAt(t, p, i, j)
    ensures MatchesAt(s + t, p, |s| + i, j)
    decreases |p| - j
  {
    if j < |p| {
      assert (s + t)[|s| + i + j] == t[i + j];
      MatchesAtShift(s, t, p, i, j + 1);
    }
  }

  lemma {:induction false} ContainsFromShift(s: string, t: string, p: string, i: nat)
    requires ContainsFrom(t, p, i)
    ensures ContainsFrom(s + t, p, |s| + i)
    decreases |t| - i
  {
    if MatchesAt(t, p, i, 0) {
      MatchesAtShift(s, t, p, i, 0);
    } else {
      ContainsFromShift(s, t, p, i + 1);
    }
  }

  lemma {:induction false} ContainsFromEarlier(s: string, p: string, k: nat, i: nat)
    requires k <= i && ContainsFrom(s, p, i)
    ensures ContainsFrom(s, p, k)
    decreases i - k
  {
    if k < i {
      ContainsFromEarlier(s, p, k + 1, i);
    }
  }

  /** A pattern found in `t` is still found once something is prepended to `t`. */
  lemma ContainsAppendLeft(s: string, t: string, p: string)
    requires Contains(t, p)
    ensures Contains(s + t, p)
  {
    ContainsFromShift(s, t, p, 0);
    ContainsFromEarlier(s + t, p, 0, |s|);
  }

  lemma {:induction false} MatchesItself(p: string, j: nat)
    ensures MatchesAt(p, p, 0, j)
    decreases |p| - j
  {
    if j < |p| {
      MatchesItself(p, j + 1);
    }
  }

  lemma ContainsItself(p: string)
    ensures Contains(p, p)
  {
    MatchesItself(p, 0);
  }

  /** `p` sits in `s` at offset `m`. */
  predicate OccursAt(s: string, p: string, m: nat) {
    m + |p| <= |s| && forall k :: 0 <= k < |p| ==> s[m + k] == p[k]
  }

  /** A slice equal to `p` is an occurrence of `p`. */
  lemma ContainsAt(s: string, p: string, i: nat)
    requires i + |p| <= |s| && s[i..i + |p|] == p
    ensures Contains(s, p)
  {
    ContainsItself(p);
    ContainsAppendRight(p, s[i + |p|..], p);
    ContainsAppendLeft(s[..i], p + s[i + |p|..], p);
    assert s == s[..i] + (p + s[i + |p|..]);
  }

  lemma {:induction false} MatchesAtChars(s: string, p: string, i: nat, j: nat)
    requires MatchesAt(s, p, i, j)
    ensures j < |p| ==> i + |p| <= |s|
    ensures forall k :: j <= k < |p| ==> s[i + k] == p[k]
    decreases |p| - j
  {
    if j < |p| {
      assert i + j < |s| && s[i + j] == p[j] && MatchesAt(s, p, i, j + 1);
      MatchesAtChars(s, p, i, j + 1);
    }
  }

  lemma {:induction false} ContainsFromWitness(s: string, p: string, i: nat)
    requires ContainsFrom(s, p, i)
    ensures exists m: nat :: i <= m && OccursAt(s, p, m)
    decreases |s| - i
  {
    if MatchesAt(s, p, i, 0) {
      MatchesAtChars(s, p, i, 0);
      assert OccursAt(s, p, i);
    } else {
      ContainsFromWitness(s, p, i + 1);
    }
  }

  /** Every character of a pattern that occurs in `s` is a character of `s`. */
  lemma OccurrenceHasChar(s: string, p: string, k: nat)
    requires k < |p|
    ensures Contains(s, p) ==> p[k] in s
  {
    if Contains(s, p) {
      ContainsFromWitness(s, p, 0);
      var m: nat :| OccursAt(s, p, m);
      assert s[m + k] == p[k];
    }
  }

  /** Two adjacent characters of a pattern that occurs in `s` stand side by side in `s`. */
  lemma OccurrenceHasPair(s: string, p: string, k: nat)
    requires k + 1 < |p|
    ensures Contains(s, p) ==>
      exists m :: 0 <= m && m + 1 < |s| && s[m] == p[k] && s[m + 1] == p[k + 1]
  {
    if Contains(s, p) {
      ContainsFromWitness(s, p, 0);
      var m: nat :| OccursAt(s, p, m);
      assert s[m + k] == p[k] && s[m + k + 1] == p[k + 1];
    }
  }

  /** A pattern with a character that `s` lacks does not occur in `s`. */
  lemma NotContainsByChar(s: string, p: string, k: nat)
    requires k < |p| && p[k] !in s
    ensures !Contains(s, p)
  {
    OccurrenceHasChar(s, p, k);
  }

  /** `a` immediately followed by `b` occurs somewhere in `s`. */
  predicate Adjacent(s: string, a: char, b: char) {
    exists m :: 0 <= m && m + 1 < |s| && s[m] == a && s[m + 1] == b
  }

  /** A pair that stands side by side in neither part nor across the seam is absent from the whole. */
  lemma NotAdjacentAppend(a: string, b: string, x: char, y: char)
    requires !Adjacent(a, x, y) && !Adjacent(b, x, y)
    requires !(|a| > 0 && |b| > 0 && a[|a| - 1] == x && b[0] == y)
    ensures !Adjacent(a + b, x, y)
  {
    var s := a + b;
    forall m | 0 <= m && m + 1 < |s| ensures !(s[m] == x && s[m + 1] == y) {
      if m + 1 < |a| {
        assert s[m] == a[m] && s[m + 1] == a[m + 1];
      } else if m >= |a| {
        assert s[m] == b[m - |a|] && s[m + 1] == b[m - |a| + 1];
      }
    }
  }

  /** A pattern with two adjacent characters that never stand side by side in
      `s` does not occur in `s`. */
  lemma NotContainsByPair(s: string, p: string, k: nat)
    requires k + 1 < |p|
    requires !Adjacent(s, p[k], p[k + 1])
    ensures !Contains(s, p)
  {
    OccurrenceHasPair(s, p, k);
  }

  /** A string that `s.trim()` reduces to the empty string (falsy in JavaScript). */
  predicate IsBlank(s: string) {
    forall i :: 0 <= i < |s| ==> IsWhitespace(s[i])
  }

  /** `parts.join(sep)`. */
  function Join(parts: seq<string>, sep: string): string
  {
    if |parts| == 0 then ""
    else if |parts| == 1 then parts[0]
    else parts[0] + sep + Join(parts[1..], sep)
  }

  /** A join starts with its first part. */
  lemma JoinStartsWithFirst(parts: seq<string>, sep: string)
    requires |parts| > 0
    ensures StartsWith(Join(parts, sep), parts[0])
  {
    if |parts| > 1 {
      assert (parts[0] + sep + Join(parts[1..], sep))[..|parts[0]|] == parts[0];
    }
  }

  /** Joining a non-empty list whose first entry is not blank never gives a blank string. */
  lemma JoinNotBlank(parts: seq<string>, sep: string)
    requires |parts| > 0 && !IsBlank(parts[0])
    ensures !IsBlank(Join(parts, sep))
  {
    JoinStartsWithFirst(parts, sep);
    var j := Join(parts, sep);
    var i :| 0 <= i < |parts[0]| && !IsWhitespace(parts[0][i]);
    assert j[i] == j[..|parts[0]|][i];
  }

  // Decimal rendering of a count, as a template literal `${n}` shows it.

  function DigitChar(d: nat): (c: char)
    requires d < 10
    ensures IsDigit(c)
  {
    ('0' as int + d) as char
  }

  function DigitValue(c: char): nat
    requires IsDigit(c)
  {
    c as int - '0' as int
  }

  /** The decimal numeral of `n` with no leading zeros. */
  function Decimal(n: nat): (r: string)
    ensures |r| > 0
    ensures forall i :: 0 <= i < |r| ==> IsDigit(r[i])
    ensures |r| > 1 ==> r[0] != '0'
    decreases n
  {
    if n < 10 then [DigitChar(n)] else Decimal(n / 10) + [DigitChar(n % 10)]
  }

  /** Reads a string of decimal digits back as a number. */
  function ParseDecimal(s: string): nat
    requires forall i :: 0 <= i < |s| ==> IsDigit(s[i])
    decreases |s|
  {
    if |s| == 0 then 0 else ParseDecimal(s[..|s| - 1]) * 10 + DigitValue(s[|s| - 1])
  }

  /** The numeral shown for a count reads back as that count. */
  lemma {:induction false} DecimalRoundTrip(n: nat)
    ensures ParseDecimal(Decimal(n)) == n
    decreases n
  {
    if n >= 10 {
      DecimalRoundTrip(n / 10);
      var s := Decimal(n);
      assert s[..|s| - 1] == Decimal(n / 10);
    }
  }
}
