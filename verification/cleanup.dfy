/** `cleanUpText`, the post-processing of raw OCR output: collapse each run of
    whitespace to one space, trim, replace `|` by `I` and `0` by `O`, put a
    space inside every lower-upper pair, and drop every character outside the
    allowed class. The class is the one of tests/unit-tests.js:74; the class
    written in assets/libs/tesseract.js:200 does not compile (see module
    CharClass). */
module Cleanup {
  import opened Text
  import opened Wrappers

  // ---------------------------------------------------------------------
  // Shape predicates

  /** The only whitespace character in `s` is the plain space. */
  predicate OnlySpaces(s: string) {
    forall i :: 0 <= i < |s| ==> IsWhitespace(s[i]) ==> s[i] == ' '
  }

  /** No two whitespace characters are adjacent in `s`. */
  predicate NoDoubleSpace(s: string) {
    forall i :: 0 <= i < |s| - 1 ==> !(IsWhitespace(s[i]) && IsWhitespace(s[i + 1]))
  }

  /** `s` neither starts nor ends with whitespace. */
  predicate Trimmed(s: string) {
    s == [] || (!IsWhitespace(s[0]) && !IsWhitespace(s[|s| - 1]))
  }

  /** No `[a-z][A-Z]` pair occurs in `s`. */
  predicate NoCamelBoundary(s: string) {
    forall i :: 0 <= i < |s| - 1 ==> !(IsLower(s[i]) && IsUpper(s[i + 1]))
  }

  /** The non-whitespace characters of `s`, in order. */
  function NonWhitespace(s: string): string {
    if s == [] then []
    else (if IsWhitespace(s[0]) then [] else [s[0]]) + NonWhitespace(s[1..])
  }

  lemma {:induction false} NonWhitespaceAppend(a: string, b: string)
    ensures NonWhitespace(a + b) == NonWhitespace(a) + NonWhitespace(b)
    decreases |a|
  {
    if a != [] {
      var h := if IsWhitespace(a[0]) then [] else [a[0]];
      assert (a + b)[0] == a[0];
      assert (a + b)[1..] == a[1..] + b;
      NonWhitespaceAppend(a[1..], b);
      assert NonWhitespace(a + b) == h + NonWhitespace(a[1..] + b);
      assert NonWhitespace(a) == h + NonWhitespace(a[1..]);
    } else {
      assert a + b == b;
    }
  }

  // ---------------------------------------------------------------------
  // trim

  /** The length of the whitespace run that starts `s`. */
  function LeadingSpace(s: string): (n: nat)
    ensures n <= |s|
    ensures n < |s| ==> !IsWhitespace(s[n])
    decreases |s|
  {
    if s != [] && IsWhitespace(s[0]) then 1 + LeadingSpace(s[1..]) else 0
  }

  lemma {:induction false} LeadingSpaceIsWhitespace(s: string)
    ensures forall i :: 0 <= i < LeadingSpace(s) ==> IsWhitespace(s[i])
    decreases |s|
  {
    if s != [] && IsWhitespace(s[0]) {
      LeadingSpaceIsWhitespace(s[1..]);
      forall i | 1 <= i < LeadingSpace(s) ensures IsWhitespace(s[i]) {
        assert s[i] == s[1..][i - 1];
      }
    }
  }

  /** The length of the whitespace run that ends `s`. */
  function TrailingSpace(s: string): (n: nat)
    ensures n <= |s|
    ensures n < |s| ==> !IsWhitespace(s[|s| - 1 - n])
    decreases |s|
  {
    if s != [] && IsWhitespace(s[|s| - 1]) then 1 + TrailingSpace(s[..|s| - 1]) else 0
  }

  lemma {:induction false} TrailingSpaceIsWhitespace(s: string)
    ensures forall i :: |s| - TrailingSpace(s) <= i < |s| ==> IsWhitespace(s[i])
    decreases |s|
  {
    if s != [] && IsWhitespace(s[|s| - 1]) {
      TrailingSpaceIsWhitespace(s[..|s| - 1]);
      forall i | |s| - TrailingSpace(s) <= i < |s| - 1 ensures IsWhitespace(s[i]) {
        assert s[i] == s[..|s| - 1][i];
      }
    }
  }

  /** `trimStart`: `s` without its leading whitespace run. */
  function TrimStart(s: string): string {
    s[LeadingSpace(s)..]
  }

  /** Dropping one leading whitespace character does not change what `trimStart` gives. */
  lemma TrimStartSkipsFirst(s: string)
    requires s != [] && IsWhitespace(s[0])
    ensures TrimStart(s[1..]) == TrimStart(s)
  {
    assert s[1..][LeadingSpace(s[1..])..] == s[1 + LeadingSpace(s[1..])..];
  }

  /** `s.trim()`: the slice of `s` between its leading and its trailing whitespace runs. */
  function Trim(s: string): (r: string)
    ensures Trimmed(r)
    ensures r == [] <==> LeadingSpace(s) == |s|
    ensures LeadingSpace(s) + |r| <= |s|
    ensures r == s[LeadingSpace(s)..LeadingSpace(s) + |r|]
  {
    var a := LeadingSpace(s);
    if a == |s| then []
    else
      TrailingSpaceIsWhitespace(s);
      s[a..|s| - TrailingSpace(s)]
  }

  /** What trimming drops is whitespace, at both ends. */
  lemma TrimDropsWhitespace(s: string)
    ensures forall i :: 0 <= i < LeadingSpace(s) ==> IsWhitespace(s[i])
    ensures forall i :: LeadingSpace(s) + |Trim(s)| <= i < |s| ==> IsWhitespace(s[i])
  {
    LeadingSpaceIsWhitespace(s);
    TrailingSpaceIsWhitespace(s);
  }

  /** `!s.trim()` holds exactly for the strings made of whitespace only. */
  lemma TrimEmptyIffBlank(s: string)
    ensures Trim(s) == [] <==> IsBlank(s)
  {
    LeadingSpaceIsWhitespace(s);
    if LeadingSpace(s) < |s| {
      assert !IsWhitespace(s[LeadingSpace(s)]);
    }
  }

  /** A string with no whitespace at either end is its own trim. */
  lemma TrimOfTrimmed(s: string)
    requires Trimmed(s)
    ensures Trim(s) == s
  {
  }

  /** Trimming twice is trimming once. */
  lemma TrimIdempotent(s: string)
    ensures Trim(Trim(s)) == Trim(s)
  {
    TrimOfTrimmed(Trim(s));
  }

  /** The properties of a slice survive in its sub-slices. */
  lemma SliceKeepsSpacing(s: string, a: nat, b: nat)
    requires a <= b <= |s|
    requires OnlySpaces(s) && NoDoubleSpace(s)
    ensures OnlySpaces(s[a..b]) && NoDoubleSpace(s[a..b])
  {
    var t := s[a..b];
    forall i | 0 <= i < |t| - 1 ensures !(IsWhitespace(t[i]) && IsWhitespace(t[i + 1])) {
      assert t[i] == s[a + i] && t[i + 1] == s[a + i + 1];
    }
  }

  // ---------------------------------------------------------------------
  // replace(/\s+/g, ' ')

  /** Each maximal whitespace run becomes one space, as the global regex
      replacement finds the runs greedily from the left. */
  function CollapseWhitespace(s: string): (r: string)
    ensures OnlySpaces(r) && NoDoubleSpace(r)
    ensures s == [] <==> r == []
    ensures s != [] && IsWhitespace(s[0]) ==> r[0] == ' '
    ensures s != [] && !IsWhitespace(s[0]) ==> r[0] == s[0]
    decreases |s|
  {
    if s == [] then []
    else if IsWhitespace(s[0]) then
      var rest := CollapseWhitespace(TrimStart(s));
      assert forall i :: 0 < i < |rest| + 1 ==> (" " + rest)[i] == rest[i - 1];
      " " + rest
    else
      var rest := CollapseWhitespace(s[1..]);
      assert forall i :: 0 < i < |rest| + 1 ==> ([s[0]] + rest)[i] == rest[i - 1];
      [s[0]] + rest
  }

  /** A reference reading of the same replacement, one character at a time:
      a whitespace character yields a space unless the previous character was
      whitespace too. */
  function CollapseAfter(s: string, previousWasSpace: bool): string
    decreases |s|
  {
    if s == [] then []
    else if IsWhitespace(s[0]) then
      (if previousWasSpace then "" else " ") + CollapseAfter(s[1..], true)
    else [s[0]] + CollapseAfter(s[1..], false)
  }

  lemma {:induction false} CollapseAfterSkipsRun(s: string)
    ensures CollapseAfter(s, true) == CollapseAfter(TrimStart(s), true)
    decreases |s|
  {
    if s != [] && IsWhitespace(s[0]) {
      CollapseAfterSkipsRun(s[1..]);
      TrimStartSkipsFirst(s);
    }
  }

  lemma CollapseAfterFlagIrrelevant(s: string)
    requires s == [] || !IsWhitespace(s[0])
    ensures CollapseAfter(s, true) == CollapseAfter(s, false)
  {
  }

  /** The greedy run-by-run replacement equals the character-by-character reading. */
  lemma {:induction false} CollapseMatchesReference(s: string)
    ensures CollapseWhitespace(s) == CollapseAfter(s, false)
    decreases |s|
  {
    if s == [] {
    } else if IsWhitespace(s[0]) {
      var t := TrimStart(s);
      CollapseMatchesReference(t);
      CollapseAfterSkipsRun(s[1..]);
      TrimStartSkipsFirst(s);
      CollapseAfterFlagIrrelevant(t);
    } else {
      CollapseMatchesReference(s[1..]);
    }
  }

  /** Collapsing keeps every non-whitespace character, in order. */
  lemma {:induction false} CollapseKeepsText(s: string)
    ensures NonWhitespace(CollapseWhitespace(s)) == NonWhitespace(s)
    decreases |s|
  {
    if s == [] {
    } else if IsWhitespace(s[0]) {
      CollapseKeepsText(TrimStart(s));
      SpaceHasNoText(CollapseWhitespace(TrimStart(s)));
      RunHasNoText(s);
    } else {
      var rest := CollapseWhitespace(s[1..]);
      CollapseKeepsText(s[1..]);
      assert CollapseWhitespace(s) == [s[0]] + rest;
      assert ([s[0]] + rest)[1..] == rest;
    }
  }

  lemma SpaceHasNoText(rest: string)
    ensures NonWhitespace(" " + rest) == NonWhitespace(rest)
  {
    assert (" " + rest)[0] == ' ';
    assert (" " + rest)[1..] == rest;
  }

  /** A leading whitespace run holds no text. */
  lemma RunHasNoText(s: string)
    ensures NonWhitespace(s) == NonWhitespace(TrimStart(s))
  {
    var p := s[..LeadingSpace(s)];
    LeadingSpaceIsWhitespace(s);
    assert s == p + TrimStart(s);
    NonWhitespaceAppend(p, TrimStart(s));
    BlankHasNoText(p);
  }

  lemma {:induction false} BlankHasNoText(s: string)
    requires IsBlank(s)
    ensures NonWhitespace(s) == []
    decreases |s|
  {
    if s != [] {
      BlankHasNoText(s[1..]);
    }
  }

  /** A string whose only whitespace is single spaces is left as it is, and
      only such strings are: collapsing is idempotent. */
  lemma {:induction false} CollapseFixedPoint(s: string)
    ensures CollapseWhitespace(s) == s <==> OnlySpaces(s) && NoDoubleSpace(s)
    decreases |s|
  {
    if OnlySpaces(s) && NoDoubleSpace(s) && s != [] {
      SliceKeepsSpacing(s, 1, |s|);
      CollapseFixedPoint(s[1..]);
      if IsWhitespace(s[0]) {
        assert |s| > 1 ==> !IsWhitespace(s[1..][0]);
        assert LeadingSpace(s[1..]) == 0;
        assert TrimStart(s) == s[1..];
      }
    }
  }

  lemma CollapseIdempotent(s: string)
    ensures CollapseWhitespace(CollapseWhitespace(s)) == CollapseWhitespace(s)
  {
    CollapseFixedPoint(CollapseWhitespace(s));
  }

  // ---------------------------------------------------------------------
  // replace(/[|]/g, 'I') and replace(/[0]/g, 'O')

  /** Every occurrence of `from` replaced by `to`. */
  function ReplaceChar(s: string, from: char, to: char): (r: string)
    ensures |r| == |s|
    ensures forall i :: 0 <= i < |r| ==> r[i] != from || from == to
    ensures forall i :: 0 <= i < |s| && s[i] != from ==> r[i] == s[i]
    ensures forall i :: 0 <= i < |s| && s[i] == from ==> r[i] == to
  {
    seq(|s|, i requires 0 <= i < |s| => if s[i] == from then to else s[i])
  }

  /** Replacing a character that does not occur changes nothing. */
  lemma ReplaceAbsent(s: string, from: char, to: char)
    requires from !in s
    ensures ReplaceChar(s, from, to) == s
  {
  }

  /** When `to` did not occur in `s`, replacing back recovers `s`. */
  lemma ReplaceRoundTrip(s: string, from: char, to: char)
    requires forall i :: 0 <= i < |s| ==> s[i] != to
    ensures ReplaceChar(ReplaceChar(s, from, to), to, from) == s
  {
  }

  /** Replacing one non-whitespace character by another keeps the spacing shape. */
  lemma ReplaceKeepsShape(s: string, from: char, to: char)
    requires !IsWhitespace(from) && !IsWhitespace(to)
    ensures var r := ReplaceChar(s, from, to);
      (OnlySpaces(s) ==> OnlySpaces(r)) && (NoDoubleSpace(s) ==> NoDoubleSpace(r))
      && (Trimmed(s) ==> Trimmed(r))
  {
  }

  // ---------------------------------------------------------------------
  // replace(/([a-z])([A-Z])/g, '$1 $2')

  /** The regex scan: a match consumes both letters and the scan resumes after them. */
  function SplitCamel(s: string): (r: string)
    ensures NoCamelBoundary(r)
    ensures s == [] <==> r == []
    ensures s != [] ==> r[0] == s[0] && r[|r| - 1] == s[|s| - 1]
    decreases |s|
  {
    if |s| < 2 then s
    else if IsLower(s[0]) && IsUpper(s[1]) then
      var rest := SplitCamel(s[2..]);
      var r := [s[0], ' ', s[1]] + rest;
      assert forall i :: 3 <= i < |r| ==> r[i] == rest[i - 3];
      r
    else
      var rest := SplitCamel(s[1..]);
      var r := [s[0]] + rest;
      assert forall i :: 1 <= i < |r| ==> r[i] == rest[i - 1];
      r
  }

  /** Reference reading: every position followed by a lower-upper boundary gets a space. */
  function SplitAtBoundaries(s: string): string
    decreases |s|
  {
    if s == [] then []
    else [s[0]] + (if |s| >= 2 && IsLower(s[0]) && IsUpper(s[1]) then " " else "")
         + SplitAtBoundaries(s[1..])
  }

  /** Because a match ends with a capital, which never starts a match, resuming
      after the match loses no boundary: the scan equals the position-wise reading. */
  lemma {:induction false} SplitCamelMatchesReference(s: string)
    ensures SplitCamel(s) == SplitAtBoundaries(s)
    decreases |s|
  {
    if |s| >= 2 {
      if IsLower(s[0]) && IsUpper(s[1]) {
        SplitCamelMatchesReference(s[2..]);
        assert s[1..][1..] == s[2..];
      } else {
        SplitCamelMatchesReference(s[1..]);
      }
    }
  }

  /** A string with no boundary is left as it is, and only such a string:
      the split is idempotent. */
  lemma {:induction false} SplitCamelFixedPoint(s: string)
    ensures SplitCamel(s) == s <==> NoCamelBoundary(s)
    decreases |s|
  {
    if |s| >= 2 && NoCamelBoundary(s) {
      SplitCamelFixedPoint(s[1..]);
      assert forall i :: 0 <= i < |s[1..]| - 1 ==> s[1..][i] == s[i + 1];
    }
  }

  lemma SplitCamelIdempotent(s: string)
    ensures SplitCamel(SplitCamel(s)) == SplitCamel(s)
  {
    SplitCamelFixedPoint(SplitCamel(s));
  }

  /** The split only inserts spaces: the non-whitespace text is unchanged. */
  lemma {:induction false} SplitCamelKeepsText(s: string)
    ensures NonWhitespace(SplitCamel(s)) == NonWhitespace(s)
    decreases |s|
  {
    if |s| >= 2 {
      if IsLower(s[0]) && IsUpper(s[1]) {
        SplitCamelKeepsText(s[2..]);
        KeepsTextAtBoundary(s);
      } else {
        SplitCamelKeepsText(s[1..]);
        KeepsTextElsewhere(s);
      }
    }
  }

  lemma KeepsTextAtBoundary(s: string)
    requires |s| >= 2 && IsLower(s[0]) && IsUpper(s[1])
    requires NonWhitespace(SplitCamel(s[2..])) == NonWhitespace(s[2..])
    ensures NonWhitespace(SplitCamel(s)) == NonWhitespace(s)
  {
    var rest := SplitCamel(s[2..]);
    assert SplitCamel(s) == [s[0], ' ', s[1]] + rest;
    assert s == [s[0], s[1]] + s[2..];
    LettersAhead([s[0], ' ', s[1]], s[0], s[1], rest);
    LettersAhead([s[0], s[1]], s[0], s[1], s[2..]);
  }

  /** Text ahead of the rest: the two letters, with or without the space between. */
  lemma LettersAhead(h: string, a: char, b: char, t: string)
    requires IsLower(a) && IsUpper(b) && (h == [a, ' ', b] || h == [a, b])
    ensures NonWhitespace(h + t) == [a, b] + NonWhitespace(t)
  {
    NonWhitespaceAppend(h, t);
    LettersKeptWithSpace(a, b);
  }

  lemma KeepsTextElsewhere(s: string)
    requires |s| >= 2 && !(IsLower(s[0]) && IsUpper(s[1]))
    requires NonWhitespace(SplitCamel(s[1..])) == NonWhitespace(s[1..])
    ensures NonWhitespace(SplitCamel(s)) == NonWhitespace(s)
  {
    var rest := SplitCamel(s[1..]);
    SplitCamelElsewhere(s);
    assert s == [s[0]] + s[1..];
    OneAhead(s[0], rest);
    OneAhead(s[0], s[1..]);
  }

  /** Away from a lower-upper pair, splitting keeps the first character and moves on. */
  lemma SplitCamelElsewhere(s: string)
    requires |s| >= 2 && !(IsLower(s[0]) && IsUpper(s[1]))
    ensures SplitCamel(s) == [s[0]] + SplitCamel(s[1..])
  {
  }

  lemma OneAhead(c: char, t: string)
    ensures NonWhitespace([c] + t) == NonWhitespace([c]) + NonWhitespace(t)
  {
    NonWhitespaceAppend([c], t);
  }

  /** The space put between two letters is the only whitespace dropped. */
  lemma LettersKeptWithSpace(a: char, b: char)
    requires IsLower(a) && IsUpper(b)
    ensures NonWhitespace([a, ' ', b]) == NonWhitespace([a, b]) == [a, b]
  {
    assert !IsWhitespace(a) && !IsWhitespace(b) && IsWhitespace(' ');
    assert [b][1..] == [];
    assert NonWhitespace([b]) == [b];
    assert [' ', b][1..] == [b];
    assert NonWhitespace([' ', b]) == [b];
    assert [a, ' ', b][1..] == [' ', b];
    assert [a, b][1..] == [b];
  }

  /** The inserted space sits between two letters, so it never touches other
      whitespace and never lands at an end. */
  lemma {:induction false} SplitCamelKeepsShape(s: string)
    requires OnlySpaces(s) && NoDoubleSpace(s)
    ensures OnlySpaces(SplitCamel(s)) && NoDoubleSpace(SplitCamel(s))
    ensures Trimmed(s) ==> Trimmed(SplitCamel(s))
    decreases |s|
  {
    if |s| >= 2 {
      var r := SplitCamel(s);
      var d := if IsLower(s[0]) && IsUpper(s[1]) then 2 else 1;
      SliceKeepsSpacing(s, d, |s|);
      SplitCamelKeepsShape(s[d..]);
      var rest := SplitCamel(s[d..]);
      var head := if d == 2 then [s[0], ' ', s[1]] else [s[0]];
      assert r == head + rest;
      assert d < |s| ==> rest[0] == s[d];
      assert head[|head| - 1] == s[d - 1];
      if d == 2 {
        assert !IsWhitespace(s[0]) && !IsWhitespace(s[1]);
      }
      ConcatKeepsShape(head, rest);
    }
  }

  /** Two well-spaced strings joined without whitespace meeting stay well-spaced. */
  lemma ConcatKeepsShape(a: string, b: string)
    requires OnlySpaces(a) && NoDoubleSpace(a) && OnlySpaces(b) && NoDoubleSpace(b)
    requires a != [] && b != [] ==> !(IsWhitespace(a[|a| - 1]) && IsWhitespace(b[0]))
    ensures OnlySpaces(a + b) && NoDoubleSpace(a + b)
  {
    var r := a + b;
    forall i | 0 <= i < |r| && IsWhitespace(r[i]) ensures r[i] == ' ' {
      if i >= |a| {
        assert r[i] == b[i - |a|];
      }
    }
    forall i | 0 <= i < |r| - 1 ensures !(IsWhitespace(r[i]) && IsWhitespace(r[i + 1])) {
      if i >= |a| {
        assert r[i] == b[i - |a|] && r[i + 1] == b[i + 1 - |a|];
      } else if i == |a| - 1 {
        assert r[i + 1] == b[0];
      }
    }
  }

  // ---------------------------------------------------------------------
  // replace(/[^\w\s.,!?;:'"()[\]{}+=@#$%^&*~`<>/\\-]/g, '')

  /** The punctuation listed in the kept class, besides `\w` and `\s`. */
  const Punctuation: string := ".,!?;:'\"()[]{}+=@#$%^&*~`<>/\\-"

  /** A character the final replacement keeps. */
  predicate IsAllowed(c: char) {
    IsWordChar(c) || IsWhitespace(c) || c in Punctuation
  }

  /** Drops every character outside the kept class. */
  function StripDisallowed(s: string): (r: string)
    ensures forall i :: 0 <= i < |r| ==> IsAllowed(r[i]) && r[i] in s
    decreases |s|
  {
    if s == [] then []
    else (if IsAllowed(s[0]) then [s[0]] else []) + StripDisallowed(s[1..])
  }

  /** The strip keeps every allowed character as often as it occurs. */
  lemma {:induction false} StripKeepsAllowed(s: string)
    ensures forall c :: IsAllowed(c) ==> multiset(StripDisallowed(s))[c] == multiset(s)[c]
    ensures forall c :: !IsAllowed(c) ==> multiset(StripDisallowed(s))[c] == 0
    decreases |s|
  {
    if s != [] {
      StripKeepsAllowed(s[1..]);
      assert s == [s[0]] + s[1..];
    }
  }

  lemma {:induction false} StripAppend(a: string, b: string)
    ensures StripDisallowed(a + b) == StripDisallowed(a) + StripDisallowed(b)
    decreases |a|
  {
    if a != [] {
      var h := if IsAllowed(a[0]) then [a[0]] else [];
      assert (a + b)[0] == a[0];
      assert (a + b)[1..] == a[1..] + b;
      StripAppend(a[1..], b);
      assert StripDisallowed(a + b) == h + StripDisallowed(a[1..] + b);
      assert StripDisallowed(a) == h + StripDisallowed(a[1..]);
    } else {
      assert a + b == b;
    }
  }

  /** The strip changes a string exactly when it holds a character outside the class. */
  lemma {:induction false} StripFixedPoint(s: string)
    ensures StripDisallowed(s) == s <==> forall i :: 0 <= i < |s| ==> IsAllowed(s[i])
    decreases |s|
  {
    if s != [] {
      StripFixedPoint(s[1..]);
      if !IsAllowed(s[0]) {
        assert |StripDisallowed(s)| <= |s[1..]| by { StripShorter(s[1..]); }
      }
    }
  }

  lemma {:induction false} StripShorter(s: string)
    ensures |StripDisallowed(s)| <= |s|
    decreases |s|
  {
    if s != [] {
      StripShorter(s[1..]);
    }
  }

  // ---------------------------------------------------------------------
  // cleanUpText

  /** Every step of `cleanUpText` before the final strip. */
  function Normalize(s: string): string {
    SplitCamel(ReplaceChar(ReplaceChar(Trim(CollapseWhitespace(s)), '|', 'I'), '0', 'O'))
  }

  /** `cleanUpText(rawText)`: a missing or empty input gives the empty string. */
  function CleanUpText(raw: Option<string>): (r: string)
    ensures raw == None || raw == Some("") ==> r == ""
    ensures forall i :: 0 <= i < |r| ==> IsAllowed(r[i]) && r[i] != '|' && r[i] != '0'
  {
    match raw
    case None => ""
    case Some(s) =>
      if s == "" then ""
      else
        var n := Normalize(s);
        var r := StripDisallowed(n);
        NormalizeHasNoPipeOrZero(s);
        r
  }

  lemma NormalizeHasNoPipeOrZero(s: string)
    ensures '|' !in Normalize(s) && '0' !in Normalize(s)
  {
    var t := ReplaceChar(ReplaceChar(Trim(CollapseWhitespace(s)), '|', 'I'), '0', 'O');
    assert '|' !in t && '0' !in t;
    SplitCamelOnlyAddsSpaces(t);
  }

  /** Every character of the split is a character of its input or a space. */
  lemma {:induction false} SplitCamelOnlyAddsSpaces(s: string)
    ensures forall c :: c != ' ' && c !in s ==> c !in SplitCamel(s)
    decreases |s|
  {
    if |s| >= 2 {
      if IsLower(s[0]) && IsUpper(s[1]) {
        SplitCamelOnlyAddsSpaces(s[2..]);
        assert s == [s[0], s[1]] + s[2..];
      } else {
        SplitCamelOnlyAddsSpaces(s[1..]);
        assert s == [s[0]] + s[1..];
      }
    }
  }

  /** Before the strip, the text has single spaces only, none at either end,
      and no lower-upper pair left joined. */
  lemma NormalizeShape(s: string)
    ensures var n := Normalize(s);
      OnlySpaces(n) && NoDoubleSpace(n) && Trimmed(n) && NoCamelBoundary(n)
  {
    var c := CollapseWhitespace(s);
    var t := Trim(c);
    TrimKeepsSpacing(c);
    var u := ReplaceChar(t, '|', 'I');
    ReplaceKeepsShape(t, '|', 'I');
    var v := ReplaceChar(u, '0', 'O');
    ReplaceKeepsShape(u, '0', 'O');
    SplitCamelKeepsShape(v);
    assert Normalize(s) == SplitCamel(v);
  }

  /** Trimming a collapsed string keeps it collapsed. */
  lemma TrimKeepsSpacing(c: string)
    requires OnlySpaces(c) && NoDoubleSpace(c)
    ensures var t := Trim(c); OnlySpaces(t) && NoDoubleSpace(t)
  {
    SliceKeepsSpacing(c, LeadingSpace(c), LeadingSpace(c) + |Trim(c)|);
  }

  /** The steps before the strip leave nothing exactly when the input is blank. */
  lemma NormalizeEmptyIffBlank(s: string)
    ensures Normalize(s) == [] <==> IsBlank(s)
  {
    var c := CollapseWhitespace(s);
    TrimEmptyIffBlank(c);
    CollapseKeepsBlankness(s);
    var v := ReplaceChar(ReplaceChar(Trim(c), '|', 'I'), '0', 'O');
    assert |v| == |Trim(c)|;
  }

  /** A text that already has the shape `cleanUpText` gives before its strip
      passes the steps before the strip unchanged. */
  lemma NormalizeOfTidy(s: string)
    requires OnlySpaces(s) && NoDoubleSpace(s) && Trimmed(s) && NoCamelBoundary(s)
    requires '|' !in s && '0' !in s
    ensures Normalize(s) == s
  {
    CollapseFixedPoint(s);
    TrimOfTrimmed(s);
    ReplaceAbsent(s, '|', 'I');
    ReplaceAbsent(s, '0', 'O');
    SplitCamelFixedPoint(s);
  }

  /** A text with single inner spaces only passes the collapse and the trim unchanged. */
  lemma NormalizeOfSpaced(s: string)
    requires OnlySpaces(s) && NoDoubleSpace(s) && Trimmed(s)
    ensures Normalize(s) == SplitCamel(ReplaceChar(ReplaceChar(s, '|', 'I'), '0', 'O'))
  {
    CollapseFixedPoint(s);
    TrimOfTrimmed(s);
  }

  /** Such a text, non-empty and made of kept characters only, comes back unchanged. */
  lemma CleanTextIsFixed(s: string)
    requires s != ""
    requires OnlySpaces(s) && NoDoubleSpace(s) && Trimmed(s) && NoCamelBoundary(s)
    requires '|' !in s && '0' !in s
    requires forall i :: 0 <= i < |s| ==> IsAllowed(s[i])
    ensures CleanUpText(Some(s)) == s
  {
    NormalizeOfTidy(s);
    StripFixedPoint(s);
  }

  /** Collapsing leaves a blank string blank and a non-blank one non-blank. */
  lemma CollapseKeepsBlankness(s: string)
    ensures IsBlank(CollapseWhitespace(s)) <==> IsBlank(s)
  {
    CollapseKeepsText(s);
    BlankIffNoText(s);
    BlankIffNoText(CollapseWhitespace(s));
  }

  lemma {:induction false} BlankIffNoText(s: string)
    ensures IsBlank(s) <==> NonWhitespace(s) == []
    decreases |s|
  {
    if s != [] {
      BlankIffNoText(s[1..]);
      assert IsBlank(s) <==> IsWhitespace(s[0]) && IsBlank(s[1..]);
    }
  }
}
