/** The `cleanUpText` cases of tests/unit-tests.js, worked through the model.
    The index-walking forms below exist so that the verifier can evaluate the
    two scans on concrete text one position at a time. */
module CleanupVectors {
  import opened Text
  import opened Wrappers
  import opened Cleanup

  /** `CollapseAfter` on the suffix of `s` from position `i`. */
  function CollapseFrom(s: string, i: nat, previousWasSpace: bool): string
    decreases |s| - i
  {
    if i >= |s| then []
    else if IsWhitespace(s[i]) then
      (if previousWasSpace then "" else " ") + CollapseFrom(s, i + 1, true)
    else [s[i]] + CollapseFrom(s, i + 1, false)
  }

  lemma {:induction false} CollapseFromIsReference(s: string, i: nat, previousWasSpace: bool)
    requires i <= |s|
    ensures CollapseFrom(s, i, previousWasSpace) == CollapseAfter(s[i..], previousWasSpace)
    decreases |s| - i
  {
    if i < |s| {
      CollapseFromIsReference(s, i + 1, true);
      CollapseFromIsReference(s, i + 1, false);
      assert s[i..][1..] == s[i + 1..];
    }
  }

  /** `SplitAtBoundaries` on the suffix of `s` from position `i`. */
  function SplitFrom(s: string, i: nat): string
    decreases |s| - i
  {
    if i >= |s| then []
    else [s[i]] + (if i + 1 < |s| && IsLower(s[i]) && IsUpper(s[i + 1]) then " " else "")
         + SplitFrom(s, i + 1)
  }

  lemma {:induction false} SplitFromIsReference(s: string, i: nat)
    requires i <= |s|
    ensures SplitFrom(s, i) == SplitAtBoundaries(s[i..])
    decreases |s| - i
  {
    if i < |s| {
      SplitFromIsReference(s, i + 1);
      assert s[i..][1..] == s[i + 1..];
    }
  }

  lemma CollapseByScan(s: string)
    ensures CollapseWhitespace(s) == CollapseFrom(s, 0, false)
  {
    CollapseMatchesReference(s);
    CollapseFromIsReference(s, 0, false);
    assert s[0..] == s;
  }

  lemma SplitCamelByScan(s: string)
    ensures SplitCamel(s) == SplitFrom(s, 0)
  {
    SplitCamelMatchesReference(s);
    SplitFromIsReference(s, 0);
    assert s[0..] == s;
  }

  // The scans of the three inputs, from the end of the text to its start, a
  // few positions per lemma; each step is stated against a suffix of the
  // expected output `t`.

  lemma SuffixCons(t: string, k: nat)
    requires k < |t|
    ensures t[k..] == [t[k]] + t[k + 1..]
    ensures t[k..] == [t[k]] + "" + t[k + 1..]
  {
  }

  lemma SuffixConsSpace(t: string, k: nat)
    requires k + 1 < |t| && t[k + 1] == ' '
    ensures t[k..] == [t[k]] + " " + t[k + 2..]
  {
  }

  lemma SuffixSpace(t: string, k: nat)
    requires k < |t| && t[k] == ' '
    ensures t[k..] == " " + t[k + 1..]
  {
  }

  lemma EmptyPrefix(x: string)
    ensures "" + x == x
  {
  }

  lemma CollapseRunsScanFrom20(s: string, t: string)
    requires s == "hello    world   test" && t == "hello world test"
    ensures CollapseFrom(s, 20, false) == t[15..]
  {
    assert CollapseFrom(s, 21, false) == t[16..];
    SuffixCons(t, 15);
  }

  lemma CollapseRunsScanFrom16(s: string, t: string)
    requires s == "hello    world   test" && t == "hello world test"
    ensures CollapseFrom(s, 16, true) == t[12..]
  {
    CollapseRunsScanFrom20(s, t);
    SuffixCons(t, 14);
    assert CollapseFrom(s, 19, false) == t[14..];
    SuffixCons(t, 13);
    assert CollapseFrom(s, 18, false) == t[13..];
    SuffixCons(t, 12);
    assert CollapseFrom(s, 17, true) == t[12..];
    EmptyPrefix(t[12..]);
  }

  lemma CollapseRunsScanFrom12(s: string, t: string)
    requires s == "hello    world   test" && t == "hello world test"
    ensures CollapseFrom(s, 12, false) == t[9..]
  {
    CollapseRunsScanFrom16(s, t);
    EmptyPrefix(t[12..]);
    assert CollapseFrom(s, 15, true) == t[12..];
    SuffixSpace(t, 11);
    assert CollapseFrom(s, 14, false) == t[11..];
    SuffixCons(t, 10);
    assert CollapseFrom(s, 13, false) == t[10..];
    SuffixCons(t, 9);
  }

  lemma CollapseRunsScanFrom8(s: string, t: string)
    requires s == "hello    world   test" && t == "hello world test"
    ensures CollapseFrom(s, 8, true) == t[6..]
  {
    CollapseRunsScanFrom12(s, t);
    SuffixCons(t, 8);
    assert CollapseFrom(s, 11, false) == t[8..];
    SuffixCons(t, 7);
    assert CollapseFrom(s, 10, false) == t[7..];
    SuffixCons(t, 6);
    assert CollapseFrom(s, 9, true) == t[6..];
    EmptyPrefix(t[6..]);
  }

  lemma CollapseRunsScanFrom4(s: string, t: string)
    requires s == "hello    world   test" && t == "hello world test"
    ensures CollapseFrom(s, 4, false) == t[4..]
  {
    CollapseRunsScanFrom8(s, t);
    EmptyPrefix(t[6..]);
    assert CollapseFrom(s, 7, true) == t[6..];
    EmptyPrefix(t[6..]);
    assert CollapseFrom(s, 6, true) == t[6..];
    SuffixSpace(t, 5);
    assert CollapseFrom(s, 5, false) == t[5..];
    SuffixCons(t, 4);
  }

  lemma CollapseRunsScan(s: string, t: string)
    requires s == "hello    world   test" && t == "hello world test"
    ensures CollapseFrom(s, 0, false) == t
  {
    CollapseRunsScanFrom4(s, t);
    SuffixCons(t, 3);
    assert CollapseFrom(s, 3, false) == t[3..];
    SuffixCons(t, 2);
    assert CollapseFrom(s, 2, false) == t[2..];
    SuffixCons(t, 1);
    assert CollapseFrom(s, 1, false) == t[1..];
    SuffixCons(t, 0);
    assert t[0..] == t;
  }

  lemma CamelScanFrom12(s: string, t: string)
    requires s == "camelCaseExample" && t == "camel Case Example"
    ensures SplitFrom(s, 12) == t[14..]
  {
    assert SplitFrom(s, 16) == t[18..];
    SuffixCons(t, 17);
    assert SplitFrom(s, 15) == t[17..];
    SuffixCons(t, 16);
    assert SplitFrom(s, 14) == t[16..];
    SuffixCons(t, 15);
    assert SplitFrom(s, 13) == t[15..];
    SuffixCons(t, 14);
  }

  lemma CamelScanFrom8(s: string, t: string)
    requires s == "camelCaseExample" && t == "camel Case Example"
    ensures SplitFrom(s, 8) == t[9..]
  {
    CamelScanFrom12(s, t);
    SuffixCons(t, 13);
    assert SplitFrom(s, 11) == t[13..];
    SuffixCons(t, 12);
    assert SplitFrom(s, 10) == t[12..];
    SuffixCons(t, 11);
    assert SplitFrom(s, 9) == t[11..];
    SuffixConsSpace(t, 9);
  }

  lemma CamelScanFrom4(s: string, t: string)
    requires s == "camelCaseExample" && t == "camel Case Example"
    ensures SplitFrom(s, 4) == t[4..]
  {
    CamelScanFrom8(s, t);
    SuffixCons(t, 8);
    assert SplitFrom(s, 7) == t[8..];
    SuffixCons(t, 7);
    assert SplitFrom(s, 6) == t[7..];
    SuffixCons(t, 6);
    assert SplitFrom(s, 5) == t[6..];
    SuffixConsSpace(t, 4);
  }

  lemma CamelScan(s: string, t: string)
    requires s == "camelCaseExample" && t == "camel Case Example"
    ensures SplitFrom(s, 0) == t
  {
    CamelScanFrom4(s, t);
    SuffixCons(t, 3);
    assert SplitFrom(s, 3) == t[3..];
    SuffixCons(t, 2);
    assert SplitFrom(s, 2) == t[2..];
    SuffixCons(t, 1);
    assert SplitFrom(s, 1) == t[1..];
    SuffixCons(t, 0);
    assert t[0..] == t;
  }

  lemma OcrFixScanFrom8(s: string, t: string)
    requires s == "HeIIo WOrId" && t == "He IIo WOr Id"
    ensures SplitFrom(s, 8) == t[9..]
  {
    assert SplitFrom(s, 11) == t[13..];
    SuffixCons(t, 12);
    assert SplitFrom(s, 10) == t[12..];
    SuffixCons(t, 11);
    assert SplitFrom(s, 9) == t[11..];
    SuffixConsSpace(t, 9);
  }

  lemma OcrFixScanFrom4(s: string, t: string)
    requires s == "HeIIo WOrId" && t == "He IIo WOr Id"
    ensures SplitFrom(s, 4) == t[5..]
  {
    OcrFixScanFrom8(s, t);
    SuffixCons(t, 8);
    assert SplitFrom(s, 7) == t[8..];
    SuffixCons(t, 7);
    assert SplitFrom(s, 6) == t[7..];
    SuffixCons(t, 6);
    assert SplitFrom(s, 5) == t[6..];
    SuffixCons(t, 5);
  }

  lemma OcrFixScan(s: string, t: string)
    requires s == "HeIIo WOrId" && t == "He IIo WOr Id"
    ensures SplitFrom(s, 0) == t
  {
    OcrFixScanFrom4(s, t);
    SuffixCons(t, 4);
    assert SplitFrom(s, 3) == t[4..];
    SuffixCons(t, 3);
    assert SplitFrom(s, 2) == t[3..];
    SuffixConsSpace(t, 1);
    assert SplitFrom(s, 1) == t[1..];
    SuffixCons(t, 0);
    assert t[0..] == t;
  }

  lemma HelloWorldSpacing(t: string)
    requires t == "hello world test"
    ensures OnlySpaces(t) && NoDoubleSpace(t)
  {
  }

  lemma HelloWorldEnds(t: string)
    requires t == "hello world test"
    ensures Trimmed(t) && NoCamelBoundary(t)
  {
  }

  lemma HelloWorldHasNoPipeOrZero(t: string)
    requires t == "hello world test"
    ensures '|' !in t && '0' !in t
  {
  }

  lemma HelloWorldAllowed(t: string)
    requires t == "hello world test"
    ensures forall i :: 0 <= i < |t| ==> IsAllowed(t[i])
  {
  }

  lemma HelloWorldIsTidy(t: string)
    requires t == "hello world test"
    ensures OnlySpaces(t) && NoDoubleSpace(t) && Trimmed(t) && NoCamelBoundary(t)
    ensures '|' !in t && '0' !in t
    ensures forall i :: 0 <= i < |t| ==> IsAllowed(t[i])
  {
    HelloWorldSpacing(t);
    HelloWorldEnds(t);
    HelloWorldHasNoPipeOrZero(t);
    HelloWorldAllowed(t);
  }

  lemma CamelCaseSpacing(t: string)
    requires t == "camel Case Example"
    ensures OnlySpaces(t) && NoDoubleSpace(t)
  {
  }

  lemma CamelCaseEnds(t: string)
    requires t == "camel Case Example"
    ensures Trimmed(t) && NoCamelBoundary(t)
  {
  }

  lemma CamelCaseAllowed(t: string)
    requires t == "camel Case Example"
    ensures forall i :: 0 <= i < |t| ==> IsAllowed(t[i])
  {
  }

  lemma OcrFixAllowed(t: string)
    requires t == "He IIo WOr Id"
    ensures forall i :: 0 <= i < |t| ==> IsAllowed(t[i])
  {
  }

  /** The two inputs without whitespace runs pass the collapse and the trim unchanged. */

  lemma CamelInputSpaced(t: string)
    requires t == "camelCaseExample"
    ensures OnlySpaces(t) && NoDoubleSpace(t) && Trimmed(t)
  {
  }

  lemma CamelInputHasNoPipeOrZero(t: string)
    requires t == "camelCaseExample"
    ensures '|' !in t && '0' !in t
  {
  }

  lemma OcrInputSpaced(t: string)
    requires t == "He||o W0r|d"
    ensures OnlySpaces(t) && NoDoubleSpace(t) && Trimmed(t)
  {
  }

  lemma CleansHelloWorld(s: string, t: string)
    requires s == "hello    world   test" && t == "hello world test"
    ensures CleanUpText(Some(s)) == t
  {
    CollapseByScan(s);
    CollapseRunsScan(s, t);
    HelloWorldIsTidy(t);
    CollapseFixedPoint(t);
    NormalizeOfTidy(t);
    assert Normalize(s) == t;
    StripFixedPoint(t);
  }

  lemma NormalizesCamelCase(s: string)
    requires s == "camelCaseExample"
    ensures Normalize(s) == "camel Case Example"
  {
    CamelInputSpaced(s);
    CamelInputHasNoPipeOrZero(s);
    NormalizeOfSpaced(s);
    ReplaceAbsent(s, '|', 'I');
    ReplaceAbsent(s, '0', 'O');
    SplitCamelByScan(s);
    CamelScan(s, "camel Case Example");
  }

  lemma CleansCamelCase(s: string, t: string)
    requires s == "camelCaseExample" && t == "camel Case Example"
    ensures CleanUpText(Some(s)) == t
  {
    NormalizesCamelCase(s);
    CamelCaseSpacing(t);
    CamelCaseEnds(t);
    CamelCaseAllowed(t);
    StripFixedPoint(t);
  }

  lemma ReplacesOcrCharacters(s: string)
    requires s == "He||o W0r|d"
    ensures ReplaceChar(ReplaceChar(s, '|', 'I'), '0', 'O') == "HeIIo WOrId"
  {
    var u := ReplaceChar(s, '|', 'I');
    assert u == "HeIIo W0rId";
  }

  lemma NormalizesOcrMistakes(s: string)
    requires s == "He||o W0r|d"
    ensures Normalize(s) == "He IIo WOr Id"
  {
    OcrInputSpaced(s);
    NormalizeOfSpaced(s);
    ReplacesOcrCharacters(s);
    SplitsOcrFix(ReplaceChar(ReplaceChar(s, '|', 'I'), '0', 'O'));
  }

  lemma SplitsOcrFix(u: string)
    requires u == "HeIIo WOrId"
    ensures SplitCamel(u) == "He IIo WOr Id"
  {
    SplitCamelByScan(u);
    OcrFixScan(u, "He IIo WOr Id");
  }

  lemma CleansOcrMistakes(s: string, t: string)
    requires s == "He||o W0r|d" && t == "He IIo WOr Id"
    ensures CleanUpText(Some(s)) == t
  {
    NormalizesOcrMistakes(s);
    OcrFixAllowed(t);
    StripFixedPoint(t);
  }

  /** 'removes extra whitespace': every run becomes one space. */
  lemma RemovesExtraWhitespace()
    ensures CleanUpText(Some("hello    world   test")) == "hello world test"
  {
    CleansHelloWorld("hello    world   test", "hello world test");
  }

  /** 'adds spaces to camelCase'. */
  lemma AddsSpacesToCamelCase()
    ensures CleanUpText(Some("camelCaseExample")) == "camel Case Example"
  {
    CleansCamelCase("camelCaseExample", "camel Case Example");
  }

  /** 'fixes common OCR mistakes': each `|` becomes `I`, the `0` becomes `O`,
      and the lower-upper pairs this creates are then split. The expectation
      written in the test, 'HeIIo WOr Id', is not what the code returns. */
  lemma FixesCommonOcrMistakes()
    ensures CleanUpText(Some("He||o W0r|d")) == "He IIo WOr Id"
    ensures CleanUpText(Some("He||o W0r|d")) != "HeIIo WOr Id"
  {
    CleansOcrMistakes("He||o W0r|d", "He IIo WOr Id");
    assert |"He IIo WOr Id"| != |"HeIIo WOr Id"|;
  }
}
