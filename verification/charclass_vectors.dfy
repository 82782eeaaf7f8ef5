/** The two classes of `cleanUpText` parsed position by position. */
module CharClassVectors {
  import opened Text
  import opened Wrappers
  import opened CharClass
  import Cleanup

  /** The first 21 characters of the class body of assets/libs/tesseract.js:200,
      up to the range `}-+`. The scan below reaches that range and stops there;
      the error then passes back to the start. */
  predicate ExtensionHead(b: string) {
    && |b| > 20
    && b[0] == '\\' && b[1] == 'w' && b[2] == '\\' && b[3] == 's' && b[4] == '.'
    && b[5] == ',' && b[6] == '!' && b[7] == '?' && b[8] == ';' && b[9] == ':'
    && b[10] == '\'' && b[11] == '"' && b[12] == '(' && b[13] == ')' && b[14] == '['
    && b[15] == '\\' && b[16] == ']' && b[17] == '{' && b[18] == '}' && b[19] == '-'
    && b[20] == '+'
  }

  lemma ExtensionHasHead(b: string)
    requires b == ExtensionBody
    ensures ExtensionHead(b)
  {
    ExtensionHeadPart0(b);
    ExtensionHeadPart1(b);
    ExtensionHeadPart2(b);
    ExtensionHeadPart3(b);
  }

  lemma ExtensionHeadPart0(b: string)
    requires b == ExtensionBody
    ensures b[0] == '\\' && b[1] == 'w' && b[2] == '\\' && b[3] == 's'
  {
  }

  lemma ExtensionHeadPart1(b: string)
    requires b == ExtensionBody
    ensures b[4] == '.' && b[5] == ',' && b[6] == '!'
  {
  }

  lemma ExtensionHeadPart2(b: string)
    requires b == ExtensionBody
    ensures b[7] == '?' && b[8] == ';' && b[9] == ':' && b[10] == '\'' && b[11] == '"' && b[12] == '(' && b[13] == ')'
  {
  }

  lemma ExtensionHeadPart3(b: string)
    requires b == ExtensionBody
    ensures b[14] == '[' && b[15] == '\\' && b[16] == ']' && b[17] == '{' && b[18] == '}' && b[19] == '-' && b[20] == '+'
  {
  }

  /** Each step below moves the failure found at the range back over the atoms
      before it, one plain character or two-character escape at a time. */
  lemma ExtensionScan18(b: string)
    requires ExtensionHead(b)
    ensures ParseFrom(b, 18) == Failure(RangeOutOfOrder('}', '+'))
  {
    ParseRangeError(b, 18);
  }

  lemma ExtensionScan15(b: string)
    requires ExtensionHead(b)
    ensures ParseFrom(b, 15) == Failure(RangeOutOfOrder('}', '+'))
  {
    var e := RangeOutOfOrder('}', '+');
    ExtensionScan18(b);
    PlainFailStep(b, 17, e);
    EscapeFailStep(b, 15, e);
  }

  lemma ExtensionScan10(b: string)
    requires ExtensionHead(b)
    ensures ParseFrom(b, 10) == Failure(RangeOutOfOrder('}', '+'))
  {
    var e := RangeOutOfOrder('}', '+');
    ExtensionScan15(b);
    PlainFailStep(b, 14, e);
    PlainFailStep(b, 13, e);
    PlainFailStep(b, 12, e);
    PlainFailStep(b, 11, e);
    PlainFailStep(b, 10, e);
  }

  lemma ExtensionScan4(b: string)
    requires ExtensionHead(b)
    ensures ParseFrom(b, 4) == Failure(RangeOutOfOrder('}', '+'))
  {
    var e := RangeOutOfOrder('}', '+');
    ExtensionScan10(b);
    PlainFailStep(b, 9, e);
    PlainFailStep(b, 8, e);
    PlainFailStep(b, 7, e);
    PlainFailStep(b, 6, e);
    PlainFailStep(b, 5, e);
    PlainFailStep(b, 4, e);
  }

  lemma ExtensionScan0(b: string)
    requires ExtensionHead(b)
    ensures ParseFrom(b, 0) == Failure(RangeOutOfOrder('}', '+'))
  {
    var e := RangeOutOfOrder('}', '+');
    ExtensionScan4(b);
    EscapeFailStep(b, 2, e);
    EscapeFailStep(b, 0, e);
  }

  lemma PunctuationPieces(p: string)
    requires p == Cleanup.Punctuation
    ensures p == ".,!?;:'\"()[" + "]" + "{}+=@#$%^&*~`<>/" + "\\" + "-"
    ensures forall m :: 0 < m < |p| - 1 ==> p[m] != '-'
  {
  }

  lemma PlainPieces(a: string, c: string, e: string)
    requires a == ".,!?;:'\"()[" && c == "{}+=@#$%^&*~`<>/" && e == "-"
    ensures Encode(a) == a && Encode(c) == c && Encode(e) == e
  {
    PlainPiece(a);
    PlainPiece(c);
    EncodePlain(e);
  }

  /** A stretch of the punctuation with neither `]` nor a backslash is written as it is. */
  lemma PlainPiece(a: string)
    requires a == ".,!?;:'\"()[" || a == "{}+=@#$%^&*~`<>/"
    ensures Encode(a) == a
  {
    assert forall k :: 0 <= k < |a| ==> a[k] != ']' && a[k] != '\\';
    EncodePlain(a);
  }

  lemma EscapedPieces(b: string, d: string)
    requires b == "]" && d == "\\"
    ensures Encode(b) == "\\]" && Encode(d) == "\\\\"
  {
  }

  lemma EncodedPunctuation(p: string, a: string, b: string, c: string, d: string, e: string)
    requires p == Cleanup.Punctuation
    requires a == ".,!?;:'\"()[" && b == "]" && c == "{}+=@#$%^&*~`<>/" && d == "\\" && e == "-"
    ensures Encode(p) == a + "\\]" + c + "\\\\" + e
  {
    PunctuationPieces(p);
    assert p == a + b + c + d + e;
    EncodeAppend(a + b + c + d, e);
    EncodeAppend(a + b + c, d);
    EncodeAppend(a + b, c);
    EncodeAppend(a, b);
    PlainPieces(a, c, e);
    EscapedPieces(b, d);
  }

  lemma TestsBodyIsEncoded(b: string, p: string, a: string, q: string, c: string, d: string, e: string)
    requires b == TestsBody && p == Cleanup.Punctuation
    requires a == ".,!?;:'\"()[" && q == "]" && c == "{}+=@#$%^&*~`<>/" && d == "\\" && e == "-"
    ensures b == "\\w\\s" + Encode(p)
  {
    EncodedPunctuation(p, a, q, c, d, e);
    TestsBodyPieces(b, "\\w\\s", a, "\\]", c, "\\\\", e);
  }

  /** The body of tests/unit-tests.js:74 cut at the escapes. */
  lemma TestsBodyPieces(b: string, h: string, a: string, q: string, c: string, d: string, e: string)
    requires b == TestsBody
    requires h == "\\w\\s" && a == ".,!?;:'\"()[" && q == "\\]" && c == "{}+=@#$%^&*~`<>/" && d == "\\\\" && e == "-"
    ensures b == h + (a + q + c + d + e)
  {
    TestsBodyPrefixes(b);
    FrontPieces(b[..15], h, a);
    MiddlePieces(b[..33], q, c);
    BackPieces(b[33..], d, e);
    SliceOfPrefix(b, 0, 4, 15);
    SliceOfPrefix(b, 4, 15, 15);
    SliceOfPrefix(b, 15, 17, 33);
    SliceOfPrefix(b, 17, 33, 33);
    SliceOfSuffix(b, 33, 33, 35);
    SliceOfSuffix(b, 33, 35, |b|);
    Reassemble(b, 4, 15, 17, 33, 35);
  }

  lemma TestsBodyPrefixes(b: string)
    requires b == TestsBody
    ensures |b| == 36
    ensures b[..15] == "\\w\\s.,!?;:'\"()["
    ensures b[..33] == "\\w\\s.,!?;:'\"()[\\]{}+=@#$%^&*~`<>/"
    ensures b[33..] == "\\\\-"
  {
  }

  lemma FrontPieces(x: string, h: string, a: string)
    requires x == "\\w\\s.,!?;:'\"()[" && h == "\\w\\s" && a == ".,!?;:'\"()["
    ensures x[..4] == h && x[4..] == a
  {
  }

  lemma MiddlePieces(x: string, q: string, c: string)
    requires x == "\\w\\s.,!?;:'\"()[\\]{}+=@#$%^&*~`<>/" && q == "\\]" && c == "{}+=@#$%^&*~`<>/"
    ensures x[15..17] == q && x[17..] == c
  {
  }

  lemma BackPieces(x: string, d: string, e: string)
    requires x == "\\\\-" && d == "\\\\" && e == "-"
    ensures x[..2] == d && x[2..] == e
  {
  }

  lemma SliceOfPrefix(b: string, i: nat, j: nat, n: nat)
    requires i <= j <= n <= |b|
    ensures b[i..j] == b[..n][i..j]
  {
  }

  lemma SliceOfSuffix(b: string, n: nat, i: nat, j: nat)
    requires n <= i <= j <= |b|
    ensures b[i..j] == b[n..][i - n..j - n]
  {
  }

  /** A string is the concatenation of its consecutive slices. */
  lemma Reassemble(b: string, i: nat, j: nat, k: nat, l: nat, m: nat)
    requires i <= j <= k <= l <= m <= |b|
    ensures b == b[..i] + (b[i..j] + b[j..k] + b[k..l] + b[l..m] + b[m..])
  {
    Adjacent(b, i, j, k);
    Adjacent(b, i, k, l);
    Adjacent(b, i, l, m);
    AdjacentTail(b, i, m);
    AdjacentTail(b, 0, i);
  }

  lemma Adjacent(s: string, i: nat, j: nat, k: nat)
    requires i <= j <= k <= |s|
    ensures s[i..j] + s[j..k] == s[i..k]
  {
  }

  lemma AdjacentTail(s: string, i: nat, j: nat)
    requires i <= j <= |s|
    ensures s[i..j] + s[j..] == s[i..]
    ensures i == 0 ==> s[..j] + s[j..] == s
  {
  }

  /** A body starting with `\w\s` and no dash after them starts with the two escapes. */
  lemma WordSpacePrefix(b: string, rest: seq<Item>)
    requires |b| > 4 && b[0] == '\\' && b[1] == 'w' && b[2] == '\\' && b[3] == 's' && b[4] != '-'
    requires ParseFrom(b, 4) == Success(rest)
    ensures ParseFrom(b, 0) == Success([Escape('w'), Escape('s')] + rest)
  {
    assert ParseAtom(b, 2) == Success((ClassEscape('s'), 4));
    ParseStep(b, 2);
    assert ParseAtom(b, 0) == Success((ClassEscape('w'), 2));
    ParseStep(b, 0);
    assert [ItemOf(ClassEscape('w'))] + ([ItemOf(ClassEscape('s'))] + rest)
        == [Escape('w'), Escape('s')] + rest;
  }

  lemma TestsScanTail(b: string, p: string, x: string)
    requires b == TestsBody && p == Cleanup.Punctuation && x == "\\w\\s"
    ensures ParseFrom(b, 4) == Success(Singles(p))
  {
    TestsBodyIsEncoded(b, p, ".,!?;:'\"()[", "]", "{}+=@#$%^&*~`<>/", "\\", "-");
    PunctuationPieces(p);
    EncodedSinglesParse(x, p);
  }

  lemma TestsScan(b: string, p: string)
    requires b == TestsBody && p == Cleanup.Punctuation
    ensures ParseFrom(b, 0) == Success([Escape('w'), Escape('s')] + Singles(p))
  {
    TestsScanTail(b, p, "\\w\\s");
    TestsBodyHead(b);
    WordSpacePrefix(b, Singles(p));
  }

  lemma TestsBodyHead(b: string)
    requires b == TestsBody
    ensures |b| > 4 && b[0] == '\\' && b[1] == 'w' && b[2] == '\\' && b[3] == 's' && b[4] == '.'
  {
  }

  /** As written in assets/libs/tesseract.js:200, the class puts `-` between
      `}` and `+`, a range from U+007D down to U+002B, so the pattern is
      rejected when the script is parsed. */
  lemma ExtensionClassRejected()
    ensures ParseClass(ExtensionBody) == Failure(RangeOutOfOrder('}', '+'))
  {
    ExtensionHasHead(ExtensionBody);
    ExtensionScan0(ExtensionBody);
  }

  /** With the dash moved to the end, as in tests/unit-tests.js:74, the class
      parses, and its negation removes exactly the characters `Cleanup.StripDisallowed` removes. */
  lemma TestsClassKeepsAllowed()
    ensures ParseClass(TestsBody).Success?
    ensures forall c :: ClassHas(ParseClass(TestsBody).value, c) <==> Cleanup.IsAllowed(c)
  {
    TestsScan(TestsBody, Cleanup.Punctuation);
    forall c ensures ClassHas(ParseClass(TestsBody).value, c) <==> Cleanup.IsAllowed(c) {
      WordSpaceAndSingles(Cleanup.Punctuation, c);
    }
  }
}
