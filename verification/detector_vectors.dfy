/** The detector and scorer test cases of tests/unit-tests.js (lines 115-159),
    stated about the test file's own variants: `IsLikelyTextImageBasic` and
    `BasicImageConfidence`. Every mock image is complete, has no `alt` or
    class, and lives under the same site prefix. */
module DetectorVectors {
  import opened Text
  import opened Detector

  const Site: string := "https://example.com/"

  /** `createMockImage(src, width, height)`. */
  function Mock(src: string, w: nat, h: nat): Image {
    Image(w, h, true, src, "", "")
  }

  lemma SiteFacts(p: string)
    requires p == Site
    ensures forall i :: 0 <= i < |p| ==> !IsUpper(p[i])
    ensures 'v' !in p && 'i' !in p && 'f' !in p && 'u' !in p && 'b' !in p
    ensures 'd' !in p && 'k' !in p && 'r' !in p && 'n' !in p
    ensures p[|p| - 1] == '/'
  {
    SiteHasNoCapital(p);
    SiteLacksSome(p);
    SiteLacksMore(p);
  }

  lemma SiteHasNoCapital(p: string)
    requires p == Site
    ensures forall i :: 0 <= i < |p| ==> !IsUpper(p[i])
  {
  }

  // The absence facts below are split into lemmas of one to three characters
  // each only to keep every proof small; together they state one fact per string.

  lemma SiteLacksSome(p: string)
    requires p == Site
    ensures 'v' !in p && 'i' !in p && 'f' !in p && 'u' !in p && 'b' !in p
  {
    SiteLacksSomePart0(p);
    SiteLacksSomePart1(p);
    SiteLacksSomePart2(p);
  }

  lemma SiteLacksSomePart0(p: string)
    requires p == Site
    ensures 'v' !in p && 'i' !in p
  {
  }

  lemma SiteLacksSomePart1(p: string)
    requires p == Site
    ensures 'f' !in p && 'u' !in p
  {
  }

  lemma SiteLacksSomePart2(p: string)
    requires p == Site
    ensures 'b' !in p
  {
  }

  lemma SiteLacksMore(p: string)
    requires p == Site
    ensures 'd' !in p && 'k' !in p && 'r' !in p && 'n' !in p
  {
    SiteLacksMorePart0(p);
    SiteLacksMorePart1(p);
  }

  lemma SiteLacksMorePart0(p: string)
    requires p == Site
    ensures 'd' !in p && 'k' !in p
  {
  }

  lemma SiteLacksMorePart1(p: string)
    requires p == Site
    ensures 'r' !in p && 'n' !in p
  {
  }

  lemma SitePairs(p: string)
    requires p == Site
    ensures !Adjacent(p, 'o', 'g') && !Adjacent(p, 'a', 'd')
    ensures !Adjacent(p, 'i', 'c') && !Adjacent(p, 'p', 'i')
  {
  }

  /** The lower-cased `src` of a mock is the `src` itself when its name has no capitals. */
  lemma MockIsLowerCase(name: string)
    requires forall i :: 0 <= i < |name| ==> !IsUpper(name[i])
    ensures Lower(Site + name) == Site + name
    ensures Lower("") == ""
  {
    SiteFacts(Site);
    LowerOfLower(Site);
    LowerOfLower(name);
    LowerAppend(Site, name);
  }

  /** No deny-list entry occurs in a string that avoids each of them. */
  lemma NoSkipPattern(s: string)
    requires !Contains(s, "avatar") && !Contains(s, "logo") && !Contains(s, "icon")
    requires !Contains(s, "profile") && !Contains(s, "thumb") && !Contains(s, "banner")
    requires !Contains(s, "ad-") && !Contains(s, "ads/") && !Contains(s, "tracking")
    requires !Contains(s, "pixel") && !Contains(s, "badge")
    ensures !AnyIn(SkipPatterns, s)
  {
  }

  lemma CodeScreenshotName(t: string)
    requires t == "code-screenshot.png"
    ensures forall i :: 0 <= i < |t| ==> !IsUpper(t[i])
    ensures 'v' !in t && 'i' !in t && 'f' !in t && 'u' !in t && 'b' !in t
    ensures !Adjacent(t, 'o', 'g') && !Adjacent(t, 'a', 'd') && t[0] == 'c'
    ensures t[..4] == "code"
  {
    CodeScreenshotNoCapital(t);
    CodeScreenshotLacks(t);
    CodeScreenshotPairs(t);
  }

  lemma CodeScreenshotNoCapital(t: string)
    requires t == "code-screenshot.png"
    ensures forall i :: 0 <= i < |t| ==> !IsUpper(t[i])
  {
  }

  lemma CodeScreenshotLacks(t: string)
    requires t == "code-screenshot.png"
    ensures 'v' !in t && 'i' !in t && 'f' !in t && 'u' !in t && 'b' !in t
  {
    CodeScreenshotLacksPart0(t);
    CodeScreenshotLacksPart1(t);
    CodeScreenshotLacksPart2(t);
  }

  lemma CodeScreenshotLacksPart0(t: string)
    requires t == "code-screenshot.png"
    ensures 'v' !in t && 'i' !in t
  {
  }

  lemma CodeScreenshotLacksPart1(t: string)
    requires t == "code-screenshot.png"
    ensures 'f' !in t && 'u' !in t
  {
  }

  lemma CodeScreenshotLacksPart2(t: string)
    requires t == "code-screenshot.png"
    ensures 'b' !in t
  {
  }

  lemma CodeScreenshotPairs(t: string)
    requires t == "code-screenshot.png"
    ensures !Adjacent(t, 'o', 'g') && !Adjacent(t, 'a', 'd')
  {
  }

  lemma CodeScreenshotAvoidsSkips(t: string)
    requires t == "code-screenshot.png"
    ensures !AnyIn(SkipPatterns, Site + t)
  {
    SiteFacts(Site);
    SitePairs(Site);
    CodeScreenshotName(t);
    var s := Site + t;
    NotAdjacentAppend(Site, t, 'o', 'g');
    NotAdjacentAppend(Site, t, 'a', 'd');
    NotContainsByChar(s, "avatar", 1);
    NotContainsByPair(s, "logo", 1);
    NotContainsByChar(s, "icon", 0);
    NotContainsByChar(s, "profile", 4);
    NotContainsByChar(s, "thumb", 2);
    NotContainsByChar(s, "banner", 0);
    NotContainsByPair(s, "ad-", 0);
    NotContainsByPair(s, "ads/", 0);
    NotContainsByChar(s, "tracking", 5);
    NotContainsByChar(s, "pixel", 1);
    NotContainsByChar(s, "badge", 0);
    NoSkipPattern(s);
  }

  lemma TerminalOutputName(t: string)
    requires t == "terminal-output.png"
    ensures forall i :: 0 <= i < |t| ==> !IsUpper(t[i])
    ensures 'v' !in t && 'f' !in t && 'b' !in t && 'd' !in t && 'k' !in t
    ensures !Adjacent(t, 'o', 'g') && !Adjacent(t, 'i', 'c') && !Adjacent(t, 'p', 'i')
    ensures t[0] == 't' && t[..8] == "terminal"
  {
    TerminalOutputNoCapital(t);
    TerminalOutputLacks(t);
    TerminalOutputPairs(t);
  }

  lemma TerminalOutputNoCapital(t: string)
    requires t == "terminal-output.png"
    ensures forall i :: 0 <= i < |t| ==> !IsUpper(t[i])
  {
  }

  lemma TerminalOutputLacks(t: string)
    requires t == "terminal-output.png"
    ensures 'v' !in t && 'f' !in t && 'b' !in t && 'd' !in t && 'k' !in t
  {
    TerminalOutputLacksPart0(t);
    TerminalOutputLacksPart1(t);
    TerminalOutputLacksPart2(t);
  }

  lemma TerminalOutputLacksPart0(t: string)
    requires t == "terminal-output.png"
    ensures 'v' !in t && 'f' !in t
  {
  }

  lemma TerminalOutputLacksPart1(t: string)
    requires t == "terminal-output.png"
    ensures 'b' !in t && 'd' !in t
  {
  }

  lemma TerminalOutputLacksPart2(t: string)
    requires t == "terminal-output.png"
    ensures 'k' !in t
  {
  }

  lemma TerminalOutputPairs(t: string)
    requires t == "terminal-output.png"
    ensures !Adjacent(t, 'o', 'g') && !Adjacent(t, 'i', 'c') && !Adjacent(t, 'p', 'i')
  {
  }

  lemma TerminalOutputAvoidsSkips(t: string)
    requires t == "terminal-output.png"
    ensures !AnyIn(SkipPatterns, Site + t)
  {
    SiteFacts(Site);
    SitePairs(Site);
    TerminalOutputName(t);
    var s := Site + t;
    NotAdjacentAppend(Site, t, 'o', 'g');
    NotAdjacentAppend(Site, t, 'i', 'c');
    NotAdjacentAppend(Site, t, 'p', 'i');
    NotContainsByChar(s, "avatar", 1);
    NotContainsByPair(s, "logo", 1);
    NotContainsByPair(s, "icon", 0);
    NotContainsByChar(s, "profile", 3);
    NotContainsByChar(s, "thumb", 4);
    NotContainsByChar(s, "banner", 0);
    NotContainsByChar(s, "ad-", 1);
    NotContainsByChar(s, "ads/", 1);
    NotContainsByChar(s, "tracking", 4);
    NotContainsByPair(s, "pixel", 0);
    NotContainsByChar(s, "badge", 0);
    NoSkipPattern(s);
  }

  /** A clean, well-shaped mock naming a text indicator is accepted. */
  lemma AcceptedWhenClean(img: Image, indicator: nat)
    requires img.alt == "" && img.className == "" && img.complete
    requires img.naturalWidth >= 100 && img.naturalHeight >= 50
    requires GoodRatioExact(img.naturalWidth, img.naturalHeight)
    requires Lower(img.src) == img.src && Lower("") == ""
    requires !AnyIn(SkipPatterns, img.src)
    requires indicator < |TextIndicators| && Contains(img.src, TextIndicators[indicator])
    ensures IsLikelyTextImageBasic(img)
  {
    assert !Mentions(img, SkipPatterns) by {
      SkipPatternsNonEmpty();
      NothingInEmpty(SkipPatterns);
    }
    assert Mentions(img, TextIndicators) by {
      assert Contains(Lower(img.src), TextIndicators[indicator]);
    }
    IsLikelyTextImageBasicExact(img);
  }

  lemma SkipPatternsNonEmpty()
    ensures forall k :: 0 <= k < |SkipPatterns| ==> SkipPatterns[k] != ""
  {
  }

  /** The empty `alt` and `className` of a mock contain no non-empty pattern. */
  lemma NothingInEmpty(patterns: seq<string>)
    requires forall k :: 0 <= k < |patterns| ==> patterns[k] != ""
    ensures !AnyIn(patterns, "")
  {
    forall k | 0 <= k < |patterns| ensures !Contains("", patterns[k]) {
    }
  }

  lemma CodeScreenshotIndicator(t: string)
    requires t == "code-screenshot.png"
    ensures Contains(Site + t, TextIndicators[1])
  {
    CodeScreenshotName(t);
    assert TextIndicators[1] == "code";
    ContainsAt(t, "code", 0);
    ContainsAppendLeft(Site, t, "code");
  }

  lemma CodeScreenshotSource(t: string)
    requires t == "code-screenshot.png"
    ensures Lower(Site + t) == Site + t && Lower("") == ""
    ensures !AnyIn(SkipPatterns, Site + t)
    ensures Contains(Site + t, TextIndicators[1])
  {
    CodeScreenshotName(t);
    MockIsLowerCase(t);
    CodeScreenshotAvoidsSkips(t);
    CodeScreenshotIndicator(t);
  }

  /** "detects code screenshot as text image". */
  lemma DetectsCodeScreenshot(t: string, src: string)
    requires t == "code-screenshot.png" && src == Site + t
    ensures IsLikelyTextImageBasic(Mock(src, 800, 400))
  {
    CodeScreenshotSource(t);
    AcceptedWhenClean(Mock(src, 800, 400), 1);
  }

  lemma TerminalOutputIndicator(t: string)
    requires t == "terminal-output.png"
    ensures Contains(Site + t, TextIndicators[3])
  {
    TerminalOutputName(t);
    assert TextIndicators[3] == "terminal";
    ContainsAt(t, "terminal", 0);
    ContainsAppendLeft(Site, t, "terminal");
  }

  lemma TerminalOutputSource(t: string)
    requires t == "terminal-output.png"
    ensures Lower(Site + t) == Site + t && Lower("") == ""
    ensures !AnyIn(SkipPatterns, Site + t)
    ensures Contains(Site + t, TextIndicators[3])
  {
    TerminalOutputName(t);
    MockIsLowerCase(t);
    TerminalOutputAvoidsSkips(t);
    TerminalOutputIndicator(t);
  }

  /** "accepts terminal screenshots". */
  lemma AcceptsTerminalOutput(t: string, src: string)
    requires t == "terminal-output.png" && src == Site + t
    ensures IsLikelyTextImageBasic(Mock(src, 600, 300))
  {
    TerminalOutputSource(t);
    AcceptedWhenClean(Mock(src, 600, 300), 3);
  }

  /** "rejects avatar images". */
  lemma RejectsAvatar(t: string)
    requires t == "avatar.jpg"
    ensures !IsLikelyTextImageBasic(Mock(Site + t, 200, 200))
  {
    assert forall i :: 0 <= i < |t| ==> !IsUpper(t[i]);
    MockIsLowerCase(t);
    ContainsAt(t, "avatar", 0);
    ContainsAppendLeft(Site, t, "avatar");
    assert SkipPatterns[0] == "avatar";
  }

  /** "rejects small images". */
  lemma RejectsSmall(t: string)
    requires t == "small.png"
    ensures !IsLikelyTextImageBasic(Mock(Site + t, 50, 30))
  {
  }

  /** "rejects logo images". */
  lemma RejectsLogo(t: string)
    requires t == "company-logo.png"
    ensures !IsLikelyTextImageBasic(Mock(Site + t, 300, 100))
  {
    assert forall i :: 0 <= i < |t| ==> !IsUpper(t[i]);
    MockIsLowerCase(t);
    ContainsAt(t, "logo", 8);
    ContainsAppendLeft(Site, t, "logo");
    assert SkipPatterns[1] == "logo";
  }

  /** "gives higher confidence to code images": 100 against 75. */
  lemma CodeScoresHigher(code: string, photo: string)
    requires code == "code-example.png"
    requires photo == "photo.jpg"
    ensures BasicImageConfidence(Mock(Site + code, 800, 400)) == 100
    ensures BasicImageConfidence(Mock(Site + photo, 800, 400)) == 75
  {
    CodeExampleScores(code);
    PhotoScores(photo);
  }

  lemma CodeExampleScores(code: string)
    requires code == "code-example.png"
    ensures BasicImageConfidence(Mock(Site + code, 800, 400)) == 100
  {
    assert forall i :: 0 <= i < |code| ==> !IsUpper(code[i]);
    MockIsLowerCase(code);
    ContainsAt(code, "code", 0);
    ContainsAppendLeft(Site, code, "code");
    NotContainsByChar("", "code", 0);
    WideRatioIsExact(800, 400);
  }

  lemma PhotoScores(photo: string)
    requires photo == "photo.jpg"
    ensures BasicImageConfidence(Mock(Site + photo, 800, 400)) == 75
  {
    assert forall i :: 0 <= i < |photo| ==> !IsUpper(photo[i]);
    MockIsLowerCase(photo);
    SiteFacts(Site);
    PhotoLacks(photo);
    NotContainsByChar(Site + photo, "code", 2);
    NotContainsByChar(Site + photo, "screenshot", 2);
    NotContainsByChar(Site + photo, ".png", 2);
    NotContainsByChar("", "code", 0);
    WideRatioIsExact(800, 400);
  }

  lemma PhotoLacks(photo: string)
    requires photo == "photo.jpg"
    ensures 'd' !in photo && 'r' !in photo && 'n' !in photo
  {
  }

  /** "gives bonus for larger images": 80 against 60. */
  lemma LargerScoresHigher(t: string)
    requires t == "test.png"
    ensures BasicImageConfidence(Mock(Site + t, 1200, 800)) == 80
    ensures BasicImageConfidence(Mock(Site + t, 300, 200)) == 60
  {
    assert forall i :: 0 <= i < |t| ==> !IsUpper(t[i]);
    MockIsLowerCase(t);
    SiteFacts(Site);
    ContainsAt(t, ".png", 4);
    ContainsAppendLeft(Site, t, ".png");
    assert 'd' !in t && 'r' !in t;
    NotContainsByChar(Site + t, "code", 2);
    NotContainsByChar(Site + t, "screenshot", 2);
    NotContainsByChar("", "code", 0);
    WideRatioIsExact(1200, 800);
    WideRatioIsExact(300, 200);
  }
}
