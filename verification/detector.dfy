/** The image candidate detector: which images of a page are worth running OCR on,
    how confident the extension is about each, and the ranked candidate list. The
    DOM reads (`naturalWidth`, `complete`, `src`, ...) and the two page-context reads
    (a code-block selector hit and `location.href`) are parameters. */
module Detector {
  import opened Text

  /** What the detector reads from an `<img>` element; a missing `alt` or
      `className` is the empty string, as `(img.alt || '')` makes it. */
  datatype Image = Image(
    naturalWidth: nat,
    naturalHeight: nat,
    complete: bool,
    src: string,
    alt: string,
    className: string)

  /** Page context: whether `pre, code, .highlight, .code-block, .syntax` matches
      anything, and the page address. */
  datatype Page = Page(hasCodeBlock: bool, href: string)

  /** A ranked candidate; `index` is the image's position in document order. */
  datatype Candidate = Candidate(index: nat, image: Image, confidence: int)

  const SkipPatterns: seq<string> :=
    ["avatar", "logo", "icon", "profile", "thumb", "banner",
     "ad-", "ads/", "tracking", "pixel", "badge"]

  const TextIndicators: seq<string> :=
    ["screenshot", "code", "snippet", "terminal", "console",
     "error", "output", "result", "example", "demo"]

  /** The alternatives of `/tutorial|guide|docs|documentation|stackoverflow|github/i`. */
  const TutorialWords: seq<string> :=
    ["tutorial", "guide", "docs", "documentation", "stackoverflow", "github"]

  /** `patterns.some(p => s.includes(p))`. */
  predicate AnyIn(patterns: seq<string>, s: string)
    ensures AnyIn(patterns, s) <==> exists k :: 0 <= k < |patterns| && Contains(s, patterns[k])
    decreases |patterns|
  {
    |patterns| > 0 && (Contains(s, patterns[0]) || AnyIn(patterns[1..], s))
  }

  /** Some pattern occurs in the lower-cased `src`, `alt` or `className`. */
  predicate Mentions(img: Image, patterns: seq<string>) {
    AnyIn(patterns, Lower(img.src)) || AnyIn(patterns, Lower(img.alt))
    || AnyIn(patterns, Lower(img.className))
  }

  /** The case-insensitive tutorial-address test on `window.location.href`. */
  predicate IsTutorialPage(href: string) {
    AnyIn(TutorialWords, Lower(href))
  }

  /** The guards every candidate passes before the ratio and indicator tests:
      big enough, loaded, and not deny-listed. */
  predicate Admissible(img: Image) {
    && img.naturalWidth >= 100 && img.naturalHeight >= 50
    && img.complete
    && !Mentions(img, SkipPatterns)
  }

  /** The ratio tests in integer form: `0.5 < w/h < 6`. */
  predicate GoodRatioExact(w: nat, h: nat) {
    2 * w > h && w < 6 * h
  }

  /** `w / h` with JavaScript's floating-point division read as exact division. */
  function Ratio(w: nat, h: nat): real
    requires h > 0
  {
    w as real / h as real
  }

  lemma RatioAboveIff(w: nat, h: nat, num: nat, den: nat)
    requires h > 0 && den > 0
    ensures Ratio(w, h) > num as real / den as real <==> w * den > num * h
  {
    var q := Ratio(w, h);
    assert q * h as real == w as real;
    var t := num as real / den as real;
    assert t * den as real == num as real;
    if w * den > num * h {
      assert (w * den) as real > (num * h) as real;
      assert q * (h * den) as real > t * (h * den) as real;
    } else {
      assert (w * den) as real <= (num * h) as real;
      assert q * (h * den) as real <= t * (h * den) as real;
    }
  }

  lemma RatioBelowIff(w: nat, h: nat, num: nat, den: nat)
    requires h > 0 && den > 0
    ensures Ratio(w, h) < num as real / den as real <==> w * den < num * h
  {
    var q := Ratio(w, h);
    assert q * h as real == w as real;
    var t := num as real / den as real;
    assert t * den as real == num as real;
    if w * den < num * h {
      assert (w * den) as real < (num * h) as real;
      assert q * (h * den) as real < t * (h * den) as real;
    } else {
      assert (w * den) as real >= (num * h) as real;
      assert q * (h * den) as real >= t * (h * den) as real;
    }
  }

  /** `ratio > 0.5 && ratio < 6`, as the source writes it. */
  predicate IsGoodRatio(w: nat, h: nat)
    requires h > 0
  {
    Ratio(w, h) > 0.5 && Ratio(w, h) < 6.0
  }

  /** The real-valued ratio test and its integer form agree on every image size. */
  lemma GoodRatioIsExact(w: nat, h: nat)
    requires h > 0
    ensures IsGoodRatio(w, h) <==> GoodRatioExact(w, h)
  {
    RatioAboveIff(w, h, 1, 2);
    RatioBelowIff(w, h, 6, 1);
    assert 0.5 == 1 as real / 2 as real;
    assert 6.0 == 6 as real / 1 as real;
  }

  /** `ratio > 1.5 && ratio < 4`; a zero height makes the JavaScript ratio
      `Infinity` or `NaN`, for which both comparisons fail. */
  predicate IsWideRatio(w: nat, h: nat) {
    h > 0 && Ratio(w, h) > 1.5 && Ratio(w, h) < 4.0
  }

  lemma WideRatioIsExact(w: nat, h: nat)
    ensures IsWideRatio(w, h) <==> h > 0 && 2 * w > 3 * h && w < 4 * h
  {
    if h > 0 {
      RatioAboveIff(w, h, 3, 2);
      RatioBelowIff(w, h, 4, 1);
      assert 1.5 == 3 as real / 2 as real;
      assert 4.0 == 4 as real / 1 as real;
    }
  }

  /** `isLikelyTextImage` of content.js and src/content.js (the two are identical). */
  predicate IsLikelyTextImage(img: Image, page: Page) {
    if img.naturalWidth < 100 || img.naturalHeight < 50 then false
    else if !img.complete || img.naturalWidth == 0 then false
    else if Mentions(img, SkipPatterns) then false
    else
      var isGoodRatio := IsGoodRatio(img.naturalWidth, img.naturalHeight);
      var hasTextIndicator := Mentions(img, TextIndicators);
      isGoodRatio && (hasTextIndicator || page.hasCodeBlock || IsTutorialPage(page.href))
  }

  /** An image is accepted exactly when it passes the size, load and deny-list
      guards, has a ratio strictly between 1:2 and 6:1, and either names a text
      indicator or sits on a page with code blocks or a tutorial address. */
  lemma IsLikelyTextImageExact(img: Image, page: Page)
    ensures IsLikelyTextImage(img, page) <==>
      && Admissible(img)
      && GoodRatioExact(img.naturalWidth, img.naturalHeight)
      && (Mentions(img, TextIndicators) || page.hasCodeBlock || IsTutorialPage(page.href))
  {
    if img.naturalHeight > 0 {
      GoodRatioIsExact(img.naturalWidth, img.naturalHeight);
    }
  }

  /** The detector variant of tests/unit-tests.js: no page context. */
  predicate IsLikelyTextImageBasic(img: Image) {
    if img.naturalWidth < 100 || img.naturalHeight < 50 then false
    else if !img.complete || img.naturalWidth == 0 then false
    else if Mentions(img, SkipPatterns) then false
    else IsGoodRatio(img.naturalWidth, img.naturalHeight) && Mentions(img, TextIndicators)
  }

  lemma IsLikelyTextImageBasicExact(img: Image)
    ensures IsLikelyTextImageBasic(img) <==>
      && Admissible(img)
      && GoodRatioExact(img.naturalWidth, img.naturalHeight)
      && Mentions(img, TextIndicators)
  {
    if img.naturalHeight > 0 {
      GoodRatioIsExact(img.naturalWidth, img.naturalHeight);
    }
  }

  /** The size bonus: +20 above 500,000 pixels, else +10 above 100,000. */
  function AreaBonus(area: int): (b: int)
    ensures 0 <= b <= 20
  {
    if area > 500000 then 20 else if area > 100000 then 10 else 0
  }

  lemma AreaBonusMonotone(a1: int, a2: int)
    requires a1 <= a2
    ensures AreaBonus(a1) <= AreaBonus(a2)
  {
  }

  /** Everything the score adds besides the size and shape bonuses. */
  function NameBonus(img: Image, withTerminal: bool): (b: int)
    ensures 0 <= b <= 75
  {
    var src := Lower(img.src);
    var alt := Lower(img.alt);
    (if Contains(src, "code") || Contains(alt, "code") then 25 else 0)
    + (if Contains(src, "screenshot") then 20 else 0)
    + (if withTerminal && (Contains(src, "terminal") || Contains(src, "console")) then 20 else 0)
    + (if Contains(src, ".png") then 10 else 0)
  }

  /** The uncapped score: base 50 plus the additive bonuses. */
  function RawScore(img: Image, withTerminal: bool): int {
    50 + AreaBonus(img.naturalWidth * img.naturalHeight)
    + (if IsWideRatio(img.naturalWidth, img.naturalHeight) then 15 else 0)
    + NameBonus(img, withTerminal)
  }

  /** `calculateImageConfidence` of content.js and src/content.js: the raw score
      capped at 100, that is, the lesser of the two. */
  function CalculateImageConfidence(img: Image): (r: int)
    ensures 50 <= r <= 100
    ensures r == 100 || r == RawScore(img, true)
    ensures r <= RawScore(img, true)
  {
    var confidence := RawScore(img, true);
    if confidence < 100 then confidence else 100
  }

  /** `calculateImageConfidence` of tests/unit-tests.js: no terminal/console bonus,
      and the same cap. */
  function BasicImageConfidence(img: Image): (r: int)
    ensures 50 <= r <= 100
    ensures r == 100 || r == RawScore(img, false)
    ensures r <= RawScore(img, false)
  {
    var confidence := RawScore(img, false);
    if confidence < 100 then confidence else 100
  }

  // Ranking: `candidates.sort((a, b) => b.confidence - a.confidence)`. The sort is
  // stable, so equal confidences keep document order.

  predicate RanksBefore(a: Candidate, b: Candidate) {
    a.confidence > b.confidence || (a.confidence == b.confidence && a.index < b.index)
  }

  predicate Ranked(cs: seq<Candidate>) {
    forall i, j :: 0 <= i < j < |cs| ==> RanksBefore(cs[i], cs[j])
  }

  function Indices(cs: seq<Candidate>): set<nat> {
    set c | c in cs :: c.index
  }

  lemma RanksBeforeTransitive(a: Candidate, b: Candidate, c: Candidate)
    requires RanksBefore(a, b) && RanksBefore(b, c)
    ensures RanksBefore(a, c)
  {
  }

  /** A ranked list stays ranked under a new head that ranks before all its entries. */
  lemma RankedCons(x: Candidate, cs: seq<Candidate>)
    requires Ranked(cs)
    requires forall y :: y in cs ==> RanksBefore(x, y)
    ensures Ranked([x] + cs)
  {
    var r := [x] + cs;
    forall i, j | 0 <= i < j < |r| ensures RanksBefore(r[i], r[j]) {
      if i == 0 {
        assert r[j] == cs[j - 1];
        assert cs[j - 1] in cs;
      } else {
        assert r[i] == cs[i - 1] && r[j] == cs[j - 1];
      }
    }
  }

  /** Inserts `c` into a ranked list ahead of the first entry it ranks before. */
  function Insert(c: Candidate, cs: seq<Candidate>): (r: seq<Candidate>)
    requires Ranked(cs)
    requires c.index !in Indices(cs)
    ensures multiset(r) == multiset(cs) + multiset{c}
    ensures Ranked(r)
  {
    if |cs| == 0 then [c]
    else if RanksBefore(cs[0], c) then
      RankedTail(cs, c);
      var rest := Insert(c, cs[1..]);
      InsertAfterHead(cs, c, rest);
      [cs[0]] + rest
    else
      InsertAtHead(c, cs);
      [c] + cs
  }

  /** The head that ranks before `c` stays first ahead of the insertion into the tail. */
  lemma InsertAfterHead(cs: seq<Candidate>, c: Candidate, rest: seq<Candidate>)
    requires |cs| > 0 && Ranked(cs) && RanksBefore(cs[0], c)
    requires multiset(rest) == multiset(cs[1..]) + multiset{c} && Ranked(rest)
    ensures multiset([cs[0]] + rest) == multiset(cs) + multiset{c}
    ensures Ranked([cs[0]] + rest)
  {
    HeadRanksBeforeInsertion(cs, c, rest);
    RankedCons(cs[0], rest);
    assert cs == [cs[0]] + cs[1..];
  }

  /** A candidate that the head does not rank before goes first. */
  lemma InsertAtHead(c: Candidate, cs: seq<Candidate>)
    requires |cs| > 0 && Ranked(cs) && c.index !in Indices(cs) && !RanksBefore(cs[0], c)
    ensures multiset([c] + cs) == multiset(cs) + multiset{c}
    ensures Ranked([c] + cs)
  {
    NewHeadRanksFirst(c, cs);
    RankedCons(c, cs);
  }

  /** The tail of a ranked list is ranked and still lacks the index of `c`. */
  lemma RankedTail(cs: seq<Candidate>, c: Candidate)
    requires |cs| > 0 && Ranked(cs) && c.index !in Indices(cs)
    ensures Ranked(cs[1..]) && c.index !in Indices(cs[1..])
  {
    var tail := cs[1..];
    forall i, j | 0 <= i < j < |tail| ensures RanksBefore(tail[i], tail[j]) {
      assert tail[i] == cs[i + 1] && tail[j] == cs[j + 1];
    }
    forall x | x in tail ensures x.index != c.index {
      assert x in cs;
    }
  }

  /** When `c` goes after the head, the head still ranks before everything in the
      insertion into the tail. */
  lemma HeadRanksBeforeInsertion(cs: seq<Candidate>, c: Candidate, rest: seq<Candidate>)
    requires |cs| > 0 && Ranked(cs) && RanksBefore(cs[0], c)
    requires multiset(rest) == multiset(cs[1..]) + multiset{c}
    ensures forall y :: y in rest ==> RanksBefore(cs[0], y)
  {
    forall y | y in rest ensures RanksBefore(cs[0], y) {
      assert y in multiset(rest);
      if y != c {
        assert y in multiset(cs[1..]);
        var k :| 0 <= k < |cs[1..]| && cs[1..][k] == y;
        assert cs[k + 1] == y;
      }
    }
  }

  /** When `c` does not go after the head, it ranks before every entry: ranks are
      total on distinct indices, and the list is ranked. */
  lemma NewHeadRanksFirst(c: Candidate, cs: seq<Candidate>)
    requires |cs| > 0 && Ranked(cs) && c.index !in Indices(cs) && !RanksBefore(cs[0], c)
    ensures forall y :: y in cs ==> RanksBefore(c, y)
  {
    assert cs[0] in cs;
    forall y | y in cs ensures RanksBefore(c, y) {
      var k :| 0 <= k < |cs| && cs[k] == y;
      if k > 0 {
        RanksBeforeTransitive(c, cs[0], y);
      }
    }
  }

  /** An insertion sort into rank order. */
  function Sort(cs: seq<Candidate>): (r: seq<Candidate>)
    requires forall i, j :: 0 <= i < j < |cs| ==> cs[i].index != cs[j].index
    ensures multiset(r) == multiset(cs)
    ensures Ranked(r)
  {
    if |cs| == 0 then []
    else
      var rest := Sort(cs[1..]);
      assert cs == [cs[0]] + cs[1..];
      assert cs[0].index !in Indices(rest) by {
        forall x | x in rest ensures x.index != cs[0].index {
          assert x in multiset(cs[1..]);
        }
      }
      Insert(cs[0], rest)
  }

  /** The candidates among `images[from..]`, in document order: the `forEach`
      that pushes every image `accept` passes, with its `score`. */
  function Collect(images: seq<Image>, accept: Image -> bool, score: Image -> int, from: nat)
    : seq<Candidate>
    requires from <= |images|
    decreases |images| - from
  {
    if from == |images| then []
    else
      var rest := Collect(images, accept, score, from + 1);
      if accept(images[from]) then [Candidate(from, images[from], score(images[from]))] + rest
      else rest
  }

  /** Every entry of `cs` is an image of `images[from..]` that `accept` passes,
      with its `score`. */
  predicate AllScored(
    cs: seq<Candidate>, images: seq<Image>, accept: Image -> bool, score: Image -> int, from: nat)
  {
    forall k :: 0 <= k < |cs| ==>
      && from <= cs[k].index < |images|
      && cs[k].image == images[cs[k].index]
      && accept(cs[k].image)
      && cs[k].confidence == score(cs[k].image)
  }

  /** The entries of `cs` are in document order. */
  predicate InDocumentOrder(cs: seq<Candidate>) {
    forall k, l :: 0 <= k < l < |cs| ==> cs[k].index < cs[l].index
  }

  /** Every image of `images[from..]` that `accept` passes has an entry in `cs`. */
  predicate Covers(cs: seq<Candidate>, images: seq<Image>, accept: Image -> bool, from: nat) {
    forall i :: from <= i < |images| && accept(images[i]) ==>
      exists k :: 0 <= k < |cs| && cs[k].index == i
  }

  /** `cs` holds exactly the images of `images[from..]` that `accept` passes,
      each with its `score`, in document order. */
  predicate CollectedExactly(
    cs: seq<Candidate>, images: seq<Image>, accept: Image -> bool, score: Image -> int, from: nat)
  {
    AllScored(cs, images, accept, score, from) && InDocumentOrder(cs) && Covers(cs, images, accept, from)
  }

  /** `Collect` keeps exactly the accepted images, scored, in document order. */
  lemma {:induction false} CollectExact(
    images: seq<Image>, accept: Image -> bool, score: Image -> int, from: nat)
    requires from <= |images|
    ensures CollectedExactly(Collect(images, accept, score, from), images, accept, score, from)
    decreases |images| - from
  {
    if from < |images| {
      CollectExact(images, accept, score, from + 1);
      if accept(images[from]) {
        CollectAccepted(images, accept, score, from);
      } else {
        CollectSkipped(images, accept, score, from);
      }
    }
  }

  lemma CollectAccepted(images: seq<Image>, accept: Image -> bool, score: Image -> int, from: nat)
    requires from < |images| && accept(images[from])
    requires CollectedExactly(Collect(images, accept, score, from + 1), images, accept, score, from + 1)
    ensures CollectedExactly(Collect(images, accept, score, from), images, accept, score, from)
  {
    var rest := Collect(images, accept, score, from + 1);
    var x := Candidate(from, images[from], score(images[from]));
    assert Collect(images, accept, score, from) == [x] + rest;
    ConsScored(x, rest, images, accept, score, from);
    ConsInOrder(x, rest, images, accept, score, from);
    ConsCovers(x, rest, images, accept, score, from);
  }

  lemma ConsScored(
    x: Candidate, rest: seq<Candidate>, images: seq<Image>, accept: Image -> bool, score: Image -> int, from: nat)
    requires from < |images| && accept(images[from])
    requires x == Candidate(from, images[from], score(images[from]))
    requires AllScored(rest, images, accept, score, from + 1)
    ensures AllScored([x] + rest, images, accept, score, from)
  {
    var r := [x] + rest;
    forall k | 0 < k < |r| ensures r[k] == rest[k - 1] {
    }
  }

  lemma ConsInOrder(
    x: Candidate, rest: seq<Candidate>, images: seq<Image>, accept: Image -> bool, score: Image -> int, from: nat)
    requires x.index == from
    requires AllScored(rest, images, accept, score, from + 1) && InDocumentOrder(rest)
    ensures InDocumentOrder([x] + rest)
  {
    var r := [x] + rest;
    forall k, l | 0 <= k < l < |r| ensures r[k].index < r[l].index {
      assert r[l] == rest[l - 1];
      if k > 0 {
        assert r[k] == rest[k - 1];
      }
    }
  }

  lemma ConsCovers(
    x: Candidate, rest: seq<Candidate>, images: seq<Image>, accept: Image -> bool, score: Image -> int, from: nat)
    requires from < |images| && x.index == from
    requires Covers(rest, images, accept, from + 1)
    ensures Covers([x] + rest, images, accept, from)
  {
    var r := [x] + rest;
    forall i | from <= i < |images| && accept(images[i])
      ensures exists k :: 0 <= k < |r| && r[k].index == i
    {
      if i == from {
        assert r[0].index == i;
      } else {
        var k :| 0 <= k < |rest| && rest[k].index == i;
        assert r[k + 1].index == i;
      }
    }
  }

  lemma CollectSkipped(images: seq<Image>, accept: Image -> bool, score: Image -> int, from: nat)
    requires from < |images| && !accept(images[from])
    requires CollectedExactly(Collect(images, accept, score, from + 1), images, accept, score, from + 1)
    ensures CollectedExactly(Collect(images, accept, score, from), images, accept, score, from)
  {
    assert Collect(images, accept, score, from) == Collect(images, accept, score, from + 1);
  }

  /** Filters `images` by `accept`, scores each survivor and ranks them by score,
      highest first, ties in document order. */
  function Rank(images: seq<Image>, accept: Image -> bool, score: Image -> int)
    : (r: seq<Candidate>)
    ensures forall c :: c in r ==>
      && c.index < |images| && c.image == images[c.index]
      && accept(c.image) && c.confidence == score(c.image)
    ensures forall i :: 0 <= i < |images| && accept(images[i]) ==>
      exists k :: 0 <= k < |r| && r[k].index == i
    ensures forall i, j :: 0 <= i < j < |r| ==> r[i].confidence >= r[j].confidence
    ensures forall i, j :: 0 <= i < j < |r| && r[i].confidence == r[j].confidence ==>
      r[i].index < r[j].index
  {
    var cs := Collect(images, accept, score, 0);
    CollectExact(images, accept, score, 0);
    var r := Sort(cs);
    SameMembers(cs, r);
    r
  }

  /** Two lists with the same multiset have the same members and the same indices. */
  lemma SameMembers(cs: seq<Candidate>, r: seq<Candidate>)
    requires multiset(r) == multiset(cs)
    ensures forall c :: c in r <==> c in cs
    ensures forall k :: 0 <= k < |cs| ==> exists k' :: 0 <= k' < |r| && r[k'].index == cs[k].index
  {
    forall c ensures c in r <==> c in cs {
      assert c in r <==> c in multiset(r);
    }
    forall k | 0 <= k < |cs| ensures exists k' :: 0 <= k' < |r| && r[k'].index == cs[k].index {
      assert cs[k] in cs;
      assert cs[k] in multiset(r);
      var k' :| 0 <= k' < |r| && r[k'] == cs[k];
      assert r[k'].index == cs[k].index;
    }
  }

  /** `detectTextImages`: the passing images, scored and ranked by confidence,
      highest first, ties in document order. */
  function DetectTextImages(images: seq<Image>, page: Page): (r: seq<Candidate>)
    ensures forall c :: c in r ==>
      && c.index < |images| && c.image == images[c.index]
      && IsLikelyTextImage(c.image, page)
      && c.confidence == CalculateImageConfidence(c.image)
    ensures forall i :: 0 <= i < |images| && IsLikelyTextImage(images[i], page) ==>
      exists k :: 0 <= k < |r| && r[k].index == i
    ensures forall i, j :: 0 <= i < j < |r| ==> r[i].confidence >= r[j].confidence
    ensures forall i, j :: 0 <= i < j < |r| && r[i].confidence == r[j].confidence ==>
      r[i].index < r[j].index
  {
    var accept := img => IsLikelyTextImage(img, page);
    assert forall img :: accept(img) == IsLikelyTextImage(img, page);
    var r := Rank(images, accept, CalculateImageConfidence);
    RankedByDetector(images, page, accept, r);
    r
  }

  /** What `Rank` promises about `accept` holds of the detector that `accept` computes. */
  lemma RankedByDetector(images: seq<Image>, page: Page, accept: Image -> bool, r: seq<Candidate>)
    requires forall img :: accept(img) == IsLikelyTextImage(img, page)
    requires forall c :: c in r ==>
      && c.index < |images| && c.image == images[c.index]
      && accept(c.image) && c.confidence == CalculateImageConfidence(c.image)
    requires forall i :: 0 <= i < |images| && accept(images[i]) ==>
      exists k :: 0 <= k < |r| && r[k].index == i
    ensures forall c :: c in r ==>
      && c.index < |images| && c.image == images[c.index]
      && IsLikelyTextImage(c.image, page)
      && c.confidence == CalculateImageConfidence(c.image)
    ensures forall i :: 0 <= i < |images| && IsLikelyTextImage(images[i], page) ==>
      exists k :: 0 <= k < |r| && r[k].index == i
  {
  }
}

/** Properties of the detector and its scoring, and the vectors the unit tests check. */
module DetectorFacts {
  import opened Text
  import opened Detector

  /** Whatever an accepted image looks like, it is at least 100x50 and its
      ratio lies strictly between 1:2 and 6:1. */
  lemma AcceptedImpliesBounds(img: Image, page: Page)
    requires IsLikelyTextImage(img, page)
    ensures img.naturalWidth >= 100 && img.naturalHeight >= 50
    ensures 2 * img.naturalWidth > img.naturalHeight && img.naturalWidth < 6 * img.naturalHeight
  {
    IsLikelyTextImageExact(img, page);
  }

  /** A deny-listed substring in the lower-cased `src`, `alt` or `className` rejects
      the image whatever its indicators and page context. */
  lemma SkipPatternForcesRejection(img: Image, page: Page, k: nat)
    requires k < |SkipPatterns|
    requires Contains(Lower(img.src), SkipPatterns[k]) || Contains(Lower(img.alt), SkipPatterns[k])
      || Contains(Lower(img.className), SkipPatterns[k])
    ensures !IsLikelyTextImage(img, page)
  {
  }

  /** The test-file detector accepts only what the page-aware detector accepts,
      and on a page without code blocks or a tutorial address the two agree. */
  lemma BasicDetectorIsStricter(img: Image, page: Page)
    ensures IsLikelyTextImageBasic(img) ==> IsLikelyTextImage(img, page)
    ensures !page.hasCodeBlock && !IsTutorialPage(page.href) ==>
      (IsLikelyTextImageBasic(img) <==> IsLikelyTextImage(img, page))
  {
    IsLikelyTextImageExact(img, page);
    IsLikelyTextImageBasicExact(img);
  }

  /** The test-file scorer never scores above the extension's, and matches it
      when `src` names neither a terminal nor a console. */
  lemma BasicConfidenceBelowFull(img: Image)
    ensures BasicImageConfidence(img) <= CalculateImageConfidence(img)
    ensures !Contains(Lower(img.src), "terminal") && !Contains(Lower(img.src), "console") ==>
      BasicImageConfidence(img) == CalculateImageConfidence(img)
  {
  }

  /** With the shape and the names fixed, a larger area never lowers the score. */
  lemma ConfidenceMonotoneInArea(a: Image, b: Image)
    requires a.src == b.src && a.alt == b.alt
    requires IsWideRatio(a.naturalWidth, a.naturalHeight) == IsWideRatio(b.naturalWidth, b.naturalHeight)
    requires a.naturalWidth * a.naturalHeight <= b.naturalWidth * b.naturalHeight
    ensures CalculateImageConfidence(a) <= CalculateImageConfidence(b)
  {
    AreaBonusMonotone(a.naturalWidth * a.naturalHeight, b.naturalWidth * b.naturalHeight);
  }

  lemma MulKeepsSign(k: int, x: int)
    requires k >= 1
    ensures (k * x > 0) == (x > 0)
  {
    if x > 0 {
      assert k * x == (k - 1) * x + x;
      assert (k - 1) * x >= 0;
    } else {
      assert k * x == -(k * -x);
      assert k * -x >= 0;
    }
  }

  lemma ScaledDifference(k: int, a: int, x: int, b: int, y: int)
    requires k >= 1
    ensures (a * (k * x) > b * (k * y)) == (a * x > b * y)
  {
    assert a * (k * x) - b * (k * y) == k * (a * x - b * y);
    MulKeepsSign(k, a * x - b * y);
  }

  lemma ScaledArea(w: nat, h: nat, k: nat)
    requires k >= 1
    ensures w * h <= (k * w) * (k * h)
  {
    var a := w * h;
    assert (k * w) * (k * h) == (k * k) * a;
    assert k * k >= 1 by {
      MulKeepsSign(k, k);
    }
    assert (k * k) * a == (k * k - 1) * a + a;
    assert (k * k - 1) * a >= 0;
  }

  lemma ScaledShape(w: nat, h: nat, k: nat)
    requires k >= 1
    ensures (2 * (k * w) > 3 * (k * h)) == (2 * w > 3 * h)
    ensures (k * w < 4 * (k * h)) == (w < 4 * h)
    ensures (k * h > 0) == (h > 0)
    ensures w * h <= (k * w) * (k * h)
  {
    ScaledDifference(k, 2, w, 3, h);
    ScaledDifference(k, 4, h, 1, w);
    MulKeepsSign(k, h);
    ScaledArea(w, h, k);
  }

  /** Enlarging an image by a whole factor keeps its shape, so it never lowers the score. */
  lemma ScalingUpNeverLowersConfidence(img: Image, k: nat)
    requires k >= 1
    ensures CalculateImageConfidence(img) <=
      CalculateImageConfidence(img.(naturalWidth := k * img.naturalWidth,
                                    naturalHeight := k * img.naturalHeight))
  {
    var w, h := img.naturalWidth, img.naturalHeight;
    var big := img.(naturalWidth := k * w, naturalHeight := k * h);
    WideRatioIsExact(w, h);
    WideRatioIsExact(k * w, k * h);
    ScaledShape(w, h, k);
    ConfidenceMonotoneInArea(img, big);
  }

  /** Appending "code" to an image's address never lowers its score. */
  lemma AddingCodeNeverLowersConfidence(img: Image)
    ensures CalculateImageConfidence(img) <= CalculateImageConfidence(img.(src := img.src + "code"))
  {
    var src := Lower(img.src);
    var src' := Lower(img.src + "code");
    LowerAppend(img.src, "code");
    assert Lower("code") == "code";
    forall p | Contains(src, p) ensures Contains(src', p) {
      ContainsAppendRight(src, "code", p);
    }
    ContainsItself("code");
    ContainsAppendLeft(src, "code", "code");
  }

  /** Every candidate is highlighted with a confidence between 50 and 100, and an
      admissible, well-shaped, allow-listed image is always among the candidates. */
  lemma AllowListedImageIsDetected(images: seq<Image>, page: Page, i: nat)
    requires i < |images|
    requires Admissible(images[i])
    requires GoodRatioExact(images[i].naturalWidth, images[i].naturalHeight)
    requires Mentions(images[i], TextIndicators)
    ensures exists c :: c in DetectTextImages(images, page) && c.index == i && 50 <= c.confidence <= 100
  {
    IsLikelyTextImageExact(images[i], page);
    var r := DetectTextImages(images, page);
    var k :| 0 <= k < |r| && r[k].index == i;
    assert r[k] in r;
  }
}
