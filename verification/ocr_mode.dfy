/** The page-side OCR mode of src/content.js (content.js carries the same code):
    detection on load shows the banner once when at least two candidates exist,
    activating the mode highlights each candidate with a confidence band, and
    Escape leaves the mode. DOM and timer effects are left out; the state they
    guard is kept. */
module OcrMode {
  import opened Detector
  import opened Wrappers

  /** The highlight class added to a candidate image. */
  datatype Band = High | Medium | Low

  /** The three classes are ordered by how confident they are. */
  function Rank(b: Band): nat {
    match b
    case Low => 0
    case Medium => 1
    case High => 2
  }

  /** `high-confidence` from 80, `medium-confidence` from 60, otherwise `low-confidence`. */
  function BandOf(confidence: int): (b: Band)
    ensures b == High <==> confidence >= 80
    ensures b == Medium <==> 60 <= confidence < 80
    ensures b == Low <==> confidence < 60
  {
    if confidence >= 80 then High
    else if confidence >= 60 then Medium
    else Low
  }

  /** A higher confidence never gets a lower band. */
  lemma BandMonotone(c1: int, c2: int)
    requires c1 <= c2
    ensures Rank(BandOf(c1)) <= Rank(BandOf(c2))
  {
  }

  /** The module-level state: `bannerShown`, the count the banner announced,
      `detectedImages`, `ocrModeActive` and the bands currently highlighted. */
  datatype PageState = PageState(
    bannerShown: bool,
    bannerCount: Option<nat>,
    detected: seq<Candidate>,
    ocrModeActive: bool,
    highlights: seq<Band>)

  const Initial := PageState(false, None, [], false, [])

  /** `showOCRBanner`: the first call shows the banner, every later one is a no-op. */
  function ShowOCRBanner(st: PageState, imageCount: nat): (st': PageState)
    ensures st.bannerShown ==> st' == st
    ensures !st.bannerShown ==>
      st' == st.(bannerShown := true, bannerCount := Some(imageCount))
  {
    if st.bannerShown then st
    else st.(bannerShown := true, bannerCount := Some(imageCount))
  }

  /** Once shown, the banner stays shown and keeps its count whatever is shown later. */
  lemma BannerShownOnce(st: PageState, n: nat, m: nat)
    ensures ShowOCRBanner(ShowOCRBanner(st, n), m) == ShowOCRBanner(st, n)
    ensures ShowOCRBanner(st, n).bannerShown
  {
  }

  /** `initializeDetection`: detect, and with two or more candidates show the
      banner and remember them; nothing happens once the banner has been shown. */
  function InitializeDetection(st: PageState, images: seq<Image>, page: Page): (st': PageState)
    ensures st.bannerShown ==> st' == st
    ensures !st.bannerShown && |DetectTextImages(images, page)| >= 2 ==>
      && st'.bannerShown
      && st'.bannerCount == Some(|DetectTextImages(images, page)|)
      && st'.detected == DetectTextImages(images, page)
    ensures !st.bannerShown && |DetectTextImages(images, page)| < 2 ==> st' == st
  {
    if st.bannerShown then st
    else
      var textImages := DetectTextImages(images, page);
      if |textImages| >= 2 then
        ShowOCRBanner(st, |textImages|).(detected := textImages)
      else st
  }

  /** Re-running detection (as the mutation observer does) after the banner was
      shown changes nothing. */
  lemma DetectionAfterBannerIsInert(st: PageState, images: seq<Image>, page: Page,
                                    images': seq<Image>, page': Page)
    ensures var st1 := InitializeDetection(st, images, page);
      st1.bannerShown ==> InitializeDetection(st1, images', page') == st1
  {
  }

  /** `activateOCRMode`: enter the mode and give every remembered candidate its band. */
  function ActivateOCRMode(st: PageState): (st': PageState)
    ensures st'.ocrModeActive
    ensures |st'.highlights| == |st.detected|
    ensures forall i :: 0 <= i < |st.detected| ==>
      (st'.highlights[i] == High <==> st.detected[i].confidence >= 80)
      && (st'.highlights[i] == Low <==> st.detected[i].confidence < 60)
    ensures st'.detected == st.detected && st'.bannerShown == st.bannerShown
  {
    st.(ocrModeActive := true,
        highlights := seq(|st.detected|, i requires 0 <= i < |st.detected| =>
                        BandOf(st.detected[i].confidence)))
  }

  /** `deactivateOCRMode`: leave the mode and drop every highlight. */
  function DeactivateOCRMode(st: PageState): (st': PageState)
    ensures !st'.ocrModeActive && st'.highlights == []
    ensures st'.detected == st.detected && st'.bannerShown == st.bannerShown
  {
    st.(ocrModeActive := false, highlights := [])
  }

  /** `handleEscapeKey`: Escape deactivates an active mode; anything else,
      or Escape outside the mode, leaves the state as it is. */
  function HandleEscapeKey(st: PageState, key: string): (st': PageState)
    ensures key == "Escape" && st.ocrModeActive ==> !st'.ocrModeActive && st'.highlights == []
    ensures !(key == "Escape" && st.ocrModeActive) ==> st' == st
    ensures st'.detected == st.detected && st'.bannerShown == st.bannerShown
  {
    if key == "Escape" && st.ocrModeActive then DeactivateOCRMode(st) else st
  }

  /** Activating then pressing Escape leaves the mode with no highlight, and a
      second Escape changes nothing. */
  lemma EscapeAfterActivate(st: PageState)
    ensures var st1 := HandleEscapeKey(ActivateOCRMode(st), "Escape");
      !st1.ocrModeActive && st1.highlights == [] && HandleEscapeKey(st1, "Escape") == st1
  {
  }

  /** Every highlighted candidate of a detection gets a band from its score,
      and since scores lie in 50..100 every band is one of the three. */
  lemma HighlightsFollowScores(images: seq<Image>, page: Page)
    ensures var st := ActivateOCRMode(InitializeDetection(Initial, images, page));
      forall i :: 0 <= i < |st.highlights| ==>
        st.highlights[i] == BandOf(CalculateImageConfidence(st.detected[i].image))
  {
  }
}
