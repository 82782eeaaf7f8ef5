# Image Text Extractor: a Dafny model of its core

Image Text Extractor is a browser extension that runs Tesseract OCR on images
in web pages. This project models the extension's sequential logic in Dafny
and proves properties of that model. It covers four parts:

- **Candidate detection.** The content script decides which `<img>` elements
  are likely to hold text (`isLikelyTextImage`), scores them
  (`calculateImageConfidence`) and ranks them (`detectTextImages`). The page
  side then shows a one-time banner and colours the candidates by confidence
  band in OCR mode. Modules `Detector`, `DetectorFacts`, `OcrMode` and
  `DetectorVectors`.
- **Text cleanup.** `cleanUpText` collapses whitespace, trims, replaces `|`
  and `0`, splits camelCase, and drops characters outside an allowed class.
  Modules `Cleanup` and `CleanupVectors`. Module `CharClass` models how a
  JavaScript engine parses a regular-expression character class; module
  `CharClassVectors` applies it to the two classes the repository writes.
- **OCR orchestration** in the background script. Module `Orchestrator` covers
  the single-flight `isProcessing` lock, the lazily created worker singleton,
  the "no text" error, the reply sent back to the page, and the statistics
  counters. Module `Preprocess` covers the preprocessing scale and the
  grayscale/threshold loop over RGBA bytes.
- **Selection overlay.** In the page, word boxes returned by OCR are scaled onto
  the displayed image (module `Geometry`). The user selects words with the
  mouse and copies their text (module `Selection`). Module `Messaging` connects
  the background reply to the page-side handler.

Shared pieces:

- `Wrappers` provides `Option` and `Result`.
- `Text` provides the character classes of JavaScript regular expressions
  (`\s`, `\w`), ASCII `toLowerCase`, `includes` and decimal numerals.

Browser effects, the OCR engine, storage and the clipboard are not modelled
directly. They appear as parameters: an outcome value, a result, or a
success flag.

Two facts about the code shape the model:

- The message handlers have no timeout and there is no `ping` action. Both
  answer asynchronously by returning `true`, with no timer. No timeout is
  modelled.
- The overlay is built only from a reply that carries words. The only
  `processImage` responder
  (assets/libs/tesseract.js:78-91) replies with `success` and `text` alone.
  So, even once that script loads, `extractTextWithBounds` never shows the
  overlay and always falls back to copying the text
  (`Messaging.OverlayIsUnreachable`). As written, the script does not load
  at all (see "## Findings"), and then no `processImage` responder exists.
  The overlay is therefore modelled over an OCR result given as input.
- The detector is written twice, identically, in content.js and
  src/content.js, and once more as a simpler variant in tests/unit-tests.js.
  The two identical copies are one model. The test variant is modelled
  separately and related to it.
- The test at tests/unit-tests.js:167-170 expects `"HeIIo WOr Id"` for
  `"He||o W0r|d"`. The camelCase step splits `eI`, so the function yields
  `"He IIo WOr Id"`. `CleanupVectors.FixesCommonOcrMistakes` proves that
  value and that it differs from the test's expectation.

## Model

| member | source | states |
|---|---|---|
| Detector.IsLikelyTextImageExact | content.js:300-335 | an image is a candidate exactly when it is admissible and has a good ratio, and it either names a text indicator, or the page has a code block, or the address is a tutorial page. Admissible means: at least 100 by 50, loaded, and no deny-list word in the lower-cased src, alt or class. A good ratio means 2w > h and w < 6h. |
| Detector.GoodRatioIsExact | content.js:318-319 | the real-valued test 0.5 < w/h < 6 holds exactly when 2w > h and w < 6h |
| Detector.WideRatioIsExact | content.js:348-349 | the bonus test 1.5 < w/h < 4 holds exactly when h > 0, 2w > 3h and w < 4h |
| Detector.CalculateImageConfidence | content.js:338-357 | the score lies in [50, 100] and is the lesser of 100 and the uncapped sum of base and bonuses |
| Detector.BasicImageConfidence | tests/unit-tests.js:45-63 | the test file's scorer lies in [50, 100] and is the lesser of 100 and its uncapped sum (no terminal/console bonus) |
| Detector.IsLikelyTextImageBasicExact | tests/unit-tests.js:5-43 | the test file's detector accepts exactly the admissible images with a good ratio that name a text indicator |
| Detector.Sort | content.js:296 | ranking is a permutation of the candidates, ordered by confidence, highest first, with ties kept in document order |
| Detector.CollectExact | content.js:286-294 | the filter pass keeps exactly the accepted images, in document order, each paired with its own index and score |
| Detector.DetectTextImages | content.js:283-297 | every returned candidate is an accepted image at its own index with its own score; every accepted image is returned; confidences never increase along the list; equal confidences keep document order |
| DetectorFacts.AcceptedImpliesBounds | src/content.js:40-68 | an accepted image has width at least 100, height at least 50, 2w > h and w < 6h |
| DetectorFacts.SkipPatternForcesRejection | src/content.js:48-62 | a deny-list word in the lower-cased src, alt or class rejects the image, whatever its indicators and the page context |
| DetectorFacts.BasicDetectorIsStricter | tests/unit-tests.js:5-43 | the test variant accepts only images the extension's detector accepts; the two agree on pages with no code block that are not tutorial pages |
| DetectorFacts.BasicConfidenceBelowFull | tests/unit-tests.js:45-63 | the test variant never scores higher than the extension's scorer, and scores the same when src mentions neither "terminal" nor "console" |
| DetectorFacts.ConfidenceMonotoneInArea | content.js:344-346 | with src, alt and ratio band fixed, a larger area never gives a lower score |
| DetectorFacts.ScalingUpNeverLowersConfidence | content.js:338-357 | multiplying both sides of an image by a whole factor of at least 1 never lowers its score |
| DetectorFacts.AddingCodeNeverLowersConfidence | src/content.js:88-112 | appending "code" to src never lowers the score |
| DetectorFacts.AllowListedImageIsDetected | content.js:283-297 | an admissible image with a good ratio that names a text indicator is in the ranked list, with a score in [50, 100] |
| DetectorVectors.DetectsCodeScreenshot | tests/unit-tests.js:115-118 | the test detector accepts code-screenshot.png at 800 by 400 |
| DetectorVectors.AcceptsTerminalOutput | tests/unit-tests.js:135-138 | the test detector accepts terminal-output.png at 600 by 300 |
| DetectorVectors.RejectsAvatar | tests/unit-tests.js:120-123 | avatar.jpg at 200 by 200 is rejected |
| DetectorVectors.RejectsSmall | tests/unit-tests.js:125-128 | small.png at 50 by 30 is rejected |
| DetectorVectors.RejectsLogo | tests/unit-tests.js:130-133 | company-logo.png at 300 by 100 is rejected |
| DetectorVectors.CodeScoresHigher | tests/unit-tests.js:141-149 | code-example.png scores 100 and photo.jpg scores 75 at 800 by 400 |
| DetectorVectors.LargerScoresHigher | tests/unit-tests.js:151-159 | test.png scores 80 at 1200 by 800 and 60 at 300 by 200 |
| OcrMode.BandOf | src/content.js:165-167 | exactly one band per score: high when at least 80, medium from 60 to 79, low below 60 |
| OcrMode.BandMonotone | src/content.js:165-167 | a higher score never gets a lower band |
| OcrMode.ShowOCRBanner | src/content.js:115-117 | the banner is shown on the first call and records the count; every later call leaves the state unchanged |
| OcrMode.BannerShownOnce | src/content.js:115-117 | showing the banner twice is the same as showing it once |
| OcrMode.InitializeDetection | src/content.js:249-259 | with no banner yet and at least two candidates, the candidates are recorded and the banner shows their count; otherwise nothing changes |
| OcrMode.DetectionAfterBannerIsInert | src/content.js:249-250 | once the banner is shown, detection on any later page state changes nothing |
| OcrMode.ActivateOCRMode | src/content.js:155-182 | OCR mode turns on and each detected candidate gets exactly one highlight band, matching its confidence |
| OcrMode.DeactivateOCRMode | src/content.js:185-201 | OCR mode turns off and all highlights are removed; detection state is kept |
| OcrMode.HandleEscapeKey | src/content.js:213-217 | Escape leaves OCR mode only when it is active; any other key, or Escape outside OCR mode, changes nothing |
| OcrMode.EscapeAfterActivate | src/content.js:155-217 | activating and then pressing Escape leaves OCR mode with no highlights, and a second Escape does nothing |
| OcrMode.HighlightsFollowScores | src/content.js:155-167 | after detection and activation, each highlight is the band of its candidate's recomputed confidence |
| Cleanup.CollapseWhitespace | tests/unit-tests.js:69 | the output's only whitespace is single spaces; it is empty exactly when the input is; a leading whitespace run becomes one space |
| Cleanup.CollapseMatchesReference | tests/unit-tests.js:69 | collapsing agrees with a character-by-character reference scan that drops whitespace following whitespace |
| Cleanup.CollapseKeepsText | tests/unit-tests.js:69 | collapsing keeps every non-whitespace character, in order |
| Cleanup.CollapseFixedPoint | tests/unit-tests.js:69 | a string is unchanged by collapsing exactly when its only whitespace is single spaces |
| Cleanup.CollapseIdempotent | tests/unit-tests.js:69 | collapsing twice is collapsing once |
| Cleanup.LeadingSpace | tests/unit-tests.js:70 | the leading run that trim skips fits in the input and, when it stops short of the end, stops at a non-whitespace character |
| Cleanup.LeadingSpaceIsWhitespace | tests/unit-tests.js:70 | every character of that leading run is whitespace |
| Cleanup.TrailingSpace | tests/unit-tests.js:70 | the trailing run that trim cuts fits in the input and, when it stops short of the start, stops at a non-whitespace character |
| Cleanup.TrailingSpaceIsWhitespace | tests/unit-tests.js:70 | every character of that trailing run is whitespace |
| Cleanup.Trim | tests/unit-tests.js:70 | the output has no leading or trailing whitespace; it is the part of the input that starts right after the leading whitespace run; it is empty exactly when that run covers the whole input |
| Cleanup.TrimDropsWhitespace | tests/unit-tests.js:70 | everything trim removes is whitespace |
| Cleanup.TrimEmptyIffBlank | tests/unit-tests.js:70 | trimming gives the empty string exactly when the input is whitespace-only |
| Cleanup.TrimOfTrimmed | tests/unit-tests.js:70 | a string with no leading or trailing whitespace is unchanged by trimming |
| Cleanup.TrimIdempotent | tests/unit-tests.js:70 | trimming twice is trimming once |
| Cleanup.ReplaceChar | tests/unit-tests.js:71-72 | the output has the same length, every occurrence of the replaced character becomes the replacement, and every other character is unchanged |
| Cleanup.ReplaceRoundTrip | tests/unit-tests.js:71-72 | when the replacement character does not occur in the input, replacing back restores the input |
| Cleanup.SplitCamel | tests/unit-tests.js:73 | the output has no lower-case letter directly followed by an upper-case one, and keeps the first and last characters |
| Cleanup.SplitCamelMatchesReference | tests/unit-tests.js:73 | splitting agrees with a reference that inserts a space at every lower-upper boundary of the input |
| Cleanup.SplitCamelFixedPoint | tests/unit-tests.js:73 | a string is unchanged by splitting exactly when it has no lower-upper boundary |
| Cleanup.SplitCamelIdempotent | tests/unit-tests.js:73 | splitting twice is splitting once |
| Cleanup.SplitCamelKeepsText | tests/unit-tests.js:73 | splitting only adds spaces; the non-whitespace text is unchanged |
| Cleanup.StripDisallowed | tests/unit-tests.js:74 | every output character is allowed and comes from the input |
| Cleanup.StripKeepsAllowed | tests/unit-tests.js:74 | every allowed character is kept as often as it occurs, and no disallowed character is kept |
| Cleanup.StripFixedPoint | tests/unit-tests.js:74 | the strip leaves a string unchanged exactly when all its characters are allowed |
| Cleanup.CleanUpText | tests/unit-tests.js:65-75 | a missing or empty input gives the empty string; every output character is allowed and is neither `\|` nor `0` |
| Cleanup.NormalizeShape | tests/unit-tests.js:69-73 | after the collapse, trim, replace and split steps, the text has only single spaces, no leading or trailing space, and no camelCase boundary |
| Cleanup.NormalizeEmptyIffBlank | tests/unit-tests.js:69-73 | those steps give the empty string exactly when the input is whitespace-only |
| Cleanup.CleanTextIsFixed | tests/unit-tests.js:65-75 | a non-empty text already in the cleaned shape with only allowed characters is returned unchanged, so cleaning is stable on its own outputs of that shape |
| CleanupVectors.RemovesExtraWhitespace | tests/unit-tests.js:162-165 | "hello    world   test" cleans to "hello world test" |
| CleanupVectors.AddsSpacesToCamelCase | tests/unit-tests.js:172-175 | "camelCaseExample" cleans to "camel Case Example" |
| CleanupVectors.FixesCommonOcrMistakes | tests/unit-tests.js:167-170 | "He\|\|o W0r\|d" cleans to "He IIo WOr Id", which is not the value the test expects |
| CharClass.ParseAtom | assets/libs/tesseract.js:200 | one class atom is read: a plain character stands for itself; a backslash fails only at the end of the body or before an escape form the model does not read |
| CharClass.RangeOf | assets/libs/tesseract.js:200 | a range between two literal characters fails exactly when its first end is above its second |
| CharClass.ParseRangeError | assets/libs/tesseract.js:200 | a body containing an out-of-order range `a-b` with `a > b` is rejected with that range |
| CharClass.EncodedSinglesParse | tests/unit-tests.js:74 | a list of characters written with the needed backslashes, and with no inner dash, parses back to exactly those characters |
| CharClass.WordSpaceAndSingles | tests/unit-tests.js:74 | the class `\w\s` plus a list of characters holds exactly the word characters, the whitespace and the listed characters |
| CharClassVectors.ExtensionClassRejected | assets/libs/tesseract.js:200 | the class as written is rejected, at the range from `}` to `+` |
| CharClassVectors.TestsClassKeepsAllowed | tests/unit-tests.js:74 | the class with the dash moved to the end parses, and holds exactly the characters the cleanup keeps |
| Preprocess.Scale | assets/libs/tesseract.js:149 | the scale lies in [1, 2]; it is 2 exactly when the longer side is at most 400 and 1 exactly when it is at least 800; in between, it brings the longer side to 800 |
| Preprocess.CanvasLongSide | assets/libs/tesseract.js:149-151 | the longer canvas side is twice the image's up to 400, 800 up to 799, and unchanged from 800; each canvas side lies between the image side and twice it |
| Preprocess.Gray | assets/libs/tesseract.js:164 | the gray level is a byte |
| Preprocess.GrayRounds | assets/libs/tesseract.js:164 | the gray level is the luminance 0.299R + 0.587G + 0.114B rounded to the nearest integer, halves up |
| Preprocess.EnhancedThreshold | assets/libs/tesseract.js:164-167 | a pixel turns white exactly when 299R + 587G + 114B is at least 128500, that is, when the rounded gray level exceeds 128 |
| Preprocess.EnhancedMonotone | assets/libs/tesseract.js:164-167 | a pixel that is brighter in every channel never turns black while the dimmer one turns white |
| Preprocess.Threshold | assets/libs/tesseract.js:162-173 | the loop keeps the array length and every alpha byte; it sets R, G and B of each pixel to the same value, 0 or 255, the threshold of that pixel's original colour; the result is the pixel-by-pixel reference image |
| Preprocess.ThresholdPixels | assets/libs/tesseract.js:162-173 | in the pixel-by-pixel reference image, each pixel's R, G and B hold the threshold of its original colour and its alpha is kept |
| Preprocess.ThresholdAppend | assets/libs/tesseract.js:162-173 | each pixel is thresholded independently: thresholding two buffers joined is joining their thresholds |
| Preprocess.ThresholdIdempotent | assets/libs/tesseract.js:162-173 | thresholding an already thresholded image changes nothing |
| Orchestrator.InitializeTesseract | assets/libs/tesseract.js:11-31 | an existing worker is returned unchanged and no worker is created; otherwise a worker is created, and a failure to set its parameters still leaves it stored while the error is reported |
| Orchestrator.InitializeIsStable | assets/libs/tesseract.js:12 | after a successful initialisation, any later call returns the same worker and changes nothing |
| Orchestrator.ParamsFailureIsNotRetried | assets/libs/tesseract.js:16-30 | after a parameter failure, the next call returns the half-configured worker instead of retrying |
| Orchestrator.Begin | assets/libs/tesseract.js:96-100 | a call fails with the busy message exactly when the lock is held; otherwise it takes the lock |
| Orchestrator.Finish | assets/libs/tesseract.js:102-137 | on every exit path the lock is released; at most one worker is created; an existing worker is kept; a successful result has a worker and is not blank |
| Orchestrator.ProcessImageWithOCR | assets/libs/tesseract.js:95-138 | when the lock is held, the call fails with the busy message and changes nothing; otherwise the lock is free afterwards; a successful result is never blank |
| Orchestrator.SingleFlight | assets/libs/tesseract.js:96-137 | a second request while one holds the lock is refused with the busy message and leaves the state unchanged; once the first finishes, the next request may start |
| Orchestrator.NoTextExactlyWhenBlank | assets/libs/tesseract.js:110-130 | with auto-enhance on or off, when preprocessing (if on) and recognition succeed, the call fails with "No text found in image" exactly when the cleaned text of the recognised image is blank, and otherwise returns that cleaned text |
| Orchestrator.EnhancedImageIsRecognized | assets/libs/tesseract.js:110-117 | with auto-enhance on, a preprocessing error is the call's error, and recognition runs on the enhanced image |
| Orchestrator.Respond | assets/libs/tesseract.js:78-91 | the reply is marked successful exactly when processing succeeded, and carries the text on success and the error message on failure |
| Orchestrator.Terminate | assets/libs/tesseract.js:223-228 | suspending drops the worker exactly when there is one and its terminate resolves; a rejected terminate keeps the same worker; the lock and creation count are left alone |
| Orchestrator.FailedTerminateKeepsWorker | assets/libs/tesseract.js:11-14 | after a rejected terminate, the next initialisation returns the old worker and changes nothing |
| Orchestrator.TerminateThenInitialize | assets/libs/tesseract.js:11-31 | after suspension, the next initialisation creates a fresh worker |
| Orchestrator.UpdateStats | assets/libs/tesseract.js:204-220 | a successful storage round adds one to processedCount, and one to successCount only on success, so successCount ≤ processedCount is kept; a storage failure changes nothing |
| Orchestrator.OnExtractClicked | assets/libs/tesseract.js:49-75 | a menu click counts as a success exactly when the page replies with success and a text; a missing reply, a failure reply, or a success reply without a text (whose logging throws into the `catch`) counts as a failure |
| Orchestrator.ClickSuccessCounted | assets/libs/tesseract.js:60-72 | with working storage, a click always adds one to processedCount, and adds one to successCount exactly when the reply is a success carrying a text |
| Orchestrator.StatsCount | assets/libs/tesseract.js:211-214 | after any sequence of clicks with working storage, processedCount is the number of clicks and successCount the number of successes, never more |
| Geometry.Place | content.js:572-592 | each span edge, scaled back by the natural size, equals the matching box edge scaled by the displayed size |
| Geometry.PlaceRoundTrip | content.js:572-592 | with positive sizes, mapping the placement back through the inverse scale recovers the box |
| Geometry.NaturalSizeIsIdentity | content.js:572-592 | at natural size, a span sits exactly on its box |
| Geometry.PlacedInsideDisplay | content.js:572-592 | a box inside the image is placed inside the displayed image |
| Geometry.PlaceKeepsOrder | content.js:572-592 | a box left of or above another stays left of or above it after placement |
| Selection.StartSelection | content.js:615-634 | a press makes the selection exactly that word and starts selecting |
| Selection.ContinueSelection | content.js:636-652 | entering a word adds it while selecting, and does nothing otherwise |
| Selection.EndSelection | content.js:654-656 | a release stops selecting and keeps the selection |
| Selection.ClearSelection | content.js:758-764 | clearing empties the selection |
| Selection.SelectAll | content.js:796-803 | select-all makes the selection exactly the indices below the word count |
| Selection.SizeIsLength | content.js:693 | the count shown, `selectedWords.size`, is the number of entries of the selection |
| Selection.ToolbarFor | content.js:690-705 | "Copy Selection" is disabled exactly when nothing is selected, and highlighted exactly when it is enabled |
| Selection.ToolbarLabelReadsCount | content.js:693-697 | the toolbar text starts with the count in decimal, which reads back as the count, and says "words" exactly when the count is not one |
| Selection.InitialToolbar | content.js:666-667 | the first toolbar reads "0 words selected" with "Copy Selection" disabled |
| Selection.SortAscending | content.js:735 | sorting keeps the length and the members; a selection with no repeats comes out strictly increasing |
| Selection.SelectedTextIsReference | content.js:735-741 | the copied text is the texts of the selected words, in document order, with blank ones dropped, joined by single spaces |
| Selection.SelectedTextIgnoresOrder | content.js:735 | two selections with the same members copy the same text, whatever order the words were picked in |
| Selection.SelectedTextBlankIff | content.js:738-743 | the copied text is blank exactly when every selected word is blank |
| Selection.CopyExample | content.js:732-748 | words "Hello", a blank word and "world", picked in the order 2, 0, 1, copy as "Hello world" |
| Selection.CopySelected | content.js:732-748 | an empty selection does nothing; text is copied exactly when the write succeeds and the selection's text is not blank; the copied text is the selection's text, and copying closes the overlay |
| Selection.RemoveOverlay | content.js:806-831 | closing removes the overlay, empties the selection and stops selecting |
| Selection.CreateOverlay | content.js:549-551 | opening replaces any previous overlay with the new result and an empty selection |
| Selection.OnKeyDown | content.js:780-793 | without an overlay, keys are ignored; Escape closes it; Enter or Cmd+C copies the selection; Cmd+A selects every word |
| Selection.Handle | content.js:596-605 | every handler keeps the selection's indices within the word spans, and keeps no selection without an overlay; without an overlay, nothing happens; a copy closes the overlay; a click outside it or on Close closes it; a click inside leaves it; Copy All copies the whole text when there is one and the clipboard accepts it, and otherwise leaves the overlay as it is |
| Selection.DragSelects | content.js:615-656 | a press on a word, drags over further words and a release select exactly the words touched, and stop selecting |
| Selection.HoverWithoutPressIsInert | content.js:636-637 | entering a word without a press changes nothing |
| Selection.ExtractTextWithBounds | content.js:173-198 | a failed reply reports its error; the overlay is shown exactly when the reply succeeds with words and an image size, and then holds those words and the reply's text, present or not; words without an image size end in the overlay builder throwing; a successful reply without words copies its text exactly when it has one and the clipboard accepts it, and otherwise reports the clipboard failure |
| Selection.TextlessOverlayKeepsCopyAll | content.js:751-755 | an overlay opened from a reply without text stays open, copying nothing, when Copy All is clicked |
| Selection.Layout | content.js:566-592 | placements exist exactly when the natural size is positive, and then each word is placed by `Geometry.Place` |
| Messaging.Receive | assets/libs/tesseract.js:82-86 | the page receives exactly the fields the responder sets; words and image size are absent |
| Messaging.OverlayIsUnreachable | content.js:173-188 | for any background reply, the page never shows the overlay; on success it copies the text, or reports the clipboard failure; on failure it reports the error |
| Messaging.PageCopiesProcessedText | assets/libs/tesseract.js:78-91 | the page copies text exactly when processing succeeded and the clipboard accepts it, and the text is the processed text |

## Left out

- Browser plumbing is not modelled. This covers element creation, CSS and theme injection, the banner markup, notifications, toolbar positioning (content.js:708-729), context-menu creation and `onInstalled`. Only the state these steps change is modelled.
- Storage and the clipboard are not modelled. `chrome.storage` reads and writes reduce to one `storageOk` flag. A clipboard write reduces to a `clipboardOk` flag; a failed write leaves the overlay open, as the thrown error does.
- Timers and observers are not modelled: the MutationObserver re-detection, the banner's auto-dismiss and `waitForTesseract` polling.
- popup.js, popup/popup.js and background.js are not part of this model. They hold the settings UI and a duplicate of `updateStats`.
- The path from content.js:126-159 and 226-262 is not modelled. There, `extractTextFromImage` creates its own Tesseract worker in the page and copies the trimmed text. This is engine plumbing outside the background orchestration.
- Cross-context messaging is reduced to the reply values. The code has no timeout and no ping.
- The OCR engine is not modelled. Worker creation, recognition and preprocessing are parameters of `Orchestrator.Effects`. So are canvas decode, `drawImage` resampling and `toDataURL`.
- Preprocessing is modelled only as a result. The background script builds `Image` and `document` objects and has no `onerror`, so it may throw or never settle. A preprocessing step that never settles is not modelled.
- Preprocess.Threshold works on an immutable byte sequence rather than the `Uint8ClampedArray` in place. Fractional canvas sizes are rounded down as the canvas does.
- Floating point is not modelled. Luminance uses the exact integer form, so float rounding at the .5 boundary is ignored. Geometry and ratios use exact reals.
- Preprocess.CanvasLongSide: the scale 800 / side is exact here. In IEEE doubles, some long sides between 401 and 799 give a canvas one pixel short; for example 539 gives 799 instead of 800.
- Preprocess.EnhancedThreshold: luminance is exact here. In doubles, some RGB triples land just below a .5 boundary; for example (72, 170, 63) gives 128.49999999999997, which rounds to 128 and so to black, where the exact value 128.5 rounds to 129 and gives white.
- Selection.ExtractTextWithBounds: `OverlayThrew` stands for the page's failure reply, whose TypeError message is not modelled. The empty, listener-less overlay left as `currentOverlay` (content.js:565-569) is not carried into `Session`; the next `createTextSelectionOverlay` removes it. When the reply has no text, `navigator.clipboard.writeText(undefined)` may already have put the string "undefined" on the clipboard before the log line throws; the model records no copy then.
- Concurrency is not modelled. The install-time `initializeTesseract` (assets/libs/tesseract.js:43) can interleave with the one in `processImageWithOCR` and create two workers. The model treats each call as atomic. `Orchestrator.InitializeIsStable` is therefore stated for sequential calls only.
- Orchestrator.Finish, Orchestrator.ProcessImageWithOCR and Messaging: model the background script with the character class at assets/libs/tesseract.js:200 replaced by that of tests/unit-tests.js:74 (`Cleanup.CleanUpText`). As written, the script does not load at all (see "## Findings"), so none of its handlers run.
- Orchestrator.ProcessImageWithOCR: the contract does not fix which engine error is reported on failure beyond the cases `Orchestrator.EnhancedImageIsRecognized` and `Orchestrator.NoTextExactlyWhenBlank` state, because engine errors are opaque parameters.
- Text: `toLowerCase` is modelled for ASCII letters only. `\s` is the full ECMAScript whitespace list. `\w` and `[a-z]`/`[A-Z]` are ASCII, as in the source.
- CharClass.ParseAtom: reports the escape forms `\c`, `\x`, `\u` and decimal escapes as not modelled rather than parsing them. Neither class in the repository uses them.
- Selection.Layout: gives no placements when the natural width or height is not positive, where the browser would compute `Infinity` or `NaN` pixel styles. The `lineHeight` style is not modelled.
- The document click and key listeners are modelled as active exactly while an overlay is open. The code adds and removes them together with the overlay.

## Findings

| source | as written | input that shows it | evidently intended | confidence | as-written member | corrected member |
|---|---|---|---|---|---|---|
| assets/libs/tesseract.js:200 | the class `` [^\w\s.,!?;:'"()[\]{}-+=@#$%^&*~`<>/\\] `` puts `-` between `}` and `+`, making a range from U+007D down to U+002B; a JavaScript engine rejects the regular expression literal with a SyntaxError when the background script is parsed, so none of that script loads | the script text itself, at the range `}-+` | `-` as a literal dash, as in tests/unit-tests.js:74, where it is the last character of the class | not executed | CharClassVectors.ExtensionClassRejected | CharClassVectors.TestsClassKeepsAllowed |
