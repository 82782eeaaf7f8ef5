/** The background side of assets/libs/tesseract.js: the single-flight lock
    `isProcessing`, the lazily created worker, the OCR pipeline of
    `processImageWithOCR`, the reply sent to the page, and the statistics
    counters. The engine and the image preprocessing are supplied as
    outcomes by the caller; nothing here talks to Tesseract. */
module Orchestrator {
  import opened Wrappers
  import opened Text
  import Cleanup

  /** A Tesseract worker; `whitelisted` records whether `setParameters` succeeded on it. */
  datatype Worker = Worker(id: nat, whitelisted: bool)

  /** The module-level state: the lock, the worker, and how many workers were created so far. */
  datatype Engine = Engine(isProcessing: bool, worker: Option<Worker>, created: nat)

  const Fresh := Engine(false, None, 0)

  /** What `Tesseract.createWorker` and `worker.setParameters` do on this call. */
  datatype InitOutcome = InitOk | CreateFails(message: string) | ParamsFail(message: string)

  /** `initializeTesseract`: an existing worker is returned as it is; otherwise
      a worker is created and configured. A failing `setParameters` throws
      after the worker was already stored. */
  function InitializeTesseract(e: Engine, outcome: InitOutcome): (r: (Engine, Result<Worker, string>))
    ensures e.worker.Some? ==> r == (e, Success(e.worker.value))
    ensures e.worker.None? && outcome == InitOk ==>
      r.0 == e.(worker := Some(Worker(e.created, true)), created := e.created + 1)
      && r.1 == Success(Worker(e.created, true))
    ensures e.worker.None? && outcome.CreateFails? ==> r == (e, Failure(outcome.message))
    ensures e.worker.None? && outcome.ParamsFail? ==>
      r.0 == e.(worker := Some(Worker(e.created, false)), created := e.created + 1)
      && r.1 == Failure(outcome.message)
  {
    if e.worker.Some? then (e, Success(e.worker.value))
    else
      match outcome
      case CreateFails(m) => (e, Failure(m))
      case ParamsFail(m) =>
        (e.(worker := Some(Worker(e.created, false)), created := e.created + 1), Failure(m))
      case InitOk =>
        var w := Worker(e.created, true);
        (e.(worker := Some(w), created := e.created + 1), Success(w))
  }

  /** Once a worker exists, no outcome creates another: the singleton is stable. */
  lemma InitializeIsStable(e: Engine, o1: InitOutcome, o2: InitOutcome)
    ensures var (e1, r1) := InitializeTesseract(e, o1);
      r1.Success? ==> InitializeTesseract(e1, o2) == (e1, r1)
  {
  }

  /** A failed `setParameters` leaves its worker behind, and the next call hands
      that worker out without the character whitelist. */
  lemma ParamsFailureIsNotRetried(e: Engine, m: string, o: InitOutcome)
    requires e.worker.None?
    ensures var (e1, _) := InitializeTesseract(e, ParamsFail(m));
      InitializeTesseract(e1, o).1 == Success(Worker(e.created, false))
  {
  }

  /** What Tesseract's `recognize` reports. */
  datatype Recognition = Recognition(text: Option<string>, confidence: int)

  datatype Settings = Settings(autoEnhance: bool)

  /** The effects one call depends on: worker creation, `preprocessImage`
      (which can only fail by throwing) and `worker.recognize`. */
  datatype Effects<!I> = Effects(
    init: InitOutcome,
    enhance: I -> Result<I, string>,
    recognize: (Worker, I) -> Result<Recognition, string>)

  const BusyMessage: string := "Another image is currently being processed. Please wait."
  const NoTextMessage: string := "No text found in image"

  /** Lines 96-100: fail fast when the lock is held, otherwise take it. */
  function Begin(e: Engine): (r: Result<Engine, string>)
    ensures e.isProcessing <==> r == Failure(BusyMessage)
    ensures r.Success? ==> r.value == e.(isProcessing := true)
  {
    if e.isProcessing then Failure(BusyMessage) else Success(e.(isProcessing := true))
  }

  /** Lines 102-137, run while holding the lock: initialize, optionally
      preprocess, recognize, clean up, reject a blank text; the `finally`
      releases the lock on every path. The clean-up is `Cleanup.CleanUpText`,
      whose character class is the one of tests/unit-tests.js:74: the class
      written at line 200 does not parse (`CharClassVectors.ExtensionClassRejected`). */
  function Finish<I>(e: Engine, image: I, settings: Settings, fx: Effects<I>): (r: (Engine, Result<string, string>))
    ensures !r.0.isProcessing
    ensures r.0.created <= e.created + 1
    ensures e.worker.Some? ==> r.0.worker == e.worker
    ensures r.1.Success? ==> r.0.worker.Some? && !IsBlank(r.1.value)
  {
    var (e1, w) := InitializeTesseract(e, fx.init);
    var released := e1.(isProcessing := false);
    match w
    case Failure(m) => (released, Failure(m))
    case Success(worker) =>
      var input := if settings.autoEnhance then fx.enhance(image) else Success(image);
      match input
      case Failure(m) => (released, Failure(m))
      case Success(img) =>
        match fx.recognize(worker, img)
        case Failure(m) => (released, Failure(m))
        case Success(rec) =>
          var cleaned := Cleanup.CleanUpText(rec.text);
          Cleanup.TrimEmptyIffBlank(cleaned);
          if Cleanup.Trim(cleaned) == [] then (released, Failure(NoTextMessage))
          else (released, Success(cleaned))
  }

  /** `processImageWithOCR`: the new engine state and the text or the error message. */
  function ProcessImageWithOCR<I>(e: Engine, image: I, settings: Settings, fx: Effects<I>): (r: (Engine, Result<string, string>))
    ensures e.isProcessing ==> r == (e, Failure(BusyMessage))
    ensures !r.0.isProcessing || e.isProcessing
    ensures r.0.worker.None? ==> r.0.created == e.created
    ensures r.1.Success? ==> !IsBlank(r.1.value)
  {
    match Begin(e)
    case Failure(m) => (e, Failure(m))
    case Success(held) => Finish(held, image, settings, fx)
  }

  /** A call that arrives while another one holds the lock is rejected and
      changes nothing, whatever its inputs; once the first call has finished
      the lock is free again. */
  lemma SingleFlight<I>(e: Engine, image: I, settings: Settings, fx: Effects<I>,
                        image': I, settings': Settings, fx': Effects<I>)
    requires !e.isProcessing
    ensures var held := Begin(e).value;
      && ProcessImageWithOCR(held, image', settings', fx') == (held, Failure(BusyMessage))
      && !Finish(held, image, settings, fx).0.isProcessing
      && Begin(Finish(held, image, settings, fx).0).Success?
  {
  }

  /** When the engine answers, the call returns the cleaned text, or the
      "no text" error exactly when that text is blank, with auto-enhance on
      (the engine then reads the preprocessed image) or off. */
  lemma NoTextExactlyWhenBlank<I>(e: Engine, image: I, settings: Settings, fx: Effects<I>, w: Worker)
    requires !e.isProcessing
    requires InitializeTesseract(e.(isProcessing := true), fx.init).1 == Success(w)
    requires settings.autoEnhance ==> fx.enhance(image).Success?
    requires var img := if settings.autoEnhance then fx.enhance(image).value else image;
      fx.recognize(w, img).Success?
    ensures var img := if settings.autoEnhance then fx.enhance(image).value else image;
      var cleaned := Cleanup.CleanUpText(fx.recognize(w, img).value.text);
      ProcessImageWithOCR(e, image, settings, fx).1
        == if IsBlank(cleaned) then Failure(NoTextMessage) else Success(cleaned)
  {
    var img := if settings.autoEnhance then fx.enhance(image).value else image;
    var cleaned := Cleanup.CleanUpText(fx.recognize(w, img).value.text);
    Cleanup.TrimEmptyIffBlank(cleaned);
  }

  /** With auto-enhance on, the engine sees the preprocessed image, and a
      preprocessing error is the call's error. */
  lemma EnhancedImageIsRecognized<I>(e: Engine, image: I, fx: Effects<I>, w: Worker)
    requires !e.isProcessing
    requires InitializeTesseract(e.(isProcessing := true), fx.init).1 == Success(w)
    ensures var r := ProcessImageWithOCR(e, image, Settings(true), fx).1;
      match fx.enhance(image)
      case Failure(m) => r == Failure(m)
      case Success(img) =>
        fx.recognize(w, img).Failure? ==> r == Failure(fx.recognize(w, img).error)
  {
  }

  /** The reply sent back by the `processImage` listener (lines 78-91). */
  datatype Reply = Reply(success: bool, text: Option<string>, error: Option<string>)

  function Respond(r: Result<string, string>): (reply: Reply)
    ensures reply.success <==> r.Success?
    ensures r.Success? ==> reply.text == Some(r.value) && reply.error.None?
    ensures r.Failure? ==> reply.error == Some(r.error) && reply.text.None?
  {
    match r
    case Success(t) => Reply(true, Some(t), None)
    case Failure(m) => Reply(false, None, Some(m))
  }

  /** The suspend handler: `worker` is cleared only once `worker.terminate()`
      resolves (`terminated`); a rejected terminate leaves the worker in place. */
  function Terminate(e: Engine, terminated: bool): (e': Engine)
    ensures e'.created == e.created && e'.isProcessing == e.isProcessing
    ensures e'.worker.None? <==> e.worker.None? || terminated
    ensures e'.worker.Some? ==> e'.worker == e.worker
  {
    if e.worker.Some? && terminated then e.(worker := None) else e
  }

  /** After a completed suspension, the next initialization creates a new worker. */
  lemma TerminateThenInitialize(e: Engine)
    ensures var (e1, r) := InitializeTesseract(Terminate(e, true), InitOk);
      r == Success(Worker(e.created, true)) && e1.created == e.created + 1
  {
  }

  /** After a rejected terminate, the next initialization hands back the old worker. */
  lemma FailedTerminateKeepsWorker(e: Engine, outcome: InitOutcome)
    requires e.worker.Some?
    ensures var (e1, r) := InitializeTesseract(Terminate(e, false), outcome);
      r == Success(e.worker.value) && e1 == e
  {
  }

  // ---------------------------------------------------------------------
  // updateStats

  datatype Stats = Stats(processedCount: nat, successCount: nat)

  /** `updateStats(success)`: when storage fails the stored counters stay as they were. */
  function UpdateStats(s: Stats, success: bool, storageOk: bool): (t: Stats)
    ensures storageOk ==> t.processedCount == s.processedCount + 1
    ensures storageOk ==> t.successCount == s.successCount + (if success then 1 else 0)
    ensures !storageOk ==> t == s
    ensures s.successCount <= s.processedCount ==> t.successCount <= t.processedCount
  {
    if !storageOk then s
    else Stats(s.processedCount + 1, s.successCount + (if success then 1 else 0))
  }

  /** The context-menu handler (lines 49-75): a reply that is missing (the page
      did not answer) counts as a failure, and so does a successful reply
      without a text, whose logging throws into the `catch`. */
  function OnExtractClicked(s: Stats, reply: Option<Reply>, storageOk: bool): (t: Stats)
    ensures t == UpdateStats(s, reply.Some? && reply.value.success && reply.value.text.Some?, storageOk)
  {
    match reply
    case None => UpdateStats(s, false, storageOk)
    case Some(r) =>
      if r.success && r.text.None? then UpdateStats(s, false, storageOk)
      else UpdateStats(s, r.success, storageOk)
  }

  /** A click counts as a success exactly when the page answers with success
      and a text, and storage works. */
  lemma ClickSuccessCounted(s: Stats, reply: Option<Reply>, storageOk: bool)
    requires storageOk
    ensures OnExtractClicked(s, reply, storageOk).successCount == s.successCount + 1
      <==> reply.Some? && reply.value.success && reply.value.text.Some?
    ensures OnExtractClicked(s, reply, storageOk).processedCount == s.processedCount + 1
  {
  }

  function CountTrue(outcomes: seq<bool>): nat {
    if outcomes == [] then 0
    else CountTrue(outcomes[..|outcomes| - 1]) + (if outcomes[|outcomes| - 1] then 1 else 0)
  }

  /** The counters after a run of extractions, each stored successfully. */
  function StatsAfter(outcomes: seq<bool>): Stats {
    if outcomes == [] then Stats(0, 0)
    else UpdateStats(StatsAfter(outcomes[..|outcomes| - 1]), outcomes[|outcomes| - 1], true)
  }

  /** Starting from zero, the counters are the number of extractions and the
      number of successful ones. */
  lemma {:induction false} StatsCount(outcomes: seq<bool>)
    ensures StatsAfter(outcomes) == Stats(|outcomes|, CountTrue(outcomes))
    ensures CountTrue(outcomes) <= |outcomes|
    decreases |outcomes|
  {
    if outcomes != [] {
      StatsCount(outcomes[..|outcomes| - 1]);
    }
  }
}
