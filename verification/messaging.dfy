/** The `processImage` round trip between content.js and the background
    script of assets/libs/tesseract.js: what the page receives is the
    background's reply with every other field `undefined`. */
module Messaging {
  import opened Wrappers
  import Orchestrator
  import Selection

  /** The background's `{success, text}` or `{success, error}` object as the page reads it. */
  function Receive(reply: Orchestrator.Reply): (p: Selection.PageReply)
    ensures p.words.None? && p.imageSize.None?
    ensures p.success == reply.success && p.text == reply.text && p.error == reply.error
  {
    Selection.PageReply(reply.success, reply.text, reply.error, None, None)
  }

  /** As wired, the selection overlay is never shown: a successful extraction
      copies the recognised text straight away (or reports the clipboard's
      failure), and a failed one reports the background's error message. */
  lemma OverlayIsUnreachable(r: Result<string, string>, clipboardOk: bool)
    ensures var x := Selection.ExtractTextWithBounds(Receive(Orchestrator.Respond(r)), clipboardOk);
      && !x.ShowOverlay?
      && (r.Success? && clipboardOk ==> x == Selection.CopyText(r.value))
      && (r.Success? && !clipboardOk ==> x == Selection.Failed(Some(Selection.CopyFailed)))
      && (r.Failure? ==> x == Selection.Failed(Some(r.error)))
  {
  }

  /** End to end: whatever the engine and the lock do, the page ends up
      copying exactly the text `processImageWithOCR` returned, provided the
      clipboard accepts it. */
  lemma PageCopiesProcessedText<I>(e: Orchestrator.Engine, image: I, settings: Orchestrator.Settings,
                                   fx: Orchestrator.Effects<I>, clipboardOk: bool)
    ensures var (_, r) := Orchestrator.ProcessImageWithOCR(e, image, settings, fx);
      var x := Selection.ExtractTextWithBounds(Receive(Orchestrator.Respond(r)), clipboardOk);
      (r.Success? && clipboardOk <==> x.CopyText?) && (x.CopyText? ==> x.text == r.value)
  {
    var (_, r) := Orchestrator.ProcessImageWithOCR(e, image, settings, fx);
    OverlayIsUnreachable(r, clipboardOk);
  }
}
