/** The text-selection overlay of content.js: the `selectedWords` set and the
    `isSelecting` flag driven by the word spans' mouse handlers, the toolbar's
    countText, the text that "Copy Selection" puts on the clipboard, and the
    document-level click and key handlers that close the overlay. The DOM is
    reduced to the OCR result the overlay was built from. */
module Selection {
  import opened Wrappers
  import opened Text
  import Cleanup
  import Geometry

  /** One recognised word: its text (`dataset.originalText`) and its box. */
  datatype Word = Word(text: string, bbox: Geometry.Box)

  /** The OCR result the overlay is built from; `text` is the toolbar's
      `fullText`, `undefined` when the reply carried none. */
  datatype OcrResult = OcrResult(text: Option<string>, words: seq<Word>, imageSize: Geometry.Size)

  // ---------------------------------------------------------------------
  // The selection state

  /** `selectedWords` and `isSelecting`. A JavaScript `Set` iterates in
      insertion order, so the set is kept as the sequence of its members in
      the order they were added. */
  datatype Selection = Selection(order: seq<nat>, isSelecting: bool)

  const NoSelection := Selection([], false)

  predicate Distinct(xs: seq<nat>) {
    forall i, j :: 0 <= i < j < |xs| ==> xs[i] != xs[j]
  }

  /** The members of a sequence, as a set. */
  function Elems(xs: seq<nat>): set<nat> {
    set x | x in xs
  }

  function Members(s: Selection): set<nat> {
    Elems(s.order)
  }

  /** `Set.prototype.add`: a member already present keeps its place. */
  function Add(xs: seq<nat>, i: nat): (r: seq<nat>)
    ensures forall x :: x in r <==> x in xs || x == i
    ensures Distinct(xs) ==> Distinct(r)
  {
    if i in xs then xs else xs + [i]
  }

  /** `startTextSelection`: the pressed word becomes the whole selection. */
  function StartSelection(s: Selection, i: nat): (t: Selection)
    ensures Members(t) == {i} && t.isSelecting
    ensures Distinct(t.order)
  {
    Selection(Add([], i), true)
  }

  /** `continueTextSelection`: while dragging, an entered word joins the selection. */
  function ContinueSelection(s: Selection, i: nat): (t: Selection)
    ensures s.isSelecting ==> Members(t) == Members(s) + {i} && t.isSelecting
    ensures !s.isSelecting ==> t == s
    ensures Distinct(s.order) ==> Distinct(t.order)
  {
    if !s.isSelecting then s else s.(order := Add(s.order, i))
  }

  /** `endTextSelection`. */
  function EndSelection(s: Selection): (t: Selection)
    ensures !t.isSelecting && t.order == s.order
  {
    s.(isSelecting := false)
  }

  /** `clearSelection`: empties the set and leaves `isSelecting` alone. */
  function ClearSelection(s: Selection): (t: Selection)
    ensures Members(t) == {} && t.isSelecting == s.isSelecting
  {
    s.(order := [])
  }

  /** The indices `0 .. n - 1`, ascending. */
  function Upto(n: nat): (r: seq<nat>)
    ensures |r| == n
    ensures forall k :: 0 <= k < n ==> r[k] == k
  {
    if n == 0 then [] else Upto(n - 1) + [n - 1]
  }

  /** `selectAllWords`: every word span, in document order. */
  function SelectAll(s: Selection, n: nat): (t: Selection)
    ensures forall x: nat :: x in Members(t) <==> x < n
    ensures t.isSelecting == s.isSelecting
    ensures Distinct(t.order)
  {
    var r := Upto(n);
    assert forall x: nat :: x in r <==> x < n by {
      forall x: nat ensures x in r <==> x < n {
        if x < n { assert r[x] == x; }
      }
    }
    s.(order := r)
  }

  /** A selection with no repeated member has as many members as entries:
      the toolbar's `selectedWords.size` is the length of the order. */
  lemma {:induction false} SizeIsLength(xs: seq<nat>)
    requires Distinct(xs)
    ensures |Elems(xs)| == |xs|
  {
    if xs != [] {
      var t := xs[..|xs| - 1];
      var last := xs[|xs| - 1];
      assert xs == t + [last];
      assert Distinct(t);
      SizeIsLength(t);
      assert last !in t;
      assert Elems(xs) == Elems(t) + {last};
    }
  }

  // ---------------------------------------------------------------------
  // The toolbar

  /** The toolbar after `updateSelectionToolbar`: the count countText and the state of "Copy Selection". */
  datatype Toolbar = Toolbar(countText: string, copyDisabled: bool, copyPrimary: bool)

  function ToolbarFor(count: nat): (t: Toolbar)
    ensures t.copyDisabled <==> count == 0
    ensures t.copyPrimary <==> !t.copyDisabled
  {
    Toolbar(Decimal(count) + " word" + (if count != 1 then "s" else "") + " selected",
            count == 0, count > 0)
  }

  /** The countText reads back as the count, and uses the plural exactly when the count is not one. */
  lemma ToolbarLabelReadsCount(count: nat)
    ensures var countText := ToolbarFor(count).countText;
      var d := Decimal(count);
      && countText[..|d|] == d && ParseDecimal(countText[..|d|]) == count
      && (countText[|d|..] == " words selected" <==> count != 1)
      && (countText[|d|..] == " word selected" <==> count == 1)
  {
    DecimalRoundTrip(count);
    CountTextSplits(count);
    PluralSuffix(count);
  }

  lemma CountTextSplits(count: nat)
    ensures var countText := ToolbarFor(count).countText;
      var d := Decimal(count);
      && countText[..|d|] == d
      && countText[|d|..] == " word" + (if count != 1 then "s" else "") + " selected"
  {
    var d := Decimal(count);
    var countText := ToolbarFor(count).countText;
    assert countText == d + (" word" + (if count != 1 then "s" else "") + " selected");
  }

  /** The two suffixes differ, so the suffix tells the plural apart. */
  lemma PluralSuffix(count: nat)
    ensures var t := " word" + (if count != 1 then "s" else "") + " selected";
      && (t == " words selected" <==> count != 1)
      && (t == " word selected" <==> count == 1)
  {
    var t := " word" + (if count != 1 then "s" else "") + " selected";
    if count != 1 {
      assert t == " words selected";
      assert |t| != |" word selected"|;
    } else {
      assert t == " word selected";
      assert |t| != |" words selected"|;
    }
  }

  /** The toolbar as first drawn by `createSelectionToolbar`. */
  lemma InitialToolbar()
    ensures ToolbarFor(0) == Toolbar("0 words selected", true, false)
  {
  }

  // ---------------------------------------------------------------------
  // Copy Selection

  predicate Increasing(xs: seq<nat>) {
    forall i, j :: 0 <= i < j < |xs| ==> xs[i] < xs[j]
  }

  function InsertAscending(x: nat, xs: seq<nat>): (r: seq<nat>)
    ensures |r| == |xs| + 1
    ensures forall y :: y in r <==> y == x || y in xs
  {
    if xs == [] then [x]
    else if x <= xs[0] then [x] + xs
    else [xs[0]] + InsertAscending(x, xs[1..])
  }

  lemma {:induction false} InsertKeepsIncreasing(x: nat, xs: seq<nat>)
    requires Increasing(xs) && x !in xs
    ensures Increasing(InsertAscending(x, xs))
  {
    if xs != [] && x > xs[0] {
      var rest := InsertAscending(x, xs[1..]);
      InsertKeepsIncreasing(x, xs[1..]);
      forall j | 0 <= j < |rest| ensures xs[0] < rest[j] {
        assert rest[j] in rest;
        if rest[j] != x {
          var m :| 0 <= m < |xs[1..]| && xs[1..][m] == rest[j];
          assert xs[0] < xs[m + 1];
        }
      }
    }
  }

  /** `Array.from(selectedWords).sort((a, b) => a - b)`. */
  function SortAscending(xs: seq<nat>): (r: seq<nat>)
    ensures |r| == |xs|
    ensures forall y :: y in r <==> y in xs
    ensures Distinct(xs) ==> Increasing(r)
  {
    if xs == [] then []
    else
      var rest := SortAscending(xs[1..]);
      assert Distinct(xs) ==> xs[0] !in xs[1..];
      if Distinct(xs) then
        InsertKeepsIncreasing(xs[0], rest);
        InsertAscending(xs[0], rest)
      else InsertAscending(xs[0], rest)
  }

  /** `wordElements[index]?.dataset.originalText || ''`. */
  function Lookup(words: seq<Word>, i: nat): string {
    if i < |words| then words[i].text else ""
  }

  /** The looked-up texts of the indices, in order, less those that `trim()`
      empties (a string trims to empty exactly when it is blank, by
      `Cleanup.TrimEmptyIffBlank`). */
  function Picked(words: seq<Word>, idx: seq<nat>): seq<string> {
    if idx == [] then []
    else
      var t := Lookup(words, idx[0]);
      (if !IsBlank(t) then [t] else []) + Picked(words, idx[1..])
  }

  /** The string `copySelectedText` builds from the current selection. */
  function SelectedText(words: seq<Word>, order: seq<nat>): string {
    Join(Picked(words, SortAscending(order)), " ")
  }

  /** The reference reading: walk the words in document order from `k` and
      keep each one that is selected and not blank. */
  function Kept(words: seq<Word>, chosen: set<nat>, k: nat): seq<string>
    decreases |words| - k
  {
    if k >= |words| then []
    else (if k in chosen && !IsBlank(words[k].text) then [words[k].text] else []) + Kept(words, chosen, k + 1)
  }

  lemma {:induction false} KeptDependsOnlyOnLaterMembers(words: seq<Word>, a: set<nat>, b: set<nat>, k: nat)
    requires forall x :: x >= k ==> (x in a <==> x in b)
    ensures Kept(words, a, k) == Kept(words, b, k)
    decreases |words| - k
  {
    if k < |words| {
      KeptDependsOnlyOnLaterMembers(words, a, b, k + 1);
    }
  }

  /** In an increasing sequence every later entry exceeds the first. */
  lemma TailAbove(idx: seq<nat>)
    requires Increasing(idx) && idx != []
    ensures Increasing(idx[1..])
    ensures forall x :: x in idx[1..] ==> x > idx[0]
  {
    forall x | x in idx[1..] ensures x > idx[0] {
      var j :| 0 <= j < |idx[1..]| && idx[1..][j] == x;
      assert idx[0] < idx[j + 1];
    }
  }

  /** Indices past the last word look up nothing and contribute nothing. */
  lemma {:induction false} PickedPastEnd(words: seq<Word>, idx: seq<nat>)
    requires forall x :: x in idx ==> x >= |words|
    ensures Picked(words, idx) == []
  {
    if idx != [] {
      assert idx[0] in idx;
      assert Lookup(words, idx[0]) == "";
      assert forall x :: x in idx[1..] ==> x in idx;
      PickedPastEnd(words, idx[1..]);
    }
  }

  lemma PickedHit(words: seq<Word>, idx: seq<nat>, k: nat)
    requires k < |words| && Increasing(idx) && idx != [] && idx[0] == k
    requires Picked(words, idx[1..]) == Kept(words, Elems(idx[1..]), k + 1)
    ensures Picked(words, idx) == Kept(words, Elems(idx), k)
  {
    TailAbove(idx);
    KeptDependsOnlyOnLaterMembers(words, Elems(idx[1..]), Elems(idx), k + 1);
    assert k in Elems(idx);
  }

  lemma PickedMiss(words: seq<Word>, idx: seq<nat>, k: nat)
    requires k < |words| && k !in idx
    requires Picked(words, idx) == Kept(words, Elems(idx), k + 1)
    ensures Picked(words, idx) == Kept(words, Elems(idx), k)
  {
    assert k !in Elems(idx);
  }

  /** An increasing sequence that starts above `k` lies above `k`. */
  lemma AllAbove(idx: seq<nat>, k: nat)
    requires Increasing(idx) && idx != [] && idx[0] > k
    ensures forall x :: x in idx ==> x > k
  {
    forall x | x in idx ensures x > k {
      var j :| 0 <= j < |idx| && idx[j] == x;
      assert j == 0 || idx[0] < idx[j];
    }
  }

  lemma {:induction false} PickedIsKept(words: seq<Word>, idx: seq<nat>, k: nat)
    requires k <= |words|
    requires Increasing(idx)
    requires forall x :: x in idx ==> x >= k
    ensures Picked(words, idx) == Kept(words, Elems(idx), k)
    decreases |words| - k
  {
    if k == |words| {
      PickedPastEnd(words, idx);
    } else if idx != [] && idx[0] == k {
      TailAbove(idx);
      PickedIsKept(words, idx[1..], k + 1);
      PickedHit(words, idx, k);
    } else {
      MissedAbove(idx, k);
      PickedIsKept(words, idx, k + 1);
      PickedMiss(words, idx, k);
    }
  }

  /** When `k` does not start an increasing sequence at or above `k`, the whole sequence is above `k`. */
  lemma MissedAbove(idx: seq<nat>, k: nat)
    requires Increasing(idx) && (forall x :: x in idx ==> x >= k) && !(idx != [] && idx[0] == k)
    ensures forall x :: x in idx ==> x >= k + 1
  {
    if idx != [] {
      assert idx[0] in idx;
      AllAbove(idx, k);
    }
  }

  /** The copied string is the selected, non-blank words' texts in document
      order, joined by single spaces; indices without a word contribute nothing. */
  lemma SelectedTextIsReference(words: seq<Word>, order: seq<nat>)
    requires Distinct(order)
    ensures SelectedText(words, order) == Join(Kept(words, Elems(order), 0), " ")
  {
    var sorted := SortAscending(order);
    PickedIsKept(words, sorted, 0);
    assert Elems(sorted) == Elems(order);
  }

  /** The order in which words were added to the selection does not matter. */
  lemma SelectedTextIgnoresOrder(words: seq<Word>, a: seq<nat>, b: seq<nat>)
    requires Distinct(a) && Distinct(b)
    requires forall x :: x in a <==> x in b
    ensures SelectedText(words, a) == SelectedText(words, b)
  {
    SelectedTextIsReference(words, a);
    SelectedTextIsReference(words, b);
    assert Elems(a) == Elems(b);
  }

  lemma {:induction false} KeptEntriesNotBlank(words: seq<Word>, chosen: set<nat>, k: nat)
    ensures forall j :: 0 <= j < |Kept(words, chosen, k)| ==> !IsBlank(Kept(words, chosen, k)[j])
    decreases |words| - k
  {
    if k < |words| {
      KeptEntriesNotBlank(words, chosen, k + 1);
    }
  }

  lemma {:induction false} KeptEmptyIff(words: seq<Word>, chosen: set<nat>, k: nat)
    ensures Kept(words, chosen, k) == [] <==>
      forall i :: k <= i < |words| && i in chosen ==> IsBlank(words[i].text)
    decreases |words| - k
  {
    if k < |words| {
      KeptEmptyIff(words, chosen, k + 1);
    }
  }

  /** The copied string is blank exactly when no selected word has visible text. */
  lemma SelectedTextBlankIff(words: seq<Word>, order: seq<nat>)
    requires Distinct(order)
    ensures IsBlank(SelectedText(words, order)) <==>
      forall i :: i in order && i < |words| ==> IsBlank(words[i].text)
  {
    var s := Elems(order);
    SelectedTextIsReference(words, order);
    KeptEmptyIff(words, s, 0);
    var kept := Kept(words, s, 0);
    if kept != [] {
      KeptEntriesNotBlank(words, s, 0);
      JoinNotBlank(kept, " ");
    }
  }

  lemma SortExample(order: seq<nat>)
    requires order == [2, 0, 1]
    ensures SortAscending(order) == [0, 1, 2]
  {
    assert order[2..] == [1] && order[1..] == [0, 1];
    assert InsertAscending(1, []) == [1];
    assert SortAscending(order[2..]) == [1];
    assert InsertAscending(0, [1]) == [0, 1];
    assert SortAscending(order[1..]) == [0, 1];
    assert InsertAscending(2, []) == [2];
    assert InsertAscending(2, [1]) == [1, 2];
    assert InsertAscending(2, [0, 1]) == [0, 1, 2];
  }

  lemma PickedExample(words: seq<Word>, b: Geometry.Box, idx: seq<nat>)
    requires words == [Word("Hello", b), Word("  ", b), Word("world", b)]
    requires idx == [0, 1, 2]
    ensures Picked(words, idx) == ["Hello", "world"]
  {
    assert !IsBlank("Hello") by { assert !IsWhitespace("Hello"[0]); }
    assert !IsBlank("world") by { assert !IsWhitespace("world"[0]); }
    assert Picked(words, idx[3..]) == [];
    assert Picked(words, idx[2..]) == ["world"];
    assert Picked(words, idx[1..]) == ["world"];
  }

  /** Words "Hello", a blank, "world" selected in the order 2, 0, 1. */
  lemma CopyExample(words: seq<Word>, b: Geometry.Box, order: seq<nat>)
    requires words == [Word("Hello", b), Word("  ", b), Word("world", b)]
    requires order == [2, 0, 1]
    ensures SelectedText(words, order) == "Hello world"
  {
    SortExample(order);
    PickedExample(words, b, SortAscending(order));
    assert Join(["Hello", "world"], " ") == "Hello world";
  }

  // ---------------------------------------------------------------------
  // The overlay session

  /** `currentOverlay` (with the OCR result it shows) and the selection. */
  datatype Session = Session(overlay: Option<OcrResult>, selection: Selection)

  const Closed := Session(None, NoSelection)

  /** The states the handlers can reach: no selection without an overlay,
      and only indices of existing word spans in the selection. */
  predicate WellFormed(st: Session) {
    && Distinct(st.selection.order)
    && (st.overlay.None? ==> st.selection == NoSelection)
    && (st.overlay.Some? ==> forall x :: x in st.selection.order ==> x < |st.overlay.value.words|)
  }

  /** `removeTextSelectionOverlay`. */
  function RemoveOverlay(st: Session): (st': Session)
    ensures st'.overlay.None? && Members(st'.selection) == {} && !st'.selection.isSelecting
  {
    Closed
  }

  /** `createTextSelectionOverlay`: any previous overlay is removed first. */
  function CreateOverlay(st: Session, result: OcrResult): (st': Session)
    ensures st'.overlay == Some(result) && Members(st'.selection) == {} && !st'.selection.isSelecting
  {
    RemoveOverlay(st).(overlay := Some(result))
  }

  /** The toolbar shown for a session with an overlay. */
  function ToolbarOf(st: Session): Toolbar {
    ToolbarFor(|st.selection.order|)
  }

  /** What a handler does: the next state and the text written to the clipboard, if any. */
  datatype Step = Step(session: Session, copied: Option<string>)

  /** Things the user can do while an overlay may be on the page. A failed
      clipboard write throws out of the handler before the overlay is closed. */
  datatype Event =
    | MouseDown(index: nat)
    | MouseEnter(index: nat)
    | MouseUp(index: nat)
    | CopySelectionClicked(clipboardOk: bool)
    | CopyAllClicked(clipboardOk: bool)
    | ClearClicked
    | CloseClicked
    | KeyDown(key: string, metaKey: bool, clipboardOk: bool)
    | DocumentClick(onOverlayOrToolbar: bool)

  /** `copySelectedText`: the text copied is the selection's text; nothing
      is copied, and the overlay stays, for an empty selection, a selection of
      blank words, or a failed clipboard write. */
  function CopySelected(st: Session, clipboardOk: bool): (r: Step)
    requires st.overlay.Some?
    ensures |st.selection.order| == 0 ==> r == Step(st, None)
    ensures r.copied.Some? <==>
      clipboardOk && !IsBlank(SelectedText(st.overlay.value.words, st.selection.order))
    ensures r.copied.Some? ==>
      && r.copied.value == SelectedText(st.overlay.value.words, st.selection.order)
      && r.session == Closed
    ensures r.copied.None? ==> r.session == st
  {
    if |st.selection.order| == 0 then Step(st, None)
    else
      var text := SelectedText(st.overlay.value.words, st.selection.order);
      Cleanup.TrimEmptyIffBlank(text);
      if Cleanup.Trim(text) == [] || !clipboardOk then Step(st, None)
      else Step(RemoveOverlay(st), Some(text))
  }

  /** `handleSelectionKeydown`. */
  function OnKeyDown(st: Session, key: string, metaKey: bool, clipboardOk: bool): (r: Step)
    ensures st.overlay.None? ==> r == Step(st, None)
    ensures st.overlay.Some? && key == "Escape" ==> r == Step(Closed, None)
    ensures st.overlay.Some? && key != "Escape" && (key == "Enter" || (metaKey && key == "c")) ==>
      r == CopySelected(st, clipboardOk)
    ensures st.overlay.Some? && metaKey && key == "a" ==>
      r.copied.None? && forall x: nat :: x in Members(r.session.selection) <==> x < |st.overlay.value.words|
  {
    if st.overlay.None? then Step(st, None)
    else if key == "Escape" then Step(RemoveOverlay(st), None)
    else if key == "Enter" || (metaKey && key == "c") then
      (if |st.selection.order| > 0 then CopySelected(st, clipboardOk) else Step(st, None))
    else if metaKey && key == "a" then
      Step(st.(selection := SelectAll(st.selection, |st.overlay.value.words|)), None)
    else Step(st, None)
  }

  /** Whether a mouse event can reach word span `i`: spans exist only while the overlay does. */
  predicate OnWord(st: Session, i: nat) {
    st.overlay.Some? && i < |st.overlay.value.words|
  }

  /** Every handler, dispatched on the event. */
  function Handle(st: Session, ev: Event): (r: Step)
    ensures WellFormed(st) ==> WellFormed(r.session)
    ensures st.overlay.None? ==> r == Step(st, None)
    ensures r.copied.Some? ==> r.session == Closed
    ensures st.overlay.Some? && (ev.CloseClicked? || ev == DocumentClick(false)) ==> r == Step(Closed, None)
    ensures st.overlay.Some? && ev == DocumentClick(true) ==> r == Step(st, None)
    ensures st.overlay.Some? && ev.CopyAllClicked? ==>
      r == if ev.clipboardOk && st.overlay.value.text.Some? then Step(Closed, Some(st.overlay.value.text.value))
           else Step(st, None)
    ensures st.overlay.Some? && ev == ClearClicked ==>
      r.session.overlay == st.overlay && Members(r.session.selection) == {}
  {
    if st.overlay.None? then Step(st, None)
    else
      var words := st.overlay.value.words;
      match ev
      case MouseDown(i) =>
        if OnWord(st, i) then Step(st.(selection := StartSelection(st.selection, i)), None) else Step(st, None)
      case MouseEnter(i) =>
        if OnWord(st, i) then Step(st.(selection := ContinueSelection(st.selection, i)), None) else Step(st, None)
      case MouseUp(i) =>
        if OnWord(st, i) then Step(st.(selection := EndSelection(st.selection)), None) else Step(st, None)
      case CopySelectionClicked(ok) => CopySelected(st, ok)
      case CopyAllClicked(ok) =>
        // `copyToClipboard(undefined)` throws at the log line, before the overlay is closed
        var full := st.overlay.value.text;
        if ok && full.Some? then Step(RemoveOverlay(st), Some(full.value)) else Step(st, None)
      case ClearClicked => Step(st.(selection := ClearSelection(st.selection)), None)
      case CloseClicked => Step(RemoveOverlay(st), None)
      case KeyDown(key, meta, ok) => OnKeyDown(st, key, meta, ok)
      case DocumentClick(inside) => if inside then Step(st, None) else Step(RemoveOverlay(st), None)
  }

  /** A press, drags over further words and a release select exactly the
      words touched, and leave the drag finished. */
  lemma DragSelects(st: Session, i: nat, js: seq<nat>)
    requires WellFormed(st) && OnWord(st, i)
    requires forall k :: 0 <= k < |js| ==> OnWord(st, js[k])
    ensures var after := Drag(Handle(st, MouseDown(i)).session, js);
      var done := Handle(after, MouseUp(i)).session;
      && Members(done.selection) == {i} + Elems(js)
      && !done.selection.isSelecting && done.overlay == st.overlay
  {
    DragAdds(Handle(st, MouseDown(i)).session, js);
  }

  /** Mouse-enter events over the given words, in order. */
  function Drag(st: Session, js: seq<nat>): Session
    decreases |js|
  {
    if js == [] then st else Drag(Handle(st, MouseEnter(js[0])).session, js[1..])
  }

  lemma {:induction false} DragAdds(st: Session, js: seq<nat>)
    requires st.overlay.Some? && st.selection.isSelecting
    requires forall k :: 0 <= k < |js| ==> OnWord(st, js[k])
    ensures var after := Drag(st, js);
      && Members(after.selection) == Members(st.selection) + Elems(js)
      && after.selection.isSelecting && after.overlay == st.overlay
    decreases |js|
  {
    if js != [] {
      var next := Handle(st, MouseEnter(js[0])).session;
      DragAdds(next, js[1..]);
      assert js == [js[0]] + js[1..];
      assert Elems(js) == {js[0]} + Elems(js[1..]);
    }
  }

  /** Without a press, hovering selects nothing. */
  lemma HoverWithoutPressIsInert(st: Session, i: nat)
    requires !st.selection.isSelecting
    ensures Handle(st, MouseEnter(i)) == Step(st, None)
  {
  }

  // ---------------------------------------------------------------------
  // How the overlay is reached

  /** The reply of the `processImage` message as `extractTextWithBounds` reads
      it: fields the sender did not set are `undefined`. */
  datatype PageReply = PageReply(success: bool, text: Option<string>, error: Option<string>,
                                 words: Option<seq<Word>>, imageSize: Option<Geometry.Size>)

  /** The message `copyToClipboard` rethrows on any failure, including a
      missing text, whose `substring` throws after the write. */
  const CopyFailed: string := "Failed to copy text to clipboard"

  /** What `extractTextWithBounds` does with the reply. `OverlayThrew` is the
      case where `createTextSelectionOverlay` has already made an empty overlay
      the `currentOverlay` when reading the missing `imageSize` throws a
      TypeError; the page then answers failure with that error's message, whose
      wording depends on the browser and is not modelled. */
  datatype Extraction =
    | ShowOverlay(result: OcrResult)
    | CopyText(text: string)
    | Failed(error: Option<string>)
    | OverlayThrew

  /** `extractTextWithBounds` after the reply arrives (content.js lines 173-198,
      with the throw at line 569); `clipboardOk` is whether the clipboard
      accepts the write of the fallback copy. */
  function ExtractTextWithBounds(reply: PageReply, clipboardOk: bool): (x: Extraction)
    ensures !reply.success ==> x == Failed(reply.error)
    ensures x.ShowOverlay? <==> reply.success && reply.words.Some? && |reply.words.value| > 0 && reply.imageSize.Some?
    ensures x.ShowOverlay? ==> x.result.words == reply.words.value && x.result.text == reply.text
    ensures x.OverlayThrew? <==> reply.success && reply.words.Some? && |reply.words.value| > 0 && reply.imageSize.None?
    ensures x.CopyText? <==>
      reply.success && !(reply.words.Some? && |reply.words.value| > 0) && reply.text.Some? && clipboardOk
    ensures x.CopyText? ==> x.text == reply.text.value
    ensures reply.success && !(reply.words.Some? && |reply.words.value| > 0) && !x.CopyText? ==>
      x == Failed(Some(CopyFailed))
  {
    if !reply.success then Failed(reply.error)
    else if reply.words.Some? && |reply.words.value| > 0 then
      match reply.imageSize
      case None => OverlayThrew
      case Some(size) => ShowOverlay(OcrResult(reply.text, reply.words.value, size))
    else if reply.text.Some? && clipboardOk then CopyText(reply.text.value)
    else Failed(Some(CopyFailed))
  }

  /** An overlay opened from a reply without `text` cannot be copied whole:
      Copy All throws on the missing `fullText` and the overlay stays open. */
  lemma TextlessOverlayKeepsCopyAll(st: Session, words: seq<Word>, size: Geometry.Size, clipboardOk: bool, ok: bool)
    requires |words| > 0
    ensures var x := ExtractTextWithBounds(PageReply(true, None, None, Some(words), Some(size)), clipboardOk);
      x.ShowOverlay? && Handle(CreateOverlay(st, x.result), CopyAllClicked(ok)) == Step(CreateOverlay(st, x.result), None)
  {
  }

  /** The spans' placements for an overlay shown at `display` size; `None`
      when the natural size is not positive, since the scale is then not a
      finite number and the browser ignores the positions. */
  function Layout(result: OcrResult, display: Geometry.Size): (r: Option<seq<Geometry.Placement>>)
    ensures r.Some? <==> Geometry.Positive(result.imageSize)
    ensures r.Some? ==> |r.value| == |result.words|
    ensures r.Some? ==> forall k :: 0 <= k < |result.words| ==>
      r.value[k] == Geometry.Place(result.words[k].bbox, display, result.imageSize)
  {
    if !Geometry.Positive(result.imageSize) then None
    else Some(seq(|result.words|, k requires 0 <= k < |result.words| =>
      Geometry.Place(result.words[k].bbox, display, result.imageSize)))
  }
}
