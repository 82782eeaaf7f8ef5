/** The bracketed character class of a JavaScript regular expression without
    the `u` flag, as section 22.2 and Annex B.1.2 of ECMA-262 read it: a
    sequence of atoms, where an atom followed by `-` and another atom forms a
    range, a range whose ends are out of order is a SyntaxError, and a `-`
    next to a class escape such as `\w` stands for itself. The two classes of
    `cleanUpText` are parsed with it: the one in tests/unit-tests.js:74 is well
    formed and keeps exactly the characters `Cleanup.IsAllowed` names; the one
    in assets/libs/tesseract.js:200 is rejected. */
module CharClass {
  import opened Text
  import opened Wrappers
  import Cleanup

  /** One atom: a single character (after escapes) or a class escape. */
  datatype Atom = Literal(c: char) | ClassEscape(k: char)

  /** One entry of a parsed class. */
  datatype Item = Single(c: char) | Span(lo: char, hi: char) | Escape(k: char)

  datatype ClassError =
    | RangeOutOfOrder(lo: char, hi: char)
    | TrailingBackslash
    | EscapeNotModelled(c: char)

  /** The control escapes a class may use; `\b` is the backspace inside a class. */
  function ControlEscape(k: char): Option<char> {
    if k == 't' then Some('\t')
    else if k == 'n' then Some('\n')
    else if k == 'v' then Some('\U{000B}')
    else if k == 'f' then Some('\U{000C}')
    else if k == 'r' then Some('\r')
    else if k == 'b' then Some('\U{0008}')
    else None
  }

  predicate IsClassEscapeLetter(k: char) {
    k == 'd' || k == 'D' || k == 's' || k == 'S' || k == 'w' || k == 'W'
  }

  /** Escapes whose value takes more than one character (`\c`, `\x`, `\u`, digits). */
  predicate IsLongEscape(k: char) {
    k == 'c' || k == 'x' || k == 'u' || IsDigit(k)
  }

  /** Reads the atom starting at `b[i]` and the position after it. */
  function ParseAtom(b: string, i: nat): (r: Result<(Atom, nat), ClassError>)
    requires i < |b|
    ensures r.Success? ==> i < r.value.1 <= |b|
    ensures r.Success? && b[i] != '\\' ==> r.value == (Literal(b[i]), i + 1)
    ensures r.Failure? <==> b[i] == '\\' && (i + 1 == |b| || IsLongEscape(b[i + 1]))
  {
    if b[i] != '\\' then Success((Literal(b[i]), i + 1))
    else if i + 1 == |b| then Failure(TrailingBackslash)
    else
      var k := b[i + 1];
      if IsClassEscapeLetter(k) then Success((ClassEscape(k), i + 2))
      else if ControlEscape(k).Some? then Success((Literal(ControlEscape(k).value), i + 2))
      else if IsLongEscape(k) then Failure(EscapeNotModelled(k))
      else Success((Literal(k), i + 2))
  }

  function ItemOf(a: Atom): Item {
    match a
    case Literal(c) => Single(c)
    case ClassEscape(k) => Escape(k)
  }

  /** `A-B`: a range of two characters in order, an error when out of order,
      and the three entries `A`, `-`, `B` when either side is a class escape. */
  function RangeOf(a: Atom, b: Atom): (r: Result<seq<Item>, ClassError>)
    ensures r.Failure? <==> a.Literal? && b.Literal? && a.c > b.c
  {
    if a.Literal? && b.Literal? then
      if a.c <= b.c then Success([Span(a.c, b.c)]) else Failure(RangeOutOfOrder(a.c, b.c))
    else Success([ItemOf(a), Single('-'), ItemOf(b)])
  }

  /** The entries of the class body `b` from position `i`. */
  function ParseFrom(b: string, i: nat): Result<seq<Item>, ClassError>
    decreases |b| - i
  {
    if i >= |b| then Success([])
    else
      match ParseAtom(b, i)
      case Failure(e) => Failure(e)
      case Success(p) =>
        var (a, j) := p;
        if j + 1 < |b| && b[j] == '-' then
          match ParseAtom(b, j + 1)
          case Failure(e) => Failure(e)
          case Success(q) =>
            var (a2, k) := q;
            match RangeOf(a, a2)
            case Failure(e) => Failure(e)
            case Success(items) =>
              match ParseFrom(b, k)
              case Failure(e) => Failure(e)
              case Success(rest) => Success(items + rest)
        else
          match ParseFrom(b, j)
          case Failure(e) => Failure(e)
          case Success(rest) => Success([ItemOf(a)] + rest)
  }

  /** The body of a bracketed class: its entries, or the error that rejects the pattern. */
  function ParseClass(b: string): Result<seq<Item>, ClassError> {
    ParseFrom(b, 0)
  }

  /** The characters one entry stands for. */
  predicate ItemHas(it: Item, c: char) {
    match it
    case Single(x) => c == x
    case Span(lo, hi) => lo <= c <= hi
    case Escape(k) =>
      if k == 'w' then IsWordChar(c)
      else if k == 'W' then !IsWordChar(c)
      else if k == 's' then IsWhitespace(c)
      else if k == 'S' then !IsWhitespace(c)
      else if k == 'd' then IsDigit(c)
      else !IsDigit(c)
  }

  predicate ClassHas(items: seq<Item>, c: char) {
    exists k :: 0 <= k < |items| && ItemHas(items[k], c)
  }

  /** An atom not followed by a range dash contributes its own entry. */
  lemma ParseStep(b: string, i: nat)
    requires i < |b| && ParseAtom(b, i).Success?
    requires var j := ParseAtom(b, i).value.1; !(j + 1 < |b| && b[j] == '-')
    ensures var (a, j) := ParseAtom(b, i).value;
      ParseFrom(b, i) == if ParseFrom(b, j).Failure? then ParseFrom(b, j)
                         else Success([ItemOf(a)] + ParseFrom(b, j).value)
  {
  }

  /** An error found after a plain character not followed by a dash rejects the body from that character on. */
  lemma PlainFailStep(b: string, i: nat, e: ClassError)
    requires i + 1 < |b| && b[i] != '\\' && b[i + 1] != '-'
    requires ParseFrom(b, i + 1) == Failure(e)
    ensures ParseFrom(b, i) == Failure(e)
  {
    ParseStep(b, i);
  }

  /** The same after an escape (`\]`, `\\` or a class escape) not followed by a dash. */
  lemma EscapeFailStep(b: string, i: nat, e: ClassError)
    requires i + 2 < |b| && b[i] == '\\' && b[i + 2] != '-'
    requires b[i + 1] == ']' || b[i + 1] == '\\' || IsClassEscapeLetter(b[i + 1])
    requires ParseFrom(b, i + 2) == Failure(e)
    ensures ParseFrom(b, i) == Failure(e)
  {
    assert ParseAtom(b, i).Success? && ParseAtom(b, i).value.1 == i + 2;
    ParseStep(b, i);
  }

  /** Two plain characters around a dash in the wrong order reject the pattern. */
  lemma ParseRangeError(b: string, i: nat)
    requires i + 2 < |b| && b[i] != '\\' && b[i + 1] == '-' && b[i + 2] != '\\'
    requires b[i] > b[i + 2]
    ensures ParseFrom(b, i) == Failure(RangeOutOfOrder(b[i], b[i + 2]))
  {
  }

  /** How a character is written inside a class so that it stands for itself. */
  function EncodeChar(c: char): string {
    if c == '\\' || c == ']' then ['\\', c] else [c]
  }

  function Encode(p: string): string {
    if p == [] then [] else EncodeChar(p[0]) + Encode(p[1..])
  }

  lemma {:induction false} EncodeAppend(p: string, q: string)
    ensures Encode(p + q) == Encode(p) + Encode(q)
    decreases |p|
  {
    if p == [] {
      assert p + q == q;
    } else {
      assert (p + q)[0] == p[0];
      assert (p + q)[1..] == p[1..] + q;
      EncodeAppend(p[1..], q);
    }
  }

  lemma {:induction false} EncodePlain(p: string)
    requires '\\' !in p && ']' !in p
    ensures Encode(p) == p
    decreases |p|
  {
    if p != [] {
      assert p[0] in p;
      assert forall c :: c in p[1..] ==> c in p;
      EncodePlain(p[1..]);
    }
  }

  lemma EncodedFirst(p: string)
    requires p != []
    ensures Encode(p) != [] && (Encode(p)[0] == p[0] || Encode(p)[0] == '\\')
  {
  }

  /** Characters written one after another, with no dash inside, parse back
      as one entry each, whatever precedes them in the body. */
  lemma {:induction false} EncodedSinglesParse(x: string, p: string)
    requires forall m :: 0 < m < |p| - 1 ==> p[m] != '-'
    ensures ParseFrom(x + Encode(p), |x|) == Success(Singles(p))
    decreases |p|
  {
    if p == [] {
      assert x + Encode(p) == x;
    } else {
      var x' := x + EncodeChar(p[0]);
      EncodedSinglesParse(x', p[1..]);
      EncodedSinglesStep(x, p);
    }
  }

  /** One encoded character, not the start of a range, is one entry ahead of the rest. */
  lemma EncodedSinglesStep(x: string, p: string)
    requires p != [] && forall m :: 0 < m < |p| - 1 ==> p[m] != '-'
    requires ParseFrom(x + EncodeChar(p[0]) + Encode(p[1..]), |x + EncodeChar(p[0])|)
          == Success(Singles(p[1..]))
    ensures ParseFrom(x + Encode(p), |x|) == Success(Singles(p))
  {
    var b := x + Encode(p);
    var x' := x + EncodeChar(p[0]);
    EncodedAtom(x, p);
    EncodedNoDash(x, p);
    SingleStep(b, |x|, p[0], |x'|, Singles(p[1..]));
    SinglesCons(p);
  }

  /** A literal not followed by a range dash is one entry ahead of the rest. */
  lemma SingleStep(b: string, i: nat, c: char, j: nat, rest: seq<Item>)
    requires i < |b| && ParseAtom(b, i) == Success((Literal(c), j))
    requires !(j + 1 < |b| && b[j] == '-')
    requires ParseFrom(b, j) == Success(rest)
    ensures ParseFrom(b, i) == Success([Single(c)] + rest)
  {
    ParseStep(b, i);
  }

  lemma SinglesCons(p: string)
    requires p != []
    ensures Singles(p) == [Single(p[0])] + Singles(p[1..])
  {
  }

  /** The first encoded character reads back as itself. */
  lemma EncodedAtom(x: string, p: string)
    requires p != []
    ensures x + Encode(p) == x + EncodeChar(p[0]) + Encode(p[1..])
    ensures ParseAtom(x + Encode(p), |x|) == Success((Literal(p[0]), |x + EncodeChar(p[0])|))
  {
    var e := EncodeChar(p[0]);
    EncodeSplit(x, p);
    var b := x + Encode(p);
    assert b[|x|] == e[0];
    if p[0] == '\\' || p[0] == ']' {
      assert b[|x| + 1] == e[1] == p[0];
      EscapedLiteralAtom(b, |x|);
    }
  }

  /** `\]` and `\\` stand for the escaped character itself. */
  lemma EscapedLiteralAtom(b: string, i: nat)
    requires i + 1 < |b| && b[i] == '\\' && (b[i + 1] == ']' || b[i + 1] == '\\')
    ensures ParseAtom(b, i) == Success((Literal(b[i + 1]), i + 2))
  {
  }

  lemma EncodeSplit(x: string, p: string)
    requires p != []
    ensures x + Encode(p) == x + EncodeChar(p[0]) + Encode(p[1..])
    ensures forall k :: 0 <= k < |EncodeChar(p[0])| ==> (x + Encode(p))[|x| + k] == EncodeChar(p[0])[k]
  {
    var e := EncodeChar(p[0]);
    var r := Encode(p[1..]);
    assert Encode(p) == e + r;
    assert x + (e + r) == x + e + r;
  }

  /** What follows the first encoded character is no range dash. */
  lemma EncodedNoDash(x: string, p: string)
    requires p != [] && forall m :: 0 < m < |p| - 1 ==> p[m] != '-'
    ensures var b := x + Encode(p); var j := |x + EncodeChar(p[0])|;
      !(j + 1 < |b| && b[j] == '-')
  {
    var x' := x + EncodeChar(p[0]);
    EncodeSplit(x, p);
    var b := x' + Encode(p[1..]);
    if |p| > 1 {
      EncodedFirst(p[1..]);
      assert b[|x'|] == Encode(p[1..])[0];
      if |p| > 2 {
        assert p[1..][0] == p[1] != '-';
      }
    } else {
      assert Encode(p[1..]) == [];
    }
  }

  // ---------------------------------------------------------------------
  // The two classes of cleanUpText

  /** The class body of tests/unit-tests.js:74, between `[^` and `]`. */
  const TestsBody: string := "\\w\\s.,!?;:'\"()[\\]{}+=@#$%^&*~`<>/\\\\-"

  /** The class body of assets/libs/tesseract.js:200, between `[^` and `]`. */
  const ExtensionBody: string := "\\w\\s.,!?;:'\"()[\\]{}-+=@#$%^&*~`<>/\\\\"

  function Singles(p: string): (r: seq<Item>)
    ensures |r| == |p|
    ensures forall k :: 0 <= k < |p| ==> r[k] == Single(p[k])
  {
    seq(|p|, k requires 0 <= k < |p| => Single(p[k]))
  }

  /** A class made of `\w`, `\s` and single characters `p` holds exactly the
      word characters, the whitespace and the characters of `p`. */
  lemma WordSpaceAndSingles(p: string, c: char)
    ensures ClassHas([Escape('w'), Escape('s')] + Singles(p), c)
      <==> IsWordChar(c) || IsWhitespace(c) || c in p
  {
    var items := [Escape('w'), Escape('s')] + Singles(p);
    if c in p {
      var k :| 0 <= k < |p| && p[k] == c;
      assert ItemHas(items[k + 2], c);
    }
    if IsWordChar(c) {
      assert ItemHas(items[0], c);
    }
    if IsWhitespace(c) {
      assert ItemHas(items[1], c);
    }
    if ClassHas(items, c) {
      var k :| 0 <= k < |items| && ItemHas(items[k], c);
      if k >= 2 {
        assert p[k - 2] == c;
      }
    }
  }
}
