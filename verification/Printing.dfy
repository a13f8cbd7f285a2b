/**
 * What an export says, in the plainest cases and with nothing but characters: ordinary text is
 * itself, a carriage return and a backspace overprint, and broken UTF-8 shows as replacement
 * characters (aisense-core, transcript.rs).
 */
module Printing {
  import opened Prelude
  import opened Utf8
  import opened Transcript
  import opened Overlay
  import ControlSequences

  /** Everything that is no control character. */
  predicate IsGraphic(c: Scalar) { 0x20 <= c <= 0x7E || 0xA0 <= c }

  /** The spaces among them. */
  predicate IsSpace(c: Scalar) {
    || c in [0x20, 0xA0, 0x1680, 0x2028, 0x2029, 0x202F, 0x205F, 0x3000]
    || 0x2000 <= c <= 0x200A
  }

  ghost predicate AllGraphic(text: seq<Scalar>) {
    forall k :: 0 <= k < |text| ==> IsGraphic(text[k])
  }

  // ---- Ordinary text ----

  /** Lines without a space at their end. */
  ghost predicate IsOrdinary(text: seq<Scalar>) {
    && (forall k :: 0 <= k < |text| ==> text[k] == LF || IsGraphic(text[k]))
    && (forall k :: 0 <= k < |text| ==> !EndsInSpace(text, k))
  }

  predicate EndsInSpace(text: seq<Scalar>, k: nat)
    requires k < |text|
  {
    IsSpace(text[k]) && (k + 1 == |text| || text[k + 1] == LF)
  }

  /** Ordinary text is exported as it is, to the last character. */
  lemma OrdinaryTextIsItself(text: seq<Scalar>)
    requires IsOrdinary(text)
    ensures PlainTextOf(EncodeAll(text)) == text
  {
    OrdinaryPage(text);
    hide Page, PlainTextOf, EncodeAll;
    EncodedPageIsPrinted(text);
  }

  lemma {:induction false} OrdinaryPage(text: seq<Scalar>)
    requires IsOrdinary(text)
    ensures Page(text) == text
    decreases |text|
  {
    hide PrintedLine;
    var n := LineLength(text, LF);
    LineLengthIs(text, LF, n);
    hide LineLength;
    OrdinaryLine(text, n);
    if n < |text| {
      var rest := text[n + 1..];
      forall k | 0 <= k < |rest| ensures (rest[k] == LF || IsGraphic(rest[k])) && !EndsInSpace(rest, k) {
        assert rest[k] == text[k + n + 1];
        assert !EndsInSpace(text, k + n + 1);
      }
      OrdinaryPage(rest);
      assert text[..n] + [LF] + rest == text;
    } else {
      assert text[..n] == text;
    }
  }

  lemma OrdinaryLine(text: seq<Scalar>, n: nat)
    requires IsOrdinary(text) && n <= |text| && LF !in text[..n] && (n < |text| ==> text[n] == LF)
    ensures PrintedLine(text[..n]) == text[..n]
  {
    var line := text[..n];
    forall k | 0 <= k < n ensures IsGraphic(line[k]) { assert line[k] in line; }
    OneSegment(line);
    assert line != [] ==> !EndsInSpace(text, n - 1) && line[n - 1] == text[n - 1];
    TrimNothing(line);
  }

  lemma TrimNothing(line: seq<Scalar>)
    requires line != [] ==> !IsWhitespace(line[|line| - 1])
    ensures TrimEnd(line) == line
  {
  }

  lemma {:induction false} OneSegment(line: seq<Scalar>)
    requires AllGraphic(line)
    ensures Segments(line) == [line] && Overlaid([line]) == line
    decreases |line|
  {
    var none: seq<seq<Scalar>> := [];
    assert [line][..0] == none && Overlaid(none) == [];
    if line != [] {
      var n := |line| - 1;
      OneSegment(line[..n]);
      assert line[..n] + [line[n]] == line;
    }
  }

  /** A space or a tab at the end of a line is not printed. */
  lemma SpaceAtTheEndIsCut(line: seq<Scalar>, space: Scalar)
    requires AllGraphic(line) && (IsSpace(space) || space == TAB)
    ensures PlainTextOf(EncodeAll(line + [space] + [LF])) == PlainTextOf(EncodeAll(line + [LF]))
  {
    var longer := line + [space];
    OneSegment(line);
    SegmentWithSpace(line, space);
    assert Simple(line) && LF !in line && Simple(longer) && LF !in longer;
    assert longer[..|longer| - 1] == line && TrimEnd(longer) == TrimEnd(line);
    hide *;
    PrintedLineIs(line);
    PrintedLineIs(longer);
    OneLineIsPrinted(line);
    OneLineIsPrinted(longer);
  }

  lemma SegmentWithSpace(line: seq<Scalar>, space: Scalar)
    requires AllGraphic(line) && (IsSpace(space) || space == TAB)
    ensures Segments(line + [space]) == [line + [space]] && Overlaid([line + [space]]) == line + [space]
  {
    var longer := line + [space];
    OneSegment(line);
    assert longer[..|longer| - 1] == line;
    var none: seq<seq<Scalar>> := [];
    assert [longer][..0] == none && Overlaid(none) == [];
  }

  /** A control character without a meaning of its own prints nothing, wherever it stands. */
  lemma ControlPrintsNothing(before: seq<Scalar>, c: Scalar, after: seq<Scalar>)
    requires ESC !in before && (c < 0x20 || 0x7F <= c <= 0x9F) && c !in [TAB, LF, CR, BACKSPACE, ESC]
    ensures PlainTextOf(EncodeAll(before + [c] + after)) == PlainTextOf(EncodeAll(before + after))
  {
    var s := WithChars(BLANK, before);
    StaysPlain(BLANK, before);
    DrawnTwo(s, c, c);
    assert WithChar(s, c) == ControlSequences.Settled(s);
    ControlSequences.SettlingEarlier(s, after);
    hide *;
    WithCharsConcat(BLANK, before, [c]);
    WithCharsConcat(BLANK, before + [c], after);
    WithCharsConcat(BLANK, before, after);
    Exported(before + [c] + after);
    Exported(before + after);
    ControlSequences.OnlyTheLineCounts(WithChars(BLANK, before + [c] + after), WithChars(BLANK, before + after));
  }

  // ---- Overprinting ----

  /** A line with a carriage return in it: the second part over the first, and what sticks out stays. */
  lemma CarriageReturnOverprints(a: seq<Scalar>, b: seq<Scalar>)
    requires AllGraphic(a) && AllGraphic(b)
    ensures var both := if |b| < |a| then b + a[|b|..] else b;
            PlainTextOf(EncodeAll(a + [CR] + b + [LF])) == TrimEnd(both) + [LF]
  {
    hide *;
    var line := a + [CR] + b;
    TwoSegments(a, b);
    TwoLayers(a, b);
    LineOfTwo(a, b);
    OneLineIsPrinted(line);
    PrintedLineIs(line);
  }

  lemma LineOfTwo(a: seq<Scalar>, b: seq<Scalar>)
    requires AllGraphic(a) && AllGraphic(b)
    ensures Simple(a + [CR] + b) && LF !in a + [CR] + b
  {
    var line := a + [CR] + b;
    forall k | 0 <= k < |line| ensures line[k] == CR || IsGraphic(line[k]) {
      if k > |a| { assert line[k] == b[k - |a| - 1]; }
    }
  }

  lemma PrintedLineIs(line: seq<Scalar>)
    ensures PrintedLine(line) == TrimEnd(Overlaid(Segments(line)))
  {
  }

  lemma OneLineIsPrinted(line: seq<Scalar>)
    requires Simple(line) && LF !in line
    ensures PlainTextOf(EncodeAll(line + [LF])) == PrintedLine(line) + [LF]
  {
    var text := line + [LF];
    LineLengthIs(text, LF, |line|);
    assert text[..|line|] == line && text[|line| + 1..] == [];
    hide PlainTextOf, EncodeAll, PrintedLine, LineLength;
    EncodedPageIsPrinted(text);
    EmptyPage();
    var printed := PrintedLine(line) + [LF];
    assert printed + [] == printed;
  }

  lemma EmptyPage()
    ensures Page([]) == []
  {
    assert Segments([]) == [[]];
    OneSegment([]);
    TrimNothing([]);
  }

  lemma {:induction false} TwoSegments(a: seq<Scalar>, b: seq<Scalar>)
    requires AllGraphic(a) && AllGraphic(b)
    ensures Segments(a + [CR] + b) == [a, b]
    decreases |b|
  {
    var line := a + [CR] + b;
    var n := |line| - 1;
    if b == [] {
      OneSegment(a);
      assert line[..n] == a && line[n] == CR;
    } else {
      TwoSegments(a, b[..|b| - 1]);
      assert line[..n] == a + [CR] + b[..|b| - 1] && line[n] == b[|b| - 1];
      assert [a, b[..|b| - 1]][..1] == [a] && b[..|b| - 1] + [b[|b| - 1]] == b;
    }
  }

  lemma TwoLayers(a: seq<Scalar>, b: seq<Scalar>)
    ensures Overlaid([a, b]) == if |b| < |a| then b + a[|b|..] else b
  {
    var none: seq<seq<Scalar>> := [];
    assert [a, b][..1] == [a] && [a][..0] == none;
    assert Overlaid([a]) == Over([], a) == a;
  }

  /** A character, a backspace and a character: the second stands where the first stood. */
  lemma BackspaceOverprints(before: seq<Scalar>, c: Scalar, d: Scalar, after: seq<Scalar>)
    requires ESC !in before && IsGraphic(c) && IsGraphic(d)
    ensures PlainTextOf(EncodeAll(before + [c, BACKSPACE, d] + after)) == PlainTextOf(EncodeAll(before + [d] + after))
  {
    StaysPlain(BLANK, before);
    CharsKeepClean(BLANK, before);
    SameCell(WithChars(BLANK, before), c, d);
    hide *;
    Insertion(before, [c, BACKSPACE, d], [d], after);
  }

  /** At the start of a line a backspace does nothing. */
  lemma BackspaceStopsAtTheMargin(before: seq<Scalar>, after: seq<Scalar>)
    requires ESC !in before
    ensures PlainTextOf(EncodeAll(before + [LF, BACKSPACE] + after)) == PlainTextOf(EncodeAll(before + [LF] + after))
  {
    StaysPlain(BLANK, before);
    AtTheMargin(WithChars(BLANK, before));
    hide *;
    Insertion(before, [LF, BACKSPACE], [LF], after);
  }

  lemma {:induction false} StaysPlain(s: Screen, text: seq<Scalar>)
    requires s.escape.Plain? && ESC !in text
    ensures WithChars(s, text).escape.Plain?
    decreases |text|
  {
    if text != [] {
      assert text[0] in text && forall c :: c in text[1..] ==> c in text;
      assert WithChar(s, text[0]).escape.Plain?;
      hide WithChar;
      StaysPlain(WithChar(s, text[0]), text[1..]);
    }
  }

  lemma DrawnTwo(s: Screen, a: Scalar, b: Scalar)
    ensures WithChars(s, [a, b]) == WithChar(WithChar(s, a), b) && WithChars(s, [a]) == WithChar(s, a)
  {
    hide WithChar;
    assert [a, b][1..] == [b];
    assert WithChars(WithChar(s, a), [b]) == WithChars(WithChar(WithChar(s, a), b), []);
    assert WithChars(s, [a]) == WithChars(WithChar(s, a), []);
  }

  lemma SameCell(s: Screen, c: Scalar, d: Scalar)
    requires s.escape.Plain? && IsGraphic(c) && IsGraphic(d) && s.cursor <= |s.line|
    ensures WithChars(s, [c, BACKSPACE, d]) == WithChars(s, [d])
  {
    var u := WithReturnSettled(s, c);
    GraphicIsPut(s, c);
    GraphicIsPut(s, d);
    StepBack(WithPut(u, c));
    var t := WithPut(u, c).(cursor := u.cursor);
    GraphicIsPut(t, d);
    PutTwice(u, c, d);
    assert t.cursor <= |t.line| && WithReturnSettled(t, d) == t;
    hide WithChar, WithPut;
    assert [c, BACKSPACE, d][1..] == [BACKSPACE, d];
    assert WithChars(s, [c, BACKSPACE, d]) == WithChars(WithPut(u, c), [BACKSPACE, d]);
    DrawnTwo(WithPut(u, c), BACKSPACE, d);
    DrawnTwo(s, d, d);
  }

  lemma GraphicIsPut(s: Screen, c: Scalar)
    requires s.escape.Plain? && IsGraphic(c)
    ensures WithChar(s, c) == WithPut(WithReturnSettled(s, c), c)
    ensures WithReturnSettled(s, c).escape.Plain? && !WithReturnSettled(s, c).carriage
  {
  }

  lemma StepBack(s: Screen)
    requires s.escape.Plain? && !s.carriage && s.cursor > 0
    ensures WithChar(s, BACKSPACE) == s.(cursor := s.cursor - 1)
  {
  }

  lemma PutTwice(u: Screen, c: Scalar, d: Scalar)
    requires u.cursor <= |u.line|
    ensures WithPut(u, c).cursor == u.cursor + 1
    ensures WithPut(WithPut(u, c).(cursor := u.cursor), d) == WithPut(u, d)
  {
  }

  lemma AtTheMargin(s: Screen)
    requires s.escape.Plain?
    ensures WithChars(s, [LF, BACKSPACE]) == WithChars(s, [LF])
  {
    DrawnTwo(s, LF, BACKSPACE);
  }

  /** Pieces that draw alike in the middle of a text make the same export. */
  lemma Insertion(before: seq<Scalar>, a: seq<Scalar>, b: seq<Scalar>, after: seq<Scalar>)
    requires WithChars(WithChars(BLANK, before), a) == WithChars(WithChars(BLANK, before), b)
    ensures PlainTextOf(EncodeAll(before + a + after)) == PlainTextOf(EncodeAll(before + b + after))
  {
    hide *;
    WithCharsConcat(BLANK, before, a);
    WithCharsConcat(BLANK, before, b);
    WithCharsConcat(BLANK, before + a, after);
    WithCharsConcat(BLANK, before + b, after);
    Exported(before + a + after);
    Exported(before + b + after);
  }

  lemma Exported(text: seq<Scalar>)
    ensures PlainTextOf(EncodeAll(text)) == Finished(Converter([], WithChars(BLANK, text)))
  {
    hide *;
    FlattenOne(EncodeAll(text));
    EncodedTextIsDrawn(text, [EncodeAll(text)]);
    SplitFromEmpty([EncodeAll(text)]);
  }

  // ---- Broken input ----

  /** Each maximal ill-formed piece, and an unfinished character at the end, is one replacement character. */
  function Lossy(bytes: seq<byte>): seq<Scalar> {
    Decode(bytes).text + (if Decode(bytes).carry == [] then [] else [REPLACEMENT])
  }

  /** Any log at all is exported like the well-formed text it stands for. */
  lemma BrokenBytesAreReplaced(bytes: seq<byte>)
    ensures PlainTextOf(bytes) == PlainTextOf(EncodeAll(Lossy(bytes)))
  {
    var d := Decode(bytes);
    assert [] + bytes == bytes;
    assert PlainTextOf(bytes) == Finished(Converter(d.carry, WithChars(BLANK, d.text)));
    hide PlainTextOf, EncodeAll, Decode, WithChars, WithChar;
    Exported(Lossy(bytes));
    if d.carry == [] {
      assert d.text + [] == d.text;
    } else {
      WithCharsConcat(BLANK, d.text, [REPLACEMENT]);
      DrawnTwo(WithChars(BLANK, d.text), REPLACEMENT, REPLACEMENT);
    }
  }
}
