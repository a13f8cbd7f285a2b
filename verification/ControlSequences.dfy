/**
 * Control sequences leave no trace in the text: colours, titles and character sets vanish, and what
 * is left is printed as if they had never been there (aisense-core, transcript.rs). The sequences
 * are those of ECMA-48, sections 5.3 to 5.6, as far as the converter knows them.
 */
module ControlSequences {
  import opened Prelude
  import opened Utf8
  import opened Transcript
  import Overlay

  /** A piece of terminal output: one character of text, or one whole sequence. */
  datatype Token =
    | Glyph(c: Scalar)
    | ControlSequence(body: seq<Scalar>, final: Scalar)   // ESC [ anything up to the first final byte
    | Command(body: seq<Scalar>, bell: bool)              // ESC ] text, then BEL or ESC \
    | Designation(slot: Scalar, c: Scalar)                // ESC ( c and its like
    | Pair(c: Scalar)                                     // any other ESC c

  const SLOTS: seq<Scalar> := [0x28, 0x29, 0x2A, 0x2B, 0x23, 0x25]

  predicate IsFinal(c: Scalar) { 0x40 <= c <= 0x7E }

  predicate HasNoFinal(body: seq<Scalar>) {
    forall k :: 0 <= k < |body| ==> !IsFinal(body[k])
  }

  /** No bell and no terminator in it; an escape before anything but a backslash belongs to the text. */
  predicate IsCommandText(body: seq<Scalar>) {
    if body == [] then true
    else if body[0] == BELL then false
    else if body[0] == ESC then |body| >= 2 && body[1] != 0x5C && IsCommandText(body[2..])
    else IsCommandText(body[1..])
  }

  predicate WellFormed(t: Token) {
    match t
    case Glyph(c) => c != ESC
    case ControlSequence(body, final) => HasNoFinal(body) && IsFinal(final)
    case Command(body, _) => IsCommandText(body)
    case Designation(slot, _) => slot in SLOTS
    case Pair(c) => c != 0x5B && c != 0x5D && c !in SLOTS
  }

  function Spelled(t: Token): seq<Scalar> {
    match t
    case Glyph(c) => [c]
    case ControlSequence(body, final) => [ESC, 0x5B] + body + [final]
    case Command(body, bell) => [ESC, 0x5D] + body + (if bell then [BELL] else [ESC, 0x5C])
    case Designation(slot, c) => [ESC, slot, c]
    case Pair(c) => [ESC, c]
  }

  function Written(tokens: seq<Token>): seq<Scalar> {
    if tokens == [] then [] else Spelled(tokens[0]) + Written(tokens[1..])
  }

  function Stripped(tokens: seq<Token>): seq<Scalar> {
    if tokens == [] then []
    else (if tokens[0].Glyph? then [tokens[0].c] else []) + Stripped(tokens[1..])
  }

  ghost predicate AllWellFormed(tokens: seq<Token>) {
    forall k :: 0 <= k < |tokens| ==> WellFormed(tokens[k])
  }

  /** A lone carriage return takes effect before anything but a line feed, a sequence included. */
  function Settled(s: Screen): Screen { WithReturnSettled(s, ESC) }

  lemma OneChar(s: Screen, c: Scalar, rest: seq<Scalar>)
    ensures WithChars(s, [c] + rest) == WithChars(WithChar(s, c), rest)
  {
    assert ([c] + rest)[0] == c && ([c] + rest)[1..] == rest;
  }

  lemma {:induction false} BodyIsSkipped(s: Screen, body: seq<Scalar>)
    requires s.escape.Csi? || s.escape.Osc?
    requires s.escape.Csi? ==> HasNoFinal(body)
    requires s.escape.Osc? ==> IsCommandText(body)
    ensures WithChars(s, body) == s
    decreases |body|
  {
    if body != [] && s.escape.Osc? && body[0] == ESC {
      assert WithChar(WithChar(s, ESC), body[1]) == s;
      assert body == [ESC] + ([body[1]] + body[2..]);
      hide WithChar, WithChars;
      OneChar(s, ESC, [body[1]] + body[2..]);
      OneChar(WithChar(s, ESC), body[1], body[2..]);
      BodyIsSkipped(s, body[2..]);
    } else if body != [] {
      assert !IsFinal(body[0]) || s.escape.Osc?;
      assert WithChar(s, body[0]) == s;
      BodyIsSkipped(s, body[1..]);
    }
  }

  lemma Opened(s: Screen, c: Scalar, rest: seq<Scalar>)
    requires s.escape.Plain?
    ensures WithChars(s, [ESC, c] + rest) == WithChars(Settled(s).(escape := EscapeAfter(Start, c)), rest)
  {
    assert [ESC, c] + rest == [ESC] + ([c] + rest);
    OneChar(s, ESC, [c] + rest);
    OneChar(WithChar(s, ESC), c, rest);
  }

  lemma Closing(s: Screen, body: seq<Scalar>, end: seq<Scalar>)
    requires s.escape.Csi? || s.escape.Osc?
    requires s.escape.Csi? ==> HasNoFinal(body) && |end| == 1 && IsFinal(end[0])
    requires s.escape.Osc? ==> IsCommandText(body) && (end == [BELL] || end == [ESC, 0x5C])
    ensures WithChars(s, body + end) == s.(escape := Plain)
  {
    hide WithChars;
    WithCharsConcat(s, body, end);
    BodyIsSkipped(s, body);
    if |end| == 1 {
      DrawnOne(s, end[0]);
      assert end == [end[0]];
    } else {
      assert end == [ESC] + [0x5C];
      OneChar(s, ESC, [0x5C]);
      DrawnOne(WithChar(s, ESC), 0x5C);
    }
  }

  lemma DrawnOne(s: Screen, c: Scalar)
    ensures WithChars(s, [c]) == WithChar(s, c)
  {
  }

  /** One whole sequence, in any state of the line: nothing but a pending carriage return settles. */
  lemma SequenceIsSkipped(s: Screen, t: Token)
    requires s.escape.Plain? && WellFormed(t) && !t.Glyph?
    ensures WithChars(s, Spelled(t)) == Settled(s)
  {
    hide WithChars, WithChar, WithReturnSettled;
    SettledIsPlain(s);
    match t {
      case ControlSequence(body, final) =>
        assert Spelled(t) == [ESC, 0x5B] + (body + [final]);
        Opened(s, 0x5B, body + [final]);
        Closing(Settled(s).(escape := Csi), body, [final]);
      case Command(body, bell) =>
        var end := if bell then [BELL] else [ESC, 0x5C];
        assert Spelled(t) == [ESC, 0x5D] + (body + end);
        Opened(s, 0x5D, body + end);
        Closing(Settled(s).(escape := Osc), body, end);
      case Designation(slot, c) =>
        assert Spelled(t) == [ESC, slot] + [c];
        Opened(s, slot, [c]);
        Designated(Settled(s), c);
      case Pair(c) =>
        assert Spelled(t) == [ESC, c] + [];
        Opened(s, c, []);
        NothingDrawn(Settled(s));
    }
  }

  lemma SettledIsPlain(s: Screen)
    requires s.escape.Plain?
    ensures Settled(s).escape.Plain? && Settled(Settled(s)) == Settled(s)
    ensures Settled(s).line == s.line && Settled(s).done == s.done
  {
  }

  lemma Designated(s: Screen, c: Scalar)
    requires s.escape.Plain?
    ensures WithChars(s.(escape := Charset), [c]) == s
  {
    DrawnOne(s.(escape := Charset), c);
  }

  lemma NothingDrawn(s: Screen)
    ensures WithChars(s, []) == s
  {
  }

  /** Settling early or late is the same for whatever is drawn next. */
  lemma SettlingEarlier(s: Screen, text: seq<Scalar>)
    requires s.escape.Plain?
    ensures Settled(WithChars(Settled(s), text)) == Settled(WithChars(s, text))
  {
    if text == [] {
      NothingDrawn(s);
      NothingDrawn(Settled(s));
      SettledIsPlain(s);
    } else {
      assert WithChar(Settled(s), text[0]) == WithChar(s, text[0]);
    }
  }

  lemma GlyphStaysPlain(s: Screen, c: Scalar)
    requires s.escape.Plain? && c != ESC
    ensures WithChar(s, c).escape.Plain?
  {
  }

  /** Drawing decorated output is drawing its text. */
  lemma {:induction false} SequencesLeaveNoTrace(s: Screen, tokens: seq<Token>)
    requires s.escape.Plain? && AllWellFormed(tokens)
    ensures Settled(WithChars(s, Written(tokens))) == Settled(WithChars(s, Stripped(tokens)))
    decreases |tokens|
  {
    hide WithChars, WithChar, WithReturnSettled, Settled;
    if tokens != [] {
      var t, rest := tokens[0], tokens[1..];
      WithCharsConcat(s, Spelled(t), Written(rest));
      if t.Glyph? {
        DrawnOne(s, t.c);
        GlyphStaysPlain(s, t.c);
        WithCharsConcat(s, [t.c], Stripped(rest));
        SequencesLeaveNoTrace(WithChar(s, t.c), rest);
      } else {
        SequenceIsSkipped(s, t);
        SettledIsPlain(s);
        SequencesLeaveNoTrace(Settled(s), rest);
        SettlingEarlier(s, Stripped(rest));
        assert [] + Stripped(rest) == Stripped(rest);
      }
    }
  }

  lemma {:induction false} StrippedHasNoEscape(tokens: seq<Token>)
    requires AllWellFormed(tokens)
    ensures ESC !in Stripped(tokens)
    decreases |tokens|
  {
    if tokens != [] {
      StrippedHasNoEscape(tokens[1..]);
    }
  }

  /**
   * The export of decorated output is the export of its text, wherever the reads cut it; and
   * without backspaces it is the page that text prints.
   */
  lemma DecorationVanishes(tokens: seq<Token>, pieces: seq<seq<byte>>)
    requires AllWellFormed(tokens) && Flatten(pieces) == EncodeAll(Written(tokens))
    ensures Finished(FedAll(EMPTY, pieces)) == PlainTextOf(EncodeAll(Stripped(tokens)))
    ensures BACKSPACE !in Stripped(tokens) ==> Finished(FedAll(EMPTY, pieces)) == Overlay.Page(Stripped(tokens))
  {
    hide WithChars, WithReturnSettled, Settled, Overlay.Page, EncodeAll, Written, Stripped, FedAll, Finished;
    EncodedTextIsDrawn(Written(tokens), pieces);
    FlattenOne(EncodeAll(Stripped(tokens)));
    EncodedTextIsDrawn(Stripped(tokens), [EncodeAll(Stripped(tokens))]);
    SplitFromEmpty([EncodeAll(Stripped(tokens))]);
    SequencesLeaveNoTrace(BLANK, tokens);
    OnlyTheLineCounts(WithChars(BLANK, Written(tokens)), WithChars(BLANK, Stripped(tokens)));
    StrippedHasNoEscape(tokens);
    if BACKSPACE !in Stripped(tokens) {
      Overlay.EncodedPageIsPrinted(Stripped(tokens));
    }
  }

  lemma OnlyTheLineCounts(s: Screen, t: Screen)
    requires Settled(s) == Settled(t)
    ensures Finished(Converter([], s)) == Finished(Converter([], t))
  {
    hide TrimEnd;
  }

  /** What opens the strings of ECMA-48, section 5.6, other than commands: DCS, SOS, PM and APC. */
  const STRING_OPENERS: seq<Scalar> := [0x50, 0x58, 0x5E, 0x5F]

  /** These strings are not known: their text is printed, between two short sequences that vanish. */
  lemma OtherStringsArePrinted(opener: Scalar, body: seq<Token>)
    requires opener in STRING_OPENERS && AllWellFormed(body)
    ensures PlainTextOf(EncodeAll([ESC, opener] + Written(body) + [ESC, 0x5C]))
            == PlainTextOf(EncodeAll(Stripped(body)))
  {
    assert WellFormed(Pair(opener)) && WellFormed(Pair(0x5C));
    hide EncodeAll, PlainTextOf, FedAll, Finished, WellFormed;
    var tokens := [Pair(opener)] + (body + [Pair(0x5C)]);
    assert tokens[1..] == body + [Pair(0x5C)];
    PairAtTheEnd(body, 0x5C);
    assert [ESC, opener] + Written(body) + [ESC, 0x5C] == Written(tokens);
    assert Stripped(tokens) == [] + Stripped(body) == Stripped(body);
    FlattenOne(EncodeAll(Written(tokens)));
    DecorationVanishes(tokens, [EncodeAll(Written(tokens))]);
    SplitFromEmpty([EncodeAll(Written(tokens))]);
  }

  lemma {:induction false} PairAtTheEnd(tokens: seq<Token>, c: Scalar)
    ensures Stripped(tokens + [Pair(c)]) == Stripped(tokens)
    ensures Written(tokens + [Pair(c)]) == Written(tokens) + [ESC, c]
    decreases |tokens|
  {
    var longer := tokens + [Pair(c)];
    if tokens == [] {
      assert longer[1..] == [];
    } else {
      assert longer[0] == tokens[0] && longer[1..] == tokens[1..] + [Pair(c)];
      PairAtTheEnd(tokens[1..], c);
      hide Spelled;
    }
  }
}
