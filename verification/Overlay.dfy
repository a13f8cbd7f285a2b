/**
 * What a page of plain output looks like: carriage returns overprint, column by column. The
 * cursor machine of the transcript draws exactly this page.
 */
module Overlay {
  import opened Prelude
  import opened Utf8
  import opened Transcript

  /** `top` printed over `under`: what sticks out of `under` on the right stays. */
  function Over(under: seq<Scalar>, top: seq<Scalar>): seq<Scalar> {
    if |top| < |under| then top + under[|top|..] else top
  }

  function Overlaid(layers: seq<seq<Scalar>>): seq<Scalar> {
    if layers == [] then [] else Over(Overlaid(layers[..|layers| - 1]), layers[|layers| - 1])
  }

  /** In each column shows the last layer long enough to reach it. */
  lemma {:induction false} LastLongEnoughShows(layers: seq<seq<Scalar>>, k: nat, column: nat)
    requires k < |layers| && column < |layers[k]|
    requires forall j :: k < j < |layers| ==> |layers[j]| <= column
    ensures column < |Overlaid(layers)| && Overlaid(layers)[column] == layers[k][column]
    decreases |layers|
  {
    if k < |layers| - 1 {
      LastLongEnoughShows(layers[..|layers| - 1], k, column);
    }
  }

  lemma {:induction false} NothingShowsBeyondTheLongest(layers: seq<seq<Scalar>>, width: nat)
    requires forall j :: 0 <= j < |layers| ==> |layers[j]| <= width
    ensures |Overlaid(layers)| <= width
    decreases |layers|
  {
    if layers != [] {
      assert forall j :: 0 <= j < |layers| - 1 ==> layers[..|layers| - 1][j] == layers[j];
      NothingShowsBeyondTheLongest(layers[..|layers| - 1], width);
    }
  }

  /** A line cut at its carriage returns; other control characters print nothing. */
  function Segments(text: seq<Scalar>): (segments: seq<seq<Scalar>>)
    ensures segments != []
  {
    if text == [] then [[]]
    else
      var before, c := Segments(text[..|text| - 1]), text[|text| - 1];
      if c == CR then before + [[]]
      else if IsControl(c) && c != TAB then before
      else before[..|before| - 1] + [before[|before| - 1] + [c]]
  }

  predicate Simple(text: seq<Scalar>) {
    ESC !in text && BACKSPACE !in text
  }

  /** The machine is drawing the last of `segments` over the ones before it. */
  ghost predicate Draws(s: Screen, segments: seq<seq<Scalar>>)
    requires segments != []
  {
    && s.escape == Plain
    && s.line == Overlaid(segments)
    && (if s.carriage then segments[|segments| - 1] == [] else s.cursor == |segments[|segments| - 1]|)
  }

  lemma PutDraws(s: Screen, segments: seq<seq<Scalar>>, c: Scalar)
    requires segments != [] && Draws(s, segments) && !s.carriage
    ensures var n := |segments| - 1;
            Draws(WithPut(s, c), segments[..n] + [segments[n] + [c]])
  {
    var n := |segments| - 1;
    var longer := segments[..n] + [segments[n] + [c]];
    assert longer[..n] == segments[..n];
    var under, top := Overlaid(segments[..n]), segments[n];
    assert s.line == Over(under, top);
    assert WithPut(s, c).line == Over(under, top + [c]) by {
      if |top| < |under| {
        assert (top + under[|top|..])[|top| := c] == top + [c] + under[|top| + 1..];
      }
    }
  }

  lemma ReturnDraws(s: Screen, segments: seq<seq<Scalar>>)
    requires segments != [] && Draws(s, segments)
    ensures Draws(s.(carriage := true), segments + [[]])
  {
    var longer := segments + [[]];
    assert longer[..|segments|] == segments;
    assert Over(s.line, []) == s.line;
  }

  lemma CharDraws(s: Screen, before: seq<Scalar>, c: Scalar)
    requires Draws(s, Segments(before)) && c != ESC && c != BACKSPACE && c != LF
    ensures Draws(WithChar(s, c), Segments(before + [c]))
    ensures WithChar(s, c).done == s.done
  {
    hide Segments, Overlaid, TrimEnd, Draws, WithPut;
    SegmentsSnoc(before, c);
    SettledDraws(s, Segments(before), c);
    var t := WithReturnSettled(s, c);
    if c == CR {
      ReturnDraws(t, Segments(before));
    } else if c == TAB || !IsControl(c) {
      PutDraws(t, Segments(before), c);
      PutKeepsDone(t, c);
    }
  }

  lemma SettledDraws(s: Screen, segments: seq<seq<Scalar>>, c: Scalar)
    requires segments != [] && Draws(s, segments) && c != LF
    ensures var t := WithReturnSettled(s, c);
            Draws(t, segments) && t.escape == Plain == s.escape && !t.carriage && t.done == s.done
  {
    hide Overlaid;
  }

  lemma PutKeepsDone(s: Screen, c: Scalar)
    ensures WithPut(s, c).done == s.done
  {
  }

  lemma SegmentsSnoc(before: seq<Scalar>, c: Scalar)
    ensures var was := Segments(before);
            var n := |was| - 1;
            Segments(before + [c]) ==
            if c == CR then was + [[]]
            else if IsControl(c) && c != TAB then was
            else was[..n] + [was[n] + [c]]
  {
    assert (before + [c])[..|before|] == before;
  }

  /** One line: the machine holds the overlay of its segments. */
  lemma {:induction false} LineIsDrawn(s: Screen, text: seq<Scalar>)
    requires s.escape == Plain && s.line == [] && s.cursor == 0 && !s.carriage
    requires Simple(text) && LF !in text
    ensures Draws(WithChars(s, text), Segments(text))
    ensures WithChars(s, text).done == s.done
    decreases |text|
  {
    if text == [] {
      var blank: seq<seq<Scalar>> := [[]];
      assert blank[..0] == [] && Over([], []) == [];
    } else {
      var before, c := text[..|text| - 1], text[|text| - 1];
      assert text == before + [c];
      LineIsDrawn(s, before);
      hide WithChar, Draws, Segments;
      WithCharsConcat(s, before, [c]);
      var t := WithChars(s, before);
      assert WithChars(t, [c]) == WithChars(WithChar(t, c), []);
      CharDraws(t, before, c);
    }
  }

  // ---- The page ----

  function PrintedLine(text: seq<Scalar>): seq<Scalar> {
    TrimEnd(Overlaid(Segments(text)))
  }

  /** The page a text prints, line by line, with no cursor and no state. */
  function Page(text: seq<Scalar>): seq<Scalar>
    decreases |text|
  {
    var n := LineLength(text, LF);
    if n == |text| then PrintedLine(text)
    else PrintedLine(text[..n]) + [LF] + Page(text[n + 1..])
  }

  lemma LineFeedEndsLine(text: seq<Scalar>)
    requires Simple(text) && LF !in text
    ensures WithChars(BLANK, text + [LF]) == BLANK.(done := PrintedLine(text) + [LF])
  {
    hide Segments, Overlaid, TrimEnd;
    LineIsDrawn(BLANK, text);
    WithCharsConcat(BLANK, text, [LF]);
    var t := WithChars(BLANK, text);
    assert WithChars(t, [LF]) == WithChars(WithChar(t, LF), []) == WithChar(t, LF);
    assert [] + (PrintedLine(text) + [LF]) == PrintedLine(text) + [LF];
  }

  /** Without escapes and backspaces, the cursor machine prints the page. */
  lemma {:induction false} MachinePrintsThePage(text: seq<Scalar>)
    requires Simple(text)
    ensures Finished(Converter([], WithChars(BLANK, text))) == Page(text)
    decreases |text|
  {
    var n := LineLength(text, LF);
    LineLengthIs(text, LF, n);
    if n == |text| {
      assert text[..n] == text;
      LastLineIsFinished(text);
    } else {
      var head, tail := text[..n] + [LF], text[n + 1..];
      assert text == head + tail;
      LineFeedEndsLine(text[..n]);
      MachinePrintsThePage(tail);
      hide WithChars, PrintedLine, Finished;
      WithCharsConcat(BLANK, head, tail);
      var printed := PrintedLine(text[..n]) + [LF];
      DoneIsInertForAll(BLANK, printed, tail);
      assert printed + BLANK.done == printed;
      TakenLinesComposeWithFinish(printed, Converter([], WithChars(BLANK, tail)));
    }
  }

  lemma LastLineIsFinished(text: seq<Scalar>)
    requires Simple(text) && LF !in text
    ensures Finished(Converter([], WithChars(BLANK, text))) == PrintedLine(text)
  {
    hide Segments, Overlaid, WithChars;
    LineIsDrawn(BLANK, text);
    assert [] + PrintedLine(text) == PrintedLine(text);
    assert TrimEnd([]) == [];
  }

  /** The same from bytes: the export of an encoded page is the page. */
  lemma EncodedPageIsPrinted(text: seq<Scalar>)
    requires Simple(text)
    ensures PlainTextOf(EncodeAll(text)) == Page(text)
  {
    hide *;
    FlattenOne(EncodeAll(text));
    EncodedTextIsDrawn(text, [EncodeAll(text)]);
    SplitFromEmpty([EncodeAll(text)]);
    MachinePrintsThePage(text);
  }
}
