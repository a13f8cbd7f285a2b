/** Raw terminal output turned into text, piece by piece (aisense-core, transcript.rs). */
module Transcript {
  import opened Prelude
  import opened Utf8

  const BELL: Scalar := 0x07
  const BACKSPACE: Scalar := 0x08
  const TAB: Scalar := 0x09
  const LF: Scalar := 0x0A
  const CR: Scalar := 0x0D
  const ESC: Scalar := 0x1B

  datatype Escape = Plain | Start | Csi | Osc | OscTerminator | Charset

  /** Everything but the undecoded bytes. */
  datatype Screen = Screen(escape: Escape, line: seq<Scalar>, cursor: nat, carriage: bool, done: seq<Scalar>)

  const BLANK := Screen(Plain, [], 0, false, [])

  predicate IsControl(c: Scalar) { c < 0x20 || 0x7F <= c < 0xA0 }

  predicate IsWhitespace(c: Scalar) {
    || 0x09 <= c <= 0x0D || c == 0x20 || c == 0x85 || c == 0xA0 || c == 0x1680
    || 0x2000 <= c <= 0x200A || c == 0x2028 || c == 0x2029 || c == 0x202F || c == 0x205F || c == 0x3000
  }

  /** Whitespace is cut from the end, all of it and nothing else. */
  function TrimEnd(line: seq<Scalar>): (r: seq<Scalar>)
    ensures r <= line && (forall k :: |r| <= k < |line| ==> IsWhitespace(line[k]))
    ensures r != [] ==> !IsWhitespace(r[|r| - 1])
  {
    if line != [] && IsWhitespace(line[|line| - 1]) then TrimEnd(line[..|line| - 1]) else line
  }

  // ---- One character ----

  function EscapeAfter(escape: Escape, c: Scalar): Escape {
    match escape
    case Start =>
      if c == 0x5B then Csi
      else if c == 0x5D then Osc
      else if c in [0x28, 0x29, 0x2A, 0x2B, 0x23, 0x25] then Charset
      else Plain
    case Csi => if 0x40 <= c <= 0x7E then Plain else Csi
    case Osc => if c == BELL then Plain else if c == ESC then OscTerminator else Osc
    case OscTerminator => if c == 0x5C then Plain else Osc
    case _ => Plain
  }

  function WithPut(s: Screen, c: Scalar): Screen {
    if s.cursor < |s.line| then s.(line := s.line[s.cursor := c], cursor := s.cursor + 1)
    else s.(line := s.line + [c], cursor := s.cursor + 1)
  }

  function WithLineEnded(s: Screen): Screen {
    s.(line := [], cursor := 0, carriage := false, done := s.done + (TrimEnd(s.line) + [LF]))
  }

  function WithReturnSettled(s: Screen, c: Scalar): Screen {
    if s.carriage && c != LF then s.(carriage := false, cursor := 0) else s
  }

  function WithChar(s: Screen, c: Scalar): Screen {
    if !s.escape.Plain? then s.(escape := EscapeAfter(s.escape, c))
    else
      var t := WithReturnSettled(s, c);
      if c == ESC then t.(escape := Start)
      else if c == CR then t.(carriage := true)
      else if c == LF then WithLineEnded(t)
      else if c == BACKSPACE then t.(cursor := Max(t.cursor - 1, 0))
      else if c == TAB then WithPut(t, TAB)
      else if IsControl(c) then t
      else WithPut(t, c)
  }

  function WithChars(s: Screen, text: seq<Scalar>): Screen
    decreases |text|
  {
    if text == [] then s else WithChars(WithChar(s, text[0]), text[1..])
  }

  // ---- The converter ----

  datatype Converter = Converter(pending: seq<byte>, screen: Screen)

  const EMPTY := Converter([], BLANK)

  function Fed(st: Converter, bytes: seq<byte>): Converter {
    var d := Decode(st.pending + bytes);
    Converter(d.carry, WithChars(st.screen, d.text))
  }

  function FedAll(st: Converter, pieces: seq<seq<byte>>): Converter
    decreases |pieces|
  {
    if pieces == [] then st else FedAll(Fed(st, pieces[0]), pieces[1..])
  }

  function Finished(st: Converter): seq<Scalar> {
    var s := if st.pending == [] then st.screen else WithChar(st.screen, REPLACEMENT);
    if s.line == [] then s.done else s.done + TrimEnd(s.line)
  }

  function PlainTextOf(bytes: seq<byte>): seq<Scalar> {
    Finished(Fed(EMPTY, bytes))
  }

  // ---- Split independence ----

  lemma {:induction false} WithCharsConcat(s: Screen, a: seq<Scalar>, b: seq<Scalar>)
    ensures WithChars(s, a + b) == WithChars(WithChars(s, a), b)
    decreases |a|
  {
    hide WithChar;
    if a == [] {
      assert a + b == b;
    } else {
      assert (a + b)[0] == a[0] && (a + b)[1..] == a[1..] + b;
      WithCharsConcat(WithChar(s, a[0]), a[1..], b);
    }
  }

  lemma FedTwice(st: Converter, a: seq<byte>, b: seq<byte>)
    ensures Fed(Fed(st, a), b) == Fed(st, a + b)
  {
    hide Decode, WithChars;
    DecodeConcat(st.pending + a, b);
    Associative(st.pending, a, b);
    var first := Decode(st.pending + a);
    WithCharsConcat(st.screen, first.text, Decode(first.carry + b).text);
  }

  /** However the log is cut into reads, the converter ends in the state of one single read. */
  lemma {:induction false} SplitIndependence(st: Converter, pieces: seq<seq<byte>>)
    requires |st.pending| <= 3 && Decode(st.pending) == Decoded([], st.pending)
    ensures FedAll(st, pieces) == Fed(st, Flatten(pieces))
    ensures |FedAll(st, pieces).pending| <= 3
    decreases |pieces|
  {
    hide Decode, WithChars, Fed;
    if pieces == [] {
      FedNothing(st);
    } else {
      var next := Fed(st, pieces[0]);
      CarryIsStable(st.pending + pieces[0]);
      FedShape(st, pieces[0]);
      SplitIndependence(next, pieces[1..]);
      FedTwice(st, pieces[0], Flatten(pieces[1..]));
    }
  }

  lemma FedNothing(st: Converter)
    requires Decode(st.pending) == Decoded([], st.pending)
    ensures Fed(st, []) == st
  {
    hide Decode;
    assert st.pending + [] == st.pending;
  }

  lemma FedShape(st: Converter, bytes: seq<byte>)
    ensures Fed(st, bytes).pending == Decode(st.pending + bytes).carry
  {
  }

  /** What is carried over decodes to nothing yet. */
  lemma {:induction false} CarryIsStable(s: seq<byte>)
    ensures Decode(Decode(s).carry) == Decoded([], Decode(s).carry)
    decreases |s|
  {
    hide Decode;
    NothingToDecode(s);
    if s != [] && !First(s).Incomplete? {
      DecodeStep(s);
      CarryIsStable(s[First(s).length..]);
    }
  }

  /** Text encoded as UTF-8 and cut anywhere, even inside a character, is drawn as the text. */
  lemma EncodedTextIsDrawn(text: seq<Scalar>, pieces: seq<seq<byte>>)
    requires Flatten(pieces) == EncodeAll(text)
    ensures FedAll(EMPTY, pieces) == Converter([], WithChars(BLANK, text))
  {
    hide WithChars;
    SplitIndependence(EMPTY, pieces);
    DecodeEncoded(text);
    assert [] + EncodeAll(text) == EncodeAll(text);
  }

  // ---- Finished lines never influence what follows ----

  lemma DoneIsInert(s: Screen, before: seq<Scalar>, c: Scalar)
    ensures WithChar(s.(done := before + s.done), c)
            == WithChar(s, c).(done := before + WithChar(s, c).done)
  {
    Associative(before, s.done, TrimEnd(s.line) + [LF]);
  }

  lemma {:induction false} DoneIsInertForAll(s: Screen, before: seq<Scalar>, text: seq<Scalar>)
    ensures WithChars(s.(done := before + s.done), text)
            == WithChars(s, text).(done := before + WithChars(s, text).done)
    decreases |text|
  {
    if text != [] {
      DoneIsInert(s, before, text[0]);
      hide WithChar;
      DoneIsInertForAll(WithChar(s, text[0]), before, text[1..]);
    }
  }

  /** What was already taken, put back in front of a later state. */
  function Prepended(taken: seq<Scalar>, st: Converter): Converter {
    st.(screen := st.screen.(done := taken + st.screen.done))
  }

  lemma TakenLinesComposeWithFeed(taken: seq<Scalar>, st: Converter, bytes: seq<byte>)
    ensures Fed(Prepended(taken, st), bytes) == Prepended(taken, Fed(st, bytes))
  {
    hide WithChars, Decode;
    DoneIsInertForAll(st.screen, taken, Decode(st.pending + bytes).text);
  }

  lemma TakenLinesComposeWithFinish(taken: seq<Scalar>, st: Converter)
    ensures Finished(Prepended(taken, st)) == taken + Finished(st)
  {
    DoneIsInert(st.screen, taken, REPLACEMENT);
    hide WithChar, TrimEnd;
    var s := if st.pending == [] then st.screen else WithChar(st.screen, REPLACEMENT);
    Associative(taken, s.done, TrimEnd(s.line));
  }

  // ---- The object ----

  class PlainText {
    var pending: seq<byte>
    var escape: Escape
    var line: seq<Scalar>
    var cursor: nat
    var carriage: bool
    var done: seq<Scalar>

    ghost function OnScreen(): Screen
      reads this
    {
      Screen(escape, line, cursor, carriage, done)
    }

    ghost function State(): Converter
      reads this
    {
      Converter(pending, OnScreen())
    }

    constructor ()
      ensures State() == EMPTY
    {
      pending, escape, line, cursor, carriage, done := [], Plain, [], 0, false, [];
    }

    method Feed(bytes: seq<byte>)
      modifies this
      ensures State() == Fed(old(State()), bytes)
    {
      var data := pending + bytes;
      pending := [];
      var rest := data;
      while true
        invariant pending == []
        invariant WithChars(OnScreen(), Decode(rest).text) == WithChars(old(OnScreen()), Decode(data).text)
        invariant Decode(rest).carry == Decode(data).carry
        decreases |rest|
      {
        hide Decode, WithChars, FromUtf8, WithChar;
        FromUtf8Meaning(rest);
        match FromUtf8(rest) {
          case AllValid =>
            Chars(Decode(rest).text);
            break;
          case Broken(validUpTo, errorLen) =>
            var good, bad := rest[..validUpTo], rest[validUpTo..];
            ghost var before := OnScreen();
            Chars(Decode(good).text);
            match errorLen {
              case None =>
                pending := bad;
                break;
              case Some(len) =>
                ghost var middle := OnScreen();
                Chars([REPLACEMENT]);
                ghost var later := Decode(bad[len..]).text;
                assert rest[validUpTo + len..] == bad[len..];
                WithCharsConcat(before, Decode(good).text, [REPLACEMENT] + later);
                WithCharsConcat(middle, [REPLACEMENT], later);
                rest := bad[len..];
            }
        }
      }
    }

    method Chars(text: seq<Scalar>)
      modifies this
      ensures OnScreen() == WithChars(old(OnScreen()), text) && pending == old(pending)
    {
      hide WithChar;
      for i := 0 to |text|
        invariant WithChars(OnScreen(), text[i..]) == WithChars(old(OnScreen()), text)
        invariant pending == old(pending)
      {
        assert text[i..][1..] == text[i + 1..];
        Char(text[i]);
      }
    }

    method Char(c: Scalar)
      modifies this
      ensures OnScreen() == WithChar(old(OnScreen()), c) && pending == old(pending)
    {
      match escape {
        case Start =>
          escape := if c == 0x5B then Csi else if c == 0x5D then Osc
                    else if c in [0x28, 0x29, 0x2A, 0x2B, 0x23, 0x25] then Charset else Plain;
          return;
        case Csi =>
          if 0x40 <= c <= 0x7E { escape := Plain; }
          return;
        case Osc =>
          if c == BELL { escape := Plain; } else if c == ESC { escape := OscTerminator; }
          return;
        case OscTerminator =>
          escape := if c == 0x5C then Plain else Osc;
          return;
        case Charset =>
          escape := Plain;
          return;
        case Plain =>
      }
      if carriage && c != LF {
        carriage := false;
        cursor := 0;
      }
      if c == ESC {
        escape := Start;
      } else if c == CR {
        carriage := true;
      } else if c == LF {
        carriage := false;
        EndLine();
      } else if c == BACKSPACE {
        cursor := if cursor > 0 then cursor - 1 else 0;
      } else if c == TAB {
        Put(TAB);
      } else if !IsControl(c) {
        Put(c);
      }
    }

    method Put(c: Scalar)
      modifies this
      ensures OnScreen() == WithPut(old(OnScreen()), c) && pending == old(pending)
    {
      if cursor < |line| {
        line := line[cursor := c];
      } else {
        line := line + [c];
      }
      cursor := cursor + 1;
    }

    method EndLine()
      requires !carriage
      modifies this
      ensures OnScreen() == WithLineEnded(old(OnScreen())) && pending == old(pending)
    {
      done := done + (TrimEnd(line) + [LF]);
      line := [];
      cursor := 0;
    }

    method TakeLines() returns (ready: seq<Scalar>)
      modifies this
      ensures State() == Converter(old(pending), old(OnScreen()).(done := []))
      ensures Prepended(ready, State()) == old(State())
    {
      ready := done;
      done := [];
    }

    method Finish() returns (text: seq<Scalar>)
      modifies this
      ensures text == Finished(old(State()))
    {
      if pending != [] {
        Char(REPLACEMENT);
      }
      if line != [] {
        done := done + TrimEnd(line);
        line := [];
      }
      text := done;
    }
  }

  /** The export loop: lines leave as they close, and the file is the conversion of the whole log. */
  method ExportTranscript(chunks: seq<seq<byte>>) returns (written: seq<Scalar>)
    ensures written == PlainTextOf(Flatten(chunks))
  {
    hide *;
    var plain := new PlainText();
    written := [];
    AllOfNothing(chunks);
    for i := 0 to |chunks|
      invariant Prepended(written, plain.State()) == FedAll(EMPTY, chunks[..i])
    {
      ghost var before := plain.State();
      plain.Feed(chunks[i]);
      TakenLinesComposeWithFeed(written, before, chunks[i]);
      FedAllSnoc(EMPTY, chunks[..i], chunks[i]);
      assert chunks[..i + 1] == chunks[..i] + [chunks[i]];
      ghost var fed := plain.State();
      var ready := plain.TakeLines();
      PrependedTwice(written, ready, plain.State());
      written := written + ready;
    }
    assert chunks[..|chunks|] == chunks;
    ghost var last := plain.State();
    var rest := plain.Finish();
    TakenLinesComposeWithFinish(written, last);
    written := written + rest;
    SplitFromEmpty(chunks);
  }

  lemma AllOfNothing(chunks: seq<seq<byte>>)
    ensures Prepended([], EMPTY) == FedAll(EMPTY, chunks[..0])
  {
  }

  lemma PrependedTwice(a: seq<Scalar>, b: seq<Scalar>, st: Converter)
    ensures Prepended(a, Prepended(b, st)) == Prepended(a + b, st)
  {
    Associative(a, b, st.screen.done);
  }

  lemma {:induction false} FedAllSnoc(st: Converter, pieces: seq<seq<byte>>, last: seq<byte>)
    ensures FedAll(st, pieces + [last]) == Fed(FedAll(st, pieces), last)
    decreases |pieces|
  {
    hide Fed;
    if pieces == [] {
      assert pieces + [last] == [last] && [last][1..] == [];
      assert FedAll(st, [last]) == FedAll(Fed(st, last), []);
    } else {
      assert (pieces + [last])[0] == pieces[0] && (pieces + [last])[1..] == pieces[1..] + [last];
      FedAllSnoc(Fed(st, pieces[0]), pieces[1..], last);
    }
  }

  lemma SplitFromEmpty(chunks: seq<seq<byte>>)
    ensures Finished(FedAll(EMPTY, chunks)) == PlainTextOf(Flatten(chunks))
  {
    hide FedAll, Fed, Finished;
    SplitIndependence(EMPTY, chunks);
  }

  // ---- What can be on the page ----

  ghost predicate Clean(s: Screen) {
    && s.cursor <= |s.line|
    && (forall k :: 0 <= k < |s.line| ==> !IsControl(s.line[k]) || s.line[k] == TAB)
    && (forall k :: 0 <= k < |s.done| ==> !IsControl(s.done[k]) || s.done[k] in [TAB, LF])
  }

  lemma CharKeepsClean(s: Screen, c: Scalar)
    requires Clean(s)
    ensures Clean(WithChar(s, c))
  {
    hide IsWhitespace, EscapeAfter;
  }

  lemma {:induction false} CharsKeepClean(s: Screen, text: seq<Scalar>)
    requires Clean(s)
    ensures Clean(WithChars(s, text))
    decreases |text|
  {
    hide WithChar, Clean;
    if text != [] {
      CharKeepsClean(s, text[0]);
      CharsKeepClean(WithChar(s, text[0]), text[1..]);
    }
  }

  /** On any bytes at all, the cursor stays on the line and only tabs and line ends survive. */
  lemma OnlyTextSurvives(pieces: seq<seq<byte>>)
    ensures Clean(FedAll(EMPTY, pieces).screen)
    ensures forall c :: c in PlainTextOf(Flatten(pieces)) && IsControl(c) ==> c in [TAB, LF]
  {
    SplitIndependence(EMPTY, pieces);
    hide WithChars, Decode, FedAll, WithChar, IsControl, TrimEnd;
    var st := Fed(EMPTY, Flatten(pieces));
    CharsKeepClean(BLANK, Decode([] + Flatten(pieces)).text);
    CharKeepsClean(st.screen, REPLACEMENT);
  }
}
