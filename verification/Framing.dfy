/** Newline-delimited frames with a size limit (aisense-ipc, frame.rs). */
module Framing {
  import opened Prelude

  const RETURN: byte := 13
  const MAX_FRAME: nat := 1_048_576

  datatype Outcome = Frame(bytes: seq<byte>) | EndOfStream | TooLarge | IoError

  // ---- What a read must return, from the bytes that are left and nothing else ----

  function WithoutReturn(line: seq<byte>): seq<byte> {
    if line != [] && line[|line| - 1] == RETURN then line[..|line| - 1] else line
  }

  /** The next frame of a stream that ends cleanly or, when `broken`, with an I/O error. */
  function NextFrame(left: seq<byte>, broken: bool, max: nat): Outcome {
    var n := LineLength(left, NEWLINE);
    if n > max then TooLarge
    else if n < |left| then Frame(WithoutReturn(left[..n]))
    else if broken then IoError
    else if left == [] then EndOfStream
    else Frame(left)
  }

  function AfterFrame(left: seq<byte>): seq<byte> {
    if LineLength(left, NEWLINE) < |left| then left[LineLength(left, NEWLINE) + 1..] else []
  }

  // ---- The buffered reader ----

  class BufferedReader {
    /** Read from the source and not consumed yet. */
    var buffer: seq<byte>
    /** What the source will still deliver, read by read. */
    var incoming: seq<seq<byte>>
    /** The source ends with an error instead of end of file. */
    const broken: bool

    ghost predicate Valid()
      reads this
    {
      forall k :: 0 <= k < |incoming| ==> incoming[k] != []
    }

    ghost function Left(): seq<byte>
      reads this
    {
      buffer + Flatten(incoming)
    }

    constructor (incoming: seq<seq<byte>>, broken: bool)
      requires forall k :: 0 <= k < |incoming| ==> incoming[k] != []
      ensures Valid() && Left() == Flatten(incoming) && this.broken == broken
    {
      this.buffer, this.incoming, this.broken := [], incoming, broken;
      new;
      assert [] + Flatten(incoming) == Flatten(incoming);
    }

    /** What is buffered, reading once more only when nothing is: empty means end of file. */
    method FillBuf() returns (failed: bool)
      requires Valid()
      modifies this
      ensures Valid() && Left() == old(Left())
      ensures buffer == [] ==> Left() == []
      ensures failed <==> buffer == [] && broken
    {
      if buffer == [] && incoming != [] {
        assert [] + Flatten(incoming) == incoming[0] + Flatten(incoming[1..]);
        buffer, incoming := incoming[0], incoming[1..];
      }
      failed := buffer == [] && broken;
    }

    method Consume(n: nat)
      requires Valid() && n <= |buffer|
      modifies this
      ensures Valid() && Left() == old(Left())[n..]
    {
      assert Left()[n..] == buffer[n..] + Flatten(incoming);
      buffer := buffer[n..];
    }
  }

  lemma {:induction false} LineGoesOn(line: seq<byte>, more: seq<byte>)
    requires NEWLINE !in line
    ensures LineLength(line + more, NEWLINE) == |line| + LineLength(more, NEWLINE)
    decreases |line|
  {
    if line == [] {
      assert line + more == more;
    } else {
      assert (line + more)[0] == line[0] && (line + more)[1..] == line[1..] + more;
      LineGoesOn(line[1..], more);
    }
  }

  lemma {:induction false} LineEndsWithin(available: seq<byte>, after: seq<byte>)
    requires LineLength(available, NEWLINE) < |available|
    ensures LineLength(available + after, NEWLINE) == LineLength(available, NEWLINE)
    decreases |available|
  {
    assert (available + after)[0] == available[0] && (available + after)[1..] == available[1..] + after;
    if available[0] != NEWLINE {
      LineEndsWithin(available[1..], after);
    }
  }

  /** At the end of the stream an unfinished line is a frame as it stands. */
  lemma AtEnd(line: seq<byte>, broken: bool, max: nat)
    requires NEWLINE !in line && |line| <= max
    ensures NextFrame(line, broken, max) == if broken then IoError else if line == [] then EndOfStream else Frame(line)
    ensures AfterFrame(line) == []
  {
    assert line + [] == line;
    LineGoesOn(line, []);
  }

  lemma AtNewline(line: seq<byte>, available: seq<byte>, after: seq<byte>, broken: bool, max: nat)
    requires NEWLINE !in line && LineLength(available, NEWLINE) < |available|
    ensures var at, left := LineLength(available, NEWLINE), line + (available + after);
            && NextFrame(left, broken, max)
                == (if |line| + at > max then TooLarge else Frame(WithoutReturn(line + available[..at])))
            && AfterFrame(left) == (available + after)[at + 1..]
  {
    hide *;
    var at := LineLength(available, NEWLINE);
    LineIsComplete(line, available, after);
    TakeAcross(line, available, after, at);
    CompleteLine(line + (available + after), |line| + at, line + available[..at],
                 (available + after)[at + 1..], broken, max);
  }

  lemma LineIsComplete(line: seq<byte>, available: seq<byte>, after: seq<byte>)
    requires NEWLINE !in line && LineLength(available, NEWLINE) < |available|
    ensures LineLength(line + (available + after), NEWLINE) == |line| + LineLength(available, NEWLINE)
    ensures |line| + LineLength(available, NEWLINE) < |line + (available + after)|
  {
    hide LineLength;
    LineGoesOn(line, available + after);
    LineEndsWithin(available, after);
  }

  lemma CompleteLine(left: seq<byte>, n: nat, line: seq<byte>, rest: seq<byte>, broken: bool, max: nat)
    requires n == LineLength(left, NEWLINE) < |left| && left[..n] == line && left[n + 1..] == rest
    ensures NextFrame(left, broken, max) == if n > max then TooLarge else Frame(WithoutReturn(line))
    ensures AfterFrame(left) == rest
  {
    hide LineLength, WithoutReturn;
  }

  lemma TakeAcross(line: seq<byte>, available: seq<byte>, after: seq<byte>, at: nat)
    requires at < |available|
    ensures (line + (available + after))[..|line| + at] == line + available[..at]
    ensures (line + (available + after))[|line| + at + 1..] == (available + after)[at + 1..]
  {
  }

  lemma BeyondBuffer(line: seq<byte>, available: seq<byte>, after: seq<byte>, broken: bool, max: nat)
    requires NEWLINE !in line && NEWLINE !in available && |line| + |available| > max
    ensures NextFrame(line + (available + after), broken, max) == TooLarge
  {
    LineGoesOn(line, available + after);
    LineGoesOn(available, after);
  }

  /**
   * The next line without its newline. The outcome depends only on the bytes left in the stream,
   * not on how the buffer was filled; `peak`, the most bytes ever held, stays within `max`.
   */
  method ReadFrame(reader: BufferedReader, max: nat) returns (outcome: Outcome, ghost peak: nat)
    requires reader.Valid()
    modifies reader
    ensures reader.Valid()
    ensures outcome == NextFrame(old(reader.Left()), reader.broken, max)
    ensures outcome.Frame? ==> reader.Left() == AfterFrame(old(reader.Left()))
    ensures peak <= max
  {
    hide NextFrame, AfterFrame, WithoutReturn, Flatten;
    ghost var left := reader.Left();
    var line: seq<byte> := [];
    peak := 0;
    assert [] + left == left;
    while true
      invariant reader.Valid()
      invariant left == line + reader.Left() && NEWLINE !in line
      invariant peak == |line| <= max
      decreases |reader.Left()|
    {
      var failed := reader.FillBuf();
      if failed || reader.buffer == [] {
        assert line + [] == line;
        AtEnd(line, reader.broken, max);
        return if failed then IoError else if line == [] then EndOfStream else Frame(line), peak;
      }
      var available := reader.buffer;
      var at := LineLength(available, NEWLINE);
      ghost var after := Flatten(reader.incoming);
      if at < |available| {
        AtNewline(line, available, after, reader.broken, max);
        if |line| + at > max { return TooLarge, peak; }
        line := line + available[..at];
        peak := |line|;
        reader.Consume(at + 1);
        return Frame(WithoutReturn(line)), peak;
      }
      LineLengthIs(available, NEWLINE, at);
      assert available[..at] == available;
      if |line| + |available| > max {
        BeyondBuffer(line, available, after, reader.broken, max);
        return TooLarge, peak;
      }
      Associative(line, available, after);
      assert (available + after)[|available|..] == after;
      reader.Consume(|available|);
      line := line + available;
      peak := |line|;
    }
  }

  // ---- A whole stream, and its writer ----

  /** Every outcome, up to the first that is not a frame. */
  function Outcomes(left: seq<byte>, broken: bool, max: nat): seq<Outcome>
    decreases |left|
  {
    var first := NextFrame(left, broken, max);
    if first.Frame? && left != [] then [first] + Outcomes(AfterFrame(left), broken, max) else [first]
  }

  /** `write_frame`, once per body. */
  function Written(bodies: seq<seq<byte>>): seq<byte> {
    if bodies == [] then [] else bodies[0] + [NEWLINE] + Written(bodies[1..])
  }

  function Received(bodies: seq<seq<byte>>): seq<Outcome> {
    if bodies == [] then [EndOfStream] else [Frame(bodies[0])] + Received(bodies[1..])
  }

  predicate Transmissible(body: seq<byte>, max: nat) {
    NEWLINE !in body && |body| <= max && (body != [] ==> body[|body| - 1] != RETURN)
  }

  lemma FirstWritten(body: seq<byte>, rest: seq<byte>, max: nat)
    ensures var left := body + [NEWLINE] + rest;
            && LineLength(left, NEWLINE) <= |body|
            && (NextFrame(left, false, max) == Frame(body) <==> Transmissible(body, max))
            && (Transmissible(body, max) ==> AfterFrame(left) == rest)
  {
    var left := body + [NEWLINE] + rest;
    assert left == body + ([NEWLINE] + rest);
    if NEWLINE !in body {
      LineGoesOn(body, [NEWLINE] + rest);
      assert left[..|body|] == body && left[|body| + 1..] == rest;
    } else {
      var n := LineLength(body, NEWLINE);
      LineLengthIs(body, NEWLINE, n);
      assert body[..|body|] == body && n < |body|;
      LineEndsWithin(body, [NEWLINE] + rest);
      assert |WithoutReturn(left[..n])| < |body|;
    }
  }

  /** One carriage return before the newline belongs to the end of the line, not to the frame. */
  lemma CarriageReturnIsDropped(body: seq<byte>, rest: seq<byte>, broken: bool, max: nat)
    requires NEWLINE !in body && |body| < max
    ensures NextFrame(body + [RETURN, NEWLINE] + rest, broken, max) == Frame(body)
    ensures AfterFrame(body + [RETURN, NEWLINE] + rest) == rest
  {
    var line, left := body + [RETURN], body + [RETURN, NEWLINE] + rest;
    assert left == line + ([NEWLINE] + rest);
    LineGoesOn(line, [NEWLINE] + rest);
    assert left[..|line|] == line && left[|line| + 1..] == rest && line[..|body|] == body;
  }

  /** Bodies come back as they were sent exactly when each of them can be sent at all. */
  lemma {:induction false} RoundTripIffTransmissible(bodies: seq<seq<byte>>, max: nat)
    ensures Outcomes(Written(bodies), false, max) == Received(bodies)
            <==> forall k :: 0 <= k < |bodies| ==> Transmissible(bodies[k], max)
    decreases |bodies|
  {
    if bodies != [] {
      var body, rest := bodies[0], bodies[1..];
      var left := Written(bodies);
      FirstWritten(body, Written(rest), max);
      RoundTripIffTransmissible(rest, max);
      hide Transmissible, NextFrame, AfterFrame, Written;
      var outcomes := Outcomes(left, false, max);
      assert Received(bodies)[0] == Frame(body) && Received(bodies)[1..] == Received(rest);
      if Transmissible(body, max) {
        assert outcomes == [Frame(body)] + Outcomes(Written(rest), false, max);
        assert outcomes[1..] == Outcomes(Written(rest), false, max);
        forall k | 0 < k < |bodies| ensures bodies[k] == rest[k - 1] {}
        assert (forall k :: 0 <= k < |rest| ==> Transmissible(rest[k], max))
           ==> (forall k :: 0 <= k < |bodies| ==> Transmissible(bodies[k], max));
        assert (forall k :: 0 <= k < |bodies| ==> Transmissible(bodies[k], max))
           ==> (forall k :: 0 <= k < |rest| ==> Transmissible(rest[k], max)) by {
          forall k | 0 <= k < |rest| ensures rest[k] == bodies[k + 1] {}
        }
      } else {
        assert outcomes[0] == NextFrame(left, false, max) != Frame(body);
      }
    }
  }
}
