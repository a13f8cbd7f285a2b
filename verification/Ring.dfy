/** The ring buffer that keeps the tail of a terminal's output (aisense-pty, ring.rs). */
module Ring {
  import opened Prelude

  const MAX_ENTRY_BYTES: nat := 65536

  type Entry = seq<byte>

  // ---- What one push does, on values ----

  /** One past the first newline of `data`, or its whole length. */
  function LineEnd(data: seq<byte>): (n: nat)
    requires data != []
    ensures 0 < n <= |data|
  {
    Min(LineLength(data, NEWLINE) + 1, |data|)
  }

  lemma LineEndIsFirstNewline(data: seq<byte>)
    requires data != []
    ensures forall i :: 0 <= i < LineEnd(data) - 1 ==> data[i] != NEWLINE
    ensures LineEnd(data) < |data| ==> data[LineEnd(data) - 1] == NEWLINE
  {
    var n := LineLength(data, NEWLINE);
    LineLengthIs(data, NEWLINE, n);
    forall i | 0 <= i < LineEnd(data) - 1 ensures data[i] != NEWLINE {
      assert data[i] in data[..n];
    }
  }

  predicate Closed(entry: Entry) {
    entry != [] && entry[|entry| - 1] == NEWLINE
  }

  /** A chunk continues the last entry when that one is open and has room. */
  function Appended(entries: seq<Entry>, chunk: Entry): seq<Entry> {
    var n := |entries|;
    if n > 0 && !Closed(entries[n - 1]) && |entries[n - 1]| + |chunk| <= MAX_ENTRY_BYTES
    then entries[..n - 1] + [entries[n - 1] + chunk]
    else entries + [chunk]
  }

  function ChunkLength(data: seq<byte>): (n: nat)
    requires data != []
    ensures 0 < n <= |data| && n <= MAX_ENTRY_BYTES
  {
    Min(LineEnd(data), MAX_ENTRY_BYTES)
  }

  function Absorbed(entries: seq<Entry>, data: seq<byte>): seq<Entry>
    decreases |data|
  {
    if data == [] then entries
    else Absorbed(Appended(entries, data[..ChunkLength(data)]), data[ChunkLength(data)..])
  }

  predicate OverLimit(entries: seq<Entry>, maxLines: nat, maxBytes: nat) {
    |entries| > maxLines || |Flatten(entries)| > maxBytes
  }

  /** Entries leave from the front until both limits are respected. */
  function Evicted(entries: seq<Entry>, maxLines: nat, maxBytes: nat): (kept: seq<Entry>)
    ensures |kept| <= |entries| && kept == entries[|entries| - |kept|..]
  {
    if entries != [] && OverLimit(entries, maxLines, maxBytes)
    then Evicted(entries[1..], maxLines, maxBytes)
    else entries
  }

  /** What is kept respects the limits, and no longer run of last entries does. */
  lemma {:induction false} EvictedIsMaximal(entries: seq<Entry>, maxLines: nat, maxBytes: nat)
    ensures !OverLimit(Evicted(entries, maxLines, maxBytes), maxLines, maxBytes)
    ensures forall i :: 0 <= i < |entries| - |Evicted(entries, maxLines, maxBytes)|
              ==> OverLimit(entries[i..], maxLines, maxBytes)
  {
    assert entries[0..] == entries;
    if entries != [] && OverLimit(entries, maxLines, maxBytes) {
      EvictedIsMaximal(entries[1..], maxLines, maxBytes);
      forall i | 1 <= i < |entries| - |Evicted(entries, maxLines, maxBytes)|
        ensures OverLimit(entries[i..], maxLines, maxBytes)
      {
        assert entries[i..] == entries[1..][i - 1..];
      }
    }
  }

  datatype RingState = RingState(entries: seq<Entry>, dropped: nat)

  function Pushed(st: RingState, data: seq<byte>, maxLines: nat, maxBytes: nat): RingState {
    var all := Absorbed(st.entries, data);
    var kept := Evicted(all, maxLines, maxBytes);
    RingState(kept, st.dropped + (|all| - |kept|))
  }

  function PushedAll(st: RingState, pieces: seq<seq<byte>>, maxLines: nat, maxBytes: nat): RingState
    decreases |pieces|
  {
    if pieces == [] then st
    else PushedAll(Pushed(st, pieces[0], maxLines, maxBytes), pieces[1..], maxLines, maxBytes)
  }

  // ---- What every ring looks like ----

  ghost predicate WellShaped(entry: Entry) {
    && 0 < |entry| <= MAX_ENTRY_BYTES
    && forall i :: 0 <= i < |entry| - 1 ==> entry[i] != NEWLINE
  }

  ghost predicate AllWellShaped(entries: seq<Entry>) {
    forall k :: 0 <= k < |entries| ==> WellShaped(entries[k])
  }

  lemma ChunkIsWellShaped(data: seq<byte>)
    requires data != []
    ensures WellShaped(data[..ChunkLength(data)])
  {
    LineEndIsFirstNewline(data);
  }

  lemma AppendedShape(entries: seq<Entry>, chunk: Entry)
    requires AllWellShaped(entries) && WellShaped(chunk)
    ensures AllWellShaped(Appended(entries, chunk))
    ensures Flatten(Appended(entries, chunk)) == Flatten(entries) + chunk
    ensures |entries| <= |Appended(entries, chunk)| <= |entries| + 1
  {
    var n := |entries|;
    if n > 0 && !Closed(entries[n - 1]) && |entries[n - 1]| + |chunk| <= MAX_ENTRY_BYTES {
      FlattenSnoc(entries[..n - 1], entries[n - 1]);
      FlattenSnoc(entries[..n - 1], entries[n - 1] + chunk);
      assert entries == entries[..n - 1] + [entries[n - 1]];
    } else {
      FlattenSnoc(entries, chunk);
    }
  }

  lemma AbsorbedStep(entries: seq<Entry>, data: seq<byte>)
    requires data != []
    ensures Absorbed(entries, data) == Absorbed(Appended(entries, data[..ChunkLength(data)]), data[ChunkLength(data)..])
  {
    hide Appended, LineEnd;
  }

  lemma Reassembled(front: seq<byte>, data: seq<byte>, n: nat)
    requires n <= |data|
    ensures (front + data[..n]) + data[n..] == front + data
  {
  }

  /** Absorbing loses and reorders nothing, and never makes an ill-shaped entry. */
  lemma {:induction false} AbsorbedShape(entries: seq<Entry>, data: seq<byte>)
    requires AllWellShaped(entries)
    ensures AllWellShaped(Absorbed(entries, data))
    ensures Flatten(Absorbed(entries, data)) == Flatten(entries) + data
    ensures |Absorbed(entries, data)| >= |entries|
    decreases |data|
  {
    if data == [] {
      assert Flatten(entries) + data == Flatten(entries);
    } else {
      hide *;
      var n := ChunkLength(data);
      ChunkIsWellShaped(data);
      AppendedShape(entries, data[..n]);
      AbsorbedStep(entries, data);
      AbsorbedShape(Appended(entries, data[..n]), data[n..]);
      Reassembled(Flatten(entries), data, n);
    }
  }

  predicate IsSuffix(tail: seq<byte>, whole: seq<byte>) {
    |tail| <= |whole| && tail == whole[|whole| - |tail|..]
  }

  lemma SuffixExtends(tail: seq<byte>, whole: seq<byte>, more: seq<byte>)
    requires IsSuffix(tail, whole)
    ensures IsSuffix(tail + more, whole + more)
  {
  }

  lemma SuffixOfSuffix(tail: seq<byte>, middle: seq<byte>, whole: seq<byte>)
    requires IsSuffix(tail, middle) && IsSuffix(middle, whole)
    ensures IsSuffix(tail, whole)
  {
  }

  lemma FlattenOfSuffix(entries: seq<Entry>, k: nat)
    requires k <= |entries|
    ensures IsSuffix(Flatten(entries[k..]), Flatten(entries))
  {
    assert entries == entries[..k] + entries[k..];
    FlattenConcat(entries[..k], entries[k..]);
  }

  /** Whatever is pushed, the history kept is the tail of what was kept plus the new bytes. */
  lemma PushedKeepsASuffix(st: RingState, data: seq<byte>, maxLines: nat, maxBytes: nat)
    requires AllWellShaped(st.entries)
    ensures var next := Pushed(st, data, maxLines, maxBytes);
            && AllWellShaped(next.entries)
            && IsSuffix(Flatten(next.entries), Flatten(st.entries) + data)
            && !OverLimit(next.entries, maxLines, maxBytes)
  {
    AbsorbedShape(st.entries, data);
    var all := Absorbed(st.entries, data);
    EvictedIsMaximal(all, maxLines, maxBytes);
    FlattenOfSuffix(all, |all| - |Evicted(all, maxLines, maxBytes)|);
  }

  // ---- Reference: the stream cut into lines, and only then truncated ----

  function Lines(stream: seq<byte>): seq<Entry> {
    if stream == [] then []
    else [stream[..LineEnd(stream)]] + Lines(stream[LineEnd(stream)..])
  }

  ghost predicate EveryLineFits(stream: seq<byte>) {
    forall k :: 0 <= k < |Lines(stream)| ==> |Lines(stream)[k]| <= MAX_ENTRY_BYTES
  }

  predicate IsChunk(chunk: seq<byte>) {
    chunk != [] && LineEnd(chunk) == |chunk|
  }

  lemma LineEndOfPrefix(data: seq<byte>)
    requires data != []
    ensures IsChunk(data[..LineEnd(data)])
  {
    LineEndIsFirstNewline(data);
    LineEndIsFirstNewline(data[..LineEnd(data)]);
  }

  /** A chunk appended after a closed first line does not change that line... */
  lemma FirstLineClosed(stream: seq<byte>, chunk: seq<byte>)
    requires stream != [] && Closed(stream[..LineEnd(stream)])
    ensures LineEnd(stream + chunk) == LineEnd(stream)
  {
    LineEndIsFirstNewline(stream);
    LineEndIsFirstNewline(stream + chunk);
    assert (stream + chunk)[LineEnd(stream) - 1] == NEWLINE;
  }

  /** ... and after an open one it belongs to it. */
  lemma FirstLineOpen(stream: seq<byte>, chunk: seq<byte>)
    requires IsChunk(chunk)
    requires stream != [] && !Closed(stream[..LineEnd(stream)])
    ensures LineEnd(stream) == |stream| && LineEnd(stream + chunk) == |stream + chunk|
  {
    LineEndIsFirstNewline(stream);
    LineEndIsFirstNewline(chunk);
    LineEndIsFirstNewline(stream + chunk);
    assert stream[LineEnd(stream) - 1] == stream[..LineEnd(stream)][LineEnd(stream) - 1];
    var at := LineEnd(stream + chunk) - 1;
    assert at >= |stream| ==> (stream + chunk)[at] == chunk[at - |stream|];
  }

  function Extended(ls: seq<Entry>, chunk: Entry): seq<Entry> {
    if ls != [] && !Closed(ls[|ls| - 1]) then ls[..|ls| - 1] + [ls[|ls| - 1] + chunk] else ls + [chunk]
  }

  /** Extending a stream by a chunk continues its last line or opens one more. */
  lemma {:induction false} LinesSnoc(stream: seq<byte>, chunk: seq<byte>)
    requires IsChunk(chunk)
    ensures Lines(stream + chunk) == Extended(Lines(stream), chunk)
    decreases |stream|
  {
    var whole := stream + chunk;
    if stream == [] {
      assert whole == chunk && chunk[..|chunk|] == chunk && chunk[|chunk|..] == [];
      assert Lines(chunk) == [chunk];
    } else if Closed(stream[..LineEnd(stream)]) {
      FirstLineClosed(stream, chunk);
      LinesSnocClosed(stream, chunk);
    } else {
      FirstLineOpen(stream, chunk);
      assert stream[..|stream|] == stream && stream[|stream|..] == [];
      assert whole[..|whole|] == whole && whole[|whole|..] == [];
      assert Lines(stream) == [stream];
      assert Lines(whole) == [whole];
    }
  }

  lemma {:induction false} LinesSnocClosed(stream: seq<byte>, chunk: seq<byte>)
    requires IsChunk(chunk)
    requires stream != [] && Closed(stream[..LineEnd(stream)]) && LineEnd(stream + chunk) == LineEnd(stream)
    ensures Lines(stream + chunk) == Extended(Lines(stream), chunk)
    decreases |stream|, 0
  {
    var n := LineEnd(stream);
    LinesSnoc(stream[n..], chunk);
    assert (stream + chunk)[..n] == stream[..n] && (stream + chunk)[n..] == stream[n..] + chunk;
    ExtendedUnderClosed(stream[..n], Lines(stream[n..]), chunk);
  }

  lemma ExtendedUnderClosed(first: Entry, rest: seq<Entry>, chunk: Entry)
    requires Closed(first)
    ensures Extended([first] + rest, chunk) == [first] + Extended(rest, chunk)
  {
    if rest != [] {
      assert ([first] + rest)[..|rest|] == [first] + rest[..|rest| - 1];
    }
  }

  lemma {:induction false} PrefixFits(stream: seq<byte>, more: seq<byte>)
    requires EveryLineFits(stream + more)
    ensures EveryLineFits(stream)
    decreases |more|
  {
    if more == [] {
      assert stream + more == stream;
    } else {
      var n := LineEnd(more);
      assert stream + more == (stream + more[..n]) + more[n..];
      PrefixFits(stream + more[..n], more[n..]);
      LineEndOfPrefix(more);
      LinesSnoc(stream, more[..n]);
      var ls, longer := Lines(stream), Lines(stream + more[..n]);
      forall k | 0 <= k < |ls| ensures |ls[k]| <= MAX_ENTRY_BYTES {
        assert |ls[k]| <= |longer[k]|;
      }
    }
  }

  /** When every line fits in an entry, absorbing piecemeal is the same as cutting the whole. */
  lemma {:induction false} AbsorbedIsLines(stream: seq<byte>, data: seq<byte>)
    requires EveryLineFits(stream + data)
    ensures Absorbed(Lines(stream), data) == Lines(stream + data)
    decreases |data|
  {
    if data == [] {
      assert stream + data == stream;
    } else {
      var n := LineEnd(data);
      var chunk := data[..n];
      assert stream + data == (stream + chunk) + data[n..];
      PrefixFits(stream + chunk, data[n..]);
      LineEndOfPrefix(data);
      LinesSnoc(stream, chunk);
      var longer := Lines(stream + chunk);
      assert |longer[|longer| - 1]| <= MAX_ENTRY_BYTES;
      assert ChunkLength(data) == n;
      assert Appended(Lines(stream), chunk) == longer;
      AbsorbedIsLines(stream + chunk, data[n..]);
    }
  }

  lemma {:induction false} AbsorbedKeepsPrefix(gone: seq<Entry>, kept: seq<Entry>, data: seq<byte>)
    requires kept != []
    ensures Absorbed(gone + kept, data) == gone + Absorbed(kept, data)
    decreases |data|
  {
    if data != [] {
      hide *;
      var n := ChunkLength(data);
      AppendedKeepsPrefix(gone, kept, data[..n]);
      AbsorbedStep(gone + kept, data);
      AbsorbedStep(kept, data);
      AbsorbedKeepsPrefix(gone, Appended(kept, data[..n]), data[n..]);
    }
  }

  lemma AppendedKeepsPrefix(gone: seq<Entry>, kept: seq<Entry>, chunk: Entry)
    requires kept != []
    ensures Appended(gone + kept, chunk) == gone + Appended(kept, chunk) && Appended(kept, chunk) != []
  {
    assert (gone + kept)[..|gone + kept| - 1] == gone + kept[..|kept| - 1];
  }

  /** Entries that are over the limit in front of `kept` stay over it when `kept` grows. */
  lemma {:induction false} EvictedSkips(gone: seq<Entry>, kept: seq<Entry>, grown: seq<Entry>, maxLines: nat,
                                        maxBytes: nat)
    requires forall i :: 0 <= i < |gone| ==> OverLimit((gone + kept)[i..], maxLines, maxBytes)
    requires |grown| >= |kept| && |Flatten(grown)| >= |Flatten(kept)|
    ensures Evicted(gone + grown, maxLines, maxBytes) == Evicted(grown, maxLines, maxBytes)
    decreases |gone|
  {
    if gone == [] {
      assert gone + grown == grown;
    } else {
      FlattenConcat(gone, kept);
      FlattenConcat(gone, grown);
      assert (gone + kept)[0..] == gone + kept;
      assert OverLimit(gone + grown, maxLines, maxBytes);
      assert (gone + grown)[1..] == gone[1..] + grown;
      forall i | 0 <= i < |gone| - 1 ensures OverLimit((gone[1..] + kept)[i..], maxLines, maxBytes) {
        assert (gone[1..] + kept)[i..] == (gone + kept)[i + 1..];
      }
      EvictedSkips(gone[1..], kept, grown, maxLines, maxBytes);
    }
  }

  /** The last lines of a stream, and how many came before them. */
  function LastLines(stream: seq<byte>, maxLines: nat, maxBytes: nat): RingState {
    var kept := Evicted(Lines(stream), maxLines, maxBytes);
    RingState(kept, |Lines(stream)| - |kept|)
  }

  lemma {:induction false} LinesAreWellShaped(stream: seq<byte>)
    requires EveryLineFits(stream)
    ensures AllWellShaped(Lines(stream)) && Flatten(Lines(stream)) == stream
  {
    var none: seq<byte> := [];
    assert none + stream == stream;
    AbsorbedIsLines([], stream);
    AbsorbedShape([], stream);
    assert Lines([]) == [];
  }

  /** A last line that does not even fit alone is either closed or can take no more bytes. */
  lemma NothingKept(stream: seq<byte>, data: seq<byte>, maxLines: nat, maxBytes: nat)
    requires EveryLineFits(stream + data) && maxLines >= 1 && maxBytes >= MAX_ENTRY_BYTES - 1
    requires Evicted(Lines(stream), maxLines, maxBytes) == [] && stream != []
    ensures Lines(stream) != [] && (data == [] || Closed(Lines(stream)[|Lines(stream)| - 1]))
  {
    hide *;
    SomeLine(stream);
    LastLineIsLong(Lines(stream), maxLines, maxBytes);
    if data != [] {
      var chunk := data[..LineEnd(data)];
      assert stream + data == (stream + chunk) + data[LineEnd(data)..];
      PrefixFits(stream + chunk, data[LineEnd(data)..]);
      LineEndOfPrefix(data);
      FullLineTakesNoMore(stream, chunk);
    }
  }

  lemma SomeLine(stream: seq<byte>)
    requires stream != []
    ensures Lines(stream) != []
  {
  }

  lemma FullLineTakesNoMore(stream: seq<byte>, chunk: seq<byte>)
    requires IsChunk(chunk) && EveryLineFits(stream + chunk)
    requires Lines(stream) != [] && |Lines(stream)[|Lines(stream)| - 1]| >= MAX_ENTRY_BYTES
    ensures Closed(Lines(stream)[|Lines(stream)| - 1])
  {
    hide IsChunk, Closed, Lines, EveryLineFits, Extended;
    LinesSnoc(stream, chunk);
    var n := |Lines(stream)|;
    if !Closed(Lines(stream)[n - 1]) {
      ExtendedLast(Lines(stream), chunk);
      FitsAt(stream + chunk, n - 1);
    }
  }

  lemma FitsAt(stream: seq<byte>, k: nat)
    requires EveryLineFits(stream) && k < |Lines(stream)|
    ensures |Lines(stream)[k]| <= MAX_ENTRY_BYTES
  {
  }

  lemma ExtendedLast(ls: seq<Entry>, chunk: Entry)
    requires ls != [] && !Closed(ls[|ls| - 1]) && IsChunk(chunk)
    ensures |Extended(ls, chunk)| == |ls| && |Extended(ls, chunk)[|ls| - 1]| > |ls[|ls| - 1]|
  {
    hide LineEnd;
  }

  lemma LastLineIsLong(entries: seq<Entry>, maxLines: nat, maxBytes: nat)
    requires entries != [] && maxLines >= 1 && Evicted(entries, maxLines, maxBytes) == []
    ensures |entries[|entries| - 1]| > maxBytes
  {
    var n := |entries|;
    assert entries[n - 1..] == [entries[n - 1]];
    FlattenOne(entries[n - 1]);
    EvictedIsMaximal(entries, maxLines, maxBytes);
    assert OverLimit(entries[n - 1..], maxLines, maxBytes);
  }

  lemma NoLines(maxLines: nat, maxBytes: nat)
    ensures Lines([]) == [] && LastLines([], maxLines, maxBytes) == RingState([], 0)
  {
  }

  lemma AbsorbedAfterClosed(gone: seq<Entry>, data: seq<byte>)
    requires gone == [] || data == [] || Closed(gone[|gone| - 1])
    ensures Absorbed(gone, data) == gone + Absorbed([], data)
  {
    if data == [] {
      assert gone + [] == gone;
    } else if gone == [] {
      assert [] + Absorbed([], data) == Absorbed([], data);
    } else {
      var chunk, rest := data[..ChunkLength(data)], data[ChunkLength(data)..];
      assert Appended([], chunk) == [] + [chunk] == [chunk];
      assert Appended(gone, chunk) == gone + [chunk];
      AbsorbedKeepsPrefix(gone, [chunk], rest);
    }
  }

  /** Entries already over the limit may leave before or after new bytes are absorbed. */
  lemma EvictionCommutes(gone: seq<Entry>, kept: seq<Entry>, data: seq<byte>, maxLines: nat, maxBytes: nat)
    requires AllWellShaped(kept)
    requires kept == [] ==> gone == [] || data == [] || Closed(gone[|gone| - 1])
    requires forall i :: 0 <= i < |gone| ==> OverLimit((gone + kept)[i..], maxLines, maxBytes)
    ensures Absorbed(gone + kept, data) == gone + Absorbed(kept, data)
    ensures Evicted(Absorbed(gone + kept, data), maxLines, maxBytes)
            == Evicted(Absorbed(kept, data), maxLines, maxBytes)
  {
    if kept == [] {
      assert gone + kept == gone;
      AbsorbedAfterClosed(gone, data);
    } else {
      AbsorbedKeepsPrefix(gone, kept, data);
    }
    AbsorbedShape(kept, data);
    EvictedSkips(gone, kept, Absorbed(kept, data), maxLines, maxBytes);
  }

  lemma PushedExtendsLastLines(stream: seq<byte>, data: seq<byte>, maxLines: nat, maxBytes: nat)
    requires maxLines >= 1 && maxBytes >= MAX_ENTRY_BYTES - 1
    requires EveryLineFits(stream + data)
    ensures Pushed(LastLines(stream, maxLines, maxBytes), data, maxLines, maxBytes)
            == LastLines(stream + data, maxLines, maxBytes)
  {
    hide Evicted, Absorbed, Lines, Flatten, OverLimit, WellShaped, EveryLineFits;
    PrefixFits(stream, data);
    AbsorbedIsLines(stream, data);
    var ls := Lines(stream);
    var kept := Evicted(ls, maxLines, maxBytes);
    var gone := ls[..|ls| - |kept|];
    assert ls == gone + kept;
    if stream != [] && kept == [] {
      NothingKept(stream, data, maxLines, maxBytes);
      assert gone == ls;
    } else if stream == [] {
      NoLines(maxLines, maxBytes);
    }
    LinesAreWellShaped(stream);
    EvictedIsMaximal(ls, maxLines, maxBytes);
    EvictionCommutes(gone, kept, data, maxLines, maxBytes);
  }

  /**
   * However the terminal's output is cut into reads, the ring ends as the last whole lines of
   * the stream: the segmentation leaves no trace in the entries nor in the drop counter.
   */
  lemma {:induction false} AnySegmentationKeepsTheLastLines(stream: seq<byte>, pieces: seq<seq<byte>>, maxLines: nat,
                                                            maxBytes: nat)
    requires maxLines >= 1 && maxBytes >= MAX_ENTRY_BYTES - 1
    requires EveryLineFits(stream + Flatten(pieces))
    ensures PushedAll(LastLines(stream, maxLines, maxBytes), pieces, maxLines, maxBytes)
            == LastLines(stream + Flatten(pieces), maxLines, maxBytes)
    decreases |pieces|
  {
    if pieces == [] {
      assert stream + Flatten(pieces) == stream;
    } else {
      var next := stream + pieces[0];
      assert stream + Flatten(pieces) == next + Flatten(pieces[1..]);
      PrefixFits(next, Flatten(pieces[1..]));
      PushedExtendsLastLines(stream, pieces[0], maxLines, maxBytes);
      AnySegmentationKeepsTheLastLines(next, pieces[1..], maxLines, maxBytes);
    }
  }

  lemma SegmentationIndependence(a: seq<seq<byte>>, b: seq<seq<byte>>, maxLines: nat, maxBytes: nat)
    requires maxLines >= 1 && maxBytes >= MAX_ENTRY_BYTES - 1
    requires Flatten(a) == Flatten(b) && EveryLineFits(Flatten(a))
    ensures PushedAll(RingState([], 0), a, maxLines, maxBytes) == PushedAll(RingState([], 0), b, maxLines, maxBytes)
  {
    assert LastLines([], maxLines, maxBytes) == RingState([], 0);
    assert [] + Flatten(a) == Flatten(a);
    AnySegmentationKeepsTheLastLines([], a, maxLines, maxBytes);
    AnySegmentationKeepsTheLastLines([], b, maxLines, maxBytes);
  }

  // ---- When nothing has to leave ----

  function AbsorbedAll(entries: seq<Entry>, pieces: seq<seq<byte>>): seq<Entry>
    decreases |pieces|
  {
    if pieces == [] then entries else AbsorbedAll(Absorbed(entries, pieces[0]), pieces[1..])
  }

  lemma {:induction false} AbsorbedAllShape(entries: seq<Entry>, pieces: seq<seq<byte>>)
    requires AllWellShaped(entries)
    ensures AllWellShaped(AbsorbedAll(entries, pieces))
    ensures Flatten(AbsorbedAll(entries, pieces)) == Flatten(entries) + Flatten(pieces)
    ensures |AbsorbedAll(entries, pieces)| >= |entries|
    decreases |pieces|
  {
    hide Absorbed, WellShaped;
    if pieces == [] {
      assert Flatten(entries) + Flatten(pieces) == Flatten(entries);
    } else {
      AbsorbedShape(entries, pieces[0]);
      AbsorbedAllShape(Absorbed(entries, pieces[0]), pieces[1..]);
      Associative(Flatten(entries), pieces[0], Flatten(pieces[1..]));
    }
  }

  /** A ring whose limits hold everything pushed keeps everything: it evicts nothing on the way. */
  lemma {:induction false} NothingLeaves(st: RingState, pieces: seq<seq<byte>>, maxLines: nat, maxBytes: nat)
    requires AllWellShaped(st.entries) && !OverLimit(AbsorbedAll(st.entries, pieces), maxLines, maxBytes)
    ensures PushedAll(st, pieces, maxLines, maxBytes) == RingState(AbsorbedAll(st.entries, pieces), st.dropped)
    ensures Flatten(PushedAll(st, pieces, maxLines, maxBytes).entries) == Flatten(st.entries) + Flatten(pieces)
    decreases |pieces|
  {
    AbsorbedAllShape(st.entries, pieces);
    if pieces != [] {
      hide Absorbed, WellShaped, Flatten;
      var all := Absorbed(st.entries, pieces[0]);
      AbsorbedShape(st.entries, pieces[0]);
      AbsorbedAllShape(all, pieces[1..]);
      PushedWithinLimits(st, pieces[0], all, maxLines, maxBytes);
      NothingLeaves(RingState(all, st.dropped), pieces[1..], maxLines, maxBytes);
    }
  }

  lemma {:induction false} PushedAllSnoc(st: RingState, pieces: seq<seq<byte>>, last: seq<byte>,
                                         maxLines: nat, maxBytes: nat)
    ensures PushedAll(st, pieces + [last], maxLines, maxBytes)
         == Pushed(PushedAll(st, pieces, maxLines, maxBytes), last, maxLines, maxBytes)
    decreases |pieces|
  {
    hide Pushed;
    if pieces == [] {
      assert pieces + [last] == [last] && [last][1..] == [];
      assert PushedAll(st, [last], maxLines, maxBytes)
          == PushedAll(Pushed(st, last, maxLines, maxBytes), [], maxLines, maxBytes);
    } else {
      assert (pieces + [last])[0] == pieces[0] && (pieces + [last])[1..] == pieces[1..] + [last];
      PushedAllSnoc(Pushed(st, pieces[0], maxLines, maxBytes), pieces[1..], last, maxLines, maxBytes);
    }
  }

  // ---- Why both hypotheses are needed ----

  lemma AbsorbedOneChunk(entries: seq<Entry>, data: seq<byte>)
    requires 0 < |data| <= MAX_ENTRY_BYTES && NEWLINE !in data
    ensures Absorbed(entries, data) == Appended(entries, data)
  {
    LineEndIsFirstNewline(data);
    assert data[..|data|] == data && data[|data|..] == [];
    hide Appended, LineEnd;
    assert Absorbed(Appended(entries, data), []) == Appended(entries, data);
  }

  lemma PushedAllOfTwo(st: RingState, a: seq<byte>, b: seq<byte>, maxLines: nat, maxBytes: nat)
    ensures PushedAll(st, [a, b], maxLines, maxBytes)
            == Pushed(Pushed(st, a, maxLines, maxBytes), b, maxLines, maxBytes)
    ensures PushedAll(st, [a], maxLines, maxBytes) == Pushed(st, a, maxLines, maxBytes)
  {
    hide Pushed;
    var one := Pushed(st, a, maxLines, maxBytes);
    assert [a, b][1..] == [b] && [b][1..] == [] && [a][1..] == [];
    assert PushedAll(st, [a, b], maxLines, maxBytes) == PushedAll(one, [b], maxLines, maxBytes);
    assert PushedAll(one, [b], maxLines, maxBytes)
        == PushedAll(Pushed(one, b, maxLines, maxBytes), [], maxLines, maxBytes);
  }

  lemma PushedWithinLimits(st: RingState, data: seq<byte>, all: seq<Entry>, maxLines: nat, maxBytes: nat)
    requires Absorbed(st.entries, data) == all && !OverLimit(all, maxLines, maxBytes)
    ensures Pushed(st, data, maxLines, maxBytes) == RingState(all, st.dropped)
  {
    hide Absorbed, OverLimit;
  }

  /** Below one entry less a byte, an unfinished line that is too long can be evicted between reads. */
  lemma SmallByteLimitKeepsATrace(a: seq<byte>, b: seq<byte>, maxLines: nat, maxBytes: nat)
    requires maxLines >= 1 && 1 <= maxBytes < MAX_ENTRY_BYTES - 1
    requires |a| == maxBytes + 1 && |b| == 1 && NEWLINE !in a && NEWLINE !in b
    ensures EveryLineFits(a + b)
    ensures PushedAll(RingState([], 0), [a, b], maxLines, maxBytes) == RingState([b], 1)
    ensures PushedAll(RingState([], 0), [a + b], maxLines, maxBytes) == RingState([], 1)
  {
    hide *;
    var start := RingState([], 0);
    PushedAllOfTwo(start, a, b, maxLines, maxBytes);
    PushedAllOfTwo(start, a + b, [], maxLines, maxBytes);
    OnlyLine(a + b);
    PushedAlone(start, a, maxLines, maxBytes);
    PushedAlone(RingState([], 1), b, maxLines, maxBytes);
    PushedAlone(start, a + b, maxLines, maxBytes);
  }

  lemma OnlyLine(line: seq<byte>)
    requires 0 < |line| <= MAX_ENTRY_BYTES && NEWLINE !in line
    ensures EveryLineFits(line)
  {
    LineEndIsFirstNewline(line);
    assert line[..|line|] == line && line[|line|..] == [];
    assert Lines(line) == [line] + Lines([]);
  }

  lemma PushedAlone(st: RingState, line: seq<byte>, maxLines: nat, maxBytes: nat)
    requires st.entries == [] && maxLines >= 1 && 0 < |line| <= MAX_ENTRY_BYTES && NEWLINE !in line
    ensures Pushed(st, line, maxLines, maxBytes)
         == if |line| > maxBytes then RingState([], st.dropped + 1) else RingState([line], st.dropped)
  {
    AbsorbedOneChunk([], line);
    assert Appended([], line) == [] + [line] == [line];
    FlattenOne(line);
    assert [line][1..] == [];
    assert Evicted([], maxLines, maxBytes) == [];
  }

  ghost predicate Independent(stream: seq<byte>, maxLines: nat, maxBytes: nat) {
    forall a: seq<seq<byte>>, b: seq<seq<byte>> :: Flatten(a) == stream && Flatten(b) == stream
      ==> PushedAll(RingState([], 0), a, maxLines, maxBytes) == PushedAll(RingState([], 0), b, maxLines, maxBytes)
  }

  /** The limits under which the cut leaves no trace of any stream whose lines fit: exactly these. */
  lemma IndependentIffLimitHoldsAnEntry(maxLines: nat, maxBytes: nat)
    requires maxLines >= 1 && maxBytes >= 1
    ensures (forall stream :: EveryLineFits(stream) ==> Independent(stream, maxLines, maxBytes))
            <==> maxBytes >= MAX_ENTRY_BYTES - 1
  {
    hide EveryLineFits, PushedAll, Flatten;
    if maxBytes >= MAX_ENTRY_BYTES - 1 {
      forall stream: seq<byte>, a: seq<seq<byte>>, b: seq<seq<byte>> | EveryLineFits(stream) && Flatten(a) == stream
          && Flatten(b) == stream
        ensures PushedAll(RingState([], 0), a, maxLines, maxBytes) == PushedAll(RingState([], 0), b, maxLines, maxBytes)
      {
        SegmentationIndependence(a, b, maxLines, maxBytes);
      }
    } else {
      var a: seq<byte>, b: seq<byte> := seq(maxBytes + 1, i => 0), [0];
      SmallByteLimitKeepsATrace(a, b, maxLines, maxBytes);
      FlattenOne(a + b);
      FlattenTwo(a, b);
      var whole := a + b;
      assert Flatten([a, b]) == whole && Flatten([whole]) == whole;
      assert EveryLineFits(whole) && !Independent(whole, maxLines, maxBytes);
    }
  }

  /** A first line longer than an entry fills one entry in one read, and breaks after its first byte in two. */
  lemma LongFirstLine(entries: seq<Entry>, stream: seq<byte>)
    requires entries == [] || Closed(entries[|entries| - 1])
    requires stream != [] && LineEnd(stream) > MAX_ENTRY_BYTES
    ensures Absorbed(entries, stream) != Absorbed(Absorbed(entries, stream[..1]), stream[1..])
  {
    hide Absorbed;
    LineEndIsFirstNewline(stream);
    var rest := stream[1..];
    assert forall i :: 0 <= i < |rest| ==> rest[i] == stream[i + 1];
    LongEntry(entries, stream, MAX_ENTRY_BYTES);
    assert stream[..1] == [stream[0]];
    AbsorbedOneChunk(entries, stream[..1]);
    assert Appended(entries, stream[..1]) == entries + [stream[..1]];
    LineEndIsFirstNewline(rest);
    assert LineEnd(rest) >= MAX_ENTRY_BYTES;
    AbsorbedBehind(entries, stream[..1], rest);
  }

  lemma LongEntry(entries: seq<Entry>, stream: seq<byte>, n: nat)
    requires entries == [] || Closed(entries[|entries| - 1])
    requires n == MAX_ENTRY_BYTES && stream != [] && LineEnd(stream) > n
    ensures |Absorbed(entries, stream)| > |entries| && Absorbed(entries, stream)[|entries|] == stream[..n]
  {
    LineEndIsFirstNewline(stream);
    assert !Closed(stream[..n]);
    assert Appended(entries, stream[..n]) == entries + [stream[..n]];
    AbsorbedBehind(entries, stream[..n], stream[n..]);
  }

  /** Whatever does not fit behind an open entry leaves that entry as it is. */
  lemma AbsorbedBehind(entries: seq<Entry>, open: Entry, data: seq<byte>)
    requires data != [] && |open| + ChunkLength(data) > MAX_ENTRY_BYTES
    ensures |Absorbed(entries + [open], data)| > |entries| && Absorbed(entries + [open], data)[|entries|] == open
  {
    var chunk, rest := data[..ChunkLength(data)], data[ChunkLength(data)..];
    assert Appended(entries + [open], chunk) == (entries + [open]) + [chunk];
    AbsorbedKeepsPrefix(entries + [open], [chunk], rest);
  }

  lemma ShortFirstLine(stream: seq<byte>)
    requires stream != [] && !EveryLineFits(stream) && LineEnd(stream) <= MAX_ENTRY_BYTES
    ensures stream[LineEnd(stream)..] != [] && !EveryLineFits(stream[LineEnd(stream)..])
            && Closed(stream[..LineEnd(stream)])
  {
    hide LineEnd;
    LineEndIsFirstNewline(stream);
    assert Lines(stream) == [stream[..LineEnd(stream)]] + Lines(stream[LineEnd(stream)..]);
  }

  /** Some cut in two shows, in the entries, that a line is longer than an entry. */
  lemma {:induction false} LongLineShows(entries: seq<Entry>, stream: seq<byte>) returns (n: nat)
    requires entries == [] || Closed(entries[|entries| - 1])
    requires !EveryLineFits(stream)
    ensures n < |stream| && Absorbed(entries, stream) != Absorbed(Absorbed(entries, stream[..n]), stream[n..])
    decreases |stream|
  {
    hide Absorbed, Appended, LineEnd, EveryLineFits, Closed;
    ShortFits(stream);
    if LineEnd(stream) > MAX_ENTRY_BYTES {
      n := 1;
      LongFirstLine(entries, stream);
    } else {
      var k := LineEnd(stream);
      ShortFirstLine(stream);
      ClosedGoesBehind(entries, stream[..k]);
      var m := LongLineShows(Appended(entries, stream[..k]), stream[k..]);
      n := k + m;
      FirstLineFirst(entries, stream, n);
      assert stream[..n][k..] == stream[k..][..m] && stream[n..] == stream[k..][m..];
    }
  }

  lemma ShortFits(stream: seq<byte>)
    ensures stream == [] ==> EveryLineFits(stream)
  {
  }

  lemma ClosedGoesBehind(entries: seq<Entry>, line: Entry)
    requires (entries == [] || Closed(entries[|entries| - 1])) && Closed(line)
    ensures Appended(entries, line) != [] && Closed(Appended(entries, line)[|Appended(entries, line)| - 1])
  {
  }

  lemma FirstLineFirst(entries: seq<Entry>, stream: seq<byte>, n: nat)
    requires stream != [] && LineEnd(stream) <= n <= |stream| && LineEnd(stream) <= MAX_ENTRY_BYTES
    ensures var k := LineEnd(stream);
            && Absorbed(entries, stream) == Absorbed(Appended(entries, stream[..k]), stream[k..])
            && Absorbed(entries, stream[..n]) == Absorbed(Appended(entries, stream[..k]), stream[..n][k..])
  {
    hide Absorbed, LineEnd, Appended;
    LineEndWithin(stream, n);
    FirstLineAbsorbed(entries, stream);
    FirstLineAbsorbed(entries, stream[..n]);
    assert stream[..n][..LineEnd(stream)] == stream[..LineEnd(stream)];
  }

  lemma LineEndWithin(stream: seq<byte>, n: nat)
    requires stream != [] && LineEnd(stream) <= n <= |stream|
    ensures LineEnd(stream[..n]) == LineEnd(stream)
  {
    hide LineEnd;
    LineEndIsFirstNewline(stream);
    LineEndIsFirstNewline(stream[..n]);
    var k, m := LineEnd(stream), LineEnd(stream[..n]);
    assert stream[..n][k - 1] == stream[k - 1] && stream[..n][m - 1] == stream[m - 1];
  }

  lemma FirstLineAbsorbed(entries: seq<Entry>, data: seq<byte>)
    requires data != [] && LineEnd(data) <= MAX_ENTRY_BYTES
    ensures Absorbed(entries, data) == Absorbed(Appended(entries, data[..LineEnd(data)]), data[LineEnd(data)..])
  {
    hide LineEnd, Appended;
  }

  /** The ring holds the stream: it evicts nothing, however the stream is cut in two. */
  ghost predicate HoldsWhole(stream: seq<byte>, maxLines: nat, maxBytes: nat) {
    && |stream| <= maxBytes
    && forall n :: 0 <= n <= |stream| ==>
         && |Absorbed([], stream[..n])| <= maxLines
         && |Absorbed(Absorbed([], stream[..n]), stream[n..])| <= maxLines
  }

  /** A line longer than an entry shows the cut in every ring that holds the whole stream. */
  lemma LongLineKeepsATrace(stream: seq<byte>, maxLines: nat, maxBytes: nat)
    requires !EveryLineFits(stream) && HoldsWhole(stream, maxLines, maxBytes)
    ensures !Independent(stream, maxLines, maxBytes)
  {
    hide *;
    var n := LongLineShows([], stream);
    var a, b := stream[..n], stream[n..];
    assert a + b == stream;
    FlattenTwo(a, b);
    FlattenOne(stream);
    PushedInTwo(stream, n, maxLines, maxBytes);
    NotIndependent(stream, [a, b], [stream], maxLines, maxBytes);
  }

  lemma NotIndependent(stream: seq<byte>, a: seq<seq<byte>>, b: seq<seq<byte>>, maxLines: nat, maxBytes: nat)
    requires Flatten(a) == stream && Flatten(b) == stream
    requires PushedAll(RingState([], 0), a, maxLines, maxBytes) != PushedAll(RingState([], 0), b, maxLines, maxBytes)
    ensures !Independent(stream, maxLines, maxBytes)
  {
    hide PushedAll, Flatten;
  }

  lemma PushedInTwo(stream: seq<byte>, n: nat, maxLines: nat, maxBytes: nat)
    requires HoldsWhole(stream, maxLines, maxBytes) && n <= |stream|
    ensures PushedAll(RingState([], 0), [stream[..n], stream[n..]], maxLines, maxBytes)
         == RingState(Absorbed(Absorbed([], stream[..n]), stream[n..]), 0)
    ensures PushedAll(RingState([], 0), [stream], maxLines, maxBytes) == RingState(Absorbed([], stream), 0)
  {
    assert Flatten<byte>([]) == [] && stream[..|stream|] == stream;
    HoldsCut(stream, n, maxLines, maxBytes);
    HoldsCut(stream, |stream|, maxLines, maxBytes);
    hide Absorbed, PushedAll, Flatten, Pushed, WellShaped, HoldsWhole;
    var start, a, b := RingState([], 0), stream[..n], stream[n..];
    PushedAllOfTwo(start, a, b, maxLines, maxBytes);
    PushedAllOfTwo(start, stream, [], maxLines, maxBytes);
    PushedWhole([], a, maxLines, maxBytes);
    PushedWhole(Absorbed([], a), b, maxLines, maxBytes);
    PushedWhole([], stream, maxLines, maxBytes);
  }

  lemma HoldsCut(stream: seq<byte>, n: nat, maxLines: nat, maxBytes: nat)
    requires HoldsWhole(stream, maxLines, maxBytes) && n <= |stream|
    ensures |stream| <= maxBytes && |Absorbed([], stream[..n])| <= maxLines
    ensures |Absorbed(Absorbed([], stream[..n]), stream[n..])| <= maxLines
  {
    hide Absorbed;
  }

  lemma PushedWhole(entries: seq<Entry>, data: seq<byte>, maxLines: nat, maxBytes: nat)
    requires AllWellShaped(entries) && |Flatten(entries)| + |data| <= maxBytes && |Absorbed(entries, data)| <= maxLines
    ensures Pushed(RingState(entries, 0), data, maxLines, maxBytes) == RingState(Absorbed(entries, data), 0)
    ensures AllWellShaped(Absorbed(entries, data)) && |Flatten(Absorbed(entries, data))| == |Flatten(entries)| + |data|
  {
    AbsorbedShape(entries, data);
    hide Absorbed, Pushed, Flatten, WellShaped;
    PushedWithinLimits(RingState(entries, 0), data, Absorbed(entries, data), maxLines, maxBytes);
  }

  const DEFAULT_MAX_LINES: nat := 10_000
  const DEFAULT_MAX_BYTES: nat := 8 * 1024 * 1024

  /** In particular one line of an entry and a byte, in the ring every terminal has. */
  lemma DefaultRingKeepsATrace(stream: seq<byte>)
    requires |stream| == MAX_ENTRY_BYTES + 1 && NEWLINE !in stream
    ensures !Independent(stream, DEFAULT_MAX_LINES, DEFAULT_MAX_BYTES)
  {
    hide Absorbed, Independent, EveryLineFits;
    TooLongAlone(stream);
    forall n | 0 <= n <= |stream|
      ensures |Absorbed([], stream[..n])| <= 3 && |Absorbed(Absorbed([], stream[..n]), stream[n..])| <= 6
    {
      EntriesOfOneLine([], stream[..n]);
      EntriesOfOneLine(Absorbed([], stream[..n]), stream[n..]);
    }
    LongLineKeepsATrace(stream, DEFAULT_MAX_LINES, DEFAULT_MAX_BYTES);
  }

  lemma TooLongAlone(stream: seq<byte>)
    requires |stream| == MAX_ENTRY_BYTES + 1 && NEWLINE !in stream
    ensures !EveryLineFits(stream)
  {
    LineEndIsFirstNewline(stream);
    assert Lines(stream)[0] == stream[..LineEnd(stream)];
  }

  lemma {:induction false} EntriesOfOneLine(entries: seq<Entry>, data: seq<byte>)
    requires NEWLINE !in data
    ensures |Absorbed(entries, data)| <= |entries| + |data| / MAX_ENTRY_BYTES + 1
    decreases |data|
  {
    if data != [] {
      LineEndIsFirstNewline(data);
      var n := ChunkLength(data);
      assert n == Min(|data|, MAX_ENTRY_BYTES);
      AbsorbedStep(entries, data);
      hide Absorbed, LineEnd;
      if n < |data| {
        EntriesOfOneLine(Appended(entries, data[..n]), data[n..]);
      } else {
        assert data[n..] == [];
        NothingAbsorbed(Appended(entries, data[..n]));
      }
    }
  }

  lemma NothingAbsorbed(entries: seq<Entry>)
    ensures Absorbed(entries, []) == entries
  {
  }

  lemma LargeRingHoldsWhole(stream: seq<byte>, maxLines: nat, maxBytes: nat)
    requires maxLines >= |stream| && maxBytes >= |stream|
    ensures HoldsWhole(stream, maxLines, maxBytes)
  {
    hide Absorbed, WellShaped;
    forall n | 0 <= n <= |stream|
      ensures |Absorbed([], stream[..n])| <= maxLines && |Absorbed(Absorbed([], stream[..n]), stream[n..])| <= maxLines
    {
      AbsorbedShape([], stream[..n]);
      AbsorbedShape(Absorbed([], stream[..n]), stream[n..]);
      EntriesAreFew(Absorbed([], stream[..n]));
      EntriesAreFew(Absorbed(Absorbed([], stream[..n]), stream[n..]));
    }
  }

  lemma {:induction false} EntriesAreFew(entries: seq<Entry>)
    requires AllWellShaped(entries)
    ensures |entries| <= |Flatten(entries)|
  {
    if entries != [] { EntriesAreFew(entries[1..]); }
  }

  /**
   * The streams whose cut leaves no trace, in every ring whose byte limit holds an entry: those
   * whose lines all fit.
   */
  lemma IndependentIffEveryLineFits(stream: seq<byte>)
    ensures (forall maxLines: nat, maxBytes: nat :: maxLines >= 1 && maxBytes >= MAX_ENTRY_BYTES - 1
               ==> Independent(stream, maxLines, maxBytes))
       <==> EveryLineFits(stream)
  {
    hide EveryLineFits, Independent;
    if EveryLineFits(stream) {
      forall maxLines: nat, maxBytes: nat | maxLines >= 1 && maxBytes >= MAX_ENTRY_BYTES - 1
        ensures Independent(stream, maxLines, maxBytes)
      {
        IndependentIffLimitHoldsAnEntry(maxLines, maxBytes);
      }
    } else {
      var most := |stream| + MAX_ENTRY_BYTES;
      LargeRingHoldsWhole(stream, most, most);
      LongLineKeepsATrace(stream, most, most);
    }
  }

  // ---- The buffer itself ----

  class RingBuffer {
    var entries: seq<Entry>
    var bytes: nat
    var dropped: nat
    const maxLines: nat
    const maxBytes: nat
    /** Everything pushed since the last clear. */
    ghost var stream: seq<byte>

    ghost predicate Valid()
      reads this
    {
      && maxLines >= 1 && maxBytes >= 1
      && AllWellShaped(entries)
      && bytes == |Flatten(entries)|
      && !OverLimit(entries, maxLines, maxBytes)
      && IsSuffix(Flatten(entries), stream)
    }

    ghost function State(): RingState
      reads this
    {
      RingState(entries, dropped)
    }

    constructor (maxLines: nat, maxBytes: nat)
      ensures Valid() && State() == RingState([], 0) && stream == []
      ensures this.maxLines == Max(maxLines, 1) && this.maxBytes == Max(maxBytes, 1)
    {
      this.maxLines := Max(maxLines, 1);
      this.maxBytes := Max(maxBytes, 1);
      entries, bytes, dropped, stream := [], 0, 0, [];
    }

    method Push(data: seq<byte>)
      requires Valid()
      modifies this
      ensures Valid() && stream == old(stream) + data
      ensures State() == Pushed(old(State()), data, maxLines, maxBytes)
    {
      PushedKeepsASuffix(State(), data, maxLines, maxBytes);
      SuffixExtends(Flatten(entries), stream, data);
      var rest := data;
      while rest != []
        invariant AllWellShaped(entries)
        invariant bytes == |Flatten(entries)|
        invariant Absorbed(entries, rest) == Absorbed(old(entries), data)
        invariant dropped == old(dropped) && stream == old(stream)
        decreases |rest|
      {
        var n := Min(LineEnd(rest), MAX_ENTRY_BYTES);
        ghost var before, left := entries, rest;
        ChunkIsWellShaped(rest);
        PushChunk(rest[..n]);
        rest := rest[n..];
        assert Absorbed(before, left) == Absorbed(entries, rest);
      }
      stream := stream + data;
      Evict();
      SuffixOfSuffix(Flatten(entries), Flatten(old(entries)) + data, stream);
    }

    method PushChunk(chunk: Entry)
      requires AllWellShaped(entries) && bytes == |Flatten(entries)| && WellShaped(chunk)
      modifies this`entries, this`bytes
      ensures entries == Appended(old(entries), chunk)
      ensures AllWellShaped(entries) && bytes == |Flatten(entries)|
    {
      AppendedShape(entries, chunk);
      var count := |entries|;
      if count > 0 && !Closed(entries[count - 1]) && |entries[count - 1]| + |chunk| <= MAX_ENTRY_BYTES {
        entries := entries[..count - 1] + [entries[count - 1] + chunk];
      } else {
        entries := entries + [chunk];
      }
      bytes := bytes + |chunk|;
    }

    method Evict()
      requires maxLines >= 1 && maxBytes >= 1
      requires AllWellShaped(entries) && bytes == |Flatten(entries)|
      modifies this`entries, this`bytes, this`dropped
      ensures entries == Evicted(old(entries), maxLines, maxBytes)
      ensures AllWellShaped(entries) && bytes == |Flatten(entries)|
      ensures dropped == old(dropped) + |old(entries)| - |entries|
    {
      while |entries| > maxLines || bytes > maxBytes
        invariant AllWellShaped(entries) && bytes == |Flatten(entries)|
        invariant |entries| <= |old(entries)|
        invariant Evicted(entries, maxLines, maxBytes) == Evicted(old(entries), maxLines, maxBytes)
        invariant dropped == old(dropped) + |old(entries)| - |entries|
        decreases |entries|
      {
        if entries == [] { break; }
        bytes := bytes - |entries[0]|;
        entries := entries[1..];
        dropped := dropped + 1;
      }
    }

    /** Everything retained, in order: always the end of what was pushed since the last clear. */
    method Snapshot() returns (out: seq<byte>)
      requires Valid()
      ensures out == Flatten(entries) && |out| == bytes <= maxBytes
      ensures IsSuffix(out, stream)
    {
      out := [];
      for i := 0 to |entries|
        invariant out == Flatten(entries[..i])
      {
        FlattenSnoc(entries[..i], entries[i]);
        assert entries[..i + 1] == entries[..i] + [entries[i]];
        out := out + entries[i];
      }
      assert entries[..|entries|] == entries;
    }

    method Clear()
      requires Valid()
      modifies this`entries, this`bytes, this`stream
      ensures Valid() && State() == RingState([], old(dropped)) && stream == []
    {
      entries, bytes, stream := [], 0, [];
    }
  }
}
