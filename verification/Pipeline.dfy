/**
 * From the terminal to the panel: the reader thread, the broadcast channel, the pump task and the
 * interface, as one state machine over their interleaved steps (session.rs, manager.rs).
 */
module Pipeline {
  import opened Prelude
  import Ring
  import Batching

  /** The reader pushes a chunk to the ring, then sends it; at end of file it signals `done`. */
  datatype Reader = Reading | InRing(chunk: seq<byte>) | Done

  /** Where the pump task is. `finished` is its loop flag, `last` says it is in the final drain. */
  datatype Pump =
    | Starting
    | Selecting
    | Received(chunk: seq<byte>, last: bool)
    | Pushing(chunk: seq<byte>, last: bool)
    | Polling(finished: bool)
    | Emitting(lot: seq<byte>, finished: bool)
    | Draining
    | Closing
    | Delivering(lot: seq<byte>)
    | Exiting
    | Gone

  datatype Event = Raw(bytes: seq<byte>) | Data(bytes: seq<byte>) | Exit

  /**
   * A panel filled by `show`: the snapshot it got, how much of the stream had been read by then,
   * what was in flight and from where the batcher went on, and the data delivered since.
   */
  datatype View = View(snapshot: seq<byte>, end: nat, inFlight: seq<byte>, from: int, delivered: seq<byte>)

  datatype Config = Config(maxLines: nat, maxBytes: nat, capacity: nat, window: nat)

  datatype State = State(
    stream: seq<byte>,        // every byte the reader has read
    ring: Ring.RingState,
    reader: Reader,
    queue: seq<seq<byte>>,    // sent and not yet received
    lagged: bool,             // the receiver has yet to be told that it was overrun
    lost: nat,                // bytes overwritten in the channel
    pump: Pump,
    batch: Batching.BatchState,
    showing: bool,            // `show` holds the batcher's lock
    hidden: bool,             // the panel was invisible at some point
    sink: seq<Event>,
    view: Option<View>)

  function Init(visible: bool): State {
    State([], Ring.RingState([], 0), Reading, [], false, 0, Starting,
          Batching.WithVisible(Batching.FRESH, visible), false, !visible, [], None)
  }

  datatype Step =
    | Read(chunk: seq<byte>) | Send | Finish
    | Start | Receive | Lag | SeeDone | Sleep | EmitRaw | Push | Poll(at: nat) | EmitData
    | FindEmpty | Drain(at: nat) | Deliver | Quit
    | SetVisible(on: bool) | ShowBegin | ShowEnd | Clear

  predicate Enabled(s: State, step: Step) {
    match step
    case Read(chunk) => s.reader.Reading? && chunk != []
    case Send => s.reader.InRing?
    case Finish => s.reader.Reading?
    case Start => s.pump.Starting?
    case Receive => (s.pump.Selecting? || s.pump.Draining?) && !s.lagged && s.queue != []
    case Lag => (s.pump.Selecting? || s.pump.Draining?) && s.lagged
    case SeeDone => s.pump.Selecting? && s.reader.Done?
    case Sleep => s.pump.Selecting?
    case EmitRaw => s.pump.Received?
    case Push => s.pump.Pushing? && !s.showing
    case Poll(_) => s.pump.Polling? && !s.showing
    case EmitData => s.pump.Emitting?
    case FindEmpty => s.pump.Draining? && !s.lagged && s.queue == []
    case Drain(_) => s.pump.Closing? && !s.showing
    case Deliver => s.pump.Delivering?
    case Quit => s.pump.Exiting?
    case SetVisible(_) => !s.showing
    case ShowBegin => !s.showing
    case ShowEnd => s.showing
    case Clear => true
  }

  function RawOf(sink: seq<Event>): seq<byte> {
    if sink == [] then []
    else RawOf(sink[..|sink| - 1]) + (if sink[|sink| - 1].Raw? then sink[|sink| - 1].bytes else [])
  }

  function DataOf(sink: seq<Event>): seq<byte> {
    if sink == [] then []
    else DataOf(sink[..|sink| - 1]) + (if sink[|sink| - 1].Data? then sink[|sink| - 1].bytes else [])
  }

  /** A lot that left the batcher and has not reached the sink yet. */
  function InFlight(pump: Pump): seq<byte> {
    if pump.Emitting? || pump.Delivering? then pump.lot else []
  }

  /** How many bytes of the stream the batcher was given (kept or, when hidden, ignored). */
  function Taken(s: State): int {
    |RawOf(s.sink)| - |AtDoor(s.pump)|
  }

  /** A chunk the sink has seen raw and the batcher not yet. */
  function AtDoor(pump: Pump): seq<byte> {
    if pump.Pushing? then pump.chunk else []
  }

  function AfterLoop(finished: bool): Pump { if finished then Draining else Selecting }

  function WithSent(c: Config, s: State, chunk: seq<byte>): State {
    var queue := s.queue + [chunk];
    if |queue| > c.capacity
    then s.(reader := Reading, queue := queue[1..], lagged := true, lost := s.lost + |queue[0]|)
    else s.(reader := Reading, queue := queue)
  }

  function WithData(s: State, lot: seq<byte>, pump: Pump): State {
    s.(pump := pump, sink := s.sink + [Data(lot)],
       view := if s.view.Some? then Some(s.view.value.(delivered := s.view.value.delivered + lot)) else None)
  }

  function Next(c: Config, s: State, step: Step): State
    requires Enabled(s, step)
  {
    match step
    case Read(chunk) =>
      s.(stream := s.stream + chunk,
         ring := Ring.Pushed(s.ring, chunk, c.maxLines, c.maxBytes), reader := InRing(chunk))
    case Send => WithSent(c, s, s.reader.chunk)
    case Finish => s.(reader := Done)
    case Start => s.(pump := AfterLoop(s.reader.Done?))
    case Receive => s.(pump := Received(s.queue[0], s.pump.Draining?), queue := s.queue[1..])
    case Lag => s.(pump := if s.pump.Draining? then Draining else Polling(false), lagged := false)
    case SeeDone => s.(pump := Polling(true))
    case Sleep => s.(pump := Polling(false))
    case EmitRaw => s.(pump := Pushing(s.pump.chunk, s.pump.last), sink := s.sink + [Raw(s.pump.chunk)])
    case Push => s.(pump := if s.pump.last then Draining else Polling(false),
                     batch := Batching.WithChunk(s.batch, s.pump.chunk))
    case Poll(at) =>
      if Batching.Ready(s.batch, c.window, at)
      then s.(pump := Emitting(s.batch.pending, s.pump.finished), batch := Batching.Flushed(s.batch, at))
      else s.(pump := AfterLoop(s.pump.finished))
    case EmitData => WithData(s, s.pump.lot, AfterLoop(s.pump.finished))
    case FindEmpty => s.(pump := Closing)
    case Drain(at) =>
      if s.batch.pending == [] then s.(pump := Exiting)
      else s.(pump := Delivering(s.batch.pending), batch := Batching.Flushed(s.batch, at))
    case Deliver => WithData(s, s.pump.lot, Exiting)
    case Quit => s.(pump := Gone, sink := s.sink + [Exit])
    case SetVisible(on) =>
      s.(batch := Batching.WithVisible(s.batch, on), hidden := s.hidden || !on, view := if on then s.view else None)
    case ShowBegin => s.(batch := Batching.WithVisible(s.batch, true), showing := true)
    case ShowEnd =>
      s.(showing := false,
         view := Some(View(Flatten(s.ring.entries), |s.stream|, InFlight(s.pump), Taken(s) - |s.batch.pending|, [])))
    case Clear => s.(ring := s.ring.(entries := []))
  }

  // ---- Nothing is lost between the reader and the sink ----

  function Unsent(reader: Reader): seq<byte> {
    if reader.InRing? then reader.chunk else []
  }

  function InHand(pump: Pump): seq<byte> {
    if pump.Received? then pump.chunk else []
  }

  function Pipe(s: State): seq<byte> {
    RawOf(s.sink) + InHand(s.pump) + Flatten(s.queue) + Unsent(s.reader)
  }

  ghost predicate Flow(s: State) {
    && |Pipe(s)| + s.lost == |s.stream|
    && (s.lost == 0 ==> Pipe(s) == s.stream)
    && (forall k :: 0 <= k < |s.queue| ==> s.queue[k] != [])
    && (s.reader.InRing? ==> s.reader.chunk != [])
  }

  /** The final drain starts after end of file, and leaves the channel empty for good. */
  ghost predicate Phases(s: State) {
    && (s.pump.Draining? || s.pump.Closing? || s.pump.Delivering? || s.pump.Exiting? || s.pump.Gone? ==> s.reader.Done?)
    && ((s.pump.Received? || s.pump.Pushing?) && s.pump.last ==> s.reader.Done?)
    && ((s.pump.Polling? || s.pump.Emitting?) && s.pump.finished ==> s.reader.Done?)
    && (s.pump.Closing? || s.pump.Delivering? || s.pump.Exiting? || s.pump.Gone? ==> s.queue == [])
    && (s.pump.Delivering? || s.pump.Exiting? || s.pump.Gone? ==> s.batch.pending == [])
    && (!s.batch.visible ==> s.batch.pending == [])
    && (s.showing ==> s.batch.visible)
  }

  ghost predicate ExitIsLast(s: State) {
    && (s.pump.Gone? <==> s.sink != [] && s.sink[|s.sink| - 1] == Exit)
    && (forall k :: 0 <= k < |s.sink| - 1 ==> s.sink[k] != Exit)
  }

  ghost predicate RingIsTail(s: State) {
    Ring.AllWellShaped(s.ring.entries) && Ring.IsSuffix(Flatten(s.ring.entries), s.stream)
  }

  lemma RawOfSnoc(sink: seq<Event>, e: Event)
    ensures RawOf(sink + [e]) == RawOf(sink) + (if e.Raw? then e.bytes else [])
    ensures DataOf(sink + [e]) == DataOf(sink) + (if e.Data? then e.bytes else [])
  {
    assert (sink + [e])[..|sink|] == sink;
  }

  predicate TouchesPipe(step: Step) {
    step.Read? || step.Send? || step.Receive? || step.EmitRaw?
  }

  lemma StepKeepsFlow(c: Config, s: State, step: Step)
    requires Enabled(s, step) && Flow(s)
    ensures Flow(Next(c, s, step))
  {
    hide Flow, Next, Enabled;
    match step {
      case Send => SendKeepsFlow(c, s, step);
      case Receive => ReceiveKeepsFlow(c, s);
      case Read(chunk) => ReadKeepsFlow(c, s, chunk);
      case EmitRaw => EmitRawKeepsFlow(c, s);
      case _ => QuietStepKeepsFlow(c, s, step);
    }
  }

  lemma QuietStepKeepsFlow(c: Config, s: State, step: Step)
    requires Enabled(s, step) && !TouchesPipe(step) && Flow(s)
    ensures Flow(Next(c, s, step))
  {
    QuietStep(c, s, step);
    hide RawOf, Flatten, Next, Enabled;
  }

  lemma QuietStep(c: Config, s: State, step: Step)
    requires Enabled(s, step) && !TouchesPipe(step)
    ensures var s' := Next(c, s, step);
            && RawOf(s'.sink) == RawOf(s.sink) && InHand(s'.pump) == InHand(s.pump)
            && s'.queue == s.queue && s'.stream == s.stream && s'.lost == s.lost
            && (s'.reader == s.reader || (s.reader.Reading? && s'.reader.Done?))
  {
    hide RawOf, DataOf, Batching.Flushed, Batching.Ready, Batching.WithChunk, Batching.WithVisible;
    if step.EmitData? || step.Deliver? {
      RawOfSnoc(s.sink, Data(s.pump.lot));
    } else if step.Quit? {
      RawOfSnoc(s.sink, Exit);
    }
  }

  lemma ReadKeepsFlow(c: Config, s: State, chunk: seq<byte>)
    requires Enabled(s, Read(chunk)) && Flow(s)
    ensures Flow(Next(c, s, Read(chunk)))
  {
    hide RawOf, Flatten, Ring.Pushed;
    assert Pipe(Next(c, s, Read(chunk))) == Pipe(s) + chunk;
  }

  lemma EmitRawKeepsFlow(c: Config, s: State)
    requires Enabled(s, EmitRaw) && Flow(s)
    ensures Flow(Next(c, s, EmitRaw))
  {
    hide RawOf, Flatten;
    RawOfSnoc(s.sink, Raw(s.pump.chunk));
    assert Pipe(Next(c, s, EmitRaw)) == Pipe(s);
  }

  lemma SendKeepsFlow(c: Config, s: State, step: Step)
    requires Enabled(s, step) && step.Send? && Flow(s)
    ensures Flow(Next(c, s, step))
  {
    hide RawOf, DataOf;
    var queue := s.queue + [s.reader.chunk];
    FlattenSnoc(s.queue, s.reader.chunk);
    assert RawOf(s.sink) + InHand(s.pump) + Flatten(queue) + [] == Pipe(s);
    if |queue| > c.capacity {
      assert Flatten(queue) == queue[0] + Flatten(queue[1..]);
      assert queue[0] != [];
    }
  }

  lemma ReceiveKeepsFlow(c: Config, s: State)
    requires Enabled(s, Receive) && Flow(s)
    ensures Flow(Next(c, s, Receive))
  {
    hide RawOf, DataOf;
    assert Flatten(s.queue) == s.queue[0] + Flatten(s.queue[1..]);
    assert Pipe(Next(c, s, Receive)) == Pipe(s);
  }

  lemma StepKeepsPhases(c: Config, s: State, step: Step)
    requires Enabled(s, step) && Phases(s)
    ensures Phases(Next(c, s, step))
  {
    hide RawOf, DataOf, Flatten, Ring.Pushed;
  }

  /** What a step tells the sink. */
  function Told(s: State, step: Step): seq<Event>
    requires Enabled(s, step)
  {
    match step
    case EmitRaw => [Raw(s.pump.chunk)]
    case EmitData => [Data(s.pump.lot)]
    case Deliver => [Data(s.pump.lot)]
    case Quit => [Exit]
    case _ => []
  }

  lemma SinkHears(c: Config, s: State, step: Step)
    requires Enabled(s, step)
    ensures Next(c, s, step).sink == s.sink + Told(s, step)
    ensures Told(s, step) != [] ==> !s.pump.Gone? && |Told(s, step)| == 1
    ensures Next(c, s, step).pump.Gone? <==> s.pump.Gone? || Told(s, step) == [Exit]
  {
    hide Ring.Pushed, Batching.Flushed, Batching.Ready, Batching.WithChunk, Batching.WithVisible;
  }

  lemma StepKeepsExitLast(c: Config, s: State, step: Step)
    requires Enabled(s, step) && ExitIsLast(s)
    ensures ExitIsLast(Next(c, s, step))
  {
    hide Next, Enabled, Told;
    SinkHears(c, s, step);
  }

  lemma StepKeepsRing(c: Config, s: State, step: Step)
    requires Enabled(s, step) && RingIsTail(s)
    ensures RingIsTail(Next(c, s, step))
  {
    match step {
      case Read(chunk) =>
        Ring.PushedKeepsASuffix(s.ring, chunk, c.maxLines, c.maxBytes);
        Ring.SuffixExtends(Flatten(s.ring.entries), s.stream, chunk);
        Ring.SuffixOfSuffix(Flatten(Ring.Pushed(s.ring, chunk, c.maxLines, c.maxBytes).entries),
                            Flatten(s.ring.entries) + chunk, s.stream + chunk);
      case _ =>
    }
  }

  // ---- Where the batcher's bytes come from ----

  ghost predicate Slice(piece: seq<byte>, stream: seq<byte>, at: int) {
    0 <= at && at + |piece| <= |stream| && stream[at..at + |piece|] == piece
  }

  ghost predicate PushesWhatWasRaw(s: State) {
    Ring.IsSuffix(AtDoor(s.pump), RawOf(s.sink))
  }

  /** The bytes the batcher has, ready to go and still pending. */
  function Lot(s: State): (seq<byte>, seq<byte>) { (InFlight(s.pump), s.batch.pending) }

  /** Pending bytes are the last ones taken; those in flight were taken before them. */
  ghost predicate Placed(lot: (seq<byte>, seq<byte>), stream: seq<byte>, taken: int) {
    && Slice(lot.1, stream, taken - |lot.1|)
    && exists at :: Slice(lot.0, stream, at) && at + |lot.0| <= taken - |lot.1|
  }

  ghost predicate Held(s: State) {
    PushesWhatWasRaw(s) && (s.lost == 0 ==> Placed(Lot(s), s.stream, Taken(s)))
  }

  lemma PlacedGrows(lot: (seq<byte>, seq<byte>), stream: seq<byte>, more: seq<byte>, taken: int)
    requires Placed(lot, stream, taken)
    ensures Placed(lot, stream + more, taken)
  {
    var at :| Slice(lot.0, stream, at) && at + |lot.0| <= taken - |lot.1|;
    assert Slice(lot.0, stream + more, at);
  }

  lemma PlacedAfterPush(pending: seq<byte>, chunk: seq<byte>, stream: seq<byte>, taken: int)
    requires Placed(([], pending), stream, taken) && Slice(chunk, stream, taken)
    ensures Placed(([], pending + chunk), stream, taken + |chunk|)
    ensures Placed(([], []), stream, taken + |chunk|)
  {
    assert Slice([], stream, 0);
  }

  lemma PlacedAfterRelease(pending: seq<byte>, stream: seq<byte>, taken: int)
    requires Placed(([], pending), stream, taken)
    ensures Placed((pending, []), stream, taken)
  {
    assert Slice(pending, stream, taken - |pending|);
  }

  lemma PlacedAfterLoss(lot: (seq<byte>, seq<byte>), stream: seq<byte>, taken: int)
    requires Placed(lot, stream, taken)
    ensures Placed((lot.0, []), stream, taken) && Placed(([], lot.1), stream, taken)
  {
    var at :| Slice(lot.0, stream, at) && at + |lot.0| <= taken - |lot.1|;
    assert Slice([], stream, 0);
  }

  function DeliveredBy(s: State, step: Step): seq<byte>
    requires Enabled(s, step)
  {
    if step.EmitData? || step.Deliver? then s.pump.lot else []
  }

  function ReadBy(step: Step): seq<byte> {
    if step.Read? then step.chunk else []
  }

  lemma TakenEffect(c: Config, s: State, step: Step)
    requires Enabled(s, step)
    ensures Next(c, s, step).stream == s.stream + ReadBy(step)
    ensures Taken(Next(c, s, step)) == Taken(s) + (if step.Push? then |s.pump.chunk| else 0)
  {
    RawGrowth(c, s, step);
    DoorAfter(c, s, step);
    StreamAfter(c, s, step);
    hide RawOf, Next, Enabled, AtDoor;
  }

  lemma StreamAfter(c: Config, s: State, step: Step)
    requires Enabled(s, step)
    ensures Next(c, s, step).stream == s.stream + ReadBy(step) && Next(c, s, step).lost >= s.lost
  {
    hide Ring.Pushed, Batching.Flushed, Batching.Ready, Batching.WithChunk, Batching.WithVisible, RawOf;
    assert s.stream + [] == s.stream;
  }

  lemma DoorAfter(c: Config, s: State, step: Step)
    requires Enabled(s, step)
    ensures AtDoor(Next(c, s, step).pump)
            == if step.EmitRaw? then s.pump.chunk else if step.Push? then [] else AtDoor(s.pump)
    ensures step.EmitRaw? ==> AtDoor(s.pump) == []
    ensures step.Push? ==> AtDoor(s.pump) == s.pump.chunk
  {
    hide Ring.Pushed, Batching.Flushed, Batching.Ready, Batching.WithChunk, Batching.WithVisible;
  }

  lemma PushEffect(c: Config, s: State)
    requires Enabled(s, Push)
    ensures Lot(s) == ([], s.batch.pending)
    ensures Lot(Next(c, s, Push)) == ([], s.batch.pending + (if s.batch.visible then s.pump.chunk else []))
  {
    assert s.batch.pending + [] == s.batch.pending;
  }

  lemma ReleaseEffect(c: Config, s: State, step: Step)
    requires Enabled(s, step) && (step.Poll? || step.Drain?)
    ensures Lot(s) == ([], s.batch.pending)
    ensures Lot(Next(c, s, step)) == Lot(s) || Lot(Next(c, s, step)) == (s.batch.pending, [])
  {
  }

  lemma HideEffect(c: Config, s: State, step: Step)
    requires Enabled(s, step) && step.SetVisible?
    ensures Lot(Next(c, s, step)) == Lot(s) || (!step.on && Lot(Next(c, s, step)) == (InFlight(s.pump), []))
  {
  }

  lemma DeliverEffect(c: Config, s: State, step: Step)
    requires Enabled(s, step) && (step.EmitData? || step.Deliver?)
    ensures Lot(s) == (DeliveredBy(s, step), s.batch.pending) && Lot(Next(c, s, step)) == ([], s.batch.pending)
  {
  }

  lemma NoEffect(c: Config, s: State, step: Step)
    requires Enabled(s, step)
    requires !step.Push? && !step.Poll? && !step.Drain? && !step.SetVisible? && !step.EmitData? && !step.Deliver?
    ensures Lot(Next(c, s, step)) == Lot(s) && DeliveredBy(s, step) == []
  {
    hide Ring.Pushed;
  }

  lemma RawGrowth(c: Config, s: State, step: Step)
    requires Enabled(s, step)
    ensures RawOf(Next(c, s, step).sink) == RawOf(s.sink) + (if step.EmitRaw? then s.pump.chunk else [])
    ensures DataOf(Next(c, s, step).sink) == DataOf(s.sink) + DeliveredBy(s, step)
  {
    SinkHears(c, s, step);
    WhatIsTold(s, step);
    hide Next, RawOf, DataOf, Enabled, Told, DeliveredBy;
    if Told(s, step) != [] {
      RawOfSnoc(s.sink, Told(s, step)[0]);
      assert s.sink + Told(s, step) == s.sink + [Told(s, step)[0]];
    } else {
      assert s.sink + [] == s.sink;
    }
  }

  lemma WhatIsTold(s: State, step: Step)
    requires Enabled(s, step)
    ensures Told(s, step) == [] ==> !step.EmitRaw? && DeliveredBy(s, step) == []
    ensures Told(s, step) != [] ==>
              var e := Told(s, step)[0];
              && (if e.Raw? then e.bytes else []) == (if step.EmitRaw? then s.pump.chunk else [])
              && (if e.Data? then e.bytes else []) == DeliveredBy(s, step)
  {
  }

  lemma StepKeepsHeld(c: Config, s: State, step: Step)
    requires Enabled(s, step) && Flow(s) && Phases(s) && Held(s)
    ensures Held(Next(c, s, step))
  {
    StepKeepsPushesRaw(c, s, step);
    StreamAfter(c, s, step);
    if Next(c, s, step).lost == 0 {
      StepKeepsPlaced(c, s, step);
    }
  }

  lemma StepKeepsPlaced(c: Config, s: State, step: Step)
    requires Enabled(s, step) && Flow(s) && Phases(s) && PushesWhatWasRaw(s)
    requires s.lost == 0 && Placed(Lot(s), s.stream, Taken(s))
    ensures var s' := Next(c, s, step); Placed(Lot(s'), s'.stream, Taken(s'))
  {
    hide Next, Taken, InFlight, Placed, Lot, Flow, DeliveredBy;
    TakenEffect(c, s, step);
    match step {
      case Push =>
        PushEffect(c, s);
        PushedChunkIsNext(s);
        PlacedAfterPush(s.batch.pending, s.pump.chunk, s.stream, Taken(s));
        assert s.batch.pending + [] == s.batch.pending;
      case Poll(_) => ReleaseEffect(c, s, step); PlacedAfterRelease(s.batch.pending, s.stream, Taken(s));
      case Drain(_) => ReleaseEffect(c, s, step); PlacedAfterRelease(s.batch.pending, s.stream, Taken(s));
      case SetVisible(_) => LotOf(s); HideEffect(c, s, step); PlacedAfterLoss(Lot(s), s.stream, Taken(s));
      case EmitData => DeliverEffect(c, s, step); PlacedAfterLoss(Lot(s), s.stream, Taken(s));
      case Deliver => DeliverEffect(c, s, step); PlacedAfterLoss(Lot(s), s.stream, Taken(s));
      case _ =>
        NoEffect(c, s, step);
        PlacedGrows(Lot(s), s.stream, ReadBy(step), Taken(s));
    }
    assert s.stream + [] == s.stream;
  }

  lemma LotOf(s: State)
    ensures Lot(s) == (InFlight(s.pump), s.batch.pending)
  {
  }

  lemma StepKeepsPushesRaw(c: Config, s: State, step: Step)
    requires Enabled(s, step) && PushesWhatWasRaw(s)
    ensures PushesWhatWasRaw(Next(c, s, step))
  {
    hide RawOf, Next, Enabled, AtDoor, DeliveredBy, Ring.IsSuffix;
    RawGrowth(c, s, step);
    DoorAfter(c, s, step);
    LastIsSuffix(RawOf(s.sink), AtDoor(Next(c, s, step).pump));
    assert RawOf(s.sink) + [] == RawOf(s.sink);
  }

  lemma LastIsSuffix(whole: seq<byte>, more: seq<byte>)
    ensures Ring.IsSuffix(more, whole + more) && Ring.IsSuffix([], whole)
  {
  }

  /** With nothing lost, the chunk about to be pushed is the next piece of the stream. */
  lemma PushedChunkIsNext(s: State)
    requires Flow(s) && PushesWhatWasRaw(s) && s.lost == 0 && s.pump.Pushing?
    ensures Slice(s.pump.chunk, s.stream, Taken(s))
  {
    hide RawOf, Flatten;
    assert Pipe(s)[..|RawOf(s.sink)|] == RawOf(s.sink);
  }

  // ---- What a panel has received ----

  /** Delivered, in flight and pending bytes are `old`, then the stream from `from` on. */
  ghost predicate Covers(s: State, delivered: seq<byte>, stale: seq<byte>, from: int) {
    && 0 <= from <= Taken(s) <= |s.stream|
    && delivered + Lot(s).0 + Lot(s).1 == stale + s.stream[from..Taken(s)]
  }

  lemma TakenIsRead(s: State)
    requires Flow(s) && PushesWhatWasRaw(s) && s.lost == 0
    ensures 0 <= Taken(s) <= |s.stream|
  {
    hide RawOf, Flatten;
  }

  lemma CoversAfterPush(stream: seq<byte>, from: int, taken: int, chunk: seq<byte>)
    requires 0 <= from <= taken && Slice(chunk, stream, taken)
    ensures stream[from..taken + |chunk|] == stream[from..taken] + chunk
  {
  }

  lemma StepKeepsCover(c: Config, s: State, step: Step, delivered: seq<byte>, stale: seq<byte>, from: int)
    requires Enabled(s, step) && Flow(s) && PushesWhatWasRaw(s) && s.lost == 0
    requires s.batch.visible && step != SetVisible(false)
    requires Covers(s, delivered, stale, from)
    ensures Covers(Next(c, s, step), delivered + DeliveredBy(s, step), stale, from)
  {
    hide Next, Taken, InFlight, Lot, Flow, DeliveredBy, PushesWhatWasRaw;
    TakenEffect(c, s, step);
    NotDelivered(s, step);
    var s' := Next(c, s, step);
    assert delivered + [] == delivered && s.stream + [] == s.stream;
    match step {
      case Push =>
        PushEffect(c, s);
        PushedChunkIsNext(s);
        CoversAfterPush(s.stream, from, Taken(s), s.pump.chunk);
        Associative(delivered + [], s.batch.pending, s.pump.chunk);
        Associative(stale, s.stream[from..Taken(s)], s.pump.chunk);
        assert delivered + [] + s.batch.pending == stale + s.stream[from..Taken(s)];
      case Poll(_) => ReleaseEffect(c, s, step);
      case Drain(_) => ReleaseEffect(c, s, step);
      case SetVisible(_) => HideEffect(c, s, step);
      case EmitData => DeliverEffect(c, s, step);
      case Deliver => DeliverEffect(c, s, step);
      case _ =>
        NoEffect(c, s, step);
        assert s'.stream[from..Taken(s)] == s.stream[from..Taken(s)];
    }
  }

  lemma NotDelivered(s: State, step: Step)
    requires Enabled(s, step)
    ensures !step.EmitData? && !step.Deliver? ==> DeliveredBy(s, step) == []
    ensures step.Push? ==> s.pump.Pushing?
  {
  }

  /** A snapshot that ends at `end`, a batcher that went on from before it, a lot older than that. */
  ghost predicate Anchored(v: View, stream: seq<byte>) {
    && v.from <= v.end <= |stream|
    && Ring.IsSuffix(v.snapshot, stream[..v.end])
    && exists at :: Slice(v.inFlight, stream, at) && at + |v.inFlight| <= v.from
  }

  lemma AnchoredGrows(v: View, delivered: seq<byte>, stream: seq<byte>, more: seq<byte>)
    requires Anchored(v, stream)
    ensures Anchored(v.(delivered := delivered), stream + more)
  {
    var at :| Slice(v.inFlight, stream, at) && at + |v.inFlight| <= v.from;
    assert Slice(v.inFlight, stream + more, at);
    assert (stream + more)[..v.end] == stream[..v.end];
  }

  ghost predicate ViewHolds(s: State) {
    s.lost == 0 && s.view.Some? ==>
      var v := s.view.value;
      s.batch.visible && Anchored(v, s.stream) && Covers(s, v.delivered, v.inFlight, v.from)
  }

  ghost predicate AlwaysShown(s: State) {
    s.lost == 0 && !s.hidden ==> s.batch.visible && Covers(s, DataOf(s.sink), [], 0)
  }

  function ViewNow(s: State): View {
    View(Flatten(s.ring.entries), |s.stream|, Lot(s).0, Taken(s) - |Lot(s).1|, [])
  }

  lemma ViewAfterShow(c: Config, s: State)
    requires Enabled(s, ShowEnd)
    ensures Next(c, s, ShowEnd).view == Some(ViewNow(s)) && Next(c, s, ShowEnd).batch == s.batch && s.showing
    ensures Lot(Next(c, s, ShowEnd)) == Lot(s)
  {
    hide Taken, Flatten;
  }

  lemma ViewAfter(c: Config, s: State, step: Step)
    requires Enabled(s, step) && !step.ShowEnd? && step != SetVisible(false)
    ensures Next(c, s, step).view
            == if s.view.None? then None
               else Some(s.view.value.(delivered := s.view.value.delivered + DeliveredBy(s, step)))
  {
    hide Ring.Pushed, RawOf, Taken, Flatten, Batching.Flushed, Batching.Ready, Batching.WithChunk, Batching.WithVisible;
    if s.view.Some? { assert s.view.value.delivered + [] == s.view.value.delivered; }
  }

  lemma VisibilityAfter(c: Config, s: State, step: Step)
    requires Enabled(s, step)
    ensures s.hidden ==> Next(c, s, step).hidden
    ensures step == SetVisible(false) ==> Next(c, s, step).view.None? && Next(c, s, step).hidden
    ensures s.batch.visible && step != SetVisible(false) ==> Next(c, s, step).batch.visible
  {
    hide Ring.Pushed, RawOf, Taken, Flatten;
  }

  lemma StepKeepsView(c: Config, s: State, step: Step)
    requires Enabled(s, step) && Flow(s) && Phases(s) && RingIsTail(s) && Held(s) && ViewHolds(s)
    ensures ViewHolds(Next(c, s, step))
  {
    hide Next, Enabled, Flow, DeliveredBy, RingIsTail, Covers, Anchored;
    var s' := Next(c, s, step);
    StreamAfter(c, s, step);
    VisibilityAfter(c, s, step);
    if s'.lost == 0 && s'.view.Some? {
      if step.ShowEnd? {
        ShowStarts(c, s);
      } else {
        ViewAfter(c, s, step);
        var v := s.view.value;
        StepKeepsCover(c, s, step, v.delivered, v.inFlight, v.from);
        AnchoredGrows(v, v.delivered + DeliveredBy(s, step), s.stream, ReadBy(step));
      }
    }
  }

  lemma ShowStarts(c: Config, s: State)
    requires Enabled(s, ShowEnd) && Flow(s) && Phases(s) && RingIsTail(s) && Held(s) && s.lost == 0
    ensures ViewHolds(Next(c, s, ShowEnd))
  {
    TakenIsRead(s);
    ViewAfterShow(c, s);
    TakenEffect(c, s, ShowEnd);
    ViewNowHolds(s);
    hide Next, Flow, Taken, Lot, Flatten, Anchored;
    assert s.stream + [] == s.stream;
  }

  lemma ViewNowHolds(s: State)
    requires RingIsTail(s) && Held(s) && s.lost == 0 && 0 <= Taken(s) <= |s.stream|
    ensures Anchored(ViewNow(s), s.stream)
    ensures Covers(s, [], Lot(s).0, Taken(s) - |Lot(s).1|)
  {
    hide Taken, Lot, Flatten;
    assert s.stream[..|s.stream|] == s.stream;
  }

  lemma StepKeepsAlwaysShown(c: Config, s: State, step: Step)
    requires Enabled(s, step) && Flow(s) && Held(s) && AlwaysShown(s)
    ensures AlwaysShown(Next(c, s, step))
  {
    hide Next, Enabled, Flow, DeliveredBy, Covers, DataOf;
    StreamAfter(c, s, step);
    VisibilityAfter(c, s, step);
    RawGrowth(c, s, step);
    var s' := Next(c, s, step);
    if s'.lost == 0 && !s'.hidden && step != SetVisible(false) {
      StepKeepsCover(c, s, step, DataOf(s.sink), [], 0);
    }
  }

  // ---- Every run ----

  ghost predicate Inv(s: State) {
    Flow(s) && Phases(s) && ExitIsLast(s) && RingIsTail(s) && Held(s) && ViewHolds(s) && AlwaysShown(s)
  }

  lemma StepKeepsInv(c: Config, s: State, step: Step)
    requires Enabled(s, step) && Inv(s)
    ensures Inv(Next(c, s, step))
  {
    hide Next, Enabled, Flow, Phases, ExitIsLast, RingIsTail, Held, ViewHolds, AlwaysShown;
    StepKeepsFlow(c, s, step);
    StepKeepsPhases(c, s, step);
    StepKeepsExitLast(c, s, step);
    StepKeepsRing(c, s, step);
    StepKeepsHeld(c, s, step);
    StepKeepsView(c, s, step);
    StepKeepsAlwaysShown(c, s, step);
  }

  /** One interleaving: every step is enabled where it is taken. */
  ghost predicate Legal(c: Config, s: State, steps: seq<Step>)
    decreases |steps|
  {
    steps == [] || (Enabled(s, steps[0]) && Legal(c, Next(c, s, steps[0]), steps[1..]))
  }

  function After(c: Config, s: State, steps: seq<Step>): State
    requires Legal(c, s, steps)
    decreases |steps|
  {
    if steps == [] then s else After(c, Next(c, s, steps[0]), steps[1..])
  }

  lemma {:induction false} RunKeepsInv(c: Config, s: State, steps: seq<Step>)
    requires Inv(s) && Legal(c, s, steps)
    ensures Inv(After(c, s, steps))
    decreases |steps|
  {
    hide Inv, Next, Enabled;
    if steps != [] {
      StepKeepsInv(c, s, steps[0]);
      RunKeepsInv(c, Next(c, s, steps[0]), steps[1..]);
    }
  }

  lemma InitHolds(visible: bool)
    ensures Inv(Init(visible))
  {
    var s := Init(visible);
    assert Slice([], s.stream, 0);
    assert Ring.IsSuffix([], []);
  }

  /** The end of a run: the exit is told once, after everything else. */
  lemma AtExit(s: State)
    requires Inv(s) && Exit in s.sink
    ensures s.pump.Gone? && s.reader.Done?
    ensures s.sink[|s.sink| - 1] == Exit && forall k :: 0 <= k < |s.sink| - 1 ==> s.sink[k] != Exit
    ensures Lot(s) == ([], []) && Taken(s) == |RawOf(s.sink)|
    ensures |RawOf(s.sink)| + s.lost == |s.stream| && (s.lost == 0 ==> RawOf(s.sink) == s.stream)
  {
    hide RawOf, Ring.IsSuffix, Ring.AllWellShaped, Covers, ViewHolds, AlwaysShown;
    var at :| 0 <= at < |s.sink| && s.sink[at] == Exit;
    assert Flatten(s.queue) == [];
    assert Pipe(s) == RawOf(s.sink);
  }

  /**
   * Once the exit was told: it was told once and last, the sink has seen the reader's bytes raw,
   * all and in order, exactly if the channel overwrote none, and a panel that was visible
   * throughout got the whole stream as data.
   */
  ghost predicate Complete(s: State) {
    && s.reader.Done?
    && s.sink != [] && s.sink[|s.sink| - 1] == Exit && (forall k :: 0 <= k < |s.sink| - 1 ==> s.sink[k] != Exit)
    && (RawOf(s.sink) == s.stream <==> s.lost == 0)
    && (s.lost == 0 && !s.hidden ==> DataOf(s.sink) == s.stream)
  }

  lemma ExitedIsComplete(s: State)
    requires Inv(s) && Exit in s.sink
    ensures Complete(s)
  {
    AtExit(s);
    hide RawOf, DataOf, Flow, Phases, ExitIsLast, RingIsTail, Held, ViewHolds, Taken, Lot;
    if s.lost == 0 && !s.hidden {
      assert Covers(s, DataOf(s.sink), [], 0);
      assert DataOf(s.sink) + [] + [] == DataOf(s.sink) && [] + s.stream[0..|s.stream|] == s.stream;
    }
  }

  /** In every interleaving, the exit comes last and nothing is missing. */
  lemma ExitComesLast(c: Config, visible: bool, steps: seq<Step>)
    requires Legal(c, Init(visible), steps)
    ensures var s := After(c, Init(visible), steps); Exit in s.sink ==> Complete(s)
  {
    hide *;
    InitHolds(visible);
    RunKeepsInv(c, Init(visible), steps);
    var s := After(c, Init(visible), steps);
    if Exit in s.sink {
      ExitedIsComplete(s);
    }
  }

  // ---- What `show` answers ----

  /** The reads since the last clear, told by the steps alone. */
  function HistoryAfter(history: seq<seq<byte>>, steps: seq<Step>): seq<seq<byte>>
    decreases |steps|
  {
    if steps == [] then history
    else
      HistoryAfter(match steps[0]
                   case Read(chunk) => history + [chunk]
                   case Clear => []
                   case _ => history,
                   steps[1..])
  }

  /** Every read there was. */
  function ReadsIn(steps: seq<Step>): seq<byte> {
    if steps == [] then []
    else (if steps[0].Read? then steps[0].chunk else []) + ReadsIn(steps[1..])
  }

  /** The ring holds what the reads since the last clear leave in a ring of its limits. */
  ghost predicate Remembers(c: Config, s: State, history: seq<seq<byte>>) {
    s.ring.entries == Ring.PushedAll(Ring.RingState([], 0), history, c.maxLines, c.maxBytes).entries
  }

  lemma PushedIgnoresCounter(c: Config, entries: seq<seq<byte>>, a: nat, b: nat, chunk: seq<byte>)
    ensures Ring.Pushed(Ring.RingState(entries, a), chunk, c.maxLines, c.maxBytes).entries
         == Ring.Pushed(Ring.RingState(entries, b), chunk, c.maxLines, c.maxBytes).entries
  {
    hide Ring.Absorbed, Ring.Evicted;
  }

  lemma StepRemembers(c: Config, s: State, step: Step, history: seq<seq<byte>>)
    requires Enabled(s, step) && Remembers(c, s, history)
    ensures Remembers(c, Next(c, s, step), HistoryAfter(history, [step]))
    ensures Next(c, s, step).stream == s.stream + ReadsIn([step])
  {
    assert [step][1..] == [];
    match step {
      case Read(chunk) =>
        var kept := Ring.PushedAll(Ring.RingState([], 0), history, c.maxLines, c.maxBytes);
        Ring.PushedAllSnoc(Ring.RingState([], 0), history, chunk, c.maxLines, c.maxBytes);
        PushedIgnoresCounter(c, kept.entries, kept.dropped, s.ring.dropped, chunk);
        hide Ring.PushedAll, Ring.Pushed;
        assert chunk + [] == chunk;
      case _ =>
        hide Batching.Flushed, Batching.Ready, Batching.WithChunk, Batching.WithVisible;
    }
  }

  lemma HistoryHead(history: seq<seq<byte>>, steps: seq<Step>)
    requires steps != []
    ensures HistoryAfter(history, steps) == HistoryAfter(HistoryAfter(history, [steps[0]]), steps[1..])
    ensures ReadsIn(steps) == ReadsIn([steps[0]]) + ReadsIn(steps[1..])
  {
    var head := [steps[0]];
    assert head[1..] == [];
    assert ReadsIn(head) == (if steps[0].Read? then steps[0].chunk else []) + ReadsIn([]);
  }

  lemma {:induction false} RunRemembers(c: Config, s: State, steps: seq<Step>, history: seq<seq<byte>>)
    requires Legal(c, s, steps) && Remembers(c, s, history)
    ensures Remembers(c, After(c, s, steps), HistoryAfter(history, steps))
    ensures After(c, s, steps).stream == s.stream + ReadsIn(steps)
    decreases |steps|
  {
    hide Enabled, Next, Remembers;
    if steps == [] {
      assert s.stream + [] == s.stream;
    } else {
      StepRemembers(c, s, steps[0], history);
      HistoryHead(history, steps);
      hide HistoryAfter, ReadsIn;
      RunRemembers(c, Next(c, s, steps[0]), steps[1..], HistoryAfter(history, [steps[0]]));
      Associative(s.stream, ReadsIn([steps[0]]), ReadsIn(steps[1..]));
    }
  }

  /**
   * At any moment of any run, `show` answers with the history: all that was read since the last
   * clear, if the limits hold it, and otherwise, when every line fits an entry, its last whole lines.
   */
  lemma ShowAnswersTheHistory(c: Config, visible: bool, steps: seq<Step>)
    requires Legal(c, Init(visible), steps) && Enabled(After(c, Init(visible), steps), ShowEnd)
    ensures var shown := Next(c, After(c, Init(visible), steps), ShowEnd);
            var history := HistoryAfter([], steps);
            && shown.stream == ReadsIn(steps)
            && shown.view.Some? && shown.view.value.end == |shown.stream|
            && IsHistory(c, shown.view.value.snapshot, history)
  {
    var s := After(c, Init(visible), steps);
    assert Remembers(c, Init(visible), []);
    assert Init(visible).stream == [];
    hide Next, Enabled, Init;
    RunRemembers(c, Init(visible), steps, []);
    assert [] + ReadsIn(steps) == ReadsIn(steps);
    SnapshotTaken(c, s);
    HistoryIsRight(c, HistoryAfter([], steps));
  }

  ghost predicate IsHistory(c: Config, snapshot: seq<byte>, history: seq<seq<byte>>) {
    && (!Ring.OverLimit(Ring.AbsorbedAll([], history), c.maxLines, c.maxBytes) ==> snapshot == Flatten(history))
    && (c.maxLines >= 1 && c.maxBytes >= Ring.MAX_ENTRY_BYTES - 1 && Ring.EveryLineFits(Flatten(history))
        ==> snapshot == Flatten(Ring.LastLines(Flatten(history), c.maxLines, c.maxBytes).entries))
  }

  lemma SnapshotTaken(c: Config, s: State)
    requires Enabled(s, ShowEnd)
    ensures var t := Next(c, s, ShowEnd);
            && t.stream == s.stream && t.view.Some?
            && t.view.value.end == |s.stream| && t.view.value.snapshot == Flatten(s.ring.entries)
  {
  }

  lemma HistoryIsRight(c: Config, history: seq<seq<byte>>)
    ensures var ring := Ring.PushedAll(Ring.RingState([], 0), history, c.maxLines, c.maxBytes);
            IsHistory(c, Flatten(ring.entries), history)
  {
    hide Ring.PushedAll, Ring.AbsorbedAll, Ring.LastLines, Ring.OverLimit, Ring.EveryLineFits;
    if !Ring.OverLimit(Ring.AbsorbedAll([], history), c.maxLines, c.maxBytes) {
      Ring.NothingLeaves(Ring.RingState([], 0), history, c.maxLines, c.maxBytes);
    }
    if c.maxLines >= 1 && c.maxBytes >= Ring.MAX_ENTRY_BYTES - 1 && Ring.EveryLineFits(Flatten(history)) {
      Ring.NoLines(c.maxLines, c.maxBytes);
      assert [] + Flatten(history) == Flatten(history);
      Ring.AnySegmentationKeepsTheLastLines([], history, c.maxLines, c.maxBytes);
    }
  }

  /** Until the panel is hidden or shown again, its snapshot stays what `show` answered. */
  lemma SnapshotStays(c: Config, s: State, step: Step)
    requires Enabled(s, step) && step != ShowEnd && Next(c, s, step).view.Some?
    ensures s.view.Some?
    ensures var v, w := s.view.value, Next(c, s, step).view.value;
            w.snapshot == v.snapshot && w.end == v.end && w.from == v.from && w.inFlight == v.inFlight
            && w.delivered == v.delivered + DeliveredBy(s, step)
  {
    hide Next, Enabled;
    if step == SetVisible(false) {
      VisibilityAfter(c, s, step);
    } else {
      ViewAfter(c, s, step);
    }
  }

  // ---- When data moves, and when it does not ----

  /** The pump's poll hands over all that is pending, once a window has passed since the last time. */
  lemma ReadyDataIsEmitted(c: Config, s: State, at: nat)
    requires Enabled(s, Poll(at)) && s.batch.pending != []
    ensures var next := Next(c, s, Poll(at));
            if s.batch.lastFlush.None? || c.window == 0 || at >= s.batch.lastFlush.value + c.window
            then next.pump == Emitting(s.batch.pending, s.pump.finished) && next.batch.pending == []
                 && next.batch.lastFlush == Some(at)
            else next.batch == s.batch && next.sink == s.sink && !next.pump.Emitting?
  {
  }

  ghost predicate StaysHidden(steps: seq<Step>) {
    forall k :: 0 <= k < |steps| ==> steps[k] != SetVisible(true) && !steps[k].ShowBegin?
  }

  ghost predicate Quiet(s: State) {
    !s.batch.visible && s.batch.pending == [] && InFlight(s.pump) == [] && !s.showing
  }

  /** A hidden panel is sent nothing until it is shown again, though the raw output goes on. */
  lemma {:induction false} HiddenPanelGetsNothing(c: Config, s: State, steps: seq<Step>)
    requires Quiet(s) && Legal(c, s, steps) && StaysHidden(steps)
    ensures DataOf(After(c, s, steps).sink) == DataOf(s.sink) && Quiet(After(c, s, steps))
    decreases |steps|
  {
    hide Enabled, Next, Quiet, DataOf;
    if steps != [] {
      assert steps[0] != SetVisible(true) && !steps[0].ShowBegin?;
      assert forall k :: 0 <= k < |steps| - 1 ==> steps[1..][k] == steps[k + 1];
      StepStaysQuiet(c, s, steps[0]);
      HiddenPanelGetsNothing(c, Next(c, s, steps[0]), steps[1..]);
    }
  }

  lemma StepStaysQuiet(c: Config, s: State, step: Step)
    requires Quiet(s) && Enabled(s, step) && step != SetVisible(true) && !step.ShowBegin?
    ensures Quiet(Next(c, s, step)) && DataOf(Next(c, s, step).sink) == DataOf(s.sink)
  {
    hide Next, RawOf, DataOf, Quiet, DeliveredBy, Enabled;
    RawGrowth(c, s, step);
    QuietDelivers(s, step);
    BatchStaysQuiet(c, s, step);
    assert DataOf(s.sink) + [] == DataOf(s.sink);
  }

  lemma QuietDelivers(s: State, step: Step)
    requires Quiet(s) && Enabled(s, step)
    ensures DeliveredBy(s, step) == []
  {
  }

  lemma BatchStaysQuiet(c: Config, s: State, step: Step)
    requires Quiet(s) && Enabled(s, step) && step != SetVisible(true) && !step.ShowBegin?
    ensures Quiet(Next(c, s, step))
  {
    hide Ring.Pushed, RawOf, DataOf, Flatten, WithSent;
    SentIsQuiet(c, s);
  }

  lemma SentIsQuiet(c: Config, s: State)
    ensures forall chunk :: var t := WithSent(c, s, chunk);
              t.batch == s.batch && t.pump == s.pump && t.showing == s.showing
  {
  }

  // ---- Loss is possible ----

  lemma {:induction false} Continued(c: Config, s: State, steps: seq<Step>, more: seq<Step>)
    requires Legal(c, s, steps) && Legal(c, After(c, s, steps), more)
    ensures Legal(c, s, steps + more) && After(c, s, steps + more) == After(c, After(c, s, steps), more)
    decreases |steps|
  {
    hide Enabled, Next;
    if steps == [] {
      assert steps + more == more;
    } else {
      assert (steps + more)[0] == steps[0] && (steps + more)[1..] == steps[1..] + more;
      Continued(c, Next(c, s, steps[0]), steps[1..], more);
    }
  }

  lemma First(c: Config, s: State, step: Step, more: seq<Step>)
    requires Enabled(s, step) && Legal(c, Next(c, s, step), more)
    ensures Legal(c, s, [step] + more) && After(c, s, [step] + more) == After(c, Next(c, s, step), more)
  {
    hide Enabled, Next;
    assert ([step] + more)[1..] == more;
  }

  /** As long as the pump has not started, reading on overruns the channel. */
  lemma {:induction false} ReadUntilOverrun(c: Config, s: State, chunk: seq<byte>) returns (steps: seq<Step>)
    requires s.reader.Reading? && s.pump.Starting? && !s.showing && chunk != []
    requires |s.queue| <= c.capacity && forall k :: 0 <= k < |s.queue| ==> s.queue[k] != []
    ensures Legal(c, s, steps)
    ensures var t := After(c, s, steps); t.reader.Reading? && t.pump.Starting? && !t.showing && t.lagged && t.lost > 0
    decreases c.capacity - |s.queue|
  {
    hide Ring.Pushed;
    var read := Next(c, s, Read(chunk));
    var sent := Next(c, read, Send);
    var more: seq<Step> := [];
    if |s.queue| < c.capacity {
      more := ReadUntilOverrun(c, sent, chunk);
    }
    First(c, read, Send, more);
    First(c, s, Read(chunk), [Send] + more);
    steps := [Read(chunk)] + ([Send] + more);
  }

  /** The final drain takes what is left in the channel, and ends. */
  lemma {:induction false} DrainToTheEnd(c: Config, s: State) returns (steps: seq<Step>)
    requires s.pump.Draining? && !s.lagged && !s.showing
    ensures Legal(c, s, steps) && Exit in After(c, s, steps).sink && After(c, s, steps).lost == s.lost
    decreases |s.queue|
  {
    hide Batching.Flushed, Batching.WithChunk;
    if s.queue != [] {
      var received := Next(c, s, Receive);
      var told := Next(c, received, EmitRaw);
      var more := DrainToTheEnd(c, Next(c, told, Push));
      hide Next, Enabled;
      First(c, told, Push, more);
      First(c, received, EmitRaw, [Push] + more);
      First(c, s, Receive, [EmitRaw] + ([Push] + more));
      steps := [Receive] + ([EmitRaw] + ([Push] + more));
    } else {
      steps := Leave(c, s);
    }
  }

  lemma Leave(c: Config, s: State) returns (steps: seq<Step>)
    requires s.pump.Draining? && !s.lagged && !s.showing && s.queue == []
    ensures Legal(c, s, steps) && Exit in After(c, s, steps).sink && After(c, s, steps).lost == s.lost
  {
    hide Batching.Flushed;
    var closing := Next(c, s, FindEmpty);
    var drained := Next(c, closing, Drain(0));
    var deliver := if drained.pump.Delivering? then [Deliver] else [];
    var exiting := if drained.pump.Delivering? then Next(c, drained, Deliver) else drained;
    assert Next(c, exiting, Quit).sink[|exiting.sink|] == Exit;
    First(c, exiting, Quit, []);
    if drained.pump.Delivering? {
      First(c, drained, Deliver, [Quit]);
    }
    assert [] + [Quit] == [Quit] && [Quit] + [] == [Quit];
    First(c, closing, Drain(0), deliver + [Quit]);
    First(c, s, FindEmpty, [Drain(0)] + (deliver + [Quit]));
    steps := [FindEmpty] + ([Drain(0)] + (deliver + [Quit]));
  }

  /** Whatever the channel's capacity, there is a run in which `raw` is not complete when the exit is told. */
  lemma OverrunsLoseOutput(c: Config, visible: bool) returns (steps: seq<Step>)
    ensures Legal(c, Init(visible), steps)
    ensures var s := After(c, Init(visible), steps); Exit in s.sink && s.lost > 0 && RawOf(s.sink) != s.stream
  {
    var fill := ReadUntilOverrun(c, Init(visible), [0]);
    var full := After(c, Init(visible), fill);
    var done := Next(c, full, Finish);
    var started := Next(c, done, Start);
    var drain := DrainToTheEnd(c, Next(c, started, Lag));
    First(c, started, Lag, drain);
    First(c, done, Start, [Lag] + drain);
    First(c, full, Finish, [Start] + ([Lag] + drain));
    Continued(c, Init(visible), fill, [Finish] + ([Start] + ([Lag] + drain)));
    steps := fill + ([Finish] + ([Start] + ([Lag] + drain)));
    ExitComesLast(c, visible, steps);
  }

  /**
   * The snapshot ends where the reader was when `show` ran, and the data sent since, after at most
   * one stale lot, goes on from a point the snapshot already covers: what repeats had been read
   * into the ring by then. `complete` says that the data goes on to the end of the stream.
   */
  ghost predicate NoGap(v: View, stream: seq<byte>, complete: bool) {
    && 0 <= v.from <= v.end <= |stream|
    && Ring.IsSuffix(v.snapshot, stream[..v.end])
    && (exists at :: Slice(v.inFlight, stream, at) && at + |v.inFlight| <= v.from)
    && v.delivered <= v.inFlight + stream[v.from..]
    && (complete ==> v.delivered == v.inFlight + stream[v.from..])
  }

  lemma ViewHasNoGap(s: State)
    requires Inv(s) && s.lost == 0 && s.view.Some?
    ensures NoGap(s.view.value, s.stream, Exit in s.sink)
  {
    var v := s.view.value;
    if Exit in s.sink { AtExit(s); }
    hide RawOf, DataOf, Flow, Phases, ExitIsLast, RingIsTail, Held, AlwaysShown, Taken, Lot, Ring.IsSuffix, Slice;
    assert Covers(s, v.delivered, v.inFlight, v.from);
    Associative(v.delivered, Lot(s).0, Lot(s).1);
    PrefixOfWhole(v.delivered, Lot(s).0 + Lot(s).1, v.inFlight, s.stream, v.from, Taken(s));
  }

  /** In every interleaving without overrun, the panel that `show` filled has no gap. */
  lemma ShowLeavesNoGap(c: Config, visible: bool, steps: seq<Step>)
    requires Legal(c, Init(visible), steps)
    ensures var s := After(c, Init(visible), steps);
            s.lost == 0 && s.view.Some? ==> NoGap(s.view.value, s.stream, Exit in s.sink)
  {
    hide *;
    var s := After(c, Init(visible), steps);
    InitHolds(visible);
    RunKeepsInv(c, Init(visible), steps);
    if s.lost == 0 && s.view.Some? {
      ViewHasNoGap(s);
    }
  }

  lemma PrefixOfWhole(delivered: seq<byte>, later: seq<byte>, stale: seq<byte>, stream: seq<byte>, from: int,
                      taken: int)
    requires 0 <= from <= taken <= |stream|
    requires delivered + later == stale + stream[from..taken]
    ensures delivered <= stale + stream[from..]
    ensures later == [] && taken == |stream| ==> delivered == stale + stream[from..]
  {
    var all := stale + stream[from..taken];
    assert delivered == all[..|delivered|];
    assert stale + stream[from..] == all + stream[taken..];
  }

  /** Byte `i` of the stream is on the panel: in the snapshot, or in the data that followed. */
  predicate OnPanel(v: View, stream: seq<byte>, i: nat)
    requires i < |stream|
  {
    var inSnapshot, inData := i - (v.end - |v.snapshot|), |v.inFlight| + i - v.from;
    || (0 <= inSnapshot < |v.snapshot| && v.snapshot[inSnapshot] == stream[i])
    || (0 <= inData < |v.delivered| && v.delivered[inData] == stream[i])
  }

  /** Byte by byte: whatever comes from the snapshot's start on is on the panel at exit. */
  lemma EveryByteReachesThePanel(v: View, stream: seq<byte>, i: nat)
    requires NoGap(v, stream, true) && v.end - |v.snapshot| <= i < |stream|
    ensures OnPanel(v, stream, i)
  {
    if i < v.end {
      assert v.snapshot[i - (v.end - |v.snapshot|)] == stream[..v.end][i];
    } else {
      assert v.delivered[|v.inFlight| + i - v.from] == stream[v.from..][i - v.from];
    }
  }
}
