/** Coalescing of terminal output before it reaches the interface (aisense-pty, batch.rs). */
module Batching {
  import opened Prelude

  // Instants and durations are whole ticks of one monotonic clock.
  type Instant = nat

  datatype BatchState = BatchState(pending: seq<byte>, lastFlush: Option<Instant>, visible: bool, suppressed: nat)

  const FRESH := BatchState([], None, true, 0)

  /** `duration_since` is zero, not negative, for an instant in the future. */
  function Elapsed(last: Instant, now: Instant): nat {
    if now >= last then now - last else 0
  }

  function WithVisible(st: BatchState, visible: bool): BatchState {
    if visible == st.visible then st
    else st.(visible := visible, pending := if visible then st.pending else [])
  }

  function WithChunk(st: BatchState, data: seq<byte>): BatchState {
    if st.visible then st.(pending := st.pending + data) else st.(suppressed := st.suppressed + 1)
  }

  predicate Ready(st: BatchState, window: nat, now: Instant) {
    st.pending != [] && (st.lastFlush.Some? ==> Elapsed(st.lastFlush.value, now) >= window)
  }

  function Flushed(st: BatchState, now: Instant): BatchState {
    st.(pending := [], lastFlush := Some(now))
  }

  function UntilReady(st: BatchState, window: nat, now: Instant): Option<nat> {
    if st.pending == [] then None
    else match st.lastFlush
      case None => Some(0)
      case Some(last) => Some(Max(window - Elapsed(last, now), 0))
  }

  // ---- The object ----

  class Batcher {
    const window: nat
    var pending: seq<byte>
    var lastFlush: Option<Instant>
    var visible: bool
    var suppressed: nat

    ghost function State(): BatchState
      reads this
    {
      BatchState(pending, lastFlush, visible, suppressed)
    }

    constructor (window: nat)
      ensures this.window == window && State() == FRESH
    {
      this.window := window;
      pending, lastFlush, visible, suppressed := [], None, true, 0;
    }

    method SetVisible(visible: bool)
      modifies this
      ensures State() == WithVisible(old(State()), visible)
      ensures this.visible == visible && lastFlush == old(lastFlush) && suppressed == old(suppressed)
      ensures pending == if old(this.visible) && !visible then [] else old(pending)
    {
      if visible == this.visible { return; }
      this.visible := visible;
      if !visible {
        pending := [];
      }
    }

    method Push(data: seq<byte>)
      modifies this
      ensures State() == WithChunk(old(State()), data)
      ensures visible == old(visible) && lastFlush == old(lastFlush)
      ensures pending == (if visible then old(pending) + data else old(pending))
      ensures suppressed == (if visible then old(suppressed) else old(suppressed) + 1)
    {
      if !visible {
        suppressed := suppressed + 1;
        return;
      }
      pending := pending + data;
    }

    method Poll(now: Instant) returns (lot: Option<seq<byte>>)
      modifies this
      ensures lot.Some? <==> Ready(old(State()), window, now)
      ensures lot.Some? <==>
                (old(pending) != []
                 && (old(lastFlush).None? || window == 0 || now >= old(lastFlush).value + window))
      ensures lot.Some? ==> lot.value == old(pending) && pending == [] && lastFlush == Some(now)
      ensures lot.Some? ==> State() == Flushed(old(State()), now)
      ensures visible == old(visible) && suppressed == old(suppressed)
      ensures lot.None? ==> State() == old(State())
    {
      if pending == [] { return None; }
      match lastFlush {
        case None => lot := Flush(now); return;
        case Some(last) =>
          if Elapsed(last, now) >= window { lot := Flush(now); return; }
          return None;
      }
    }

    method TimeUntilReady(now: Instant) returns (wait: Option<nat>)
      ensures wait == UntilReady(State(), window, now)
      ensures wait.None? <==> pending == []
      ensures wait == Some(0) <==> Ready(State(), window, now)
    {
      if pending == [] { return None; }
      match lastFlush {
        case None => return Some(0);
        case Some(last) =>
          var elapsed := Elapsed(last, now);
          return Some(if window >= elapsed then window - elapsed else 0);
      }
    }

    method Drain(now: Instant) returns (lot: Option<seq<byte>>)
      modifies this
      ensures lot == if old(pending) == [] then None else Some(old(pending))
      ensures State() == if old(pending) == [] then old(State()) else Flushed(old(State()), now)
      ensures pending == [] && visible == old(visible) && suppressed == old(suppressed)
      ensures lastFlush == if old(pending) == [] then old(lastFlush) else Some(now)
    {
      if pending == [] { return None; }
      lot := Flush(now);
    }

    method Flush(now: Instant) returns (lot: Option<seq<byte>>)
      modifies this
      ensures lot == Some(old(pending)) && State() == Flushed(old(State()), now)
      ensures pending == [] && lastFlush == Some(now) && visible == old(visible) && suppressed == old(suppressed)
    {
      lastFlush := Some(now);
      lot := Some(pending);
      pending := [];
    }
  }

  /** The promised wait is exact: a poll that long from now releases, and no earlier one does. */
  lemma WaitIsExact(st: BatchState, window: nat, now: Instant, later: Instant)
    requires st.pending != [] && now <= later
    requires st.lastFlush.Some? ==> st.lastFlush.value <= now
    ensures Ready(st, window, later) <==> later - now >= UntilReady(st, window, now).value
  {
  }

  // ---- Whole runs ----

  datatype Op = Visible(on: bool) | Chunk(data: seq<byte>) | Poll(at: Instant) | Drain(at: Instant)

  /** How accepted bytes leave the batcher. */
  datatype Lot = Polled(at: Instant, bytes: seq<byte>) | Drained(at: Instant,
      bytes: seq<byte>) | Discarded(bytes: seq<byte>)

  function Applied(st: BatchState, window: nat, op: Op): BatchState {
    match op
    case Visible(on) => WithVisible(st, on)
    case Chunk(data) => WithChunk(st, data)
    case Poll(at) => if Ready(st, window, at) then Flushed(st, at) else st
    case Drain(at) => if st.pending == [] then st else Flushed(st, at)
  }

  function Leaving(st: BatchState, window: nat, op: Op): seq<Lot> {
    match op
    case Visible(on) => if st.visible && !on then [Discarded(st.pending)] else []
    case Chunk(_) => []
    case Poll(at) => if Ready(st, window, at) then [Polled(at, st.pending)] else []
    case Drain(at) => if st.pending == [] then [] else [Drained(at, st.pending)]
  }

  function After(st: BatchState, window: nat, ops: seq<Op>): BatchState
    decreases |ops|
  {
    if ops == [] then st else After(Applied(st, window, ops[0]), window, ops[1..])
  }

  function Lots(st: BatchState, window: nat, ops: seq<Op>): seq<Lot>
    decreases |ops|
  {
    if ops == [] then []
    else Leaving(st, window, ops[0]) + Lots(Applied(st, window, ops[0]), window, ops[1..])
  }

  function BytesOf(lots: seq<Lot>): seq<byte> {
    if lots == [] then [] else lots[0].bytes + BytesOf(lots[1..])
  }

  function Taken(visible: bool, op: Op): seq<byte> {
    if op.Chunk? && visible then op.data else []
  }

  function VisibleAfter(visible: bool, op: Op): bool {
    if op.Visible? then op.on else visible
  }

  /** The chunks pushed while the panel was on screen, read off the operations alone. */
  function Accepted(visible: bool, ops: seq<Op>): seq<byte>
    decreases |ops|
  {
    if ops == [] then [] else Taken(visible, ops[0]) + Accepted(VisibleAfter(visible, ops[0]), ops[1..])
  }

  lemma StepConserves(st: BatchState, window: nat, op: Op)
    ensures BytesOf(Leaving(st, window, op)) + Applied(st, window, op).pending == st.pending + Taken(st.visible, op)
  {
    var left := Leaving(st, window, op);
    if left != [] {
      assert left[1..] == [] && BytesOf(left) == left[0].bytes;
    }
  }

  /** Every accepted byte is delivered, discarded by one hide, or still pending: once, in order. */
  lemma {:induction false} Conservation(st: BatchState, window: nat, ops: seq<Op>)
    ensures BytesOf(Lots(st, window, ops)) + After(st, window, ops).pending
            == st.pending + Accepted(st.visible, ops)
    decreases |ops|
  {
    if ops != [] {
      var next := Applied(st, window, ops[0]);
      Conservation(next, window, ops[1..]);
      Unfolded(st, window, ops);
      StepConserves(st, window, ops[0]);
      hide *;
      Regroup(BytesOf(Leaving(st, window, ops[0])), BytesOf(Lots(next, window, ops[1..])),
              After(next, window, ops[1..]).pending, next.pending, Accepted(next.visible, ops[1..]),
              st.pending, Taken(st.visible, ops[0]));
    }
  }

  lemma StepFacts(st: BatchState, window: nat, op: Op)
    ensures |Leaving(st, window, op)| <= 1
    ensures Applied(st, window, op).visible == VisibleAfter(st.visible, op)
  {
  }

  lemma Unfolded(st: BatchState, window: nat, ops: seq<Op>)
    requires ops != []
    ensures var next := Applied(st, window, ops[0]);
            && BytesOf(Lots(st, window, ops)) == BytesOf(Leaving(st, window, ops[0]))
                + BytesOf(Lots(next, window, ops[1..]))
            && After(st, window, ops) == After(next, window, ops[1..])
            && Accepted(st.visible, ops) == Taken(st.visible, ops[0]) + Accepted(next.visible, ops[1..])
  {
    hide Leaving, Applied, BytesOf, Taken, VisibleAfter;
    StepFacts(st, window, ops[0]);
    BytesOfHead(Leaving(st, window, ops[0]), Lots(Applied(st, window, ops[0]), window, ops[1..]));
  }

  lemma Regroup(left: seq<byte>, rest: seq<byte>, end: seq<byte>, middle: seq<byte>, later: seq<byte>,
                start: seq<byte>, taken: seq<byte>)
    requires rest + end == middle + later && left + middle == start + taken
    ensures (left + rest) + end == start + (taken + later)
  {
    assert (left + rest) + end == left + (rest + end);
    assert left + (middle + later) == (left + middle) + later;
  }

  lemma BytesOfHead(left: seq<Lot>, rest: seq<Lot>)
    requires |left| <= 1
    ensures BytesOf(left + rest) == BytesOf(left) + BytesOf(rest)
  {
    if left == [] {
      assert left + rest == rest;
    } else {
      assert (left + rest)[1..] == rest && left[1..] == [];
    }
  }

  /** A hidden panel emits nothing: with nothing accepted, nothing leaves. */
  lemma {:induction false} HiddenIsSilent(st: BatchState, window: nat, ops: seq<Op>)
    requires !st.visible && st.pending == []
    requires forall k :: 0 <= k < |ops| ==> ops[k] != Visible(true)
    ensures Lots(st, window, ops) == []
    decreases |ops|
  {
    if ops != [] {
      assert ops[0] != Visible(true);
      HiddenIsSilent(Applied(st, window, ops[0]), window, ops[1..]);
    }
  }

  // ---- Rate ----

  ghost predicate ClockRuns(now: Instant, ops: seq<Op>)
    decreases |ops|
  {
    ops == [] || (now <= ClockAfter(now, ops[0]) && ClockRuns(ClockAfter(now, ops[0]), ops[1..]))
  }

  /** The instants at which `poll` released a lot. */
  function PollTimes(lots: seq<Lot>): seq<Instant> {
    if lots == [] then []
    else (if lots[0].Polled? then [lots[0].at] else []) + PollTimes(lots[1..])
  }

  ghost predicate Spaced(window: nat, times: seq<Instant>) {
    forall i, j :: 0 <= i < j < |times| ==> times[j] >= times[i] + window
  }

  ghost predicate NotBefore(bound: int, times: seq<Instant>) {
    forall i :: 0 <= i < |times| ==> times[i] >= bound
  }

  /** The first instant at which `poll` may release. */
  function Earliest(st: BatchState, window: nat, now: Instant): Instant {
    if st.lastFlush.Some? then Max(now, st.lastFlush.value + window) else now
  }

  function ClockAfter(now: Instant, op: Op): Instant {
    if op.Poll? || op.Drain? then op.at else now
  }

  lemma {:induction false} PollsAreSpaced(st: BatchState, window: nat, ops: seq<Op>, now: Instant)
    requires ClockRuns(now, ops) && (st.lastFlush.Some? ==> st.lastFlush.value <= now)
    ensures Spaced(window, PollTimes(Lots(st, window, ops)))
    ensures NotBefore(Earliest(st, window, now), PollTimes(Lots(st, window, ops)))
    decreases |ops|
  {
    if ops != [] {
      var next, clock := Applied(st, window, ops[0]), ClockAfter(now, ops[0]);
      StepKeepsSpacing(st, window, ops[0], now);
      PollsAreSpaced(next, window, ops[1..], clock);
      StepFacts(st, window, ops[0]);
      hide Leaving, Applied, Earliest, Spaced, NotBefore;
      var left, rest := Leaving(st, window, ops[0]), Lots(next, window, ops[1..]);
      PollTimesOfHead(left, rest);
      hide PollTimes, Lots;
      NotBeforeWeaker(Earliest(st, window, now), Earliest(next, window, clock), PollTimes(rest));
      if left != [] && left[0].Polled? {
        NotBeforeWeaker(left[0].at + window, Earliest(next, window, clock), PollTimes(rest));
        SpacedPrepend(window, left[0].at, PollTimes(rest), Earliest(st, window, now));
      } else {
        assert [] + PollTimes(rest) == PollTimes(rest);
      }
    }
  }

  /** A release waits for the window, and pushes the next one a whole window away. */
  lemma StepKeepsSpacing(st: BatchState, window: nat, op: Op, now: Instant)
    requires st.lastFlush.Some? ==> st.lastFlush.value <= now
    requires now <= ClockAfter(now, op)
    ensures var next, clock := Applied(st, window, op), ClockAfter(now, op);
            && (next.lastFlush.Some? ==> next.lastFlush.value <= clock)
            && Earliest(st, window, now) <= Earliest(next, window, clock)
            && forall lot :: lot in Leaving(st, window, op) && lot.Polled?
                 ==> Earliest(st, window, now) <= lot.at && lot.at + window <= Earliest(next, window, clock)
  {
  }

  lemma NotBeforeWeaker(bound: int, later: int, times: seq<Instant>)
    requires bound <= later && NotBefore(later, times)
    ensures NotBefore(bound, times)
  {
  }

  lemma SpacedPrepend(window: nat, first: Instant, rest: seq<Instant>, bound: int)
    requires Spaced(window, rest) && NotBefore(first + window, rest) && bound <= first
    ensures Spaced(window, [first] + rest) && NotBefore(bound, [first] + rest)
  {
    var times := [first] + rest;
    forall i, j | 0 <= i < j < |times| ensures times[j] >= times[i] + window {
      if i > 0 { assert rest[j - 1] >= rest[i - 1] + window; }
    }
  }

  lemma PollTimesOfHead(left: seq<Lot>, rest: seq<Lot>)
    requires |left| <= 1
    ensures PollTimes(left + rest) == (if left != [] && left[0].Polled? then [left[0].at] else []) + PollTimes(rest)
  {
    if left == [] {
      assert left + rest == rest;
    } else {
      assert (left + rest)[1..] == rest;
    }
  }

  function CountWithin(times: seq<Instant>, lo: int, hi: int): nat {
    if times == [] then 0
    else (if lo <= times[0] <= hi then 1 else 0) + CountWithin(times[1..], lo, hi)
  }

  lemma {:induction false} NoneWithin(times: seq<Instant>, lo: int, hi: int)
    requires NotBefore(hi + 1, times)
    ensures CountWithin(times, lo, hi) == 0
    decreases |times|
  {
    if times != [] {
      assert NotBefore(hi + 1, times[1..]) by { forall i | 0 <= i < |times| - 1
          ensures times[1..][i] >= hi + 1 { assert times[i + 1] >= hi + 1; } }
      NoneWithin(times[1..], lo, hi);
    }
  }

  lemma {:induction false} SpacedCount(window: nat, times: seq<Instant>, lo: int, hi: int)
    requires window > 0 && Spaced(window, times) && NotBefore(lo, times)
    ensures CountWithin(times, lo, hi) > 0 ==> (CountWithin(times, lo, hi) - 1) * window <= hi - lo
    decreases |times|
  {
    if times != [] {
      var rest := times[1..];
      forall i, j | 0 <= i < j < |rest|
          ensures rest[j] >= rest[i] + window { assert times[j + 1] >= times[i + 1] + window; }
      forall i | 0 <= i < |rest| ensures rest[i] >= times[0] + window { assert times[i + 1] >= times[0] + window; }
      SpacedCount(window, rest, times[0] + window, hi);
      SameCount(rest, lo, times[0] + window, hi);
      var c := CountWithin(rest, lo, hi);
      if times[0] > hi {
        NoneWithin(rest, lo, hi);
      } else if c > 0 {
        assert c * window == (c - 1) * window + window;
      }
    }
  }

  lemma {:induction false} SameCount(times: seq<Instant>, lo: int, bound: int, hi: int)
    requires lo <= bound && NotBefore(bound, times)
    ensures CountWithin(times, lo, hi) == CountWithin(times, bound, hi)
    decreases |times|
  {
    if times != [] {
      forall i | 0 <= i < |times| - 1 ensures times[1..][i] >= bound { assert times[i + 1] >= bound; }
      SameCount(times[1..], lo, bound, hi);
    }
  }

  lemma {:induction false} CountFromAnyStart(window: nat, times: seq<Instant>, lo: int, hi: int)
    requires window > 0 && Spaced(window, times)
    ensures CountWithin(times, lo, hi) > 0 ==> (CountWithin(times, lo, hi) - 1) * window <= hi - lo
    decreases |times|
  {
    if times != [] {
      if times[0] >= lo {
        SpacedCount(window, times, lo, hi);
      } else {
        forall i, j | 0 <= i < j < |times| - 1
            ensures times[1..][j] >= times[1..][i] + window { assert times[j + 1] >= times[i + 1] + window; }
        CountFromAnyStart(window, times[1..], lo, hi);
      }
    }
  }

  /** In any span of `span` ticks of any run, `poll` releases at most span / window + 1 lots. */
  lemma RateLimit(window: nat, ops: seq<Op>, from: Instant, span: nat)
    requires window > 0 && ClockRuns(0, ops)
    ensures CountWithin(PollTimes(Lots(FRESH, window, ops)), from, from + span) <= span / window + 1
  {
    var times := PollTimes(Lots(FRESH, window, ops));
    PollsAreSpaced(FRESH, window, ops, 0);
    CountFromAnyStart(window, times, from, from + span);
    QuotientBound(CountWithin(times, from, from + span) - 1, window, span);
  }

  lemma QuotientBound(k: int, window: int, span: int)
    requires window > 0 && span >= 0 && (k > 0 ==> k * window <= span)
    ensures k <= span / window
  {
    assert span == span / window * window + span % window;
    MultiplyKeepsOrder(span / window + 1, k, window);
  }

  lemma MultiplyKeepsOrder(a: int, b: int, factor: nat)
    ensures a <= b ==> a * factor <= b * factor
  {
  }
}
