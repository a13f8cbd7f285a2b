/**
 * Any interleaving of card writers (aisense-store, board.rs): each reads a card, tries its guarded
 * UPDATE, and only if that changed nothing reads the row again to say why. Between any two
 * statements everybody else may run. A writer behaves as the board service's do (aisense-core,
 * board/service.rs): it writes the next version, names the limits of where its card goes if that or
 * the assignee differs from the row it read, and claims only a card it read as unassigned.
 */
module RacingWriters {
  import opened Prelude
  import opened CardWrites

  type Writer = nat

  datatype Phase =
    | Idle
    | Holding(id: CardId, seen: Row, known: Limits, row: Row, g: Guard)       // `known`: what its column's limits were
    | Missed(id: CardId, row: Row, g: Guard, before: Tasks)                   // the table as its UPDATE saw it
    | Answered(id: CardId, row: Row, g: Guard, before: Tasks, answer: Answer)

  /**
   * `hired` and `born` are all agents and cards there ever were: an id is never used twice. `writes`
   * counts how often each version of a card was written.
   */
  datatype State = State(
    limits: map<ColumnId, Limits>,
    agents: set<AgentId>,
    hired: set<AgentId>,
    tasks: Tasks,
    born: set<CardId>,
    writers: map<Writer, Phase>,
    writes: multiset<(CardId, int)>)

  datatype Step =
    | Read(w: Writer, id: CardId, known: Limits, row: Row, g: Guard)
    | Update(w: Writer)
    | ReadAgain(w: Writer)
    | Insert(id: CardId, row: Row)
    | Remove(id: CardId)
    | MoveColumn(from: ColumnId, to: ColumnId)   // two statements of a column replacement
    | SetLimits(column: ColumnId, l: Limits)
    | Hire(agent: AgentId)
    | DropAgent(agent: AgentId)                  // its cards lose their assignee, and keep their version

  function PhaseOf(s: State, w: Writer): Phase {
    if w in s.writers then s.writers[w] else Idle
  }

  predicate Enabled(s: State, step: Step) {
    match step
    case Read(w, id, known, row, g) =>
      && (PhaseOf(s, w).Idle? || PhaseOf(s, w).Answered?)
      && id in s.tasks && g.expectedVersion == s.tasks[id].version && row.version == g.expectedVersion + 1
      && Carries(g, known, s.tasks[id], row)
      && (g.requireUnassigned ==> s.tasks[id].assignee.None?)
    case Update(w) => PhaseOf(s, w).Holding?
    case ReadAgain(w) => PhaseOf(s, w).Missed?
    case Insert(id, row) => id !in s.born && Stands(s.agents, row)
    case Remove(id) => id in s.tasks
    case MoveColumn(_, _) => true
    case SetLimits(_, _) => true
    case Hire(agent) => agent !in s.hired
    case DropAgent(agent) => agent in s.agents
  }

  function Dropped(tasks: Tasks, agent: AgentId): Tasks {
    map c | c in tasks :: if tasks[c].assignee == Some(agent) then tasks[c].(assignee := None) else tasks[c]
  }

  /** The versions a statement writes when it moves a column. */
  function MovedVersions(tasks: Tasks, from: ColumnId): set<(CardId, int)> {
    set c | c in tasks && tasks[c].column == from :: (c, tasks[c].version + 1)
  }

  function Next(s: State, step: Step): State
    requires Enabled(s, step)
  {
    match step
    case Read(w, id, known, row, g) => s.(writers := s.writers[w := Holding(id, s.tasks[id], known, row, g)])
    case Update(w) =>
      var p := s.writers[w];
      if !Matches(s.tasks, p.id, p.row, p.g)
      then s.(writers := s.writers[w := Missed(p.id, p.row, p.g, s.tasks)])
      else if !Stands(s.agents, p.row)
      then s.(writers := s.writers[w := Answered(p.id, p.row, p.g, s.tasks, Refused)])
      else s.(tasks := Updated(s.tasks, p.id, p.row, p.g), writes := s.writes + multiset{(p.id, p.row.version)},
              writers := s.writers[w := Answered(p.id, p.row, p.g, s.tasks, Written)])
    case ReadAgain(w) =>
      var p := s.writers[w];
      s.(writers := s.writers[w := Answered(p.id, p.row, p.g, p.before, ReadBack(s.tasks, p.id, p.g))])
    case Insert(id, row) =>
      s.(tasks := s.tasks[id := row], born := s.born + {id}, writes := s.writes + multiset{(id, row.version)})
    case Remove(id) => s.(tasks := s.tasks - {id})
    case MoveColumn(from, to) =>
      s.(tasks := Moved(s.tasks, from, to), writes := s.writes + multiset(MovedVersions(s.tasks, from)))
    case SetLimits(column, l) => s.(limits := s.limits[column := l])
    case Hire(agent) => s.(agents := s.agents + {agent}, hired := s.hired + {agent})
    case DropAgent(agent) => s.(tasks := Dropped(s.tasks, agent), agents := s.agents - {agent})
  }

  // ---- What time does to one row ----

  function Gone(s: State): set<AgentId> { s.hired - s.agents }

  /** `now` is `before` later on: the same row, if the version is the same, but for an assignee who is gone. */
  ghost predicate Later(before: Row, now: Row, gone: set<AgentId>) {
    && before.version <= now.version
    && (before.version == now.version ==>
          now == before || (before.assignee.Some? && before.assignee.value in gone && now == before.(assignee := None)))
  }

  /** What any step does to the table and the agents, seen by somebody else. */
  ghost predicate Aged(s: State, s': State) {
    && s.born <= s'.born
    && Gone(s) <= Gone(s')
    && (forall c :: c in s.born && c !in s.tasks ==> c !in s'.tasks)
    && (forall c :: c in s.tasks && c in s'.tasks ==> Later(s.tasks[c], s'.tasks[c], Gone(s')))
  }

  ghost predicate TableOk(s: State) {
    && s.agents <= s.hired
    && (forall c :: c in s.tasks ==> c in s.born && Stands(s.agents, s.tasks[c]))
  }

  lemma StepAges(s: State, step: Step)
    requires Enabled(s, step) && TableOk(s)
    requires step.Update? ==> s.writers[step.w].row.version == s.writers[step.w].g.expectedVersion + 1
    ensures Aged(s, Next(s, step)) && TableOk(Next(s, step))
  {
    hide Aged, TableOk;
    match step {
      case Update(w) => UpdateAges(s, w);
      case MoveColumn(from, to) => MoveAges(s, from, to);
      case DropAgent(agent) => DropAges(s, agent);
      case _ => OtherStepAges(s, step);
    }
  }

  lemma UpdateAges(s: State, w: Writer)
    requires Enabled(s, Update(w)) && TableOk(s)
    requires s.writers[w].row.version == s.writers[w].g.expectedVersion + 1
    ensures Aged(s, Next(s, Update(w))) && TableOk(Next(s, Update(w)))
  {
    hide WipAllows, ClaimAllows;
  }

  lemma MoveAges(s: State, from: ColumnId, to: ColumnId)
    requires TableOk(s)
    ensures Aged(s, Next(s, MoveColumn(from, to))) && TableOk(Next(s, MoveColumn(from, to)))
  {
    hide MovedVersions;
  }

  lemma DropAges(s: State, agent: AgentId)
    requires Enabled(s, DropAgent(agent)) && TableOk(s)
    ensures Aged(s, Next(s, DropAgent(agent))) && TableOk(Next(s, DropAgent(agent)))
  {
  }

  lemma OtherStepAges(s: State, step: Step)
    requires Enabled(s, step) && TableOk(s) && !step.Update? && !step.MoveColumn? && !step.DropAgent?
    ensures Aged(s, Next(s, step)) && TableOk(Next(s, step))
  {
    hide WipAllows, ClaimAllows, Carries, ReadBack;
  }

  // ---- What every run keeps ----

  /** What a writer read is still so, or its card has moved on; and it owes what its service owes. */
  ghost predicate Knows(s: State, id: CardId, seen: Row, known: Limits, row: Row, g: Guard) {
    && id in s.born && seen.version == g.expectedVersion && row.version == g.expectedVersion + 1
    && (id in s.tasks ==> Later(seen, s.tasks[id], Gone(s)))
    && Carries(g, known, seen, row)
    && (g.requireUnassigned ==> seen.assignee.None?)
  }

  ghost predicate SinceMiss(s: State, id: CardId, row: Row, g: Guard, before: Tasks) {
    && id in s.born && !Matches(before, id, row, g)
    && (id !in before ==> id !in s.tasks)
    && (id in before ==>
          && before[id].version >= g.expectedVersion
          && (before[id].version == g.expectedVersion ==> ClaimAllows(before[id], g))
          && (id in s.tasks ==> Later(before[id], s.tasks[id], Gone(s))))
  }

  /** The verdict is about the instant of the UPDATE. */
  ghost predicate Truthful(before: Tasks, id: CardId, row: Row, g: Guard) {
    && id in before && before[id].version == g.expectedVersion
    && ClaimAllows(before[id], g) && !WipAllows(before, id, row, g)
  }

  ghost predicate Verdict(id: CardId, row: Row, g: Guard, before: Tasks, answer: Answer) {
    match answer
    case Written => Matches(before, id, row, g)
    case Refused => Matches(before, id, row, g)
    case WipFull => Truthful(before, id, row, g)
    case _ => true
  }

  ghost predicate WriterOk(s: State, p: Phase) {
    match p
    case Idle => true
    case Holding(id, seen, known, row, g) => Knows(s, id, seen, known, row, g)
    case Missed(id, row, g, before) => SinceMiss(s, id, row, g, before)
    case Answered(id, row, g, before, answer) => Verdict(id, row, g, before, answer)
  }

  ghost predicate WritersOk(s: State) {
    forall w :: w in s.writers ==> WriterOk(s, s.writers[w])
  }

  /** Every version was written once, and the table holds each card's newest. */
  ghost predicate WrittenOnce(s: State) {
    && (forall e :: e in s.writes ==> s.writes[e] == 1 && e.0 in s.born)
    && (forall e :: e in s.writes && e.0 in s.tasks ==> e.1 <= s.tasks[e.0].version)
  }

  ghost predicate Inv(s: State) {
    TableOk(s) && WritersOk(s) && WrittenOnce(s)
  }

  /** Nobody else's step makes a waiting writer's knowledge wrong. */
  lemma OthersAreUndisturbed(s: State, s': State, p: Phase)
    requires WriterOk(s, p) && Aged(s, s')
    ensures WriterOk(s', p)
  {
    hide Matches, WipAllows, ClaimAllows, Truthful, Carries, Gone;
  }

  lemma HolderWritesNext(s: State, w: Writer)
    requires WritersOk(s) && w in s.writers && s.writers[w].Holding?
    ensures var p := s.writers[w]; Knows(s, p.id, p.seen, p.known, p.row, p.g)
  {
    assert WriterOk(s, s.writers[w]);
  }

  lemma StepKeepsWritten(s: State, step: Step)
    requires Enabled(s, step) && Inv(s) && Aged(s, Next(s, step))
    ensures WrittenOnce(Next(s, step))
  {
    hide WriterOk, WipAllows, ClaimAllows, Carries, Stands, Gone;
    match step {
      case Update(w) => UpdateKeepsWritten(s, w);
      case MoveColumn(from, to) => MoveKeepsWritten(s, from, to);
      case _ => hide Matches, ReadBack, Dropped, Later;
    }
  }

  lemma UpdateKeepsWritten(s: State, w: Writer)
    requires Enabled(s, Update(w)) && Inv(s)
    ensures WrittenOnce(Next(s, Update(w)))
  {
    hide WriterOk, WipAllows, ClaimAllows, Carries, Stands, Gone;
    HolderWritesNext(s, w);
  }

  lemma MoveKeepsWritten(s: State, from: ColumnId, to: ColumnId)
    requires TableOk(s) && WrittenOnce(s)
    ensures WrittenOnce(Next(s, MoveColumn(from, to)))
  {
    hide Stands;
  }

  lemma StepKeepsInv(s: State, step: Step)
    requires Enabled(s, step) && Inv(s)
    ensures Inv(Next(s, step)) && Aged(s, Next(s, step))
  {
    var s' := Next(s, step);
    hide Next, Enabled, Aged, TableOk, WrittenOnce, WriterOk;
    AgesAnyway(s, step);
    StepKeepsWritten(s, step);
    forall w | w in s'.writers ensures WriterOk(s', s'.writers[w]) {
      if w in s.writers && s'.writers[w] == s.writers[w] {
        OthersAreUndisturbed(s, s', s.writers[w]);
      } else {
        OwnStepIsRight(s, step, w);
      }
    }
  }

  lemma AgesAnyway(s: State, step: Step)
    requires Enabled(s, step) && Inv(s)
    ensures Aged(s, Next(s, step)) && TableOk(Next(s, step))
  {
    if step.Update? {
      HolderWritesNext(s, step.w);
    }
    hide Next, Aged, TableOk, WrittenOnce, WritersOk;
    StepAges(s, step);
  }

  lemma OwnStepIsRight(s: State, step: Step, w: Writer)
    requires Enabled(s, step) && TableOk(s) && WritersOk(s)
    requires w in Next(s, step).writers && (w !in s.writers || Next(s, step).writers[w] != s.writers[w])
    ensures WriterOk(Next(s, step), Next(s, step).writers[w])
  {
    hide WipAllows, Moved, Dropped, Carries, MovedVersions;
    match step {
      case Update(_) =>
        HolderWritesNext(s, w);
        hide Stands;
      case ReadAgain(_) =>
        assert WriterOk(s, s.writers[w]);
        hide Stands;
      case _ =>
    }
  }

  // ---- WIP limits, step by step ----

  function GuardAt(s: State, row: Row): Guard {
    Guard(0, false, LimitsOf(s.limits, row.column).total, LimitsOf(s.limits, row.column).perAgent)
  }

  /** The writer's guard is about limits its column no longer has. */
  predicate IsStale(s: State, p: Phase)
    requires p.Holding?
  {
    p.known != LimitsOf(s.limits, p.row.column)
  }

  predicate Writes(s: State, p: Phase)
    requires p.Holding?
  {
    Matches(s.tasks, p.id, p.row, p.g) && Stands(s.agents, p.row)
  }

  /**
   * What a statement needs at its instant to keep the limits: nothing, but for a creation, a column
   * that moves, a limit that is lowered, and a write whose guard is about older limits.
   */
  ghost predicate Fitting(s: State, step: Step) {
    match step
    case Update(w) =>
      var p := PhaseOf(s, w);
      p.Holding? && IsStale(s, p) && Writes(s, p) ==> FitsNow(s, p.id, p.row)
    case Insert(id, row) => FitsNow(s, id, row)
    case MoveColumn(from, to) => MoveFits(s.tasks, from, to, LimitsOf(s.limits, to))
    case SetLimits(column, l) => ColumnWithin(s.tasks, column, l)
    case _ => true
  }

  /** The WIP rule, under the limits of this instant. */
  predicate FitsNow(s: State, id: CardId, row: Row) {
    row.archived || WipAllows(s.tasks, id, row, GuardAt(s, row))
  }

  /** What the writer owed to the row it read it still owes to the row it finds, or its assignee is gone. */
  lemma StillCarries(s: State, p: Phase)
    requires p.Holding? && Knows(s, p.id, p.seen, p.known, p.row, p.g) && s.agents <= s.hired
    requires Writes(s, p)
    ensures Carries(p.g, p.known, s.tasks[p.id], p.row)
  {
  }

  lemma WriteFitsIff(s: State, id: CardId, row: Row)
    requires WithinLimits(s.tasks, s.limits)
    ensures WithinLimits(s.tasks[id := row], s.limits) <==> FitsNow(s, id, row)
  {
    hide WithinLimits, WipAllows, LimitsOf;
    if row.archived {
      ArchivedKeepsLimits(s.tasks, id, row, s.limits);
    } else {
      WriteKeepsLimitsIff(s.tasks, id, row, s.limits, GuardAt(s, row));
    }
  }

  lemma UpdateKeepsLimitsIff(s: State, w: Writer)
    requires Enabled(s, Update(w)) && Inv(s) && WithinLimits(s.tasks, s.limits)
    ensures WithinLimits(Next(s, Update(w)).tasks, s.limits) <==> Fitting(s, Update(w))
  {
    hide WithinLimits, WipAllows, Carries, WrittenOnce, FitsNow, LimitsOf;
    HolderWritesNext(s, w);
    var p := s.writers[w];
    if Writes(s, p) {
      WriteFitsIff(s, p.id, p.row);
      if !IsStale(s, p) {
        StillCarries(s, p);
        GuardedWriteKeepsLimits(s.tasks, p.id, p.row, p.g, s.limits);
      }
    }
  }

  lemma SetLimitsFitsIff(tasks: Tasks, limits: map<ColumnId, Limits>, column: ColumnId, l: Limits)
    requires WithinLimits(tasks, limits)
    ensures WithinLimits(tasks, limits[column := l]) <==> ColumnWithin(tasks, column, l)
  {
    hide ColumnWithin;
    var changed := limits[column := l];
    assert LimitsOf(changed, column) == l;
    forall other | other != column ensures LimitsOf(changed, other) == LimitsOf(limits, other) {}
    if WithinLimits(tasks, changed) {
      WithinAt(tasks, changed, column);
    }
  }

  /**
   * Every statement keeps the limits exactly if it fits; with the limits it read still in force, an
   * update always does.
   */
  lemma StepKeepsLimitsIff(s: State, step: Step)
    requires Enabled(s, step) && Inv(s) && WithinLimits(s.tasks, s.limits)
    ensures WithinLimits(Next(s, step).tasks, Next(s, step).limits) <==> Fitting(s, step)
  {
    hide WithinLimits, WipAllows, Carries, WritersOk, WrittenOnce, MoveFits, LimitsOf, FitsNow, ColumnWithin;
    match step {
      case Update(w) => UpdateKeepsLimitsIff(s, w);
      case Insert(id, row) => WriteFitsIff(s, id, row);
      case MoveColumn(from, to) => MoveKeepsLimitsIff(s.tasks, from, to, s.limits);
      case SetLimits(column, l) => SetLimitsFitsIff(s.tasks, s.limits, column, l);
      case Remove(id) => LessKeepsLimits(s.tasks, s.tasks - {id}, s.limits);
      case DropAgent(agent) => LessKeepsLimits(s.tasks, Dropped(s.tasks, agent), s.limits);
      case _ =>
    }
  }

  // ---- Runs ----

  ghost predicate Legal(s: State, steps: seq<Step>)
    decreases |steps|
  {
    steps == [] || (Enabled(s, steps[0]) && Legal(Next(s, steps[0]), steps[1..]))
  }

  function After(s: State, steps: seq<Step>): State
    requires Legal(s, steps)
    decreases |steps|
  {
    if steps == [] then s else After(Next(s, steps[0]), steps[1..])
  }

  /** The limits hold now and after every step. */
  ghost predicate AlwaysWithin(s: State, steps: seq<Step>)
    requires Legal(s, steps)
    decreases |steps|
  {
    WithinLimits(s.tasks, s.limits) && (steps == [] || AlwaysWithin(Next(s, steps[0]), steps[1..]))
  }

  ghost predicate AllFitting(s: State, steps: seq<Step>)
    requires Legal(s, steps)
    decreases |steps|
  {
    steps == [] || (Fitting(s, steps[0]) && AllFitting(Next(s, steps[0]), steps[1..]))
  }

  function Start(limits: map<ColumnId, Limits>): State {
    State(limits, {}, {}, map[], {}, map[], multiset{})
  }

  lemma {:induction false} RunKeepsInv(s: State, steps: seq<Step>)
    requires Inv(s) && Legal(s, steps)
    ensures Inv(After(s, steps))
    decreases |steps|
  {
    hide Inv, Next, Enabled, Aged;
    if steps != [] {
      StepKeepsInv(s, steps[0]);
      RunKeepsInv(Next(s, steps[0]), steps[1..]);
    }
  }

  lemma StartIsOk(limits: map<ColumnId, Limits>)
    ensures Inv(Start(limits)) && WithinLimits(Start(limits).tasks, limits)
  {
    forall column ensures ColumnWithin(map[], column, LimitsOf(limits, column)) {
      assert Live(map[], column) == {};
      forall a ensures LiveOf(map[], column, a) == {} {}
    }
  }

  lemma {:induction false} RunKeepsLimitsIff(s: State, steps: seq<Step>)
    requires Inv(s) && WithinLimits(s.tasks, s.limits) && Legal(s, steps)
    ensures AlwaysWithin(s, steps) <==> AllFitting(s, steps)
    decreases |steps|
  {
    hide Inv, Next, Enabled, Aged, WithinLimits, Fitting;
    if steps != [] {
      StepKeepsInv(s, steps[0]);
      StepKeepsLimitsIff(s, steps[0]);
      if Fitting(s, steps[0]) {
        RunKeepsLimitsIff(Next(s, steps[0]), steps[1..]);
      }
    }
  }

  /**
   * In any interleaving of any number of writers, no total and no per-agent limit is ever exceeded,
   * exactly if each creation, each column move, each new limit and each write under older limits
   * fits at its own instant.
   */
  lemma LimitsHoldThroughout(limits: map<ColumnId, Limits>, steps: seq<Step>)
    requires Legal(Start(limits), steps)
    ensures AlwaysWithin(Start(limits), steps) <==> AllFitting(Start(limits), steps)
  {
    hide *;
    StartIsOk(limits);
    StartHasLimits(limits);
    RunKeepsLimitsIff(Start(limits), steps);
  }

  lemma StartHasLimits(limits: map<ColumnId, Limits>)
    ensures Start(limits).limits == limits
  {
  }

  /** A guard about older limits can overfill a column: its limit is lowered between the read and the write. */
  lemma OldLimitsCanOverflow(id: CardId, row: Row, to: ColumnId)
    requires row.column != to && row.assignee.None? && !row.archived
    ensures var moved := row.(column := to, version := row.version + 1);
            var steps := [Insert(id, row),
                          Read(0, id, Limits(None, None), moved, Guard(row.version, false, None, None)),
                          SetLimits(to, Limits(Some(0), None)),
                          Update(0)];
            && Legal(Start(map[]), steps)
            && !WithinLimits(After(Start(map[]), steps).tasks, After(Start(map[]), steps).limits)
  {
    var moved, none := row.(column := to, version := row.version + 1), Limits(None, None);
    var g := Guard(row.version, false, None, None);
    var s0 := Start(map[]);
    var s1 := Next(s0, Insert(id, row));
    var s2 := Next(s1, Read(0, id, none, moved, g));
    var s3 := Next(s2, SetLimits(to, Limits(Some(0), None)));
    var s4 := Next(s3, Update(0));
    assert id in Live(s4.tasks, to);
    assert !ColumnWithin(s4.tasks, to, LimitsOf(s4.limits, to));
    OneStep(s3, Update(0), []);
    OneStep(s2, SetLimits(to, Limits(Some(0), None)), [Update(0)]);
    OneStep(s1, Read(0, id, none, moved, g), [SetLimits(to, Limits(Some(0), None)), Update(0)]);
    OneStep(s0, Insert(id, row), [Read(0, id, none, moved, g), SetLimits(to, Limits(Some(0), None)), Update(0)]);
  }

  lemma OneStep(s: State, step: Step, later: seq<Step>)
    requires Enabled(s, step) && Legal(Next(s, step), later)
    ensures Legal(s, [step] + later) && After(s, [step] + later) == After(Next(s, step), later)
  {
    hide Enabled, Next;
    assert ([step] + later)[1..] == later;
  }

  // ---- What is in a row ----

  /** Kept beside a run, from its statements alone: the row each writer wants, and the last one written to each card. */
  datatype Book = Book(wanted: map<Writer, (CardId, Row)>, latest: map<CardId, Row>)

  /** `written` says whether the statement was an update that was answered `Written`. */
  function Noted(b: Book, step: Step, written: bool): Book {
    match step
    case Read(w, id, _, row, _) => b.(wanted := b.wanted[w := (id, row)])
    case Update(w) =>
      if written && w in b.wanted then b.(latest := b.latest[b.wanted[w].0 := b.wanted[w].1]) else b
    case Insert(id, row) => b.(latest := b.latest[id := row])
    case Remove(id) => b.(latest := b.latest - {id})
    case _ => b
  }

  predicate JustWritten(s: State, step: Step)
    requires Enabled(s, step)
  {
    step.Update? && PhaseOf(Next(s, step), step.w).Answered? && PhaseOf(Next(s, step), step.w).answer.Written?
  }

  ghost function BookAfter(b: Book, s: State, steps: seq<Step>): Book
    requires Legal(s, steps)
    decreases |steps|
  {
    if steps == [] then b
    else BookAfter(Noted(b, steps[0], JustWritten(s, steps[0])), Next(s, steps[0]), steps[1..])
  }

  /** `now` is `row` as it was written, but for column moves, which count, and an assignee who is gone. */
  ghost predicate Kept(row: Row, now: Row, gone: set<AgentId>) {
    && now.rest == row.rest && now.archived == row.archived
    && row.version <= now.version && (now.version == row.version ==> now.column == row.column)
    && (now.assignee == row.assignee || (now.assignee.None? && row.assignee.value in gone))
  }

  ghost predicate Reflects(s: State, b: Book) {
    && s.tasks.Keys == b.latest.Keys
    && (forall c :: c in s.tasks ==> Kept(b.latest[c], s.tasks[c], Gone(s)))
    && (forall w :: w in s.writers && s.writers[w].Holding?
          ==> w in b.wanted && b.wanted[w] == (s.writers[w].id, s.writers[w].row))
  }

  lemma StepReflects(s: State, step: Step, b: Book)
    requires Enabled(s, step) && Inv(s) && Reflects(s, b) && Aged(s, Next(s, step))
    ensures Reflects(Next(s, step), Noted(b, step, JustWritten(s, step)))
  {
    hide Reflects, Aged, WrittenOnce, WritersOk, TableOk;
    match step {
      case Update(w) => UpdateReflects(s, w, b);
      case MoveColumn(from, to) => MoveReflects(s, from, to, b);
      case DropAgent(agent) => DropReflects(s, agent, b);
      case _ => OtherReflects(s, step, b);
    }
  }

  lemma UpdateReflects(s: State, w: Writer, b: Book)
    requires Enabled(s, Update(w)) && Reflects(s, b)
    ensures Reflects(Next(s, Update(w)), Noted(b, Update(w), JustWritten(s, Update(w))))
  {
    hide WipAllows, ClaimAllows, Stands;
  }

  lemma OtherReflects(s: State, step: Step, b: Book)
    requires Enabled(s, step) && Reflects(s, b) && Aged(s, Next(s, step))
    requires !step.Update? && !step.MoveColumn? && !step.DropAgent?
    ensures Reflects(Next(s, step), Noted(b, step, JustWritten(s, step)))
  {
    hide Carries, Stands, ReadBack, Later;
  }

  lemma MoveReflects(s: State, from: ColumnId, to: ColumnId, b: Book)
    requires Reflects(s, b)
    ensures Reflects(Next(s, MoveColumn(from, to)), b)
  {
    hide MovedVersions;
  }

  lemma DropReflects(s: State, agent: AgentId, b: Book)
    requires Enabled(s, DropAgent(agent)) && TableOk(s) && Reflects(s, b)
    ensures Reflects(Next(s, DropAgent(agent)), b)
  {
  }

  lemma {:induction false} RunReflects(s: State, steps: seq<Step>, b: Book)
    requires Inv(s) && Legal(s, steps) && Reflects(s, b)
    ensures Reflects(After(s, steps), BookAfter(b, s, steps))
    decreases |steps|
  {
    hide Inv, Next, Enabled, Aged, Reflects, Noted, JustWritten;
    if steps != [] {
      StepKeepsInv(s, steps[0]);
      StepReflects(s, steps[0], b);
      RunReflects(Next(s, steps[0]), steps[1..], Noted(b, steps[0], JustWritten(s, steps[0])));
    }
  }

  /** In every interleaving each card there is has the row last written to it, whole: no accepted edit is lost. */
  lemma RowsAreTheLastWritten(limits: map<ColumnId, Limits>, steps: seq<Step>)
    requires Legal(Start(limits), steps)
    ensures Reflects(After(Start(limits), steps), BookAfter(Book(map[], map[]), Start(limits), steps))
  {
    hide Enabled, Next, WithinLimits;
    StartIsOk(limits);
    RunReflects(Start(limits), steps, Book(map[], map[]));
  }

  /**
   * In any interleaving each version of a card is written at most once, by whatever statement:
   * racing claims have one winner.
   */
  lemma EachVersionIsWrittenOnce(limits: map<ColumnId, Limits>, steps: seq<Step>, id: CardId, version: int)
    requires Legal(Start(limits), steps)
    ensures After(Start(limits), steps).writes[(id, version)] <= 1
  {
    hide Enabled, Next, WithinLimits;
    StartIsOk(limits);
    RunKeepsInv(Start(limits), steps);
  }

  /** A `WipFull` answer, read one statement later, is always true of the instant of the UPDATE. */
  lemma WipFullTellsTheTruth(limits: map<ColumnId, Limits>, steps: seq<Step>, w: Writer)
    requires Legal(Start(limits), steps)
    requires PhaseOf(After(Start(limits), steps), w).Answered?
             && PhaseOf(After(Start(limits), steps), w).answer.WipFull?
    ensures var p := PhaseOf(After(Start(limits), steps), w); Truthful(p.before, p.id, p.row, p.g)
  {
    hide Enabled, Next, WithinLimits, Truthful;
    StartIsOk(limits);
    RunKeepsInv(Start(limits), steps);
    assert WriterOk(After(Start(limits), steps), PhaseOf(After(Start(limits), steps), w));
  }

  /**
   * Why a claim has to read its card as unassigned: for a caller of the store that does not, and
   * only for it, an agent deleted between the two statements turns a lost claim into a false `WipFull`.
   */
  lemma DeletedAgentFalsifiesWipFull(before: Tasks, id: CardId, row: Row, g: Guard, agent: AgentId)
    requires !Matches(before, id, row, g)
    ensures ReadBack(Dropped(before, agent), id, g) == WipFull && !Truthful(before, id, row, g)
       <==> && id in before && before[id].version == g.expectedVersion
            && g.requireUnassigned && before[id].assignee == Some(agent)
  {
    hide WipAllows;
  }
}
