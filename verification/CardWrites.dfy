/**
 * Guarded writes of cards by concurrent writers: each SQL statement is one atomic step over the
 * table (aisense-store, board.rs), and the guard is the WIP rule (aisense-core, board/rules.rs).
 */
module CardWrites {
  import opened Prelude

  type CardId = string
  type ColumnId = string
  type AgentId = string

  /** `rest` stands for the columns no guard looks at. */
  datatype Row = Row(column: ColumnId, assignee: Option<AgentId>, archived: bool, version: int, rest: string)

  type Tasks = map<CardId, Row>

  datatype Guard = Guard(expectedVersion: int, requireUnassigned: bool, wipLimit: Option<nat>, wipPerAgent: Option<nat>)

  /** `Refused`: the assignee names no agent, and the foreign key fails the statement. */
  datatype Answer = Written | Stale | WipFull | NotFound | Refused

  // ---- The UPDATE ... WHERE statement ----

  function Others(tasks: Tasks, column: ColumnId, except: CardId): set<CardId> {
    set c | c in tasks && tasks[c].column == column && !tasks[c].archived && c != except
  }

  function OthersOf(tasks: Tasks, column: ColumnId, agent: AgentId, except: CardId): set<CardId> {
    set c | c in Others(tasks, column, except) && tasks[c].assignee == Some(agent)
  }

  predicate WipAllows(tasks: Tasks, id: CardId, row: Row, g: Guard) {
    && (g.wipLimit.Some? ==> |Others(tasks, row.column, id)| < g.wipLimit.value)
    && (g.wipPerAgent.Some? && row.assignee.Some?
        ==> |OthersOf(tasks, row.column, row.assignee.value, id)| < g.wipPerAgent.value)
  }

  predicate ClaimAllows(row: Row, g: Guard) {
    g.requireUnassigned ==> row.assignee.None?
  }

  predicate Matches(tasks: Tasks, id: CardId, row: Row, g: Guard) {
    id in tasks && tasks[id].version == g.expectedVersion && ClaimAllows(tasks[id], g) && WipAllows(tasks, id, row, g)
  }

  /** The foreign key of the assignee. */
  predicate Stands(agents: set<AgentId>, row: Row) {
    row.assignee.Some? ==> row.assignee.value in agents
  }

  function Updated(tasks: Tasks, id: CardId, row: Row, g: Guard): Tasks {
    if Matches(tasks, id, row, g) then tasks[id := row] else tasks
  }

  /** What the second statement makes of a card the first did not touch. */
  function ReadBack(tasks: Tasks, id: CardId, g: Guard): Answer {
    if id !in tasks then NotFound
    else if tasks[id].version != g.expectedVersion || !ClaimAllows(tasks[id], g) then Stale
    else WipFull
  }

  class Store {
    var tasks: Tasks
    var agents: set<AgentId>

    constructor (tasks: Tasks, agents: set<AgentId>)
      ensures this.tasks == tasks && this.agents == agents
    {
      this.tasks, this.agents := tasks, agents;
    }

    /**
     * The first statement: how many rows it changed, unless the foreign key failed it. It writes the
     * whole row, and only where version, claim and both counts allow it.
     */
    method Update(id: CardId, row: Row, g: Guard) returns (affected: Option<nat>)
      modifies this`tasks
      ensures affected != Some(0) <==>
                && id in old(tasks) && old(tasks)[id].version == g.expectedVersion
                && (g.requireUnassigned ==> old(tasks)[id].assignee.None?)
                && (g.wipLimit.Some? ==>
                      |set c | c in old(tasks) && c != id && old(tasks)[c].column == row.column
                               && !old(tasks)[c].archived| < g.wipLimit.value)
                && (g.wipPerAgent.Some? && row.assignee.Some? ==>
                      |set c | c in old(tasks) && c != id && old(tasks)[c].column == row.column
                               && !old(tasks)[c].archived && old(tasks)[c].assignee == row.assignee|
                      < g.wipPerAgent.value)
      ensures affected != Some(0) ==>
                affected == if row.assignee.Some? && row.assignee.value !in agents then None else Some(1)
      ensures tasks == if affected == Some(1) then old(tasks)[id := row] else old(tasks)
      ensures affected != Some(0) <==> Matches(old(tasks), id, row, g)
    {
      CountsAreTheQuery(tasks, id, row);
      if !Matches(tasks, id, row, g) { return Some(0); }
      if row.assignee.Some? && row.assignee.value !in agents { return None; }
      tasks := tasks[id := row];
      return Some(1);
    }

    /** Both statements, with nobody in between: then the answer is the reason, exactly. */
    method UpdateCard(id: CardId, row: Row, g: Guard) returns (answer: Answer)
      modifies this`tasks
      ensures tasks == if answer.Written? then old(tasks)[id := row] else old(tasks)
      ensures answer.Written? <==> Matches(old(tasks), id, row, g) && Stands(agents, row)
      ensures answer.Refused? <==> Matches(old(tasks), id, row, g) && !Stands(agents, row)
      ensures answer.NotFound? <==> id !in old(tasks)
      ensures answer.Stale? <==>
                (id in old(tasks) && (old(tasks)[id].version != g.expectedVersion || !ClaimAllows(old(tasks)[id], g)))
      ensures answer.WipFull? <==>
                (id in old(tasks) && old(tasks)[id].version == g.expectedVersion
                 && ClaimAllows(old(tasks)[id], g) && !WipAllows(old(tasks), id, row, g))
    {
      var affected := Update(id, row, g);
      if affected.None? { return Refused; }
      if affected.value == 1 { return Written; }
      return ReadBack(tasks, id, g);
    }
  }

  lemma CountsAreTheQuery(tasks: Tasks, id: CardId, row: Row)
    ensures Others(tasks, row.column, id)
         == set c | c in tasks && c != id && tasks[c].column == row.column && !tasks[c].archived
    ensures row.assignee.Some? ==>
              OthersOf(tasks, row.column, row.assignee.value, id)
              == set c | c in tasks && c != id && tasks[c].column == row.column && !tasks[c].archived
                         && tasks[c].assignee == row.assignee
  {
  }

  // ---- The guard is the rule ----

  datatype Wip = Fits | Full(count: nat, limit: nat) | FullForAgent(count: nat, limit: nat)

  const U32_MAX: nat := 0xFFFF_FFFF

  /** A count that does not fit 32 bits saturates. */
  function Saturated(n: nat): nat { Min(n, U32_MAX) }

  function InColumn(cards: seq<CardId>, tasks: Tasks, column: ColumnId, moving: CardId): seq<CardId>
    requires forall i :: 0 <= i < |cards| ==> cards[i] in tasks
  {
    if cards == [] then []
    else
      var c := cards[0];
      (if tasks[c].column == column && !tasks[c].archived && c != moving then [c] else [])
      + InColumn(cards[1..], tasks, column, moving)
  }

  function AssignedTo(cards: seq<CardId>, tasks: Tasks, agent: AgentId): seq<CardId> {
    if cards == [] then []
    else
      (if cards[0] in tasks && tasks[cards[0]].assignee == Some(agent) then [cards[0]] else [])
      + AssignedTo(cards[1..], tasks, agent)
  }

  function CheckWip(column: ColumnId, wipLimit: Option<nat>, wipPerAgent: Option<nat>,
                    cards: seq<CardId>, tasks: Tasks, moving: CardId, assignee: Option<AgentId>): Wip
    requires forall i :: 0 <= i < |cards| ==> cards[i] in tasks
  {
    var here := InColumn(cards, tasks, column, moving);
    if wipLimit.Some? && Saturated(|here|) >= wipLimit.value then Full(Saturated(|here|), wipLimit.value)
    else if wipPerAgent.Some? && assignee.Some?
        && Saturated(|AssignedTo(here, tasks, assignee.value)|) >= wipPerAgent.value
    then FullForAgent(Saturated(|AssignedTo(here, tasks, assignee.value)|), wipPerAgent.value)
    else Fits
  }

  ghost predicate Distinct(s: seq<CardId>) {
    forall i, j :: 0 <= i < j < |s| ==> s[i] != s[j]
  }

  function Members(s: seq<CardId>): set<CardId> { set c | c in s }

  lemma {:induction false} DistinctCount(s: seq<CardId>)
    requires Distinct(s)
    ensures |Members(s)| == |s|
  {
    if s != [] {
      DistinctCount(s[1..]);
      assert Members(s) == {s[0]} + Members(s[1..]);
      assert s[0] !in s[1..] by { assert forall i :: 0 <= i < |s[1..]| ==> s[1..][i] == s[i + 1]; }
    }
  }

  lemma {:induction false} InColumnMembers(cards: seq<CardId>, tasks: Tasks, column: ColumnId, moving: CardId)
    requires Distinct(cards) && forall i :: 0 <= i < |cards| ==> cards[i] in tasks
    ensures forall c :: c in InColumn(cards, tasks, column, moving)
              <==> c in cards && tasks[c].column == column && !tasks[c].archived && c != moving
    ensures Distinct(InColumn(cards, tasks, column, moving))
  {
    if cards != [] {
      assert forall i :: 0 <= i < |cards| - 1 ==> cards[1..][i] == cards[i + 1];
      InColumnMembers(cards[1..], tasks, column, moving);
      var rest := InColumn(cards[1..], tasks, column, moving);
      assert cards[0] !in rest;
      assert forall c :: c in cards <==> c == cards[0] || c in cards[1..];
    }
  }

  lemma {:induction false} AssignedToMembers(cards: seq<CardId>, tasks: Tasks, agent: AgentId)
    requires Distinct(cards)
    ensures forall c ::
              c in AssignedTo(cards, tasks, agent) <==> c in cards && c in tasks && tasks[c].assignee == Some(agent)
    ensures Distinct(AssignedTo(cards, tasks, agent))
  {
    if cards != [] {
      assert forall i :: 0 <= i < |cards| - 1 ==> cards[1..][i] == cards[i + 1];
      AssignedToMembers(cards[1..], tasks, agent);
      assert cards[0] !in AssignedTo(cards[1..], tasks, agent);
      assert forall c :: c in cards <==> c == cards[0] || c in cards[1..];
    }
  }

  /** On a listing of the table, the service's rule and the statement's guard decide alike. */
  lemma GuardAgreesWithCheckWip(tasks: Tasks, cards: seq<CardId>, id: CardId, row: Row, g: Guard)
    requires Distinct(cards) && forall c :: c in cards <==> c in tasks
    requires (g.wipLimit.Some? ==> g.wipLimit.value <= U32_MAX)
             && (g.wipPerAgent.Some? ==> g.wipPerAgent.value <= U32_MAX)
    ensures (forall i :: 0 <= i < |cards| ==> cards[i] in tasks) &&
            (CheckWip(row.column, g.wipLimit, g.wipPerAgent, cards, tasks, id, row.assignee) == Fits
             <==> WipAllows(tasks, id, row, g))
  {
    forall i | 0 <= i < |cards| ensures cards[i] in tasks { assert cards[i] in cards; }
    var here := InColumn(cards, tasks, row.column, id);
    InColumnMembers(cards, tasks, row.column, id);
    DistinctCount(here);
    assert Members(here) == Others(tasks, row.column, id);
    if row.assignee.Some? {
      var mine := AssignedTo(here, tasks, row.assignee.value);
      AssignedToMembers(here, tasks, row.assignee.value);
      DistinctCount(mine);
      assert Members(mine) == OthersOf(tasks, row.column, row.assignee.value, id);
    }
  }

  // ---- WIP limits and one statement (RacingWriters has the runs) ----

  datatype Limits = Limits(total: Option<nat>, perAgent: Option<nat>)

  function LimitsOf(limits: map<ColumnId, Limits>, column: ColumnId): Limits {
    if column in limits then limits[column] else Limits(None, None)
  }

  function Live(tasks: Tasks, column: ColumnId): set<CardId> {
    set c | c in tasks && tasks[c].column == column && !tasks[c].archived
  }

  function LiveOf(tasks: Tasks, column: ColumnId, agent: AgentId): set<CardId> {
    set c | c in Live(tasks, column) && tasks[c].assignee == Some(agent)
  }

  ghost predicate ColumnWithin(tasks: Tasks, column: ColumnId, l: Limits) {
    && (l.total.Some? ==> |Live(tasks, column)| <= l.total.value)
    && (l.perAgent.Some? ==> forall a :: |LiveOf(tasks, column, a)| <= l.perAgent.value)
  }

  ghost predicate WithinLimits(tasks: Tasks, limits: map<ColumnId, Limits>) {
    forall column :: ColumnWithin(tasks, column, LimitsOf(limits, column))
  }

  /** A write that brings a live card to a column, or to another assignee in it, names the column's limits. */
  predicate Carries(g: Guard, l: Limits, before: Row, after: Row) {
    || after.archived
    || (!before.archived && after.column == before.column && after.assignee == before.assignee)
    || (g.wipLimit == l.total && g.wipPerAgent == l.perAgent)
  }

  lemma GrownCount(a: set<CardId>, b: set<CardId>, id: CardId)
    requires a <= b + {id}
    ensures |a| <= |b| + 1
  {
    SubsetCount(a, b + {id});
  }

  /** A live row written, new or not, keeps the limits exactly when the WIP rule allows it at that instant. */
  lemma WriteKeepsLimitsIff(tasks: Tasks, id: CardId, row: Row, limits: map<ColumnId, Limits>, g: Guard)
    requires WithinLimits(tasks, limits) && !row.archived
    requires g.wipLimit == LimitsOf(limits, row.column).total && g.wipPerAgent == LimitsOf(limits, row.column).perAgent
    ensures WithinLimits(tasks[id := row], limits) <==> WipAllows(tasks, id, row, g)
  {
    hide LimitsOf, ColumnWithin, WipAllows;
    var after := tasks[id := row];
    assert ColumnWithin(tasks, row.column, LimitsOf(limits, row.column));
    WriteIntoColumn(tasks, id, row, LimitsOf(limits, row.column), g);
    forall column | column != row.column ensures ColumnWithin(after, column, LimitsOf(limits, column)) {
      WriteElsewhere(tasks, id, row, column, LimitsOf(limits, column));
    }
  }

  lemma WriteElsewhere(tasks: Tasks, id: CardId, row: Row, column: ColumnId, l: Limits)
    requires (row.archived || column != row.column) && ColumnWithin(tasks, column, l)
    ensures ColumnWithin(tasks[id := row], column, l)
  {
    var after := tasks[id := row];
    SubsetCount(Live(after, column), Live(tasks, column));
    forall a ensures |LiveOf(after, column, a)| <= |LiveOf(tasks, column, a)| {
      SubsetCount(LiveOf(after, column, a), LiveOf(tasks, column, a));
    }
  }

  lemma WriteIntoColumn(tasks: Tasks, id: CardId, row: Row, l: Limits, g: Guard)
    requires ColumnWithin(tasks, row.column, l) && !row.archived
    requires g.wipLimit == l.total && g.wipPerAgent == l.perAgent
    ensures ColumnWithin(tasks[id := row], row.column, l) <==> WipAllows(tasks, id, row, g)
  {
    var after := tasks[id := row];
    WrittenLive(tasks, id, row);
    forall a ensures row.assignee != Some(a) ==> |LiveOf(after, row.column, a)| <= |LiveOf(tasks, row.column, a)|
      ensures row.assignee == Some(a) ==> |LiveOf(after, row.column, a)| == |OthersOf(tasks, row.column, a, id)| + 1
    {
      WrittenLiveOf(tasks, id, row, a);
    }
    hide Live, LiveOf, Others, OthersOf;
  }

  lemma WrittenLive(tasks: Tasks, id: CardId, row: Row)
    requires !row.archived
    ensures Live(tasks[id := row], row.column) == Others(tasks, row.column, id) + {id}
    ensures |Live(tasks[id := row], row.column)| == |Others(tasks, row.column, id)| + 1
    ensures Others(tasks, row.column, id) <= Live(tasks, row.column) && id !in Others(tasks, row.column, id)
  {
    assert Live(tasks[id := row], row.column) == Others(tasks, row.column, id) + {id};
  }

  lemma WrittenLiveOf(tasks: Tasks, id: CardId, row: Row, a: AgentId)
    requires !row.archived
    ensures row.assignee != Some(a) ==> |LiveOf(tasks[id := row], row.column, a)| <= |LiveOf(tasks, row.column, a)|
    ensures row.assignee == Some(a)
            ==> |LiveOf(tasks[id := row], row.column, a)| == |OthersOf(tasks, row.column, a, id)| + 1
  {
    var after := tasks[id := row];
    WrittenLive(tasks, id, row);
    hide Live, Others;
    if row.assignee == Some(a) {
      assert LiveOf(after, row.column, a) == OthersOf(tasks, row.column, a, id) + {id};
    } else {
      SubsetCount(LiveOf(after, row.column, a), LiveOf(tasks, row.column, a));
    }
  }

  lemma ArchivedKeepsLimits(tasks: Tasks, id: CardId, row: Row, limits: map<ColumnId, Limits>)
    requires WithinLimits(tasks, limits) && row.archived
    ensures WithinLimits(tasks[id := row], limits)
  {
    hide LimitsOf, ColumnWithin;
    forall column ensures ColumnWithin(tasks[id := row], column, LimitsOf(limits, column)) {
      assert ColumnWithin(tasks, column, LimitsOf(limits, column));
      WriteElsewhere(tasks, id, row, column, LimitsOf(limits, column));
    }
  }

  /** A live card that stays where it is, with whom it is, fits because it did. */
  lemma StayingFits(tasks: Tasks, id: CardId, row: Row, limits: map<ColumnId, Limits>, g: Guard)
    requires WithinLimits(tasks, limits) && id in tasks && !tasks[id].archived && !row.archived
    requires row.column == tasks[id].column && row.assignee == tasks[id].assignee
    requires g.wipLimit == LimitsOf(limits, row.column).total && g.wipPerAgent == LimitsOf(limits, row.column).perAgent
    ensures WipAllows(tasks, id, row, g)
  {
    hide LimitsOf, WithinLimits;
    assert ColumnWithin(tasks, row.column,
        LimitsOf(limits, row.column)) by { hide *; WithinAt(tasks, limits, row.column); }
    assert tasks[id := tasks[id]] == tasks;
    WrittenLive(tasks, id, tasks[id]);
    if row.assignee.Some? {
      WrittenLiveOf(tasks, id, tasks[id], row.assignee.value);
    }
    hide Live, LiveOf, Others, OthersOf;
  }

  lemma WithinAt(tasks: Tasks, limits: map<ColumnId, Limits>, column: ColumnId)
    requires WithinLimits(tasks, limits)
    ensures ColumnWithin(tasks, column, LimitsOf(limits, column))
  {
  }

  lemma GuardedWriteKeepsLimits(tasks: Tasks, id: CardId, row: Row, g: Guard, limits: map<ColumnId, Limits>)
    requires WithinLimits(tasks, limits)
    requires id in tasks ==> Carries(g, LimitsOf(limits, row.column), tasks[id], row)
    ensures WithinLimits(Updated(tasks, id, row, g), limits)
  {
    hide WithinLimits, LimitsOf;
    if Matches(tasks, id, row, g) {
      if row.archived {
        ArchivedKeepsLimits(tasks, id, row, limits);
      } else {
        var l := LimitsOf(limits, row.column);
        var own := Guard(0, false, l.total, l.perAgent);
        if g.wipLimit != l.total || g.wipPerAgent != l.perAgent {
          StayingFits(tasks, id, row, limits, own);
        }
        WriteKeepsLimitsIff(tasks, id, row, limits, own);
      }
    }
  }

  function Moved(tasks: Tasks, from: ColumnId, to: ColumnId): Tasks {
    map c | c in tasks :: if tasks[c].column == from then tasks[c].(column := to, version := tasks[c].version + 1)
        else tasks[c]
  }

  /** Moving a whole column is guarded by nothing: both columns' cards together have to fit. */
  ghost predicate MoveFits(tasks: Tasks, from: ColumnId, to: ColumnId, l: Limits) {
    from == to ||
    (&& (l.total.Some? ==> |Live(tasks, from)| + |Live(tasks, to)| <= l.total.value)
     && (l.perAgent.Some? ==> forall a :: |LiveOf(tasks, from, a)| + |LiveOf(tasks, to, a)| <= l.perAgent.value))
  }

  lemma MoveKeepsLimitsIff(tasks: Tasks, from: ColumnId, to: ColumnId, limits: map<ColumnId, Limits>)
    requires WithinLimits(tasks, limits)
    ensures WithinLimits(Moved(tasks, from, to), limits) <==> MoveFits(tasks, from, to, LimitsOf(limits, to))
  {
    hide LimitsOf, ColumnWithin, MoveFits, Moved;
    var after := Moved(tasks, from, to);
    assert ColumnWithin(tasks, to, LimitsOf(limits, to));
    MoveIntoColumn(tasks, from, to, LimitsOf(limits, to));
    forall column | column != to ensures ColumnWithin(after, column, LimitsOf(limits, column)) {
      assert ColumnWithin(tasks, column, LimitsOf(limits, column));
      MoveElsewhere(tasks, from, to, column, LimitsOf(limits, column));
    }
  }

  lemma MoveElsewhere(tasks: Tasks, from: ColumnId, to: ColumnId, column: ColumnId, l: Limits)
    requires column != to && ColumnWithin(tasks, column, l)
    ensures ColumnWithin(Moved(tasks, from, to), column, l)
  {
    var after := Moved(tasks, from, to);
    SubsetCount(Live(after, column), Live(tasks, column));
    forall a ensures |LiveOf(after, column, a)| <= |LiveOf(tasks, column, a)| {
      SubsetCount(LiveOf(after, column, a), LiveOf(tasks, column, a));
    }
  }

  lemma MoveIntoColumn(tasks: Tasks, from: ColumnId, to: ColumnId, l: Limits)
    requires ColumnWithin(tasks, to, l)
    ensures ColumnWithin(Moved(tasks, from, to), to, l) <==> MoveFits(tasks, from, to, l)
  {
    var after := Moved(tasks, from, to);
    forall a ensures |LiveOf(after, to, a)| == (if from == to then 0 else |LiveOf(tasks, from, a)|)
        + |LiveOf(tasks, to, a)| {
      MovedCounts(tasks, from, to, a);
    }
    MovedLive(tasks, from, to);
    hide Live, LiveOf, Moved;
  }

  lemma MovedLive(tasks: Tasks, from: ColumnId, to: ColumnId)
    ensures |Live(Moved(tasks, from, to), to)| == (if from == to then 0 else |Live(tasks, from)|) + |Live(tasks, to)|
  {
    var after := Moved(tasks, from, to);
    if from == to {
      assert Live(after, to) == Live(tasks, to);
    } else {
      assert Live(after, to) == Live(tasks, from) + Live(tasks, to) && Live(tasks, from) !! Live(tasks, to);
    }
  }

  lemma MovedCounts(tasks: Tasks, from: ColumnId, to: ColumnId, a: AgentId)
    ensures |LiveOf(Moved(tasks, from, to), to, a)| == (if from == to then 0 else |LiveOf(tasks, from, a)|)
            + |LiveOf(tasks, to, a)|
  {
    var after := Moved(tasks, from, to);
    if from == to {
      assert LiveOf(after, to, a) == LiveOf(tasks, to, a);
    } else {
      assert LiveOf(after, to, a) == LiveOf(tasks, from, a) + LiveOf(tasks, to, a)
          && LiveOf(tasks, from, a) !! LiveOf(tasks, to, a);
    }
  }

  /** Fewer cards, or the same with fewer assignees, stay within the limits. */
  lemma LessKeepsLimits(tasks: Tasks, after: Tasks, limits: map<ColumnId, Limits>)
    requires WithinLimits(tasks, limits)
    requires forall c :: c in after ==> c in tasks && (after[c] == tasks[c] || after[c] == tasks[c].(assignee := None))
    ensures WithinLimits(after, limits)
  {
    forall column ensures ColumnWithin(after, column, LimitsOf(limits, column)) {
      assert ColumnWithin(tasks, column, LimitsOf(limits, column));
      SubsetCount(Live(after, column), Live(tasks, column));
      forall a ensures |LiveOf(after, column, a)| <= |LiveOf(tasks, column, a)| {
        SubsetCount(LiveOf(after, column, a), LiveOf(tasks, column, a));
      }
    }
  }

  /** Creating a card is checked before, not in, the INSERT: a full column can still receive one. */
  lemma UnguardedInsertCanOverflow(a: CardId, b: CardId, row: Row)
    requires a != b && !row.archived
    ensures var limits := map[row.column := Limits(Some(1), None)];
            && WipAllows(map[], a, row, Guard(0, false, Some(1), None))
                && WipAllows(map[], b, row, Guard(0, false, Some(1), None))
            && !WithinLimits(map[a := row, b := row], limits)
  {
    assert Live(map[a := row, b := row], row.column) == {a, b};
    var limits := map[row.column := Limits(Some(1), None)];
    assert !ColumnWithin(map[a := row, b := row], row.column, LimitsOf(limits, row.column));
  }

  /** So can a column take another one's cards beyond its limit. */
  lemma UnguardedMoveCanOverflow(a: CardId, b: CardId, row: Row, to: ColumnId)
    requires a != b && !row.archived && row.column != to
    ensures var tasks, limits := map[a := row, b := row.(column := to)], map[to := Limits(Some(1), None)];
            WithinLimits(tasks, limits) && !WithinLimits(Moved(tasks, row.column, to), limits)
  {
    var tasks, limits := map[a := row, b := row.(column := to)], map[to := Limits(Some(1), None)];
    assert Live(tasks, to) == {b} && Live(tasks, row.column) == {a};
    forall column ensures ColumnWithin(tasks, column, LimitsOf(limits, column)) {}
    MoveKeepsLimitsIff(tasks, row.column, to, limits);
  }
}
