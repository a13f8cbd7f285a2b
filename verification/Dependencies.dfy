/** The dependency graph of the board stays acyclic (aisense-core, board/rules.rs). */
module Dependencies {
  import opened Prelude

  type CardId = string

  /** `(task, dependsOn)`. */
  type Edge = (CardId, CardId)

  // ---- Paths and cycles ----

  ghost predicate IsWalk(edges: set<Edge>, path: seq<CardId>) {
    path != [] && forall i :: 0 <= i < |path| - 1 ==> (path[i], path[i + 1]) in edges
  }

  ghost predicate Connects(edges: set<Edge>, path: seq<CardId>, from: CardId, to: CardId) {
    IsWalk(edges, path) && path[0] == from && path[|path| - 1] == to
  }

  ghost predicate Reaches(edges: set<Edge>, from: CardId, to: CardId) {
    exists path :: Connects(edges, path, from, to)
  }

  ghost predicate IsCycle(edges: set<Edge>, path: seq<CardId>) {
    IsWalk(edges, path) && |path| >= 2 && path[0] == path[|path| - 1]
  }

  ghost predicate Acyclic(edges: set<Edge>) {
    forall path :: !IsCycle(edges, path)
  }

  function EdgeSet(edges: seq<Edge>): set<Edge> {
    set e | e in edges
  }

  /** A set that contains `from` and every successor of its members contains what `from` reaches. */
  lemma {:induction false} ClosedContainsReachable(edges: set<Edge>, closed: set<CardId>, path: seq<CardId>)
    requires IsWalk(edges, path) && path[0] in closed
    requires forall e :: e in edges && e.0 in closed ==> e.1 in closed
    ensures path[|path| - 1] in closed
    decreases |path|
  {
    if |path| > 1 {
      assert (path[0], path[1]) in edges;
      ClosedContainsReachable(edges, closed, path[1..]);
    }
  }

  // ---- The search ----

  function Successors(edges: seq<Edge>, task: CardId): (next: seq<CardId>)
    ensures forall d :: d in next <==> (task, d) in EdgeSet(edges)
  {
    if edges == [] then []
    else (if edges[0].0 == task then [edges[0].1] else []) + Successors(edges[1..], task)
  }

  function Cards(edges: seq<Edge>, from: CardId): set<CardId> {
    {from} + (set e | e in edges :: e.0) + (set e | e in edges :: e.1)
  }

  /** Every candidate path is a real one, ends on a known card and starts where the search did. */
  ghost predicate GoodStack(edges: seq<Edge>, from: CardId, stack: seq<seq<CardId>>) {
    forall k :: 0 <= k < |stack| ==>
      IsWalk(EdgeSet(edges), stack[k]) && stack[k][0] == from && stack[k][|stack[k]| - 1] in Cards(edges, from)
  }

  /** Where the search still has to look. */
  ghost predicate Waiting(stack: seq<seq<CardId>>, card: CardId) {
    exists k :: 0 <= k < |stack| && stack[k] != [] && stack[k][|stack[k]| - 1] == card
  }

  /** What is seen is closed under successors, but for the ends still waiting on the stack. */
  ghost predicate Frontier(edges: seq<Edge>, seen: set<CardId>, stack: seq<seq<CardId>>) {
    forall e :: e in EdgeSet(edges) && e.0 in seen ==> e.1 in seen || Waiting(stack, e.1)
  }

  lemma LongerWalk(edges: set<Edge>, path: seq<CardId>, next: CardId)
    requires IsWalk(edges, path) && (path[|path| - 1], next) in edges
    ensures IsWalk(edges, path + [next])
  {
  }

  lemma SuccessorIsACard(edges: seq<Edge>, from: CardId, task: CardId, next: CardId)
    requires (task, next) in EdgeSet(edges)
    ensures next in Cards(edges, from)
  {
    assert (task, next) in edges;
  }

  /** The depth-first search with a stack of paths: a path exactly when there is one. */
  method DependencyPath(edges: seq<Edge>, from: CardId, to: CardId) returns (found: Option<seq<CardId>>)
    ensures found.Some? ==> Connects(EdgeSet(edges), found.value, from, to)
    ensures found.Some? <==> Reaches(EdgeSet(edges), from, to)
  {
    var stack := [[from]];
    var seen: set<CardId> := {};
    assert stack[0] != [] && stack[0][|stack[0]| - 1] == from;
    while stack != []
      invariant GoodStack(edges, from, stack)
      invariant from in seen || Waiting(stack, from)
      invariant Frontier(edges, seen, stack)
      invariant to !in seen
      decreases Cards(edges, from) - seen, |stack|
    {
      var path := stack[|stack| - 1];
      ghost var before := stack;
      stack := stack[..|stack| - 1];
      var last := path[|path| - 1];
      if last == to {
        assert Connects(EdgeSet(edges), path, from, to);
        return Some(path);
      }
      if last in seen {
        PoppedSeen(edges, seen, before);
        assert from in seen || Waiting(stack, from) by { if from !in seen { StillWaiting(before, from); } }
        continue;
      }
      ghost var cards := Cards(edges, from);
      seen := seen + {last};
      stack := PushAll(edges, from, path, stack, Successors(edges, last));
      PoppedNew(edges, seen - {last}, before, last, stack, Successors(edges, last));
    }
    NothingLeft(edges, seen, from, to);
    return None;
  }

  /** The inner loop: one longer path per dependency of the card just reached. */
  method PushAll(edges: seq<Edge>, ghost from: CardId, path: seq<CardId>, below: seq<seq<CardId>>, next: seq<CardId>)
    returns (stack: seq<seq<CardId>>)
    requires GoodStack(edges, from, below) && IsWalk(EdgeSet(edges), path) && path[0] == from
    requires forall d :: d in next ==> (path[|path| - 1], d) in EdgeSet(edges)
    ensures GoodStack(edges, from, stack)
    ensures |stack| == |below| + |next| && stack[..|below|] == below
    ensures forall k :: 0 <= k < |next| ==> stack[|below| + k] == path + [next[k]]
  {
    stack := below;
    for i := 0 to |next|
      invariant |stack| == |below| + i && stack[..|below|] == below
      invariant GoodStack(edges, from, stack)
      invariant forall k :: 0 <= k < i ==> stack[|below| + k] == path + [next[k]]
    {
      assert next[i] in next;
      LongerWalk(EdgeSet(edges), path, next[i]);
      SuccessorIsACard(edges, from, path[|path| - 1], next[i]);
      stack := stack + [path + [next[i]]];
    }
  }

  lemma StillWaiting(stack: seq<seq<CardId>>, card: CardId)
    requires stack != [] && stack[|stack| - 1] != [] && Waiting(stack, card)
    requires stack[|stack| - 1][|stack[|stack| - 1]| - 1] != card
    ensures Waiting(stack[..|stack| - 1], card)
  {
    var k :| 0 <= k < |stack| && stack[k] != [] && stack[k][|stack[k]| - 1] == card;
    assert stack[..|stack| - 1][k] == stack[k];
  }

  lemma PoppedSeen(edges: seq<Edge>, seen: set<CardId>, stack: seq<seq<CardId>>)
    requires stack != [] && stack[|stack| - 1] != [] && Frontier(edges, seen, stack)
    requires stack[|stack| - 1][|stack[|stack| - 1]| - 1] in seen
    ensures Frontier(edges, seen, stack[..|stack| - 1])
  {
    forall e | e in EdgeSet(edges) && e.0 in seen && e.1 !in seen ensures Waiting(stack[..|stack| - 1], e.1) {
      StillWaiting(stack, e.1);
    }
  }

  lemma PoppedNew(edges: seq<Edge>, seen: set<CardId>, before: seq<seq<CardId>>, last: CardId,
                  stack: seq<seq<CardId>>, next: seq<CardId>)
    requires before != [] && before[|before| - 1] != [] && Frontier(edges, seen, before)
    requires last == before[|before| - 1][|before[|before| - 1]| - 1]
    requires next == Successors(edges, last)
    requires |stack| == |before| - 1 + |next| && stack[..|before| - 1] == before[..|before| - 1]
    requires forall k :: 0 <= k < |next| ==> stack[|before| - 1 + k] == before[|before| - 1] + [next[k]]
    ensures Frontier(edges, seen + {last}, stack)
    ensures forall card :: card != last && Waiting(before, card) ==> Waiting(stack, card)
  {
    forall card | card != last && Waiting(before, card) ensures Waiting(stack, card) {
      StillWaiting(before, card);
      var k :| 0 <= k < |before| - 1 && before[k] != [] && before[k][|before[k]| - 1] == card;
      assert stack[k] == stack[..|before| - 1][k] == before[k];
    }
    forall e | e in EdgeSet(edges) && e.0 in seen + {last} && e.1 !in seen + {last} ensures Waiting(stack, e.1) {
      if e.0 == last {
        var k :| 0 <= k < |next| && next[k] == e.1;
        assert stack[|before| - 1 + k][|before[|before| - 1]|] == e.1;
      }
    }
  }

  lemma NothingLeft(edges: seq<Edge>, seen: set<CardId>, from: CardId, to: CardId)
    requires from in seen && to !in seen && Frontier(edges, seen, [])
    ensures !Reaches(EdgeSet(edges), from, to)
  {
    forall path | Connects(EdgeSet(edges), path, from, to) ensures false {
      assert forall card :: !Waiting([], card);
      ClosedContainsReachable(EdgeSet(edges), seen, path);
    }
  }

  // ---- The rule ----

  datatype Verdict = Accepted | Cycle(path: seq<CardId>)

  /** Refuses `task -> dependsOn` exactly when it would close a cycle, and shows that cycle. */
  method CheckDependency(edges: seq<Edge>, task: CardId, dependsOn: CardId) returns (verdict: Verdict)
    ensures verdict.Accepted? <==> Admissible(EdgeSet(edges), task, dependsOn)
    ensures verdict.Cycle? ==>
              IsCycle(EdgeSet(edges) + {(task, dependsOn)}, verdict.path) && verdict.path[0] == task
                  && verdict.path[1] == dependsOn
  {
    if task == dependsOn {
      return Cycle([task, task]);
    }
    var found := DependencyPath(edges, dependsOn, task);
    if found.Some? {
      var path := [task] + found.value;
      ClosingEdgeMakesACycle(EdgeSet(edges), task, dependsOn, found.value);
      return Cycle(path);
    }
    return Accepted;
  }

  ghost predicate Admissible(edges: set<Edge>, task: CardId, dependsOn: CardId) {
    task != dependsOn && !Reaches(edges, dependsOn, task)
  }

  lemma ClosingEdgeMakesACycle(edges: set<Edge>, task: CardId, dependsOn: CardId, path: seq<CardId>)
    requires Connects(edges, path, dependsOn, task)
    ensures IsCycle(edges + {(task, dependsOn)}, [task] + path)
  {
    var cycle := [task] + path;
    forall i | 0 <= i < |cycle| - 1 ensures (cycle[i], cycle[i + 1]) in edges + {(task, dependsOn)} {
      if i > 0 { assert (path[i - 1], path[i]) in edges; }
    }
  }

  lemma WalkCons(edges: set<Edge>, path: seq<CardId>)
    requires |path| >= 2
    ensures IsWalk(edges, path) <==> (path[0], path[1]) in edges && IsWalk(edges, path[1..])
  {
    var tail := path[1..];
    if (path[0], path[1]) in edges && IsWalk(edges, tail) {
      forall k | 0 <= k < |path| - 1 ensures (path[k], path[k + 1]) in edges {
        if k > 0 { assert (tail[k - 1], tail[k]) in edges; }
      }
    }
  }

  lemma WalkSnoc(edges: set<Edge>, path: seq<CardId>)
    requires |path| >= 2
    ensures IsWalk(edges, path) <==> (path[|path| - 2], path[|path| - 1]) in edges && IsWalk(edges, path[..|path| - 1])
  {
  }

  /** In a walk that uses edges out of `task` to `targets`, the last such edge leaves an old walk behind it. */
  lemma {:induction false} LastNewEdge(edges: set<Edge>, task: CardId, targets: set<CardId>, path: seq<CardId>)
    requires IsWalk(edges + NewEdges(task, targets), path) && !IsWalk(edges, path)
    ensures exists i :: 0 <= i < |path| - 1 && path[i] == task && path[i + 1] in targets && IsWalk(edges, path[i + 1..])
    decreases |path|
  {
    var tail := path[1..];
    WalkCons(edges, path);
    WalkCons(edges + NewEdges(task, targets), path);
    if IsWalk(edges, tail) {
      assert path[0 + 1..] == tail;
    } else {
      LastNewEdge(edges, task, targets, tail);
      var k :| 0 <= k < |tail| - 1 && tail[k] == task && tail[k + 1] in targets && IsWalk(edges, tail[k + 1..]);
      assert tail[k + 1..] == path[k + 2..] && path[k + 1] == task && path[k + 2] in targets;
      assert IsWalk(edges, path[(k + 1) + 1..]);
    }
  }

  function NewEdges(task: CardId, targets: set<CardId>): set<Edge> {
    set d | d in targets :: (task, d)
  }

  /** A cycle in the grown graph goes through a new edge, and so back from a target to the task. */
  lemma CycleUsesATarget(edges: set<Edge>, task: CardId, targets: set<CardId>, cycle: seq<CardId>)
    requires Acyclic(edges) && IsCycle(edges + NewEdges(task, targets), cycle)
    ensures exists d :: d in targets && Reaches(edges, d, task)
  {
    assert !IsCycle(edges, cycle);
    LastNewEdge(edges, task, targets, cycle);
    var i :| 0 <= i < |cycle| - 1 && cycle[i] == task && cycle[i + 1] in targets && IsWalk(edges, cycle[i + 1..]);
    FirstNewEdge(edges, task, targets, cycle);
    var j :| 0 <= j < |cycle| && cycle[j] == task && IsWalk(edges, cycle[..j + 1]);
    // From after its last new edge the cycle comes around to its first one on old edges alone.
    JoinWalks(edges, cycle[i + 1..], cycle[..j + 1]);
    assert Connects(edges, cycle[i + 1..] + cycle[..j + 1][1..], cycle[i + 1], task);
  }

  lemma NewEdgeLeaves(edges: set<Edge>, task: CardId, targets: set<CardId>)
    ensures forall e :: e in edges + NewEdges(task, targets) && e !in edges ==> e.0 == task
  {
  }

  lemma {:induction false} FirstNewEdge(edges: set<Edge>, task: CardId, targets: set<CardId>, path: seq<CardId>)
    requires IsWalk(edges + NewEdges(task, targets), path) && !IsWalk(edges, path)
    ensures exists j :: 0 <= j < |path| && path[j] == task && IsWalk(edges, path[..j + 1])
    decreases |path|
  {
    NewEdgeLeaves(edges, task, targets);
    assert |path| >= 2;
    hide IsWalk, NewEdges;
    var head := path[..|path| - 1];
    WalkSnoc(edges, path);
    WalkSnoc(edges + NewEdges(task, targets), path);
    if IsWalk(edges, head) {
      assert path[..|path| - 2 + 1] == head;
    } else {
      FirstNewEdge(edges, task, targets, head);
      var j :| 0 <= j < |head| && head[j] == task && IsWalk(edges, head[..j + 1]);
      assert head[..j + 1] == path[..j + 1];
    }
  }

  lemma JoinWalks(edges: set<Edge>, a: seq<CardId>, b: seq<CardId>)
    requires IsWalk(edges, a) && IsWalk(edges, b) && a[|a| - 1] == b[0]
    ensures IsWalk(edges, a + b[1..]) && (a + b[1..])[0] == a[0]
    ensures (a + b[1..])[|a + b[1..]| - 1] == b[|b| - 1]
  {
    var joined := a + b[1..];
    forall i | 0 <= i < |joined| - 1 ensures (joined[i], joined[i + 1]) in edges {
      if i >= |a| - 1 {
        assert joined[i] == b[i - |a| + 1] && joined[i + 1] == b[i - |a| + 2];
      }
    }
  }

  /** The check is exact: an edge keeps the graph acyclic if and only if it is admissible. */
  lemma AdmissibleIffStaysAcyclic(edges: set<Edge>, task: CardId, dependsOn: CardId)
    requires Acyclic(edges)
    ensures Admissible(edges, task, dependsOn) <==> Acyclic(edges + {(task, dependsOn)})
  {
    assert NewEdges(task, {dependsOn}) == {(task, dependsOn)};
    if Admissible(edges, task, dependsOn) {
      SeveralAdmissibleStayAcyclic(edges, task, {dependsOn});
    } else if task == dependsOn {
      assert IsCycle(edges + {(task, dependsOn)}, [task, task]);
    } else {
      var path :| Connects(edges, path, dependsOn, task);
      ClosingEdgeMakesACycle(edges, task, dependsOn, path);
    }
  }

  /** Several dependencies of one card, each checked against the same old graph, are safe together. */
  lemma SeveralAdmissibleStayAcyclic(edges: set<Edge>, task: CardId, targets: set<CardId>)
    requires Acyclic(edges) && forall d :: d in targets ==> Admissible(edges, task, d)
    ensures Acyclic(edges + NewEdges(task, targets))
  {
    forall cycle ensures !IsCycle(edges + NewEdges(task, targets), cycle) {
      if IsCycle(edges + NewEdges(task, targets), cycle) {
        CycleUsesATarget(edges, task, targets, cycle);
      }
    }
  }

  // ---- Every run ----

  datatype Op = Add(task: CardId, dependsOn: CardId) | Remove(task: CardId, dependsOn: CardId)

  /** An add is written only if the check accepts it; a repeated one changes nothing. */
  ghost function Applied(edges: set<Edge>, op: Op): set<Edge> {
    match op
    case Add(t, d) => if Admissible(edges, t, d) then edges + {(t, d)} else edges
    case Remove(t, d) => edges - {(t, d)}
  }

  ghost function AfterAll(edges: set<Edge>, ops: seq<Op>): set<Edge>
    decreases |ops|
  {
    if ops == [] then edges else AfterAll(Applied(edges, ops[0]), ops[1..])
  }

  lemma {:induction false} EveryRunStaysAcyclic(edges: set<Edge>, ops: seq<Op>)
    requires Acyclic(edges)
    ensures Acyclic(AfterAll(edges, ops))
    decreases |ops|
  {
    if ops != [] {
      match ops[0] {
        case Add(t, d) => AdmissibleIffStaysAcyclic(edges, t, d);
        case Remove(t, d) =>
          forall cycle ensures !IsCycle(edges - {(t, d)}, cycle) {
            assert IsCycle(edges - {(t, d)}, cycle) ==> IsCycle(edges, cycle);
          }
      }
      EveryRunStaysAcyclic(Applied(edges, ops[0]), ops[1..]);
    }
  }

  /** The graph of a run, edge by edge: an accepted add puts its edge in, a removal takes its edge out. */
  lemma {:induction false} LastOpDecides(edges: set<Edge>, ops: seq<Op>, op: Op)
    ensures var before, after := AfterAll(edges, ops), AfterAll(edges, ops + [op]);
            forall t, d :: (t, d) in after
              <==> (if op == Add(t, d) then (t, d) in before || Admissible(before, t, d)
                    else (t, d) in before && op != Remove(t, d))
    decreases |ops|
  {
    hide Admissible;
    if ops == [] {
      assert [] + [op] == [op] && [op][1..] == [];
      assert AfterAll(edges, [op]) == AfterAll(Applied(edges, op), []);
    } else {
      assert (ops + [op])[0] == ops[0] && (ops + [op])[1..] == ops[1..] + [op];
      LastOpDecides(Applied(edges, ops[0]), ops[1..], op);
    }
  }

  lemma EmptyIsAcyclic()
    ensures Acyclic({})
  {
    forall path ensures !IsCycle({}, path) {
      if |path| >= 2 { WalkCons({}, path); }
    }
  }

  /** Every run from the empty graph: its graph has no cycle. */
  lemma EveryRunFromNothingStaysAcyclic(ops: seq<Op>)
    ensures Acyclic(AfterAll({}, ops))
  {
    EmptyIsAcyclic();
    EveryRunStaysAcyclic({}, ops);
  }

  // ---- Adds checked against an older graph ----

  /** The check and the write are separate: two checks against one graph can both pass and close a cycle. */
  lemma RacingChecksCloseACycle(a: CardId, b: CardId)
    requires a != b
    ensures Admissible({}, a, b) && Admissible({}, b, a)
    ensures !Acyclic({(a, b), (b, a)})
  {
    forall path, from, to | from != to ensures !Connects({}, path, from, to) {
      if |path| >= 2 { WalkCons({}, path); }
    }
    assert IsCycle({(a, b), (b, a)}, [a, b, a]);
  }

  /** Added edges, each of whose targets leads by old edges to the card of the next one. */
  ghost predicate IsChain(edges: set<Edge>, added: set<Edge>, chain: seq<Edge>) {
    && chain != [] && (forall k :: 0 <= k < |chain| ==> chain[k] in added)
    && (forall k :: 0 <= k < |chain| - 1 ==> Reaches(edges, chain[k].1, chain[k + 1].0))
  }

  /** A chain whose last target leads back to its first card. */
  ghost predicate IsRing(edges: set<Edge>, added: set<Edge>, chain: seq<Edge>) {
    IsChain(edges, added, chain) && Reaches(edges, chain[|chain| - 1].1, chain[0].0)
  }

  /**
   * Any number of dependencies, written whatever their checks had seen, keep the graph acyclic
   * exactly when they do not close a ring through it.
   */
  lemma RacingAddsAreSafeIff(edges: set<Edge>, added: set<Edge>)
    requires Acyclic(edges)
    ensures Acyclic(edges + added) <==> forall chain :: !IsRing(edges, added, chain)
  {
    if chain :| IsRing(edges, added, chain) {
      var path := RingIsACycle(edges, added, chain);
    }
    if path :| IsCycle(edges + added, path) {
      assert !IsCycle(edges, path);
      var chain := NewEdgesOf(edges, added, path);
      ReachesThrough(edges, chain[|chain| - 1].1, path[0], chain[0].0);
      assert IsRing(edges, added, chain);
    }
  }

  /**
   * In whatever order they are written: the adds keep the graph acyclic exactly when each one would
   * still pass its check if that were made with all the earlier ones in place.
   */
  lemma {:induction false} RecheckedAddsAreSafeIff(edges: set<Edge>, adds: seq<Edge>)
    requires Acyclic(edges)
    ensures Acyclic(edges + EdgeSet(adds))
       <==> forall k :: 0 <= k < |adds| ==> Admissible(edges + EdgeSet(adds[..k]), adds[k].0, adds[k].1)
    decreases |adds|
  {
    hide Acyclic, Admissible;
    if adds == [] {
      assert edges + EdgeSet(adds) == edges;
    } else {
      var n := |adds| - 1;
      var before := adds[..n];
      var grown := edges + EdgeSet(before);
      assert edges + EdgeSet(adds) == grown + {(adds[n].0, adds[n].1)} by {
        assert adds == before + [adds[n]];
      }
      RecheckedAddsAreSafeIff(edges, before);
      forall k | 0 <= k < n ensures before[..k] == adds[..k] {}
      if Acyclic(grown) {
        AdmissibleIffStaysAcyclic(grown, adds[n].0, adds[n].1);
      } else {
        MoreEdgesMoreCycles(grown, {(adds[n].0, adds[n].1)});
      }
    }
  }

  lemma MoreEdgesMoreCycles(edges: set<Edge>, added: set<Edge>)
    requires !Acyclic(edges)
    ensures !Acyclic(edges + added)
  {
    var path :| IsCycle(edges, path);
    assert IsCycle(edges + added, path);
  }

  lemma ReachesThrough(edges: set<Edge>, a: CardId, b: CardId, c: CardId)
    requires Reaches(edges, a, b) && Reaches(edges, b, c)
    ensures Reaches(edges, a, c)
  {
    var head :| Connects(edges, head, a, b);
    var tail :| Connects(edges, tail, b, c);
    JoinWalks(edges, head, tail);
    assert Connects(edges, head + tail[1..], a, c);
  }

  lemma MoreEdgesReach(edges: set<Edge>, added: set<Edge>, from: CardId, to: CardId)
    requires Reaches(edges, from, to)
    ensures Reaches(edges + added, from, to)
  {
    var path :| Connects(edges, path, from, to);
    assert Connects(edges + added, path, from, to);
  }

  lemma EdgeReaches(edges: set<Edge>, e: Edge)
    requires e in edges
    ensures Reaches(edges, e.0, e.1)
  {
    assert Connects(edges, [e.0, e.1], e.0, e.1);
  }

  lemma {:induction false} ChainReaches(edges: set<Edge>, added: set<Edge>, chain: seq<Edge>)
    requires IsChain(edges, added, chain)
    ensures Reaches(edges + added, chain[0].1, chain[|chain| - 1].1)
    decreases |chain|
  {
    var grown := edges + added;
    if |chain| == 1 {
      assert Connects(grown, [chain[0].1], chain[0].1, chain[0].1);
    } else {
      var rest := chain[1..];
      ChainContinues(edges, added, chain);
      ChainReaches(edges, added, rest);
      hide Reaches;
      MoreEdgesReach(edges, added, chain[0].1, rest[0].0);
      EdgeReaches(grown, rest[0]);
      ReachesThrough(grown, chain[0].1, rest[0].0, rest[0].1);
      ReachesThrough(grown, chain[0].1, rest[0].1, chain[|chain| - 1].1);
    }
  }

  lemma ChainContinues(edges: set<Edge>, added: set<Edge>, chain: seq<Edge>)
    requires IsChain(edges, added, chain) && |chain| > 1
    ensures IsChain(edges, added, chain[1..]) && Reaches(edges, chain[0].1, chain[1].0)
    ensures chain[0] in added && chain[1] in added
  {
    hide Reaches;
    assert Reaches(edges, chain[0].1, chain[0 + 1].0);
    forall k | 0 <= k < |chain| - 2 ensures Reaches(edges, chain[1..][k].1, chain[1..][k + 1].0) {
      assert Reaches(edges, chain[k + 1].1, chain[k + 1 + 1].0);
    }
  }

  lemma RingIsACycle(edges: set<Edge>, added: set<Edge>, chain: seq<Edge>) returns (path: seq<CardId>)
    requires IsRing(edges, added, chain)
    ensures IsCycle(edges + added, path)
  {
    var grown, first := edges + added, chain[0];
    assert first in added;
    ChainReaches(edges, added, chain);
    MoreEdgesReach(edges, added, chain[|chain| - 1].1, first.0);
    ReachesThrough(grown, first.1, chain[|chain| - 1].1, first.0);
    var back :| Connects(grown, back, first.1, first.0);
    ClosingEdgeMakesACycle(grown, first.0, first.1, back);
    assert grown + {(first.0, first.1)} == grown;
    path := [first.0] + back;
  }

  /** The added edges of a walk, in order: old edges alone lead to the first, between them, and on from the last. */
  lemma {:induction false} NewEdgesOf(edges: set<Edge>, added: set<Edge>, path: seq<CardId>) returns (chain: seq<Edge>)
    requires IsWalk(edges + added, path) && !IsWalk(edges, path)
    ensures IsChain(edges, added, chain)
    ensures Reaches(edges, path[0], chain[0].0) && Reaches(edges, chain[|chain| - 1].1, path[|path| - 1])
    decreases |path|
  {
    assert |path| >= 2;
    var rest, e := path[1..], (path[0], path[1]);
    WalkCons(edges, path);
    WalkCons(edges + added, path);
    hide IsWalk;
    if !IsWalk(edges, rest) {
      chain := NewEdgesOf(edges, added, rest);
      if e in edges {
        EdgeReaches(edges, e);
        ReachesThrough(edges, path[0], path[1], chain[0].0);
      } else {
        var later := chain;
        chain := [e] + later;
        ChainCons(edges, added, e, later);
        StaysPut(edges, path[0]);
      }
    } else {
      chain := [e];
      StaysPut(edges, path[0]);
      assert Connects(edges, rest, path[1], path[|path| - 1]);
    }
  }

  lemma StaysPut(edges: set<Edge>, card: CardId)
    ensures Reaches(edges, card, card)
  {
    assert Connects(edges, [card], card, card);
  }

  lemma ChainCons(edges: set<Edge>, added: set<Edge>, e: Edge, later: seq<Edge>)
    requires e in added && IsChain(edges, added, later) && Reaches(edges, e.1, later[0].0)
    ensures IsChain(edges, added, [e] + later)
  {
    hide Reaches;
    var chain := [e] + later;
    forall k | 0 <= k < |chain| - 1 ensures Reaches(edges, chain[k].1, chain[k + 1].0) {
      if k > 0 { assert Reaches(edges, later[k - 1].1, later[k - 1 + 1].0); }
    }
  }
}
