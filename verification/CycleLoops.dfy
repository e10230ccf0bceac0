/** When the cycle check is exact on graphs with while loops: every loop must be closed,
    that is, its NextIteration must be reached from its Merge. */
module CycleLoops {
  import opened CycleCheck

  // ---- Reachability along plain edges ----

  ghost predicate Leads(g: Graph, walk: seq<nat>, a: nat, b: nat) {
    walk != [] && walk[0] == a && walk[|walk| - 1] == b && IsWalk(g, walk, false)
  }

  ghost predicate Reaches(g: Graph, a: nat, b: nat) {
    exists walk :: Leads(g, walk, a, b)
  }

  /** Every back edge starts at a NextIteration that its Merge leads to. */
  ghost predicate LoopsClosed(g: Graph) {
    forall j :: 0 <= j < |g.edges| && Exempt(g, g.edges[j]) ==> Reaches(g, g.edges[j].dst, g.edges[j].src)
  }

  lemma ReachesItself(g: Graph, a: nat)
    ensures Reaches(g, a, a)
  {
    assert Leads(g, [a], a, a);
  }

  lemma WalkAppend(g: Graph, walk: seq<nat>, b: nat)
    requires walk != [] && IsWalk(g, walk, false) && Arrow(g, walk[|walk| - 1], b, false)
    ensures IsWalk(g, walk + [b], false)
  {
    hide Arrow;
    var longer := walk + [b];
    forall i | 0 <= i < |longer| - 1 ensures Arrow(g, longer[i], longer[i + 1], false) {
      if i < |walk| - 1 {
        assert Arrow(g, walk[i], walk[i + 1], false);
      }
    }
  }

  lemma ReachesNext(g: Graph, a: nat, b: nat, c: nat)
    requires Reaches(g, a, b) && Arrow(g, b, c, false)
    ensures Reaches(g, a, c)
  {
    hide IsWalk, Arrow;
    var walk :| Leads(g, walk, a, b);
    WalkAppend(g, walk, c);
    assert Leads(g, walk + [c], a, c);
  }

  lemma ReturningIsCycle(g: Graph, a: nat, b: nat)
    requires Reaches(g, a, b) && Arrow(g, b, a, false)
    ensures !Acyclic(g, false)
  {
    hide IsWalk, Arrow;
    var walk :| Leads(g, walk, a, b);
    WalkAppend(g, walk, a);
    assert IsCycle(g, walk + [a], false);
  }

  // ---- Closed loops make the check exact ----

  /** All plain predecessors of order[p] come before it. */
  ghost predicate AfterPredecessors(g: Graph, order: seq<nat>, p: nat)
    requires p < |order|
  {
    forall a :: Arrow(g, a, order[p], false) ==> a in order[..p]
  }

  /** Walking backwards from an early node stays early. */
  lemma {:induction false} WalkStaysBefore(g: Graph, order: seq<nat>, p: nat, walk: seq<nat>, i: nat)
    requires p <= |order| && forall q :: 0 <= q < p ==> AfterPredecessors(g, order, q)
    requires i < |walk| && IsWalk(g, walk, false) && walk[|walk| - 1] in order[..p]
    ensures walk[i] in order[..p]
    decreases |walk| - i
  {
    hide Arrow;
    if i < |walk| - 1 {
      WalkStaysBefore(g, order, p, walk, i + 1);
      var q :| 0 <= q < p && order[q] == walk[i + 1];
      assert AfterPredecessors(g, order, q) && Arrow(g, walk[i], walk[i + 1], false);
      assert walk[i] in order[..q];
    }
  }

  /** A back edge cannot release its Merge early, for its source comes after the Merge. */
  lemma BackEdgeIsLate(g: Graph, order: seq<nat>, p: nat, j: nat)
    requires LoopsClosed(g) && Distinct(order) && p < |order|
    requires forall q :: 0 <= q < p ==> AfterPredecessors(g, order, q)
    requires j < |g.edges| && g.edges[j].dst == order[p] && Exempt(g, g.edges[j])
    ensures g.edges[j].src !in order[..p]
  {
    hide IsWalk;
    var walk :| Leads(g, walk, g.edges[j].dst, g.edges[j].src);
    if g.edges[j].src in order[..p] {
      WalkStaysBefore(g, order, p, walk, 0);
    }
  }

  lemma {:induction false} ReleasedInOrder(g: Graph, order: seq<nat>, p: nat)
    requires LoopsClosed(g) && ReleasesInTurn(g, order) && p < |order|
    ensures AfterPredecessors(g, order, p)
    decreases p
  {
    hide LoopsClosed, AfterPredecessors;
    forall q | 0 <= q < p ensures AfterPredecessors(g, order, q) {
      ReleasedInOrder(g, order, q);
    }
    var done := Elements(order[..p]);
    forall j | 0 <= j < |g.edges| && g.edges[j].dst == order[p] && Exempt(g, g.edges[j])
      ensures g.edges[j].src !in done
    {
      BackEdgeIsLate(g, order, p, j);
    }
    assert Ready(g, order[p], done);
    AllPlainDone(g, order, p);
  }

  lemma AllPlainDone(g: Graph, order: seq<nat>, p: nat)
    requires p < |order| && Ready(g, order[p], Elements(order[..p]))
    requires NoEarlyBackEdge(g, order[p], Elements(order[..p]))
    ensures AfterPredecessors(g, order, p)
  {
    var done := Elements(order[..p]);
    forall a | Arrow(g, a, order[p], false) ensures a in order[..p] {
      var j :| 0 <= j < |g.edges| && g.edges[j].src == a && g.edges[j].dst == order[p] && !Exempt(g, g.edges[j]);
      ReadyMeansAll(g, order[p], done, j, |g.edges|);
      assert a in done;
    }
  }

  /** On graphs whose loops are closed, acceptance is exactly acyclicity without the back
      edges of loops. */
  lemma ClosedLoopsExact(g: Graph)
    requires WellFormed(g) && LoopsClosed(g)
    ensures Releasable(g) <==> Acyclic(g, false)
  {
    if Acyclic(g, false) {
      AcyclicIsAccepted(g);
    }
    if Releasable(g) {
      var order :| IsReleaseOrder(g, order);
      forall walk ensures !IsCycle(g, walk, false) {
        if IsCycle(g, walk, false) {
          CycleContradictsOrder(g, order, walk);
        }
      }
    }
  }

  lemma CycleContradictsOrder(g: Graph, order: seq<nat>, walk: seq<nat>)
    requires WellFormed(g) && LoopsClosed(g) && IsReleaseOrder(g, order)
    ensures !IsCycle(g, walk, false)
  {
    hide LoopsClosed, IsWalk, AfterPredecessors;
    forall q | 0 <= q < |order| ensures AfterPredecessors(g, order, q) {
      ReleasedInOrder(g, order, q);
    }
    if IsCycle(g, walk, false) {
      WalkStarts(g, walk);
      assert walk[0] in LiveNodes(g) && walk[0] in order;
      var p := Position(order, walk[0]);
      PredecessorBefore(g, order, p, walk);
      WalkStaysBefore(g, order, p, walk[..|walk| - 1], 0);
    }
  }

  lemma WalkStarts(g: Graph, walk: seq<nat>)
    requires WellFormed(g) && |walk| >= 2 && IsWalk(g, walk, false)
    ensures IsLive(g, walk[0])
  {
    assert Arrow(g, walk[0], walk[0 + 1], false);
  }

  lemma PredecessorBefore(g: Graph, order: seq<nat>, p: nat, walk: seq<nat>)
    requires |walk| >= 2 && IsWalk(g, walk, false) && p < |order| && order[p] == walk[|walk| - 1]
    requires AfterPredecessors(g, order, p)
    ensures walk[|walk| - 2] in order[..p] && IsWalk(g, walk[..|walk| - 1], false)
  {
    hide Arrow;
    var i := |walk| - 2;
    assert Arrow(g, walk[i], walk[i + 1], false);
  }

  // ---- Open loops do not ----

  function WithEdge(g: Graph, e: Edge): Graph {
    Graph(g.nodes, g.edges + [e])
  }

  /** The check is right about `g`. */
  ghost predicate Exact(g: Graph) {
    Releasable(g) <==> Acyclic(g, false)
  }

  /** The check is right about `g` and whatever plain edge is added to it. */
  ghost predicate ExactWithEdges(g: Graph) {
    forall e: Edge :: IsLive(g, e.src) && IsLive(g, e.dst) && !Exempt(g, e) ==> Exact(WithEdge(g, e))
  }

  lemma {:induction false} CountsWithEdge(g: Graph, e: Edge, n: nat, done: set<nat>, k: nat)
    requires k <= |g.edges|
    ensures Needed(WithEdge(g, e), n, k) == Needed(g, n, k) &&
            Released(WithEdge(g, e), n, done, k) == Released(g, n, done, k)
  {
    if k > 0 {
      CountsWithEdge(g, e, n, done, k - 1);
    }
  }

  lemma ArrowsWithEdge(g: Graph, e: Edge, a: nat, b: nat)
    requires Arrow(g, a, b, false)
    ensures Arrow(WithEdge(g, e), a, b, false)
  {
    var j :| 0 <= j < |g.edges| && g.edges[j].src == a && g.edges[j].dst == b && !Exempt(g, g.edges[j]);
    assert WithEdge(g, e).edges[j] == g.edges[j];
  }

  lemma ReachesWithEdge(g: Graph, e: Edge, a: nat, b: nat)
    requires Reaches(g, a, b)
    ensures Reaches(WithEdge(g, e), a, b)
  {
    hide Arrow;
    var walk :| Leads(g, walk, a, b);
    forall i | 0 <= i < |walk| - 1 ensures Arrow(WithEdge(g, e), walk[i], walk[i + 1], false) {
      ArrowsWithEdge(g, e, walk[i], walk[i + 1]);
    }
    assert Leads(WithEdge(g, e), walk, a, b);
  }

  /** A plain edge more opens no loop. */
  lemma StaysClosed(g: Graph, e: Edge)
    requires WellFormed(g) && LoopsClosed(g) && IsLive(g, e.src) && IsLive(g, e.dst) && !Exempt(g, e)
    ensures WellFormed(WithEdge(g, e)) && LoopsClosed(WithEdge(g, e))
  {
    hide Reaches;
    var g' := WithEdge(g, e);
    forall j | 0 <= j < |g'.edges| && Exempt(g', g'.edges[j]) ensures Reaches(g', g'.edges[j].dst, g'.edges[j].src) {
      assert g'.edges[j] == g.edges[j];
      ReachesWithEdge(g, e, g.edges[j].dst, g.edges[j].src);
    }
  }

  /** In an acyclic graph some node of a set has no plain predecessor in the set. */
  lemma NoEndlessDescent(g: Graph, stuck: set<nat>)
    requires Acyclic(g, false) && forall b :: b in stuck ==> HasPredecessor(g, stuck, b)
    ensures stuck == {}
  {
    hide HasPredecessor;
    if n :| n in stuck {
      assert Elements([n]) == {n};
      var _, _ := BackwardWalkCloses(g, stuck, [n]);
    }
  }

  /** A node left over in the graph with a self-edge at `m` waits, as before, for another
      one, unless it is `m`. */
  lemma WaitsAsBefore(g: Graph, m: nat, done: set<nat>, b: nat) returns (a: nat)
    requires WellFormed(g) && IsLive(g, m) && ClosedUnderReady(WithEdge(g, Edge(m, m, true)), done)
    requires b in LiveNodes(g) - done && b != m
    ensures a in LiveNodes(g) - done && Arrow(g, a, b, false)
  {
    var g' := WithEdge(g, Edge(m, m, true));
    var j := StuckHasPredecessor(g', b, done, |g'.edges|);
    a := g'.edges[j].src;
    assert g'.edges[j] == g.edges[j];
  }

  /** If the graph is acyclic, everything left over is reached from `m`. */
  lemma LeftOverIsReached(g: Graph, m: nat, done: set<nat>)
    requires WellFormed(g) && Acyclic(g, false) && IsLive(g, m)
    requires ClosedUnderReady(WithEdge(g, Edge(m, m, true)), done)
    ensures forall b :: b in LiveNodes(g) - done ==> Reaches(g, m, b)
  {
    hide Reaches, Arrow, ClosedUnderReady;
    var rest := set b | b in LiveNodes(g) - done && !Reaches(g, m, b);
    forall b | b in rest ensures HasPredecessor(g, rest, b) {
      ReachesItself(g, m);
      var a := WaitsAsBefore(g, m, done, b);
      if Reaches(g, m, a) {
        ReachesNext(g, m, a, b);
      }
    }
    NoEndlessDescent(g, rest);
    assert forall b :: b in LiveNodes(g) - done && !Reaches(g, m, b) ==> b in rest;
  }

  /** Once all plain predecessors and one back edge are done, one edge more is released
      than was needed. */
  lemma {:induction false} SurplusRelease(g: Graph, m: nat, done: set<nat>, j: nat, k: nat)
    requires k <= |g.edges| && j < |g.edges| && g.edges[j].dst == m && Exempt(g, g.edges[j]) && g.edges[j].src in done
    requires forall i :: 0 <= i < |g.edges| && g.edges[i].dst == m && !Exempt(g, g.edges[i]) ==> g.edges[i].src in done
    ensures Released(g, m, done, k) >= Needed(g, m, k) + if j < k then 1 else 0
  {
    if k > 0 {
      SurplusRelease(g, m, done, j, k - 1);
    }
  }

  /** The Merge of an open loop is released in spite of a self-edge. */
  lemma OpenMergeIsReady(g: Graph, j: nat, done: set<nat>)
    requires WellFormed(g) && Acyclic(g, false) && j < |g.edges| && Exempt(g, g.edges[j])
    requires !Reaches(g, g.edges[j].dst, g.edges[j].src)
    requires ClosedUnderReady(WithEdge(g, Edge(g.edges[j].dst, g.edges[j].dst, true)), done)
    ensures g.edges[j].dst in done
  {
    hide Reaches;
    var m := g.edges[j].dst;
    var e := Edge(m, m, true);
    LeftOverIsReached(g, m, done);
    assert g.edges[j].src in LiveNodes(g);
    forall i | 0 <= i < |g.edges| && g.edges[i].dst == m && !Exempt(g, g.edges[i]) ensures g.edges[i].src in done {
      assert Arrow(g, g.edges[i].src, m, false) && g.edges[i].src in LiveNodes(g);
      if Reaches(g, m, g.edges[i].src) {
        ReturningIsCycle(g, m, g.edges[i].src);
      }
    }
    SurplusRelease(g, m, done, j, |g.edges|);
    CountsWithEdge(g, e, m, done, |g.edges|);
    assert Ready(WithEdge(g, e), m, done);
  }

  /** An open loop makes the check accept a cycle: a self-edge at its Merge. */
  lemma OpenLoopFools(g: Graph, j: nat)
    requires WellFormed(g) && Acyclic(g, false) && j < |g.edges| && Exempt(g, g.edges[j])
    requires !Reaches(g, g.edges[j].dst, g.edges[j].src)
    ensures var m := g.edges[j].dst;
            !Exempt(g, Edge(m, m, true)) && !Exact(WithEdge(g, Edge(m, m, true)))
  {
    hide Reaches, ClosedUnderReady, ReleasesInTurn, Releasable;
    var m := g.edges[j].dst;
    var g' := WithEdge(g, Edge(m, m, true));
    SelfEdgeIsCycle(g, m);
    EmptyReleases(g');
    var order := Saturate(g', []);
    var done := Elements(order);
    OpenMergeIsReady(g, j, done);
    var stuck := LiveNodes(g) - done;
    forall b | b in stuck ensures HasPredecessor(g, stuck, b) {
      var a := WaitsAsBefore(g, m, done, b);
    }
    NoEndlessDescent(g, stuck);
    OrderIsLive(g', order);
    ClosedDecides(g', order);
    assert LiveNodes(g') == LiveNodes(g);
  }

  lemma SelfEdgeIsCycle(g: Graph, m: nat)
    ensures !Acyclic(WithEdge(g, Edge(m, m, true)), false)
  {
    var g' := WithEdge(g, Edge(m, m, true));
    assert g'.edges[|g.edges|] == Edge(m, m, true);
    assert Arrow(g', m, m, false);
    assert IsCycle(g', [m, m], false);
  }

  /** On a graph that is acyclic but for its back edges the check stays right whatever
      plain edge is added if and only if all its loops are closed. */
  lemma LoopsExact(g: Graph)
    requires WellFormed(g) && Acyclic(g, false)
    ensures LoopsClosed(g) <==> ExactWithEdges(g)
  {
    hide Reaches, Acyclic, Releasable;
    if LoopsClosed(g) {
      forall e: Edge | IsLive(g, e.src) && IsLive(g, e.dst) && !Exempt(g, e) ensures Exact(WithEdge(g, e)) {
        StaysClosed(g, e);
        ClosedLoopsExact(WithEdge(g, e));
      }
    } else {
      var j :| 0 <= j < |g.edges| && Exempt(g, g.edges[j]) && !Reaches(g, g.edges[j].dst, g.edges[j].src);
      OpenLoopFools(g, j);
    }
  }

  // ---- Which nodes a refusal names ----

  /** A cycle of plain edges leads to `n`. */
  ghost predicate CycleLeadsTo(g: Graph, n: nat) {
    exists walk :: IsCycle(g, walk, false) && Reaches(g, walk[0], n)
  }

  /** With closed loops, the nodes that can be released are those no cycle leads to. */
  lemma VisitedExactly(g: Graph, done: set<nat>, n: nat)
    requires WellFormed(g) && LoopsClosed(g) && IsReleasableSet(g, done) && IsLive(g, n)
    ensures n in done <==> !CycleLeadsTo(g, n)
  {
    hide ReleasesInTurn, LoopsClosed, CycleLeadsTo, IsLive;
    var order :| ReleasesInTurn(g, order) && Elements(order) == done;
    if n in done {
      VisitedHasNoCycle(g, order, n);
    } else {
      LeftOverHasCycle(g, done, n);
    }
  }

  lemma VisitedHasNoCycle(g: Graph, order: seq<nat>, n: nat)
    requires LoopsClosed(g) && ReleasesInTurn(g, order) && n in order
    ensures !CycleLeadsTo(g, n)
  {
    hide LoopsClosed, IsWalk, AfterPredecessors;
    forall q | 0 <= q < |order| ensures AfterPredecessors(g, order, q) {
      ReleasedInOrder(g, order, q);
    }
    if CycleLeadsTo(g, n) {
      var walk :| IsCycle(g, walk, false) && Reaches(g, walk[0], n);
      var lead :| Leads(g, lead, walk[0], n);
      assert order[..|order|] == order;
      WalkStaysBefore(g, order, |order|, lead, 0);
      var p := Position(order, walk[0]);
      PredecessorBefore(g, order, p, walk);
      WalkStaysBefore(g, order, p, walk[..|walk| - 1], 0);
      RepeatsEarlier(order, p);
    }
  }

  lemma RepeatsEarlier(order: seq<nat>, p: nat)
    requires p < |order| && order[p] in order[..p]
    ensures !Distinct(order)
  {
  }

  lemma ReleasableSetIsClosed(g: Graph, done: set<nat>)
    requires IsReleasableSet(g, done)
    ensures ClosedUnderReady(g, done) && done <= LiveNodes(g)
  {
    hide ReleasesInTurn, ClosedUnderReady;
    var order :| ReleasesInTurn(g, order) && Elements(order) == done;
    var full := Saturate(g, order);
    assert ReleasesInTurn(g, full);
    OneReleasableSet(g, done);
    CompleteVisit(g, full);
    OrderIsLive(g, order);
  }

  lemma LeftOverHasCycle(g: Graph, done: set<nat>, n: nat)
    requires WellFormed(g) && IsReleasableSet(g, done) && IsLive(g, n) && n !in done
    ensures CycleLeadsTo(g, n)
  {
    hide IsWalk, ClosedUnderReady, IsReleasableSet, HasPredecessor, WellFormed;
    ReleasableSetIsClosed(g, done);
    var stuck := LiveNodes(g) - done;
    forall b | b in stuck ensures HasPredecessor(g, stuck, b) {
      StuckNode(g, done, b);
    }
    OneNodeWalk(g, n);
    var walk, lead := BackwardWalkCloses(g, stuck, [n]);
    assert Leads(g, lead, walk[0], n);
  }

  lemma OneNodeWalk(g: Graph, n: nat)
    ensures IsWalk(g, [n], false) && Elements([n]) == {n} && Distinct([n])
  {
  }

  /** The Merge of a loop that no cycle leads to. */
  ghost predicate HealthyLoop(g: Graph, n: nat) {
    exists j :: 0 <= j < |g.edges| && g.edges[j].dst == n && Exempt(g, g.edges[j]) && !CycleLeadsTo(g, g.edges[j].src)
  }

  lemma {:induction false} EarlyExactly(g: Graph, n: nat, done: set<nat>, k: nat)
    requires k <= |g.edges|
    ensures Early(g, n, done, k) > 0 <==>
            exists j :: 0 <= j < k && g.edges[j].dst == n && Exempt(g, g.edges[j]) && g.edges[j].src in done
  {
    if k > 0 {
      EarlyExactly(g, n, done, k - 1);
    }
  }

  lemma {:induction false} NothingLate(g: Graph, n: nat, done: set<nat>, k: nat)
    requires k <= |g.edges|
    requires forall a :: Arrow(g, a, n, false) ==> a in done
    ensures Late(g, n, done, k) == 0
  {
    if k > 0 {
      NothingLate(g, n, done, k - 1);
      var e := g.edges[k - 1];
      assert e.dst == n && !Exempt(g, e) ==> Arrow(g, e.src, n, false);
    }
  }

  lemma CycleLeadsOn(g: Graph, a: nat, b: nat)
    requires CycleLeadsTo(g, a) && Reaches(g, a, b)
    ensures CycleLeadsTo(g, b)
  {
    hide IsWalk;
    var walk :| IsCycle(g, walk, false) && Reaches(g, walk[0], a);
    ReachesOn(g, walk[0], a, b);
  }

  lemma ReachesOn(g: Graph, a: nat, b: nat, c: nat)
    requires Reaches(g, a, b) && Reaches(g, b, c)
    ensures Reaches(g, a, c)
  {
    var first :| Leads(g, first, a, b);
    var second :| Leads(g, second, b, c);
    var both := first + second[1..];
    forall i | 0 <= i < |both| - 1 ensures Arrow(g, both[i], both[i + 1], false) {
      if i < |first| - 1 {
        assert Arrow(g, first[i], first[i + 1], false);
      } else {
        var k := i - (|first| - 1);
        assert both[i] == second[k] && both[i + 1] == second[k + 1];
        assert Arrow(g, second[k], second[k + 1], false);
      }
    }
    assert Leads(g, both, a, c);
  }

  /** A visited node has a count that is not zero exactly if a back edge into it was
      visited too. */
  lemma VisitedUnbalanced(g: Graph, order: seq<nat>, p: nat)
    requires LoopsClosed(g) && ReleasesInTurn(g, order) && p < |order|
    ensures Unbalanced(g, order[p], Elements(order)) <==>
            exists j :: 0 <= j < |g.edges| && g.edges[j].dst == order[p] && Exempt(g, g.edges[j]) &&
              g.edges[j].src in order
  {
    hide LoopsClosed, Needed, Released;
    ReleasedInOrder(g, order, p);
    var n, done := order[p], Elements(order);
    forall a | Arrow(g, a, n, false) ensures a in done {
      assert a in order[..p];
    }
    NothingLate(g, n, done, |g.edges|);
    EarlyExactly(g, n, done, |g.edges|);
    assert IsLive(g, n);
    UnbalancedExactly(g, n, done);
  }

  /** With closed loops, a count is not zero in the end exactly for the nodes that a cycle
      leads to and for the Merge nodes of healthy loops. */
  lemma NamedExactly(g: Graph, done: set<nat>, n: nat)
    requires WellFormed(g) && LoopsClosed(g) && IsReleasableSet(g, done) && IsLive(g, n)
    ensures Unbalanced(g, n, done) <==> CycleLeadsTo(g, n) || HealthyLoop(g, n)
    ensures !(CycleLeadsTo(g, n) && HealthyLoop(g, n))
  {
    HealthyIsNotCyclic(g, n);
    VisitedExactly(g, done, n);
    if n in done {
      var order :| ReleasesInTurn(g, order) && Elements(order) == done;
      VisitedUnbalanced(g, order, Position(order, n));
      HealthyBackEdges(g, done, n);
    } else {
      ReleasableSetIsClosed(g, done);
    }
  }

  lemma HealthyIsNotCyclic(g: Graph, n: nat)
    requires LoopsClosed(g)
    ensures HealthyLoop(g, n) ==> !CycleLeadsTo(g, n)
  {
    hide CycleLeadsTo, Reaches;
    if CycleLeadsTo(g, n) {
      forall j | 0 <= j < |g.edges| && g.edges[j].dst == n && Exempt(g, g.edges[j])
        ensures CycleLeadsTo(g, g.edges[j].src)
      {
        CycleLeadsOn(g, n, g.edges[j].src);
      }
    }
  }

  lemma HealthyBackEdges(g: Graph, done: set<nat>, n: nat)
    requires WellFormed(g) && LoopsClosed(g) && IsReleasableSet(g, done)
    ensures HealthyLoop(g, n) <==>
            exists j :: 0 <= j < |g.edges| && g.edges[j].dst == n && Exempt(g, g.edges[j]) && g.edges[j].src in done
  {
    hide CycleLeadsTo, LoopsClosed, IsReleasableSet;
    forall j | 0 <= j < |g.edges| ensures g.edges[j].src in done <==> !CycleLeadsTo(g, g.edges[j].src) {
      VisitedExactly(g, done, g.edges[j].src);
    }
  }

  /** Three nodes below `n` that a cycle leads to. */
  ghost predicate ThreeBelow(g: Graph, n: nat) {
    exists a: nat, b: nat, c: nat ::
      a < b < c < n && IsLive(g, a) && IsLive(g, b) && IsLive(g, c)
      && CycleLeadsTo(g, a) && CycleLeadsTo(g, b) && CycleLeadsTo(g, c)
  }

  /** With closed loops, a refusal names only nodes that a cycle leads to if and only if
      every healthy loop's Merge has three such nodes below it. */
  lemma NamesOnlyCycles(g: Graph, done: set<nat>, reported: seq<nat>)
    requires WellFormed(g) && LoopsClosed(g) && IsReleasableSet(g, done) && FirstUnbalanced(g, reported, done)
    ensures (forall i :: 0 <= i < |reported| ==> CycleLeadsTo(g, reported[i])) <==>
            (forall n: nat :: IsLive(g, n) && HealthyLoop(g, n) ==> ThreeBelow(g, n))
  {
    forall n: nat | IsLive(g, n)
      ensures Unbalanced(g, n, done) <==> CycleLeadsTo(g, n) || HealthyLoop(g, n)
      ensures !(CycleLeadsTo(g, n) && HealthyLoop(g, n))
    {
      NamedExactly(g, done, n);
    }
    hide CycleLeadsTo, HealthyLoop, LoopsClosed, IsReleasableSet, Unbalanced;
    UnbalancedIsLive(g, done);
    if forall i :: 0 <= i < |reported| ==> CycleLeadsTo(g, reported[i]) {
      forall n: nat | IsLive(g, n) && HealthyLoop(g, n) ensures ThreeBelow(g, n) {
        assert n !in reported;
        assert reported[0] < reported[1] < reported[2] < n;
      }
    }
    if forall n: nat :: IsLive(g, n) && HealthyLoop(g, n) ==> ThreeBelow(g, n) {
      forall i | 0 <= i < |reported| ensures CycleLeadsTo(g, reported[i]) {
        if !CycleLeadsTo(g, reported[i]) {
          ThreeBelowIsNotNamed(g, done, reported, i);
        }
      }
    }
  }

  lemma UnbalancedIsLive(g: Graph, done: set<nat>)
    ensures forall n: nat :: Unbalanced(g, n, done) ==> IsLive(g, n)
  {
  }

  lemma ThreeBelowIsNotNamed(g: Graph, done: set<nat>, reported: seq<nat>, i: nat)
    requires FirstUnbalanced(g, reported, done) && i < |reported|
    requires forall n: nat :: IsLive(g, n) && CycleLeadsTo(g, n) ==> Unbalanced(g, n, done)
    ensures !ThreeBelow(g, reported[i])
  {
    hide CycleLeadsTo, Unbalanced;
  }

  // ---- A healthy loop is blamed ----

  /** 0 enters the loop of the Merge 1 and the NextIteration 2; 3 and 4 feed each other. */
  ghost const HEALTHY_LOOP := Graph(
    [Live(Other), Live(Merge), Live(NextIteration), Live(Other), Live(Other)],
    [Edge(0, 1, false), Edge(1, 2, false), Edge(2, 1, false), Edge(3, 4, false), Edge(4, 3, false)])

  lemma {:induction false} CountUp(g: Graph, n: nat, done: set<nat>, k: nat)
    requires k < |g.edges|
    ensures Needed(g, n, 0) == Released(g, n, done, 0) == 0
    ensures Needed(g, n, k + 1) == Needed(g, n, k) + EdgeNeeded(g, n, k)
    ensures Released(g, n, done, k + 1) == Released(g, n, done, k) + EdgeReleased(g, n, done, k)
  {
  }

  lemma HealthyCounts(n: nat, done: set<nat>)
    ensures var g := HEALTHY_LOOP;
            && Needed(g, n, 5) == EdgeNeeded(g, n, 0) + EdgeNeeded(g, n, 1) + EdgeNeeded(g, n, 2) + EdgeNeeded(g, n, 3)
                                  + EdgeNeeded(g, n, 4)
            && Released(g, n, done, 5) == EdgeReleased(g, n, done, 0) + EdgeReleased(g, n, done, 1)
                                          + EdgeReleased(g, n, done, 2) + EdgeReleased(g, n, done, 3)
                                          + EdgeReleased(g, n, done, 4)
  {
    hide Needed, Released;
    CountUp(HEALTHY_LOOP, n, done, 0);
    CountUp(HEALTHY_LOOP, n, done, 1);
    CountUp(HEALTHY_LOOP, n, done, 2);
    CountUp(HEALTHY_LOOP, n, done, 3);
    CountUp(HEALTHY_LOOP, n, done, 4);
  }

  lemma HealthyReady()
    ensures var g := HEALTHY_LOOP;
            Ready(g, 0, {}) && Ready(g, 1, {0}) && Ready(g, 2, {0, 1})
  {
    hide Needed, Released;
    HealthyCounts(0, {});
    HealthyCounts(1, {0});
    HealthyCounts(2, {0, 1});
  }

  lemma HealthyEnd()
    ensures var g, done := HEALTHY_LOOP, {0, 1, 2};
            && ClosedUnderReady(g, done) && Unbalanced(g, 1, done) && !Unbalanced(g, 0, done)
  {
    hide Needed, Released;
    var g, done := HEALTHY_LOOP, {0, 1, 2};
    HealthyCounts(0, done);
    HealthyCounts(1, done);
    HealthyCounts(2, done);
    HealthyCounts(3, done);
    HealthyCounts(4, done);
    hide EdgeNeeded, EdgeReleased;
    assert forall n: nat :: IsLive(g, n) ==> n == 0 || n == 1 || n == 2 || n == 3 || n == 4;
  }

  /** A refusal can blame a loop that has nothing to do with the cycle: the graph is
      refused because of 3 and 4, and the first node named is the Merge 1, which is
      visited. All loops of the graph are closed. */
  lemma HealthyLoopIsBlamed()
    ensures WellFormed(HEALTHY_LOOP) && LoopsClosed(HEALTHY_LOOP) && !Releasable(HEALTHY_LOOP)
    ensures IsReleasableSet(HEALTHY_LOOP, {0, 1, 2})
    ensures forall s :: FirstUnbalanced(HEALTHY_LOOP, s, {0, 1, 2}) ==> s != [] && s[0] == 1
    ensures HealthyLoop(HEALTHY_LOOP, 1) && !CycleLeadsTo(HEALTHY_LOOP, 1)
  {
    hide *;
    HealthyIsClosed();
    HealthyVisit();
    HealthyEnd();
    NamedFirst(HEALTHY_LOOP, {0, 1, 2});
    HealthyMerge();
  }

  lemma HealthyVisit()
    ensures WellFormed(HEALTHY_LOOP) && IsReleasableSet(HEALTHY_LOOP, {0, 1, 2}) && !Releasable(HEALTHY_LOOP)
  {
    hide *;
    HealthySize();
    HealthyOrder();
    HealthyEnd();
    FirstThree();
    CompleteVisit(HEALTHY_LOOP, [0, 1, 2]);
    ClosedDecides(HEALTHY_LOOP, [0, 1, 2]);
  }

  lemma HealthySize()
    ensures WellFormed(HEALTHY_LOOP) && |LiveNodes(HEALTHY_LOOP)| == 5
  {
    assert LiveNodes(HEALTHY_LOOP) == {0, 1, 2, 3, 4};
  }

  lemma HealthyOrder()
    ensures ReleasesInTurn(HEALTHY_LOOP, [0, 1, 2])
  {
    var order: seq<nat> := [0, 1, 2];
    HealthyReady();
    FirstThree();
    hide Ready, Elements;
    assert IsLive(HEALTHY_LOOP, 0) && IsLive(HEALTHY_LOOP, 1) && IsLive(HEALTHY_LOOP, 2);
  }

  lemma NamedFirst(g: Graph, done: set<nat>)
    requires Unbalanced(g, 1, done) && !Unbalanced(g, 0, done)
    ensures forall s :: FirstUnbalanced(g, s, done) ==> s != [] && s[0] == 1
  {
    hide Unbalanced;
    forall s | FirstUnbalanced(g, s, done) ensures s != [] && s[0] == 1 {
      assert 1 in s;
      assert Unbalanced(g, s[0], done);
    }
  }

  lemma HealthyMerge()
    requires WellFormed(HEALTHY_LOOP) && LoopsClosed(HEALTHY_LOOP) && IsReleasableSet(HEALTHY_LOOP, {0, 1, 2})
    ensures HealthyLoop(HEALTHY_LOOP, 1) && !CycleLeadsTo(HEALTHY_LOOP, 1)
  {
    var g := HEALTHY_LOOP;
    hide CycleLeadsTo, IsReleasableSet, LoopsClosed;
    VisitedExactly(g, {0, 1, 2}, 1);
    VisitedExactly(g, {0, 1, 2}, 2);
    assert g.edges[2] == Edge(2, 1, false) && Exempt(g, g.edges[2]);
  }

  lemma FirstThree()
    ensures var order: seq<nat> := [0, 1, 2];
            && Elements(order[..0]) == {} && Elements(order[..1]) == {0} && Elements(order[..2]) == {0, 1}
            && Elements(order) == {0, 1, 2}
  {
    var order: seq<nat> := [0, 1, 2];
    assert order[..0] == [] && order[..1] == [0] && order[..2] == [0, 1];
  }

  lemma HealthyIsClosed()
    ensures LoopsClosed(HEALTHY_LOOP)
  {
    var g := HEALTHY_LOOP;
    assert g.edges[1] == Edge(1, 2, false);
    assert Arrow(g, 1, 2, false);
    assert Leads(g, [1, 2], 1, 2);
    assert forall j :: 0 <= j < |g.edges| && Exempt(g, g.edges[j]) ==> g.edges[j] == Edge(2, 1, false);
  }

  // ---- Loops and only loops are exempt ----

  /** A data edge from a NextIteration `a` to a Merge `b`. */
  ghost predicate LoopsBack(g: Graph, a: nat, b: nat) {
    && a < |g.nodes| && g.nodes[a] == Live(NextIteration) && b < |g.nodes| && g.nodes[b] == Live(Merge)
    && Edge(a, b, false) in g.edges
  }

  /** With closed loops, every cycle of an accepted graph goes back along a data edge from a
      NextIteration to a Merge. */
  lemma AcceptedCyclesAreLoops(g: Graph, walk: seq<nat>)
    requires WellFormed(g) && LoopsClosed(g) && Releasable(g) && IsCycle(g, walk, true)
    ensures exists i :: 0 <= i < |walk| - 1 && LoopsBack(g, walk[i], walk[i + 1])
  {
    ClosedLoopsExact(g);
    hide LoopsClosed, Releasable;
    assert !IsCycle(g, walk, false);
    var i :| 0 <= i < |walk| - 1 && !Arrow(g, walk[i], walk[i + 1], false);
    assert Arrow(g, walk[i], walk[i + 1], true);
    OnlyBackEdges(g, walk[i], walk[i + 1]);
  }

  lemma OnlyBackEdges(g: Graph, a: nat, b: nat)
    requires WellFormed(g) && Arrow(g, a, b, true) && !Arrow(g, a, b, false)
    ensures LoopsBack(g, a, b)
  {
    var j :| 0 <= j < |g.edges| && g.edges[j].src == a && g.edges[j].dst == b;
    assert Exempt(g, g.edges[j]);
    assert g.edges[j] == Edge(a, b, false);
  }
}
