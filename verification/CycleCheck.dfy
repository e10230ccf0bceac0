/** The cycle check run before a session is extended: Kahn's algorithm, with an exemption
    for the back edges of while loops. */
module CycleCheck {

  datatype Kind = Merge | NextIteration | Other

  datatype Slot = Removed | Live(kind: Kind)

  datatype Edge = Edge(src: nat, dst: nat, isControl: bool)

  /** Nodes by id and the edges between live nodes. */
  datatype Graph = Graph(nodes: seq<Slot>, edges: seq<Edge>)

  predicate IsLive(g: Graph, n: nat) {
    n < |g.nodes| && g.nodes[n].Live?
  }

  ghost predicate WellFormed(g: Graph) {
    forall j :: 0 <= j < |g.edges| ==> IsLive(g, g.edges[j].src) && IsLive(g, g.edges[j].dst)
  }

  ghost function LiveNodes(g: Graph): set<nat> {
    set n | 0 <= n < |g.nodes| && g.nodes[n].Live?
  }

  /** A data edge from a NextIteration to a Merge: the back edge of a while loop. */
  predicate Exempt(g: Graph, e: Edge) {
    && IsLive(g, e.src) && IsLive(g, e.dst)
    && g.nodes[e.dst].kind == Merge && !e.isControl && g.nodes[e.src].kind == NextIteration
  }

  /** A Merge that a NextIteration feeds. */
  ghost predicate LoopMerge(g: Graph, n: nat) {
    exists j :: 0 <= j < |g.edges| && g.edges[j].dst == n && Exempt(g, g.edges[j])
  }

  // ---- Counting edges ----

  /** Edges into `n` among the first `k`. */
  function InDegree(g: Graph, n: nat, k: nat): nat
    requires k <= |g.edges|
  {
    if k == 0 then 0 else InDegree(g, n, k - 1) + if g.edges[k - 1].dst == n then 1 else 0
  }

  /** Edges into `n` among the first `k` that it waits for. */
  ghost function Needed(g: Graph, n: nat, k: nat): nat
    requires k <= |g.edges|
  {
    if k == 0 then 0
    else Needed(g, n, k - 1) + if g.edges[k - 1].dst == n && !Exempt(g, g.edges[k - 1]) then 1 else 0
  }

  /** Edges into `n` among the first `k` whose source is in `done`. */
  ghost function Released(g: Graph, n: nat, done: set<nat>, k: nat): nat
    requires k <= |g.edges|
  {
    if k == 0 then 0
    else Released(g, n, done, k - 1) + if g.edges[k - 1].dst == n && g.edges[k - 1].src in done then 1 else 0
  }

  ghost predicate Ready(g: Graph, n: nat, done: set<nat>) {
    Needed(g, n, |g.edges|) <= Released(g, n, done, |g.edges|)
  }

  lemma {:induction false} ReleasedMonotone(g: Graph, n: nat, a: set<nat>, b: set<nat>, k: nat)
    requires a <= b && k <= |g.edges|
    ensures Released(g, n, a, k) <= Released(g, n, b, k)
  {
    if k > 0 {
      ReleasedMonotone(g, n, a, b, k - 1);
    }
  }

  lemma {:induction false} ReleasedAdd(g: Graph, n: nat, done: set<nat>, x: nat, k: nat)
    requires x !in done && k <= |g.edges|
    ensures Released(g, n, done + {x}, k) == Released(g, n, done, k) + Released(g, n, {x}, k)
  {
    if k > 0 {
      ReleasedAdd(g, n, done, x, k - 1);
    }
  }

  lemma {:induction false} ReleasedNone(g: Graph, n: nat, k: nat)
    requires k <= |g.edges|
    ensures Released(g, n, {}, k) == 0
  {
    if k > 0 {
      ReleasedNone(g, n, k - 1);
    }
  }

  /** No back edge into `n` comes from `done`. */
  ghost predicate NoEarlyBackEdge(g: Graph, n: nat, done: set<nat>) {
    forall j :: 0 <= j < |g.edges| && g.edges[j].dst == n && Exempt(g, g.edges[j]) ==> g.edges[j].src !in done
  }

  /** A node that no back edge has helped is ready only after all its plain predecessors. */
  lemma {:induction false} ReadyMeansAll(g: Graph, n: nat, done: set<nat>, j: nat, k: nat)
    requires j < |g.edges| && g.edges[j].dst == n && !Exempt(g, g.edges[j]) && k <= |g.edges|
    requires NoEarlyBackEdge(g, n, done)
    ensures Needed(g, n, k) >= Released(g, n, done, k)
    ensures j < k && g.edges[j].src !in done ==> Needed(g, n, k) > Released(g, n, done, k)
  {
    if k > 0 {
      ReadyMeansAll(g, n, done, j, k - 1);
    }
  }

  /** A node that is not ready waits for an edge from outside `done`. */
  lemma {:induction false} StuckHasPredecessor(g: Graph, n: nat, done: set<nat>, k: nat) returns (j: nat)
    requires k <= |g.edges| && Needed(g, n, k) > Released(g, n, done, k)
    ensures j < k && g.edges[j].dst == n && !Exempt(g, g.edges[j]) && g.edges[j].src !in done
  {
    var e := g.edges[k - 1];
    if e.dst == n && !Exempt(g, e) && e.src !in done {
      j := k - 1;
    } else {
      j := StuckHasPredecessor(g, n, done, k - 1);
    }
  }

  // ---- What acceptance means ----

  ghost function Elements(s: seq<nat>): set<nat> {
    set x | x in s
  }

  ghost predicate Distinct(s: seq<nat>) {
    forall i, j :: 0 <= i < j < |s| ==> s[i] != s[j]
  }

  /** Every node of `order` is ready once the nodes before it are done. */
  ghost predicate ReleasesInTurn(g: Graph, order: seq<nat>) {
    && Distinct(order)
    && forall i :: 0 <= i < |order| ==> IsLive(g, order[i]) && Ready(g, order[i], Elements(order[..i]))
  }

  ghost predicate IsReleaseOrder(g: Graph, order: seq<nat>) {
    ReleasesInTurn(g, order) && Elements(order) == LiveNodes(g)
  }

  /** All nodes can be visited in some order. */
  ghost predicate Releasable(g: Graph) {
    exists order :: IsReleaseOrder(g, order)
  }

  /** `done` holds exactly the nodes that are ready once it is done. */
  ghost predicate ClosedUnderReady(g: Graph, done: set<nat>) {
    forall n: nat :: IsLive(g, n) ==> (Ready(g, n, done) <==> n in done)
  }

  /** If `done` is closed under readiness, no release order leaves it. */
  lemma {:induction false} ClosedContainsOrder(g: Graph, order: seq<nat>, done: set<nat>, i: nat)
    requires ReleasesInTurn(g, order) && i <= |order|
    requires forall n: nat :: IsLive(g, n) && Ready(g, n, done) ==> n in done
    ensures Elements(order[..i]) <= done
  {
    if i > 0 {
      ClosedContainsOrder(g, order, done, i - 1);
      var n := order[i - 1];
      ReleasedMonotone(g, n, Elements(order[..i - 1]), done, |g.edges|);
      assert order[..i] == order[..i - 1] + [n];
    }
  }

  // ---- The algorithm ----

  ghost predicate PendingIs(g: Graph, pending: seq<int>, done: set<nat>, current: set<nat>, k: nat)
    requires k <= |g.edges|
  {
    |pending| == |g.nodes| &&
    forall n :: 0 <= n < |pending| ==>
      pending[n] == Needed(g, n, |g.edges|) - Released(g, n, done, |g.edges|) - Released(g, n, current, k)
  }

  /** Exactly the live nodes without pending inputs have been pushed, each once. */
  ghost predicate PushedOnce(g: Graph, pending: seq<int>, order: seq<nat>, ready: seq<nat>) {
    && |pending| == |g.nodes| && Distinct(order) && Distinct(ready) && (forall n :: n in order ==> n !in ready)
    && (forall n: nat :: n in order || n in ready <==> IsLive(g, n) && pending[n] <= 0)
  }

  lemma InitialPending(g: Graph, n: nat)
    ensures Needed(g, n, |g.edges|) - Released(g, n, {}, |g.edges|) - Released(g, n, {}, 0) == Needed(g, n, |g.edges|)
  {
    ReleasedNone(g, n, |g.edges|);
  }

  lemma {:induction false} NeededOfRemoved(g: Graph, n: nat, k: nat)
    requires WellFormed(g) && k <= |g.edges| && !IsLive(g, n)
    ensures Needed(g, n, k) == 0 && InDegree(g, n, k) == 0 && forall done :: Released(g, n, done, k) == 0
  {
    if k > 0 {
      NeededOfRemoved(g, n, k - 1);
      assert g.edges[k - 1].dst != n;
    }
  }

  /** The edges the node waits for: all of them, less the loop back edges of a Merge. */
  method InitialCount(g: Graph, n: nat) returns (count: int)
    requires IsLive(g, n)
    ensures count == Needed(g, n, |g.edges|)
  {
    count := InDegree(g, n, |g.edges|);
    ghost var exempt := 0;
    if g.nodes[n].kind == Merge {
      for j := 0 to |g.edges|
        invariant count == InDegree(g, n, |g.edges|) - exempt
        invariant Needed(g, n, j) == InDegree(g, n, j) - exempt
      {
        var e := g.edges[j];
        if e.dst == n && !e.isControl && IsLive(g, e.src) && g.nodes[e.src].kind == NextIteration {
          count := count - 1;
          exempt := exempt + 1;
        }
      }
    } else {
      NoExemptions(g, n, |g.edges|);
    }
  }

  lemma {:induction false} NoExemptions(g: Graph, n: nat, k: nat)
    requires k <= |g.edges| && !(IsLive(g, n) && g.nodes[n].kind == Merge)
    ensures Needed(g, n, k) == InDegree(g, n, k)
  {
    if k > 0 {
      NoExemptions(g, n, k - 1);
    }
  }

  lemma StartsRight(g: Graph, pending: seq<int>, ready: seq<nat>)
    requires WellFormed(g) && |pending| == |g.nodes|
    requires forall n :: 0 <= n < |g.nodes| ==> pending[n] == if g.nodes[n].Live? then Needed(g, n, |g.edges|) else 0
    requires Distinct(ready) && forall n: nat :: n in ready <==> IsLive(g, n) && pending[n] == 0
    ensures PendingIs(g, pending, Elements([]), {}, 0) && PushedOnce(g, pending, [], ready) && ReleasesInTurn(g, [])
  {
    assert Elements([]) == {};
    forall n | 0 <= n < |pending|
      ensures pending[n] == Needed(g, n, |g.edges|) - Released(g, n, {}, |g.edges|) - Released(g, n, {}, 0)
    {
      InitialPending(g, n);
      if !IsLive(g, n) {
        NeededOfRemoved(g, n, |g.edges|);
      }
    }
  }

  lemma PopKeeps(g: Graph, pending: seq<int>, order: seq<nat>, ready: seq<nat>)
    requires PendingIs(g, pending, Elements(order), {}, 0) && PushedOnce(g, pending, order, ready)
    requires ReleasesInTurn(g, order) && ready != []
    ensures var node, rest := ready[|ready| - 1], ready[..|ready| - 1];
            && PendingIs(g, pending, Elements(order), {node}, 0)
            && PushedOnce(g, pending, order + [node], rest)
            && ReleasesInTurn(g, order + [node]) && node !in order
  {
    var node, rest := ready[|ready| - 1], ready[..|ready| - 1];
    assert ready == rest + [node] && node in ready;
    var order' := order + [node];
    forall i | 0 <= i < |order'| ensures IsLive(g, order'[i]) && Ready(g, order'[i], Elements(order'[..i])) {
      assert order'[..i] == order[..i];
      assert order[..|order|] == order;
    }
  }

  /** One decrement: the node is pushed just as its count arrives at zero. */
  lemma DecrementKeeps(g: Graph, was: seq<int>, order: seq<nat>, ready: seq<nat>, n: nat)
    requires PushedOnce(g, was, order, ready) && IsLive(g, n)
    ensures PushedOnce(g, was[n := was[n] - 1], order, if was[n] == 1 then ready + [n] else ready)
  {
    assert was[n] == 1 ==> n !in ready && n !in order;
  }

  lemma NodeDone(g: Graph, pending: seq<int>, order: seq<nat>, node: nat)
    requires PendingIs(g, pending, Elements(order), {node}, |g.edges|) && node !in order
    ensures PendingIs(g, pending, Elements(order + [node]), {}, 0)
  {
    assert Elements(order + [node]) == Elements(order) + {node};
    forall n | 0 <= n < |pending|
      ensures pending[n] == Needed(g, n, |g.edges|) - Released(g, n, Elements(order + [node]), |g.edges|)
    {
      ReleasedAdd(g, n, Elements(order), node, |g.edges|);
    }
  }

  lemma {:induction false} ElementsSize(s: seq<nat>)
    requires Distinct(s)
    ensures |Elements(s)| == |s|
  {
    if s != [] {
      var rest := s[..|s| - 1];
      ElementsSize(rest);
      assert s == rest + [s[|s| - 1]];
      assert Elements(s) == Elements(rest) + {s[|s| - 1]};
    }
  }

  lemma SubsetSize(a: set<nat>, b: set<nat>)
    requires a <= b
    ensures |a| <= |b| && (|a| == |b| ==> a == b) && |b - a| == |b| - |a|
  {
    assert b == a + (b - a);
    if |a| == |b| {
      assert b - a == {};
    }
  }

  lemma OrderIsLive(g: Graph, order: seq<nat>)
    requires ReleasesInTurn(g, order)
    ensures |order| == |Elements(order)| <= |LiveNodes(g)| && Elements(order) <= LiveNodes(g)
    ensures |LiveNodes(g) - Elements(order)| == |LiveNodes(g)| - |order|
    ensures |order| == |LiveNodes(g)| ==> Elements(order) == LiveNodes(g)
  {
    ElementsSize(order);
    SubsetSize(Elements(order), LiveNodes(g));
  }

  /** A release sequence that cannot be continued decides releasability. */
  lemma ClosedDecides(g: Graph, order: seq<nat>)
    requires ReleasesInTurn(g, order) && ClosedUnderReady(g, Elements(order))
    ensures Releasable(g) <==> |order| >= |LiveNodes(g)|
  {
    OrderIsLive(g, order);
    if |order| == |LiveNodes(g)| {
      assert IsReleaseOrder(g, order);
    }
    if Releasable(g) {
      var other :| IsReleaseOrder(g, other);
      ClosedContainsOrder(g, other, Elements(order), |other|);
      assert other[..|other|] == other;
    }
  }

  /** Every release sequence can be continued until no other node is ready. */
  lemma {:induction false} Saturate(g: Graph, order: seq<nat>) returns (full: seq<nat>)
    requires ReleasesInTurn(g, order)
    ensures ReleasesInTurn(g, full) && ClosedUnderReady(g, Elements(full))
    decreases |LiveNodes(g)| - |order|
  {
    OrderIsLive(g, order);
    if n: nat :| IsLive(g, n) && Ready(g, n, Elements(order)) && n !in order {
      var longer := order + [n];
      forall i | 0 <= i < |longer| ensures IsLive(g, longer[i]) && Ready(g, longer[i], Elements(longer[..i])) {
        assert longer[..i] == order[..i] && order[..|order|] == order;
      }
      OrderIsLive(g, longer);
      full := Saturate(g, longer);
    } else {
      full := order;
      forall n: nat | n in Elements(full) ensures Ready(g, n, Elements(full)) {
        var i := Position(full, n);
        ReleasedMonotone(g, n, Elements(full[..i]), Elements(full), |g.edges|);
      }
    }
  }

  /** With an empty stack the visited nodes are exactly the ready ones. */
  lemma FinalState(g: Graph, pending: seq<int>, order: seq<nat>)
    requires ReleasesInTurn(g, order)
    requires PendingIs(g, pending, Elements(order), {}, 0) && PushedOnce(g, pending, order, [])
    ensures ClosedUnderReady(g, Elements(order))
    ensures Releasable(g) <==> |order| >= |LiveNodes(g)|
  {
    OrderIsLive(g, order);
    ClosedDecides(g, order);
  }

  /** Fills in the pending counts and pushes the nodes that wait for nothing. */
  method CountPending(g: Graph) returns (pending: seq<int>, ready: seq<nat>)
    requires WellFormed(g)
    ensures PendingIs(g, pending, Elements([]), {}, 0) && PushedOnce(g, pending, [], ready) && ReleasesInTurn(g, [])
  {
    hide Needed, WellFormed;
    ready := [];
    pending := seq(|g.nodes|, _ => 0);
    for i := 0 to |g.nodes|
      invariant |pending| == |g.nodes|
      invariant forall n :: 0 <= n < i && g.nodes[n].Live? ==> pending[n] == Needed(g, n, |g.edges|)
      invariant forall n :: 0 <= n < |g.nodes| && !(n < i && g.nodes[n].Live?) ==> pending[n] == 0
      invariant Distinct(ready) && forall n: nat :: n in ready <==> n < i && IsLive(g, n) && pending[n] == 0
    {
      if g.nodes[i].Live? {
        var count := InitialCount(g, i);
        pending := pending[i := count];
        if count == 0 {
          ready := ready + [i];
        }
      }
    }
    StartsRight(g, pending, ready);
  }

  /** Decrements the targets of all edges out of `node`, pushing each whose count
      arrives at zero. */
  method VisitOutputs(g: Graph, node: nat, counts: seq<int>, stack: seq<nat>, ghost order: seq<nat>)
    returns (pending: seq<int>, ready: seq<nat>)
    requires WellFormed(g) && node !in order
    requires PendingIs(g, counts, Elements(order), {node}, 0)
    requires PushedOnce(g, counts, order + [node], stack)
    ensures PendingIs(g, pending, Elements(order + [node]), {}, 0)
    ensures PushedOnce(g, pending, order + [node], ready)
  {
    hide Needed, PushedOnce;
    pending, ready := counts, stack;
    for j := 0 to |g.edges|
      invariant PendingIs(g, pending, Elements(order), {node}, j)
      invariant PushedOnce(g, pending, order + [node], ready)
    {
      if g.edges[j].src == node {
        var output := g.edges[j].dst;
        DecrementKeeps(g, pending, order + [node], ready, output);
        pending := pending[output := pending[output] - 1];
        if pending[output] == 0 {
          ready := ready + [output];
        }
      }
    }
    NodeDone(g, pending, order, node);
  }

  /** The count of `n` is not zero once `done` is done. */
  ghost predicate Unbalanced(g: Graph, n: nat, done: set<nat>) {
    IsLive(g, n) && Needed(g, n, |g.edges|) != Released(g, n, done, |g.edges|)
  }

  /** `s` is the beginning, three entries at most, of the list of all unbalanced ids. */
  ghost predicate FirstUnbalanced(g: Graph, s: seq<nat>, done: set<nat>) {
    && |s| <= 3
    && (forall i :: 0 <= i < |s| ==> Unbalanced(g, s[i], done))
    && (forall i, j :: 0 <= i < j < |s| ==> s[i] < s[j])
    && (forall n: nat :: Unbalanced(g, n, done) && n !in s ==> |s| == 3 && n > s[2])
  }

  /** The ids named in the error message: the first three whose count is not zero. */
  method Report(g: Graph, pending: seq<int>, ghost done: set<nat>) returns (reported: seq<nat>)
    requires WellFormed(g) && PendingIs(g, pending, done, {}, 0)
    ensures FirstUnbalanced(g, reported, done)
  {
    PendingUnbalanced(g, pending, done);
    hide Unbalanced, PendingIs;
    reported := [];
    var i: nat := 0;
    while i < |pending| && |reported| < 3
      invariant i <= |pending| && |reported| <= 3
      invariant forall k :: 0 <= k < |reported| ==> reported[k] < i && Unbalanced(g, reported[k], done)
      invariant forall k, l :: 0 <= k < l < |reported| ==> reported[k] < reported[l]
      invariant forall n: nat :: Unbalanced(g, n, done) && n < i ==> n in reported
      invariant |reported| == 3 ==> reported[2] == i - 1
    {
      if pending[i] != 0 {
        reported := reported + [i];
      }
      i := i + 1;
    }
  }

  lemma PendingUnbalanced(g: Graph, pending: seq<int>, done: set<nat>)
    requires WellFormed(g) && PendingIs(g, pending, done, {}, 0)
    ensures |pending| == |g.nodes|
    ensures forall n: nat :: Unbalanced(g, n, done) <==> n < |pending| && pending[n] != 0
  {
    hide Needed;
    forall n: nat ensures Unbalanced(g, n, done) <==> n < |pending| && pending[n] != 0 {
      if !IsLive(g, n) {
        NeededOfRemoved(g, n, |g.edges|);
      }
    }
  }

  /** Back edges into `n` among the first `k` whose source is in `done`. */
  ghost function Early(g: Graph, n: nat, done: set<nat>, k: nat): nat
    requires k <= |g.edges|
  {
    if k == 0 then 0
    else
      var e := g.edges[k - 1];
      Early(g, n, done, k - 1) + if e.dst == n && Exempt(g, e) && e.src in done then 1 else 0
  }

  /** Plain edges into `n` among the first `k` whose source is not in `done`. */
  ghost function Late(g: Graph, n: nat, done: set<nat>, k: nat): nat
    requires k <= |g.edges|
  {
    if k == 0 then 0
    else
      var e := g.edges[k - 1];
      Late(g, n, done, k - 1) + if e.dst == n && !Exempt(g, e) && e.src !in done then 1 else 0
  }

  lemma {:induction false} Balance(g: Graph, n: nat, done: set<nat>, k: nat)
    requires k <= |g.edges|
    ensures Needed(g, n, k) + Early(g, n, done, k) == Released(g, n, done, k) + Late(g, n, done, k)
  {
    if k > 0 {
      Balance(g, n, done, k - 1);
    }
  }

  /** In every graph a count is not zero exactly if the back edges that came early differ
      in number from the plain edges that did not come. */
  lemma UnbalancedExactly(g: Graph, n: nat, done: set<nat>)
    requires IsLive(g, n)
    ensures Unbalanced(g, n, done) <==> Early(g, n, done, |g.edges|) != Late(g, n, done, |g.edges|)
  {
    Balance(g, n, done, |g.edges|);
  }

  /** A node that was visited but is named all the same is the Merge of a loop. */
  lemma NamedButVisited(g: Graph, done: set<nat>, n: nat)
    requires WellFormed(g) && ClosedUnderReady(g, done) && n in done && Unbalanced(g, n, done)
    ensures LoopMerge(g, n)
  {
    SurplusNeedsBackEdge(g, n, done, |g.edges|);
  }

  lemma {:induction false} SurplusNeedsBackEdge(g: Graph, n: nat, done: set<nat>, k: nat)
    requires k <= |g.edges| && Released(g, n, done, k) > Needed(g, n, k)
    ensures LoopMerge(g, n)
  {
    var e := g.edges[k - 1];
    if !(e.dst == n && Exempt(g, e)) {
      SurplusNeedsBackEdge(g, n, done, k - 1);
    }
  }

  /** `done` is the set of nodes that can be released at all. */
  ghost predicate IsReleasableSet(g: Graph, done: set<nat>) {
    && (exists order :: ReleasesInTurn(g, order) && Elements(order) == done)
    && (forall order :: ReleasesInTurn(g, order) ==> Elements(order) <= done)
  }

  lemma CompleteVisit(g: Graph, order: seq<nat>)
    requires ReleasesInTurn(g, order) && ClosedUnderReady(g, Elements(order))
    ensures IsReleasableSet(g, Elements(order))
  {
    hide Ready;
    forall other | ReleasesInTurn(g, other) ensures Elements(other) <= Elements(order) {
      ClosedContainsOrder(g, other, Elements(order), |other|);
      assert other[..|other|] == other;
    }
  }

  /** Visits nodes whose inputs have all been visited. Accepts exactly the graphs all of
      whose nodes can be released in some order, whatever order the stack happens to use.
      A refusal counts the nodes that no order releases, and names the first three ids
      whose count is not zero in the end. */
  method ValidateNoCycles(g: Graph) returns (ok: bool, left: nat, reported: seq<nat>)
    requires WellFormed(g)
    ensures ok <==> Releasable(g)
    ensures ok ==> left == 0 && reported == []
    ensures !ok ==> forall done :: IsReleasableSet(g, done) ==>
              done < LiveNodes(g) && left == |LiveNodes(g) - done| && FirstUnbalanced(g, reported, done)
    ensures exists done :: IsReleasableSet(g, done)
  {
    hide WellFormed, PendingIs, PushedOnce, ReleasesInTurn, ClosedUnderReady, Releasable, LiveNodes, FirstUnbalanced;
    var pending, ready := CountPending(g);
    ghost var order: seq<nat> := [];
    var processed := 0;
    OrderIsLive(g, order);
    while ready != []
      invariant processed == |order| <= |LiveNodes(g)| && ReleasesInTurn(g, order)
      invariant PendingIs(g, pending, Elements(order), {}, 0)
      invariant PushedOnce(g, pending, order, ready)
      decreases |LiveNodes(g)| - |order|
    {
      PopKeeps(g, pending, order, ready);
      var node := ready[|ready| - 1];
      ready := ready[..|ready| - 1];
      processed := processed + 1;
      pending, ready := VisitOutputs(g, node, pending, ready, order);
      order := order + [node];
      OrderIsLive(g, order);
    }
    FinalState(g, pending, order);
    CompleteVisit(g, order);
    ok := processed >= NumNodes(g);
    left, reported := 0, [];
    if !ok {
      left := NumNodes(g) - processed;
      reported := Report(g, pending, Elements(order));
      OrderIsLive(g, order);
      assert Elements(order) < LiveNodes(g);
      OneReleasableSet(g, Elements(order));
    }
  }

  lemma OneReleasableSet(g: Graph, done: set<nat>)
    requires IsReleasableSet(g, done)
    ensures forall other :: IsReleasableSet(g, other) ==> other == done
  {
    hide ReleasesInTurn;
  }

  /** `num_nodes()`. */
  function NumNodes(g: Graph): (r: nat)
    ensures r == |LiveNodes(g)|
  {
    NumNodesIn(g.nodes)
  }

  function NumNodesIn(nodes: seq<Slot>): (r: nat)
    ensures r == |LiveNodes(Graph(nodes, []))|
  {
    if nodes == [] then
      assert LiveNodes(Graph(nodes, [])) == {}; 0
    else
      var rest := nodes[..|nodes| - 1];
      var last := |nodes| - 1;
      assert LiveNodes(Graph(nodes, [])) == LiveNodes(Graph(rest, [])) + if nodes[last].Live? then {last} else {};
      NumNodesIn(rest) + if nodes[last].Live? then 1 else 0
  }

  // ---- Cycles ----

  ghost predicate Arrow(g: Graph, a: nat, b: nat, withBackEdges: bool) {
    exists j :: 0 <= j < |g.edges| && g.edges[j].src == a && g.edges[j].dst == b &&
      (withBackEdges || !Exempt(g, g.edges[j]))
  }

  /** A closed walk along edges, with or without the back edges of loops. */
  ghost predicate IsCycle(g: Graph, walk: seq<nat>, withBackEdges: bool) {
    |walk| >= 2 && walk[0] == walk[|walk| - 1] && IsWalk(g, walk, withBackEdges)
  }

  ghost predicate IsWalk(g: Graph, walk: seq<nat>, withBackEdges: bool) {
    forall i :: 0 <= i < |walk| - 1 ==> Arrow(g, walk[i], walk[i + 1], withBackEdges)
  }

  ghost predicate Acyclic(g: Graph, withBackEdges: bool) {
    forall walk :: !IsCycle(g, walk, withBackEdges)
  }

  ghost function Position(order: seq<nat>, n: nat): (i: nat)
    requires n in order
    ensures i < |order| && order[i] == n
  {
    var i :| 0 <= i < |order| && order[i] == n;
    i
  }

  lemma PredecessorIsEarlier(g: Graph, order: seq<nat>, a: nat, b: nat)
    requires IsReleaseOrder(g, order) && a in order && b in order
    requires Arrow(g, a, b, true) && !LoopMerge(g, b)
    ensures Position(order, a) < Position(order, b)
  {
    var j :| 0 <= j < |g.edges| && g.edges[j].src == a && g.edges[j].dst == b;
    var done := Elements(order[..Position(order, b)]);
    assert !Exempt(g, g.edges[j]);
    ReadyMeansAll(g, b, done, j, |g.edges|);
    assert a in order[..Position(order, b)];
  }

  lemma {:induction false} PositionsRise(g: Graph, order: seq<nat>, walk: seq<nat>, i: nat)
    requires WellFormed(g) && IsReleaseOrder(g, order) && 1 <= i < |walk|
    requires IsWalk(g, walk, true)
    requires forall k :: 0 <= k < |walk| ==> !LoopMerge(g, walk[k])
    ensures walk[0] in order && walk[i] in order && Position(order, walk[0]) < Position(order, walk[i])
  {
    assert Arrow(g, walk[i - 1], walk[i - 1 + 1], true);
    assert walk[i - 1] in Elements(order) && walk[i] in Elements(order);
    PredecessorIsEarlier(g, order, walk[i - 1], walk[i]);
    if i > 1 {
      PositionsRise(g, order, walk, i - 1);
    }
  }

  /** An accepted graph has no cycle that avoids the Merge nodes fed by a NextIteration. */
  lemma AcceptedHasNoPlainCycle(g: Graph, walk: seq<nat>)
    requires WellFormed(g) && Releasable(g)
    requires IsCycle(g, walk, true)
    ensures exists i :: 0 <= i < |walk| && LoopMerge(g, walk[i])
  {
    if forall i :: 0 <= i < |walk| ==> !LoopMerge(g, walk[i]) {
      var order :| IsReleaseOrder(g, order);
      PositionsRise(g, order, walk, |walk| - 1);
    }
  }

  ghost predicate HasPredecessor(g: Graph, stuck: set<nat>, b: nat) {
    exists a :: a in stuck && Arrow(g, a, b, false)
  }

  lemma PickPredecessor(g: Graph, stuck: set<nat>, b: nat) returns (a: nat)
    requires HasPredecessor(g, stuck, b)
    ensures a in stuck && Arrow(g, a, b, false)
  {
    a :| a in stuck && Arrow(g, a, b, false);
  }

  lemma WalkPrepend(g: Graph, a: nat, path: seq<nat>)
    requires path != [] && IsWalk(g, path, false) && Arrow(g, a, path[0], false)
    ensures IsWalk(g, [a] + path, false)
  {
    var longer := [a] + path;
    forall i | 0 <= i < |longer| - 1 ensures Arrow(g, longer[i], longer[i + 1], false) {
      if i > 0 {
        assert Arrow(g, path[i - 1], path[i - 1 + 1], false);
      }
    }
  }

  lemma WalkPrefix(g: Graph, path: seq<nat>, n: nat)
    requires n <= |path| && IsWalk(g, path, false)
    ensures IsWalk(g, path[..n], false)
  {
  }

  /** Following predecessors inside a finite set must come back to a visited node, from
      where the way goes on to the last node of the path. */
  lemma {:induction false} BackwardWalkCloses(g: Graph, stuck: set<nat>, path: seq<nat>)
    returns (walk: seq<nat>, lead: seq<nat>)
    requires path != [] && Distinct(path) && Elements(path) <= stuck
    requires forall b :: b in stuck ==> HasPredecessor(g, stuck, b)
    requires IsWalk(g, path, false)
    ensures IsCycle(g, walk, false)
    ensures lead != [] && lead[0] == walk[0] && lead[|lead| - 1] == path[|path| - 1] && IsWalk(g, lead, false)
    decreases |stuck| - |path|
  {
    hide Arrow, IsWalk, HasPredecessor;
    assert path[0] in Elements(path);
    var a := PickPredecessor(g, stuck, path[0]);
    var longer := [a] + path;
    WalkPrepend(g, a, path);
    if a in path {
      walk := longer[..Position(path, a) + 2];
      WalkPrefix(g, longer, |walk|);
      lead := longer;
    } else {
      ElementsSize(longer);
      assert Elements(longer) == Elements(path) + {a};
      SubsetSize(Elements(longer), stuck);
      walk, lead := BackwardWalkCloses(g, stuck, longer);
    }
  }

  /** A graph that is acyclic without its loop back edges is accepted. */
  lemma AcyclicIsAccepted(g: Graph)
    requires WellFormed(g) && Acyclic(g, false)
    ensures Releasable(g)
  {
    hide ClosedUnderReady, ReleasesInTurn, Releasable, WellFormed, Ready, HasPredecessor;
    EmptyReleases(g);
    var order := Saturate(g, []);
    OrderIsLive(g, order);
    ClosedDecides(g, order);
    var done := Elements(order);
    var stuck := LiveNodes(g) - done;
    if n :| n in stuck {
      forall b | b in stuck ensures HasPredecessor(g, stuck, b) {
        StuckNode(g, done, b);
      }
      assert Elements([n]) == {n};
      var _, _ := BackwardWalkCloses(g, stuck, [n]);
    }
  }

  lemma EmptyReleases(g: Graph)
    ensures ReleasesInTurn(g, [])
  {
  }

  lemma StuckNode(g: Graph, done: set<nat>, b: nat)
    requires WellFormed(g) && ClosedUnderReady(g, done) && b in LiveNodes(g) - done
    ensures HasPredecessor(g, LiveNodes(g) - done, b)
  {
    var j := StuckHasPredecessor(g, b, done, |g.edges|);
    assert g.edges[j].src in LiveNodes(g) - done && Arrow(g, g.edges[j].src, b, false);
  }

  /** Without loops, acceptance is exactly acyclicity. */
  lemma LoopFreeExact(g: Graph)
    requires WellFormed(g) && forall n: nat :: !LoopMerge(g, n)
    ensures Releasable(g) <==> Acyclic(g, true)
  {
    if Releasable(g) {
      forall walk ensures !IsCycle(g, walk, true) {
        if IsCycle(g, walk, true) {
          AcceptedHasNoPlainCycle(g, walk);
        }
      }
    }
    if Acyclic(g, true) {
      forall walk ensures !IsCycle(g, walk, false) {
        assert IsCycle(g, walk, false) ==> IsCycle(g, walk, true);
      }
      AcyclicIsAccepted(g);
    }
  }

  /** 0 feeds the NextIteration 1, which feeds the Merge 2; 2 and 3 feed each other. */
  ghost const EARLY_RELEASE := Graph([Live(Other), Live(NextIteration), Live(Merge), Live(Other)],
                                     [Edge(0, 1, false), Edge(1, 2, false), Edge(2, 3, false), Edge(3, 2, false)])

  /** The check does not see every cycle: a NextIteration fed from outside the loop
      releases its Merge early, and a cycle without any back edge is accepted. */
  lemma HiddenCycleIsAccepted()
    ensures WellFormed(EARLY_RELEASE) && Releasable(EARLY_RELEASE) && !Acyclic(EARLY_RELEASE, false)
  {
    EarlyReleaseOrder();
    var g := EARLY_RELEASE;
    assert g.edges[2] == Edge(2, 3, false) && g.edges[3] == Edge(3, 2, false);
    assert Arrow(g, 2, 3, false) && Arrow(g, 3, 2, false);
    assert IsCycle(g, [2, 3, 2], false);
  }

  lemma EarlyReleaseReady()
    ensures Ready(EARLY_RELEASE, 0, {}) && Ready(EARLY_RELEASE, 1, {0})
    ensures Ready(EARLY_RELEASE, 2, {0, 1}) && Ready(EARLY_RELEASE, 3, {0, 1, 2})
  {
    CountFour(EARLY_RELEASE, 0, {});
    CountFour(EARLY_RELEASE, 1, {0});
    CountFour(EARLY_RELEASE, 2, {0, 1});
    CountFour(EARLY_RELEASE, 3, {0, 1, 2});
  }

  lemma FirstFour()
    ensures var order := [0, 1, 2, 3];
            && Elements(order[..0]) == {} && Elements(order[..1]) == {0} && Elements(order[..2]) == {0, 1}
            && Elements(order[..3]) == {0, 1, 2} && Elements(order) == {0, 1, 2, 3}
  {
    var order: seq<nat> := [0, 1, 2, 3];
    assert order[..0] == [] && order[..1] == [0] && order[..2] == [0, 1] && order[..3] == [0, 1, 2];
  }

  lemma EarlyReleaseOrder()
    ensures Releasable(EARLY_RELEASE)
  {
    var g, order: seq<nat> := EARLY_RELEASE, [0, 1, 2, 3];
    EarlyReleaseReady();
    FirstFour();
    assert LiveNodes(g) == {0, 1, 2, 3};
    hide Ready, Elements, LiveNodes;
    assert ReleasesInTurn(g, order);
    hide ReleasesInTurn;
    assert IsReleaseOrder(g, order);
  }

  lemma CountFour(g: Graph, n: nat, done: set<nat>)
    requires |g.edges| == 4
    ensures Needed(g, n, 4) == EdgeNeeded(g, n, 0) + EdgeNeeded(g, n, 1) + EdgeNeeded(g, n, 2) + EdgeNeeded(g, n, 3)
    ensures Released(g, n, done, 4) ==
            EdgeReleased(g, n, done, 0) + EdgeReleased(g, n, done, 1) + EdgeReleased(g, n, done, 2) +
              EdgeReleased(g, n, done, 3)
  {
    assert Needed(g, n, 1) == EdgeNeeded(g, n, 0) && Released(g, n, done, 1) == EdgeReleased(g, n, done, 0);
    assert Needed(g, n, 2) == Needed(g, n, 1) + EdgeNeeded(g, n, 1);
    assert Needed(g, n, 3) == Needed(g, n, 2) + EdgeNeeded(g, n, 2);
    assert Released(g, n, done, 2) == Released(g, n, done, 1) + EdgeReleased(g, n, done, 1);
    assert Released(g, n, done, 3) == Released(g, n, done, 2) + EdgeReleased(g, n, done, 2);
  }

  ghost function EdgeNeeded(g: Graph, n: nat, j: nat): nat
    requires j < |g.edges|
  {
    if g.edges[j].dst == n && !Exempt(g, g.edges[j]) then 1 else 0
  }

  ghost function EdgeReleased(g: Graph, n: nat, done: set<nat>, j: nat): nat
    requires j < |g.edges|
  {
    if g.edges[j].dst == n && g.edges[j].src in done then 1 else 0
  }
}
