/** Sessions sharing one graph: incremental extension, mutation tracking and the
    poisoning of sessions, as interleaved steps of any number of sessions.

    An extension copies the new nodes and drops the graph lock before the backend
    accepts them and before the count of shipped nodes is written; those are two steps
    here, and anything that only needs the graph lock may happen in between. */
module SessionGraph {

  datatype NodeDef = NodeDef(op: string, inputs: seq<string>, device: string, attrs: map<string, string>)

  /** A node id holds an op, or the source, the sink or a removed node. */
  datatype Slot = NoOp | IsOp(def: NodeDef)

  datatype Mutation =
    | AddControlInput(source: string)
    | SetAttr(attr: string, value: string)
    | SetRequestedDevice(device: string)
    | UpdateEdge(input: nat, source: string)

  datatype Status = OK | FailedPrecondition

  type Shipment = seq<(nat, NodeDef)>

  /** What a session is doing while it holds its own lock. */
  datatype Phase = Idle | Extending(upto: nat, shipped: Shipment, thenRun: bool)

  datatype Session = Session(
    lastNumGraphNodes: nat,
    backend: Shipment,           // everything the backend has accepted, in order
    extendBeforeRun: bool,
    phase: Phase)

  /** `status` is the graph's session map, `sessions` the sessions' own fields. */
  datatype State = State(nodes: seq<Slot>, status: map<nat, Status>, sessions: map<nat, Session>)

  datatype Step =
    | NewSession(s: nat)
    | DeleteSession(s: nat)
    | AddNodes(slots: seq<Slot>)
    | Mutate(id: nat, m: Mutation)
    | ExtendSession(s: nat)                        // the explicit call: stop extending before runs
    | Refuse(s: nat)                               // extension of a session whose status is not OK
    | NothingNew(s: nat, thenRun: bool)
    | Cyclic(s: nat)                               // the cycle check failed
    | BeginExtend(s: nat, thenRun: bool)
    | BackendAccepts(s: nat)
    | BackendRejects(s: nat)
    | RunUnchecked(s: nat)                         // a run that does not extend first

  // ---- Steps ----

  /** How a mutation changes the definition of the op it is recorded for. */
  function Mutated(d: NodeDef, m: Mutation): NodeDef {
    match m
    case AddControlInput(source) => if "^" + source in d.inputs then d else d.(inputs := d.inputs + ["^" + source])
    case SetAttr(attr, value) => d.(attrs := d.attrs[attr := value])
    case SetRequestedDevice(device) => d.(device := device)
    case UpdateEdge(input, source) => if input < |d.inputs| then d.(inputs := d.inputs[input := source]) else d
  }

  /** What is read from a definition after a mutation: what was set where it was set, and
      everything else as before. */
  lemma MutationReadsBack(d: NodeDef, m: Mutation)
    ensures var e := Mutated(d, m);
            && e.op == d.op
            && (!m.SetRequestedDevice? ==> e.device == d.device) && (m.SetRequestedDevice? ==> e.device == m.device)
            && (!m.SetAttr? ==> e.attrs == d.attrs)
            && (m.SetAttr? ==> e.attrs.Keys == d.attrs.Keys + {m.attr} && e.attrs[m.attr] == m.value)
            && (m.SetAttr? ==> forall a :: a in d.attrs && a != m.attr ==> e.attrs[a] == d.attrs[a])
            && (m.SetAttr? || m.SetRequestedDevice? ==> e.inputs == d.inputs)
            && (m.UpdateEdge? ==> |e.inputs| == |d.inputs|)
            && (m.UpdateEdge? ==> forall i :: 0 <= i < |d.inputs| ==>
                                    e.inputs[i] == if i == m.input then m.source else d.inputs[i])
            && (m.AddControlInput? ==> d.inputs <= e.inputs && "^" + m.source in e.inputs)
            && (m.AddControlInput? ==> |e.inputs| == |d.inputs| + if "^" + m.source in d.inputs then 0 else 1)
  {
    if m.AddControlInput? && "^" + m.source !in d.inputs {
      assert Mutated(d, m).inputs[|d.inputs|] == "^" + m.source;
    }
  }

  /** The op nodes with ids in [lo, hi), in id order. */
  function Ops(nodes: seq<Slot>, lo: nat, hi: nat): (r: Shipment)
    requires lo <= hi <= |nodes|
  {
    if lo == hi then []
    else Ops(nodes, lo, hi - 1) + match nodes[hi - 1] case IsOp(d) => [(hi - 1, d)] case NoOp => []
  }

  /** Marks every session that has already shipped node `id` as unrunnable. */
  function RecordMutation(st: State, id: nat): map<nat, Status>
    requires st.status.Keys == st.sessions.Keys
  {
    map s | s in st.status :: if st.sessions[s].lastNumGraphNodes > id then FailedPrecondition else st.status[s]
  }

  const INIT := State([NoOp, NoOp], map[], map[])

  predicate HasSession(st: State, s: nat) {
    s in st.sessions && s in st.status
  }

  predicate CanExtend(st: State, s: nat, thenRun: bool) {
    && HasSession(st, s) && st.sessions[s].phase == Idle && st.status[s] == OK
    && (thenRun ==> st.sessions[s].extendBeforeRun)
  }

  predicate Enabled(st: State, step: Step) {
    st.status.Keys == st.sessions.Keys &&
    match step
    case NewSession(s) => s !in st.sessions
    case DeleteSession(s) => HasSession(st, s) && st.sessions[s].phase == Idle
    case AddNodes(_) => true
    case Mutate(id, _) => id < |st.nodes| && st.nodes[id].IsOp?
    case ExtendSession(s) => HasSession(st, s) && st.sessions[s].phase == Idle
    case Refuse(s) => HasSession(st, s) && st.sessions[s].phase == Idle && st.status[s] != OK
    case NothingNew(s, thenRun) => CanExtend(st, s, thenRun) && st.sessions[s].lastNumGraphNodes >= |st.nodes|
    case Cyclic(s) => CanExtend(st, s, false) && st.sessions[s].lastNumGraphNodes < |st.nodes|
    case BeginExtend(s, thenRun) => CanExtend(st, s, thenRun) && st.sessions[s].lastNumGraphNodes < |st.nodes|
    case BackendAccepts(s) => HasSession(st, s) && st.sessions[s].phase.Extending?
    case BackendRejects(s) => HasSession(st, s) && st.sessions[s].phase.Extending?
    case RunUnchecked(s) => HasSession(st, s) && st.sessions[s].phase == Idle && !st.sessions[s].extendBeforeRun
  }

  function Next(st: State, step: Step): State
    requires Enabled(st, step)
  {
    match step
    case NewSession(s) =>
      st.(status := st.status[s := OK], sessions := st.sessions[s := Session(0, [], true, Idle)])
    case DeleteSession(s) => st.(status := st.status - {s}, sessions := st.sessions - {s})
    case AddNodes(slots) => st.(nodes := st.nodes + slots)
    case Mutate(id, m) =>
      st.(nodes := st.nodes[id := IsOp(Mutated(st.nodes[id].def, m))], status := RecordMutation(st, id))
    case ExtendSession(s) => Update(st, s, st.sessions[s].(extendBeforeRun := false))
    case BeginExtend(s, thenRun) =>
      var x := st.sessions[s];
      Update(st, s, x.(phase := Extending(|st.nodes|, Ops(st.nodes, x.lastNumGraphNodes, |st.nodes|), thenRun)))
    case BackendAccepts(s) =>
      var x := st.sessions[s];
      Update(st, s, x.(lastNumGraphNodes := x.phase.upto, backend := x.backend + x.phase.shipped, phase := Idle))
    case BackendRejects(s) => Update(st, s, st.sessions[s].(phase := Idle))
    case Refuse(_) => st
    case NothingNew(_, _) => st
    case Cyclic(_) => st
    case RunUnchecked(_) => st
  }

  function Update(st: State, s: nat, x: Session): State {
    st.(sessions := st.sessions[s := x])
  }

  ghost predicate IsRun(st: State, steps: seq<Step>)
    decreases |steps|
  {
    steps == [] || (Enabled(st, steps[0]) && IsRun(Next(st, steps[0]), steps[1..]))
  }

  ghost function Exec(st: State, steps: seq<Step>): State
    requires IsRun(st, steps)
    decreases |steps|
  {
    if steps == [] then st else Exec(Next(st, steps[0]), steps[1..])
  }

  // ---- Shipments ----

  ghost function Ids(c: Shipment): (r: seq<nat>)
    ensures |r| == |c| && forall i :: 0 <= i < |c| ==> r[i] == c[i].0
  {
    seq(|c|, i requires 0 <= i < |c| => c[i].0)
  }

  lemma {:induction false} OpsConcat(nodes: seq<Slot>, a: nat, b: nat, c: nat)
    requires a <= b <= c <= |nodes|
    ensures Ops(nodes, a, b) + Ops(nodes, b, c) == Ops(nodes, a, c)
  {
    if b < c {
      OpsConcat(nodes, a, b, c - 1);
    }
  }

  lemma {:induction false} OpsPrefix(nodes: seq<Slot>, more: seq<Slot>, lo: nat, hi: nat)
    requires lo <= hi <= |nodes|
    ensures Ops(nodes + more, lo, hi) == Ops(nodes, lo, hi)
  {
    if lo < hi {
      OpsPrefix(nodes, more, lo, hi - 1);
    }
  }

  /** Changing one op changes a shipment just where it holds that op, and never its ids. */
  lemma {:induction false} OpsUpdate(nodes: seq<Slot>, id: nat, d: NodeDef, lo: nat, hi: nat)
    requires lo <= hi <= |nodes| && id < |nodes| && nodes[id].IsOp?
    ensures Ids(Ops(nodes[id := IsOp(d)], lo, hi)) == Ids(Ops(nodes, lo, hi))
    ensures Ops(nodes[id := IsOp(d)], lo, hi) == Ops(nodes, lo, hi) <==> !(lo <= id < hi && d != nodes[id].def)
  {
    if lo < hi {
      OpsUpdate(nodes, id, d, lo, hi - 1);
      var a, b := Ops(nodes[id := IsOp(d)], lo, hi - 1), Ops(nodes, lo, hi - 1);
      assert |Ids(a)| == |Ids(b)|;
      var a', b' := Ops(nodes[id := IsOp(d)], lo, hi), Ops(nodes, lo, hi);
      assert a' == b' ==> a'[..|a|] == b'[..|b|];
      assert a'[..|a|] == a && b'[..|b|] == b;
      assert Ids(a') == Ids(a) + (if nodes[hi - 1].IsOp? then [hi - 1] else []);
      assert Ids(b') == Ids(b) + (if nodes[hi - 1].IsOp? then [hi - 1] else []);
      if hi - 1 == id {
        assert a'[|a|] == (id, d) && b'[|b|] == (id, nodes[id].def);
      }
    }
  }

  /** Shipped ids are the op ids of the range, each once and in order. */
  lemma {:induction false} OpsAreSorted(nodes: seq<Slot>, lo: nat, hi: nat)
    requires lo <= hi <= |nodes|
    ensures forall i :: 0 <= i < |Ops(nodes, lo, hi)| ==>
              var (id, d) := Ops(nodes, lo, hi)[i]; lo <= id < hi && nodes[id] == IsOp(d)
    ensures forall i, j :: 0 <= i < j < |Ops(nodes, lo, hi)| ==> Ops(nodes, lo, hi)[i].0 < Ops(nodes, lo, hi)[j].0
    ensures forall id :: lo <= id < hi && nodes[id].IsOp? ==> (id, nodes[id].def) in Ops(nodes, lo, hi)
  {
    OpsUnfold(nodes, lo, hi);
    hide Ops;
    if lo < hi {
      OpsAreSorted(nodes, lo, hi - 1);
    }
    forall id | lo <= id < hi && nodes[id].IsOp? ensures (id, nodes[id].def) in Ops(nodes, lo, hi) {
      OpsHold(nodes, lo, hi, id);
    }
  }

  lemma {:induction false} OpsHold(nodes: seq<Slot>, lo: nat, hi: nat, id: nat)
    requires lo <= id < hi <= |nodes| && nodes[id].IsOp?
    ensures (id, nodes[id].def) in Ops(nodes, lo, hi)
  {
    OpsUnfold(nodes, lo, hi);
    hide Ops;
    if id < hi - 1 {
      OpsHold(nodes, lo, hi - 1, id);
    }
  }

  lemma OpsUnfold(nodes: seq<Slot>, lo: nat, hi: nat)
    requires lo <= hi <= |nodes|
    ensures lo == hi ==> Ops(nodes, lo, hi) == []
    ensures lo < hi ==> Ops(nodes, lo, hi) ==
                        Ops(nodes, lo, hi - 1) + if nodes[hi - 1].IsOp? then [(hi - 1, nodes[hi - 1].def)] else []
  {
  }

  // ---- What every step keeps ----

  /** The backend has accepted exactly the op ids below the session's mark, each once and
      in id order; an extension in flight carries exactly the next ones. */
  ghost predicate Complete(st: State, s: nat)
    requires s in st.sessions
  {
    var x := st.sessions[s];
    && x.lastNumGraphNodes <= |st.nodes|
    && Ids(x.backend) == Ids(Ops(st.nodes, 0, x.lastNumGraphNodes))
    && (x.phase.Extending? ==>
          && x.lastNumGraphNodes < x.phase.upto <= |st.nodes|
          && Ids(x.phase.shipped) == Ids(Ops(st.nodes, x.lastNumGraphNodes, x.phase.upto)))
  }

  /** Unless the session is marked, its backend holds the graph's current definitions. */
  ghost predicate Fresh(st: State, s: nat)
    requires HasSession(st, s)
  {
    var x := st.sessions[s];
    && x.lastNumGraphNodes <= |st.nodes|
    && (st.status[s] == OK ==> x.backend == Ops(st.nodes, 0, x.lastNumGraphNodes))
  }

  /** The shipment in flight is what the graph holds now. */
  ghost predicate FlightFresh(st: State, s: nat)
    requires HasSession(st, s)
  {
    var x := st.sessions[s];
    x.phase.Extending? ==>
      && x.lastNumGraphNodes <= x.phase.upto <= |st.nodes|
      && x.phase.shipped == Ops(st.nodes, x.lastNumGraphNodes, x.phase.upto)
  }

  ghost predicate AllComplete(st: State) {
    st.status.Keys == st.sessions.Keys && forall s :: s in st.sessions ==> Complete(st, s)
  }

  ghost predicate AllFresh(st: State) {
    st.status.Keys == st.sessions.Keys && forall s :: HasSession(st, s) ==> Fresh(st, s) && FlightFresh(st, s)
  }

  /** The one exclusion: an op being shipped is not changed while it is in flight. */
  ghost predicate Disciplined(st: State, step: Step) {
    Enabled(st, step) &&
    match step
    case Mutate(id, m) =>
      Mutated(st.nodes[id].def, m) == st.nodes[id].def ||
      forall s :: s in st.sessions && st.sessions[s].phase.Extending? ==>
                    !(st.sessions[s].lastNumGraphNodes <= id < st.sessions[s].phase.upto)
    case _ => true
  }

  ghost predicate IsDisciplinedRun(st: State, steps: seq<Step>)
    decreases |steps|
  {
    steps == [] || (Disciplined(st, steps[0]) && IsDisciplinedRun(Next(st, steps[0]), steps[1..]))
  }

  lemma GraphGrows(st: State, slots: seq<Slot>, s: nat)
    requires HasSession(st, s)
    ensures var st' := st.(nodes := st.nodes + slots);
            && (Complete(st, s) ==> Complete(st', s))
            && (Fresh(st, s) ==> Fresh(st', s)) && (FlightFresh(st, s) ==> FlightFresh(st', s))
  {
    var x := st.sessions[s];
    if x.lastNumGraphNodes <= |st.nodes| {
      OpsPrefix(st.nodes, slots, 0, x.lastNumGraphNodes);
      if x.phase.Extending? && x.lastNumGraphNodes <= x.phase.upto <= |st.nodes| {
        OpsPrefix(st.nodes, slots, x.lastNumGraphNodes, x.phase.upto);
      }
    }
  }

  lemma MutateKeepsComplete(st: State, id: nat, m: Mutation, s: nat)
    requires Enabled(st, Mutate(id, m)) && HasSession(st, s) && Complete(st, s)
    ensures Complete(Next(st, Mutate(id, m)), s)
  {
    var x, d := st.sessions[s], Mutated(st.nodes[id].def, m);
    OpsUpdate(st.nodes, id, d, 0, x.lastNumGraphNodes);
    if x.phase.Extending? {
      OpsUpdate(st.nodes, id, d, x.lastNumGraphNodes, x.phase.upto);
    }
  }

  lemma MutateKeepsFresh(st: State, id: nat, m: Mutation, s: nat)
    requires Disciplined(st, Mutate(id, m)) && HasSession(st, s) && Fresh(st, s) && FlightFresh(st, s)
    ensures Fresh(Next(st, Mutate(id, m)), s) && FlightFresh(Next(st, Mutate(id, m)), s)
  {
    var x, d := st.sessions[s], Mutated(st.nodes[id].def, m);
    OpsUpdate(st.nodes, id, d, 0, x.lastNumGraphNodes);
    if x.phase.Extending? {
      OpsUpdate(st.nodes, id, d, x.lastNumGraphNodes, x.phase.upto);
    }
  }

  lemma AcceptKeeps(st: State, s: nat)
    requires Enabled(st, BackendAccepts(s))
    ensures Complete(st, s) ==> Complete(Next(st, BackendAccepts(s)), s)
    ensures Fresh(st, s) && FlightFresh(st, s) ==> Fresh(Next(st, BackendAccepts(s)), s)
  {
    var x := st.sessions[s];
    var lo, hi := x.lastNumGraphNodes, x.phase.upto;
    if lo <= hi <= |st.nodes| {
      OpsConcat(st.nodes, 0, lo, hi);
      var a, b := Ops(st.nodes, 0, lo), Ops(st.nodes, lo, hi);
      assert Ids(a + b) == Ids(a) + Ids(b);
      assert Ids(x.backend + x.phase.shipped) == Ids(x.backend) + Ids(x.phase.shipped);
    }
  }

  /** Every step whatever keeps the shipped ids right. */
  lemma StepKeepsComplete(st: State, step: Step)
    requires AllComplete(st) && Enabled(st, step)
    ensures AllComplete(Next(st, step))
  {
    hide Complete;
    forall s | s in Next(st, step).sessions ensures Complete(Next(st, step), s) {
      SessionStaysComplete(st, step, s);
    }
  }

  lemma SessionStaysComplete(st: State, step: Step, s: nat)
    requires AllComplete(st) && Enabled(st, step) && s in Next(st, step).sessions
    ensures Complete(Next(st, step), s)
  {
    hide Ops, Ids;
    match step
    case NewSession(n) => if s == n { EmptyShipment(st.nodes); }
    case AddNodes(slots) => GraphGrows(st, slots, s);
    case Mutate(id, m) => MutateKeepsComplete(st, id, m, s);
    case BackendAccepts(n) => if s == n { AcceptKeeps(st, s); }
    case _ =>
  }

  lemma EmptyShipment(nodes: seq<Slot>)
    ensures Ops(nodes, 0, 0) == [] && Ids([]) == []
  {
  }

  /** Every disciplined step keeps unmarked sessions up to date. */
  lemma StepKeepsFresh(st: State, step: Step)
    requires AllFresh(st) && Disciplined(st, step)
    ensures AllFresh(Next(st, step))
  {
    hide Ops, Mutated;
    var st' := Next(st, step);
    forall s | HasSession(st', s) ensures Fresh(st', s) && FlightFresh(st', s) {
      assert s in st.sessions ==> HasSession(st, s);
      match step
      case NewSession(n) => if s == n { EmptyShipment(st.nodes); }
      case AddNodes(slots) => GraphGrows(st, slots, s);
      case Mutate(id, m) => MutateKeepsFresh(st, id, m, s);
      case BackendAccepts(n) => if s == n { AcceptKeeps(st, s); }
      case _ =>
    }
  }

  // ---- Whole runs ----

  /** In every run, every session's backend has accepted exactly the op nodes below its
      mark, each once and in id order. */
  lemma {:induction false} RunShipsEachOpOnce(st: State, steps: seq<Step>)
    requires AllComplete(st) && IsRun(st, steps)
    ensures AllComplete(Exec(st, steps))
    decreases |steps|
  {
    if steps != [] {
      StepKeepsComplete(st, steps[0]);
      RunShipsEachOpOnce(Next(st, steps[0]), steps[1..]);
    }
  }

  /** In every run without a mutation of an op in flight, every session whose status is OK
      has a backend equal to the graph's current ops below its mark. */
  lemma {:induction false} DisciplinedRunIsFresh(st: State, steps: seq<Step>)
    requires AllFresh(st) && IsDisciplinedRun(st, steps)
    ensures IsRun(st, steps) && AllFresh(Exec(st, steps))
    decreases |steps|
  {
    if steps != [] {
      StepKeepsFresh(st, steps[0]);
      DisciplinedRunIsFresh(Next(st, steps[0]), steps[1..]);
    }
  }

  lemma InitHolds()
    ensures AllComplete(INIT) && AllFresh(INIT)
  {
  }

  /** The mark of a session that is not deleted never moves back. */
  lemma {:induction false} MarkNeverDecreases(st: State, steps: seq<Step>, s: nat)
    requires AllComplete(st) && IsRun(st, steps) && s in st.sessions
    requires forall i :: 0 <= i < |steps| ==> steps[i] != DeleteSession(s)
    ensures s in Exec(st, steps).sessions
    ensures Exec(st, steps).sessions[s].lastNumGraphNodes >= st.sessions[s].lastNumGraphNodes
    decreases |steps|
  {
    if steps != [] {
      StepKeepsComplete(st, steps[0]);
      MarkNeverDecreases(Next(st, steps[0]), steps[1..], s);
    }
  }

  /** An extension under way for `s` stays under way until the backend answers. */
  lemma {:induction false} ExtensionStays(st: State, steps: seq<Step>, s: nat)
    requires IsRun(st, steps) && HasSession(st, s) && st.sessions[s].phase.Extending?
    requires forall i :: 0 <= i < |steps| ==> steps[i] != BackendAccepts(s) && steps[i] != BackendRejects(s)
    ensures HasSession(Exec(st, steps), s) && Exec(st, steps).sessions[s] == st.sessions[s]
    decreases |steps|
  {
    if steps != [] {
      ExtensionStays(Next(st, steps[0]), steps[1..], s);
    }
  }

  /** Whatever happens meanwhile, an accepted extension brings the session to the size the
      graph had when it began, with every op up to there shipped, and a rejected one leaves
      the session as it was. */
  lemma ExtensionCatchesUp(st: State, thenRun: bool, steps: seq<Step>, s: nat)
    requires AllComplete(st) && Enabled(st, BeginExtend(s, thenRun)) && IsRun(Next(st, BeginExtend(s, thenRun)), steps)
    requires forall i :: 0 <= i < |steps| ==> steps[i] != BackendAccepts(s) && steps[i] != BackendRejects(s)
    ensures var end := Exec(Next(st, BeginExtend(s, thenRun)), steps);
            && Enabled(end, BackendAccepts(s)) && Enabled(end, BackendRejects(s))
            && Next(end, BackendRejects(s)).sessions[s] == st.sessions[s]
            && Next(end, BackendAccepts(s)).sessions[s].lastNumGraphNodes == |st.nodes| <= |end.nodes|
            && Ids(Next(end, BackendAccepts(s)).sessions[s].backend) == Ids(Ops(end.nodes, 0, |st.nodes|))
  {
    hide *;
    var begin := Next(st, BeginExtend(s, thenRun));
    StepKeepsComplete(st, BeginExtend(s, thenRun));
    ExtensionBegins(st, thenRun, s);
    RunShipsEachOpOnce(begin, steps);
    ExtensionStays(begin, steps, s);
    ExtensionEnds(st, Exec(begin, steps), thenRun, s);
  }

  lemma ExtensionBegins(st: State, thenRun: bool, s: nat)
    requires Enabled(st, BeginExtend(s, thenRun))
    ensures HasSession(st, s) && HasSession(Next(st, BeginExtend(s, thenRun)), s)
    ensures Next(st, BeginExtend(s, thenRun)).sessions[s].phase.Extending?
  {
  }

  lemma ExtensionEnds(st: State, end: State, thenRun: bool, s: nat)
    requires Enabled(st, BeginExtend(s, thenRun)) && AllComplete(end) && HasSession(end, s)
    requires HasSession(st, s) && HasSession(Next(st, BeginExtend(s, thenRun)), s)
    requires end.sessions[s] == Next(st, BeginExtend(s, thenRun)).sessions[s]
    ensures Enabled(end, BackendAccepts(s)) && Enabled(end, BackendRejects(s))
    ensures Next(end, BackendRejects(s)).sessions[s] == st.sessions[s]
    ensures Next(end, BackendAccepts(s)).sessions[s].lastNumGraphNodes == |st.nodes| <= |end.nodes|
    ensures Ids(Next(end, BackendAccepts(s)).sessions[s].backend) == Ids(Ops(end.nodes, 0, |st.nodes|))
  {
    hide Ops, Ids;
    assert Complete(end, s);
    AcceptKeeps(end, s);
  }

  /** A session extends before its runs until the explicit call, and never again after it. */
  lemma {:induction false} ExtendsUntilTold(st: State, steps: seq<Step>, s: nat)
    requires IsRun(st, steps) && HasSession(st, s)
    requires forall i :: 0 <= i < |steps| ==> steps[i] != DeleteSession(s)
    ensures HasSession(Exec(st, steps), s)
    ensures Exec(st, steps).sessions[s].extendBeforeRun <==>
            st.sessions[s].extendBeforeRun && ExtendSession(s) !in steps
    decreases |steps|
  {
    if steps != [] {
      ExtendsUntilTold(Next(st, steps[0]), steps[1..], s);
      assert steps == [steps[0]] + steps[1..];
    }
  }

  /** A step that starts an extension of `s` past the status check. */
  ghost predicate Extends(step: Step, s: nat) {
    match step
    case NothingNew(n, _) => n == s
    case Cyclic(n) => n == s
    case BeginExtend(n, _) => n == s
    case _ => false
  }

  /** A step by which `s` goes on to execute the graph. */
  ghost predicate Runs(st: State, step: Step, s: nat) {
    match step
    case NothingNew(n, thenRun) => n == s && thenRun
    case BackendAccepts(n) =>
      n == s && s in st.sessions && st.sessions[s].phase.Extending? && st.sessions[s].phase.thenRun
    case RunUnchecked(n) => n == s
    case _ => false
  }

  ghost predicate NeverExtends(st: State, steps: seq<Step>, s: nat)
    requires IsRun(st, steps)
    decreases |steps|
  {
    steps == [] || (!Extends(steps[0], s) && NeverExtends(Next(st, steps[0]), steps[1..], s))
  }

  ghost predicate NeverRuns(st: State, steps: seq<Step>, s: nat)
    requires IsRun(st, steps)
    decreases |steps|
  {
    steps == [] || (!Runs(st, steps[0], s) && NeverRuns(Next(st, steps[0]), steps[1..], s))
  }

  /** Once marked, a session stays marked and every extension begun later is refused. */
  lemma {:induction false} PoisonIsPermanent(st: State, steps: seq<Step>, s: nat)
    requires IsRun(st, steps) && HasSession(st, s) && st.status[s] != OK
    requires forall i :: 0 <= i < |steps| ==> steps[i] != DeleteSession(s)
    ensures HasSession(Exec(st, steps), s) && Exec(st, steps).status[s] != OK && NeverExtends(st, steps, s)
    decreases |steps|
  {
    if steps != [] {
      PoisonIsPermanent(Next(st, steps[0]), steps[1..], s);
    }
  }

  /** Once marked, an idle session that extends before running never executes again. */
  lemma {:induction false} PoisonedNeverRuns(st: State, steps: seq<Step>, s: nat)
    requires IsRun(st, steps) && HasSession(st, s) && st.status[s] != OK
    requires st.sessions[s].phase == Idle && st.sessions[s].extendBeforeRun
    requires forall i :: 0 <= i < |steps| ==> steps[i] != DeleteSession(s) && steps[i] != ExtendSession(s)
    ensures NeverRuns(st, steps, s)
    decreases |steps|
  {
    if steps != [] {
      PoisonedNeverRuns(Next(st, steps[0]), steps[1..], s);
    }
  }

  /** Some step mutates an op that `s` has shipped by then. */
  ghost predicate TouchesShipped(st: State, steps: seq<Step>, s: nat)
    requires IsRun(st, steps)
    decreases |steps|
  {
    steps != [] &&
    ((steps[0].Mutate? && s in st.sessions && steps[0].id < st.sessions[s].lastNumGraphNodes)
     || TouchesShipped(Next(st, steps[0]), steps[1..], s))
  }

  /** In every run a session is marked exactly if an op it had shipped was mutated; failed
      extensions, cycles and refusals mark nothing. */
  lemma {:induction false} MarkedExactly(st: State, steps: seq<Step>, s: nat)
    requires IsRun(st, steps) && HasSession(st, s)
    requires forall i :: 0 <= i < |steps| ==> steps[i] != DeleteSession(s)
    ensures HasSession(Exec(st, steps), s)
    ensures Exec(st, steps).status[s] == OK <==> st.status[s] == OK && !TouchesShipped(st, steps, s)
    decreases |steps|
  {
    if steps != [] {
      MarkedExactly(Next(st, steps[0]), steps[1..], s);
    }
  }

  ghost function RunCount(st: State, steps: seq<Step>, s: nat): nat
    requires IsRun(st, steps)
    decreases |steps|
  {
    if steps == [] then 0
    else (if Runs(st, steps[0], s) then 1 else 0) + RunCount(Next(st, steps[0]), steps[1..], s)
  }

  /** A run of `s` whose extension is under way. */
  ghost predicate RunInFlight(st: State, s: nat)
    requires HasSession(st, s)
  {
    st.sessions[s].phase.Extending? && st.sessions[s].phase.thenRun
  }

  /** A marked session that extends before running executes once more at most, and only
      if the run was under way when it was marked. */
  lemma {:induction false} PoisonedRunsOut(st: State, steps: seq<Step>, s: nat)
    requires IsRun(st, steps) && HasSession(st, s) && st.status[s] != OK && st.sessions[s].extendBeforeRun
    requires forall i :: 0 <= i < |steps| ==> steps[i] != DeleteSession(s) && steps[i] != ExtendSession(s)
    ensures RunCount(st, steps, s) <= if RunInFlight(st, s) then 1 else 0
    decreases |steps|
  {
    if steps != [] {
      PoisonedRunsOut(Next(st, steps[0]), steps[1..], s);
    }
  }

  /** Marking is exact: a mutation that changes an op marks an up-to-date session if and
      only if its backend no longer holds the graph's ops. */
  lemma MarkingIsExact(st: State, id: nat, m: Mutation, s: nat)
    requires Enabled(st, Mutate(id, m)) && HasSession(st, s) && Fresh(st, s) && st.status[s] == OK
    requires Mutated(st.nodes[id].def, m) != st.nodes[id].def
    ensures var st' := Next(st, Mutate(id, m));
            st'.status[s] == OK <==> st'.sessions[s].backend == Ops(st'.nodes, 0, st'.sessions[s].lastNumGraphNodes)
  {
    OpsUpdate(st.nodes, id, Mutated(st.nodes[id].def, m), 0, st.sessions[s].lastNumGraphNodes);
  }

  // ---- The window between the two locks ----

  /** Exactly which mutations the window lets through: if the backend then accepts the
      shipment, the session is up to date if and only if the mutation left every op in
      flight as it was. */
  lemma WindowExact(st: State, s: nat, id: nat, m: Mutation)
    requires Enabled(st, BackendAccepts(s)) && Enabled(st, Mutate(id, m))
    requires Fresh(st, s) && FlightFresh(st, s)
    requires st.status[s] == OK
    ensures var st' := Next(st, Mutate(id, m));
            var x := st.sessions[s];
            Enabled(st', BackendAccepts(s)) &&
            (Fresh(Next(st', BackendAccepts(s)), s) <==>
             !(x.lastNumGraphNodes <= id < x.phase.upto && Mutated(st.nodes[id].def, m) != st.nodes[id].def))
  {
    var st', x, d := Next(st, Mutate(id, m)), st.sessions[s], Mutated(st.nodes[id].def, m);
    var lo, hi := x.lastNumGraphNodes, x.phase.upto;
    OpsConcat(st.nodes, 0, lo, hi);
    OpsUpdate(st.nodes, id, d, 0, hi);
  }

  const STALE_RUN := [
    NewSession(0),
    AddNodes([IsOp(NodeDef("Const", [], "", map[]))]),
    BeginExtend(0, true),
    Mutate(2, SetRequestedDevice("/gpu:0")),
    BackendAccepts(0)]

  /** A run that leaves an unmarked session with a stale op. */
  lemma WindowCounterexample()
    ensures IsRun(INIT, STALE_RUN) && HasSession(Exec(INIT, STALE_RUN), 0)
    ensures Exec(INIT, STALE_RUN).status[0] == OK && !Fresh(Exec(INIT, STALE_RUN), 0)
  {
    hide Ops, Fresh, FlightFresh, AllFresh, IsRun, Exec;
    var steps := STALE_RUN;
    var a := Next(INIT, steps[0]);
    var b := Next(a, steps[1]);
    var c := Next(b, steps[2]);
    var x := Next(c, steps[3]);
    var y := Next(x, steps[4]);
    FreshBeforeWindow(a, b, c);
    WindowExact(c, 0, 2, SetRequestedDevice("/gpu:0"));
    FiveSteps(INIT, steps, a, b, c, x, y);
  }

  lemma FreshBeforeWindow(a: State, b: State, c: State)
    requires a == Next(INIT, STALE_RUN[0])
    requires Enabled(a, STALE_RUN[1]) && b == Next(a, STALE_RUN[1])
    requires Enabled(b, STALE_RUN[2]) && c == Next(b, STALE_RUN[2])
    ensures HasSession(c, 0) && Fresh(c, 0) && FlightFresh(c, 0)
  {
    hide Ops, Fresh, FlightFresh;
    InitHolds();
    StepKeepsFresh(INIT, STALE_RUN[0]);
    StepKeepsFresh(a, STALE_RUN[1]);
    StepKeepsFresh(b, STALE_RUN[2]);
    assert HasSession(c, 0);
  }

  lemma FiveSteps(st: State, steps: seq<Step>, a: State, b: State, c: State, x: State, y: State)
    requires |steps| == 5
    requires Enabled(st, steps[0]) && a == Next(st, steps[0])
    requires Enabled(a, steps[1]) && b == Next(a, steps[1])
    requires Enabled(b, steps[2]) && c == Next(b, steps[2])
    requires Enabled(c, steps[3]) && x == Next(c, steps[3])
    requires Enabled(x, steps[4]) && y == Next(x, steps[4])
    ensures IsRun(st, steps) && Exec(st, steps) == y
  {
    hide Enabled, Next, IsRun, Exec;
    var s1 := steps[1..];
    var s2 := s1[1..];
    var s3 := s2[1..];
    var s4 := s3[1..];
    assert s4[1..] == [];
    RunEnds(y);
    RunBegins(x, s4);
    RunBegins(c, s3);
    RunBegins(b, s2);
    RunBegins(a, s1);
    RunBegins(st, steps);
  }

  lemma RunEnds(st: State)
    ensures IsRun(st, []) && Exec(st, []) == st
  {
  }

  lemma RunBegins(st: State, steps: seq<Step>)
    requires steps != [] && Enabled(st, steps[0]) && IsRun(Next(st, steps[0]), steps[1..])
    ensures IsRun(st, steps) && Exec(st, steps) == Exec(Next(st, steps[0]), steps[1..])
  {
  }
}
