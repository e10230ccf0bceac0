/** Deferred deletion: a graph is freed by the last of TF_DeleteGraph and the
    TF_DeleteSession calls of its sessions, in any interleaving of their steps with each
    other and with runs of sessions that are still alive. */
module GraphLifetime {

  datatype Caller = DeleteGraph | DeleteSession(s: nat)

  /** Where a deleting call is: before its lock, holding it, holding it with the decision
      taken, past the unlock, returned. `del` is its local variable. */
  datatype Pc = Start | Locked | Decided(del: bool) | Unlocked(del: bool) | Finished(del: bool)

  datatype Holder = Nobody | Deleting(c: Caller) | Running(s: nat)

  datatype State = State(
    deleteRequested: bool,
    sessions: set<nat>,
    holder: Holder,             // who holds the graph's mutex
    created: set<nat>,          // every session ever made for the graph
    pcs: map<Caller, Pc>,
    decisions: seq<Caller>,     // calls that computed del == true
    freedBy: seq<Caller>)       // calls that executed `delete graph`

  datatype Step =
    | NewSession(s: nat)
    | RunLock(s: nat)
    | RunUnlock(s: nat)
    | Acquire(c: Caller)
    | Decide(c: Caller)
    | Release(c: Caller)
    | Return(c: Caller)

  const INIT := State(false, {}, Nobody, {}, map[], [], [])

  function PcOf(st: State, c: Caller): Pc {
    if c in st.pcs then st.pcs[c] else Start
  }

  /** Callers keep the API's rules: the graph is deleted once, each session once, no
      session is made after the graph's deletion began, and a session is not used once
      its own deletion began. */
  predicate Enabled(st: State, step: Step) {
    match step
    case NewSession(s) => PcOf(st, DeleteGraph) == Start && s !in st.created && st.holder == Nobody
    case RunLock(s) => s in st.created && PcOf(st, DeleteSession(s)) == Start && st.holder == Nobody
    case RunUnlock(s) => st.holder == Running(s)
    case Acquire(c) => PcOf(st, c) == Start && st.holder == Nobody && (c.DeleteSession? ==> c.s in st.created)
    case Decide(c) => PcOf(st, c) == Locked
    case Release(c) => PcOf(st, c).Decided?
    case Return(c) => PcOf(st, c).Unlocked?
  }

  /** Whether the step reads or writes the graph's memory, its mutex included. */
  predicate Touches(step: Step) {
    !step.Return?
  }

  function Next(st: State, step: Step): State
    requires Enabled(st, step)
  {
    match step
    case NewSession(s) => st.(sessions := st.sessions + {s}, created := st.created + {s})
    case RunLock(s) => st.(holder := Running(s))
    case RunUnlock(s) => st.(holder := Nobody)
    case Acquire(c) => st.(holder := Deleting(c), pcs := st.pcs[c := Locked])
    case Decide(c) =>
      var requested := st.deleteRequested || c == DeleteGraph;
      var sessions := if c.DeleteSession? then st.sessions - {c.s} else st.sessions;
      var del := requested && sessions == {};
      st.(deleteRequested := requested, sessions := sessions, pcs := st.pcs[c := Decided(del)],
          decisions := if del then st.decisions + [c] else st.decisions)
    case Release(c) => st.(holder := Nobody, pcs := st.pcs[c := Unlocked(st.pcs[c].del)])
    case Return(c) =>
      st.(pcs := st.pcs[c := Finished(st.pcs[c].del)],
          freedBy := if st.pcs[c].del then st.freedBy + [c] else st.freedBy)
  }

  ghost predicate IsRun(st: State, steps: seq<Step>)
    decreases |steps|
  {
    steps == [] || (Enabled(st, steps[0]) && IsRun(Next(st, steps[0]), steps[1..]))
  }

  ghost function Exec(st: State, steps: seq<Step>): State
    requires IsRun(st, steps)
    decreases |steps|
  {
    if steps == [] then st else Exec(Next(st, steps[0]), steps[1..])
  }

  // ---- Invariant ----

  predicate Undecided(pc: Pc) {
    pc == Start || pc == Locked
  }

  ghost predicate LockInv(st: State) {
    && (forall c :: PcOf(st, c) == Locked || PcOf(st, c).Decided? <==> st.holder == Deleting(c))
    && (forall s :: st.holder == Running(s) ==> s in st.sessions)
  }

  ghost predicate MembershipInv(st: State) {
    && (forall s :: s in st.sessions <==> s in st.created && Undecided(PcOf(st, DeleteSession(s))))
    && (forall s :: s !in st.created ==> PcOf(st, DeleteSession(s)) == Start)
    && st.deleteRequested == !Undecided(PcOf(st, DeleteGraph))
  }

  /** One call at most decides to free the graph, exactly when nothing is left. */
  ghost predicate DecisionInv(st: State) {
    && |st.decisions| == (if st.deleteRequested && st.sessions == {} then 1 else 0)
    && (forall c :: !Undecided(PcOf(st, c)) ==> (PcOf(st, c).del <==> st.decisions == [c]))
    && (forall c :: Undecided(PcOf(st, c)) ==> st.decisions != [c])
    && (forall c :: st.holder == Deleting(c) && st.decisions != [] ==> st.decisions == [c])
    && st.freedBy == (if st.decisions != [] && PcOf(st, st.decisions[0]).Finished? then st.decisions else [])
  }

  ghost predicate Inv(st: State) {
    LockInv(st) && MembershipInv(st) && DecisionInv(st)
  }

  lemma StepKeepsLock(st: State, step: Step)
    requires Inv(st) && Enabled(st, step)
    ensures LockInv(Next(st, step))
  {
  }

  lemma StepKeepsMembership(st: State, step: Step)
    requires Inv(st) && Enabled(st, step)
    ensures MembershipInv(Next(st, step))
  {
    hide DecisionInv;
    match step
    case NewSession(s) =>
    case RunLock(s) =>
    case RunUnlock(s) =>
    case Acquire(c) =>
    case Decide(c) =>
    case Release(c) =>
    case Return(c) =>
  }

  lemma StepKeepsDecision(st: State, step: Step)
    requires Inv(st) && Enabled(st, step)
    ensures DecisionInv(Next(st, step))
  {
    match step
    case Acquire(c) => AcquireKeepsDecision(st, c);
    case Decide(c) => DecideKeepsDecision(st, c);
    case NewSession(s) =>
    case RunLock(s) =>
    case RunUnlock(s) =>
    case Release(c) =>
    case Return(c) =>
  }

  lemma AcquireKeepsDecision(st: State, c: Caller)
    requires Inv(st) && Enabled(st, Acquire(c))
    ensures DecisionInv(Next(st, Acquire(c)))
  {
    if st.decisions != [] {
      EveryCallDecided(st, c);
    }
  }

  lemma DecideKeepsDecision(st: State, c: Caller)
    requires Inv(st) && Enabled(st, Decide(c))
    ensures DecisionInv(Next(st, Decide(c)))
  {
    assert st.holder == Deleting(c) && Undecided(PcOf(st, c));
    assert st.decisions != [c];
    assert st.decisions == [] && st.freedBy == [];
    var next := Next(st, Decide(c));
    assert PcOf(next, c).Decided? && forall d :: d != c ==> PcOf(next, d) == PcOf(st, d);
    assert next.decisions == if PcOf(next, c).del then [c] else [];
    assert forall d :: d != c && !Undecided(PcOf(st, d)) ==> !PcOf(st, d).del;
  }

  lemma {:induction false} RunKeepsInv(st: State, steps: seq<Step>)
    requires Inv(st) && IsRun(st, steps)
    ensures Inv(Exec(st, steps))
    decreases |steps|
  {
    if steps != [] {
      StepKeepsLock(st, steps[0]);
      StepKeepsMembership(st, steps[0]);
      StepKeepsDecision(st, steps[0]);
      RunKeepsInv(Next(st, steps[0]), steps[1..]);
    }
  }

  // ---- Results ----

  /** In every run the graph is freed at most once, only after its deletion was requested
      and when no session is left, and from then on no step touches it. */
  lemma FreedOnceAndUntouched(steps: seq<Step>)
    requires IsRun(INIT, steps)
    ensures var st := Exec(INIT, steps);
            && |st.decisions| <= 1 && |st.freedBy| <= 1
            && (st.decisions != [] ==> st.deleteRequested && st.sessions == {})
            && (st.freedBy != [] ==> forall step :: Enabled(st, step) ==> !Touches(step))
  {
    RunKeepsInv(INIT, steps);
    var st := Exec(INIT, steps);
    if st.freedBy != [] {
      forall step | Enabled(st, step) ensures !Touches(step) {
        if Touches(step) {
          DecidedLeavesNothing(st, step);
        }
      }
    }
  }

  /** Once the decision to free has been taken and its lock released, nobody else can
      still reach the graph: it is safe to free it without a lock. */
  lemma DecidedLeavesNothing(st: State, step: Step)
    requires Inv(st) && Enabled(st, step) && Touches(step)
    requires st.decisions != []
    ensures step == Release(st.decisions[0])
  {
    match step
    case NewSession(_) => EveryCallDecided(st, DeleteGraph);
    case RunLock(s) => EveryCallDecided(st, DeleteSession(s));
    case Acquire(c) => EveryCallDecided(st, c);
    case RunUnlock(_) | Decide(_) | Release(_) =>
  }

  lemma EveryCallDecided(st: State, c: Caller)
    requires Inv(st) && st.decisions != []
    requires c.DeleteSession? ==> c.s in st.created
    ensures !Undecided(PcOf(st, c))
  {
    assert st.deleteRequested && st.sessions == {};
    assert c.DeleteSession? ==> c == DeleteSession(c.s);
  }

  ghost predicate AllReturned(st: State) {
    && PcOf(st, DeleteGraph).Finished?
    && forall s :: s in st.created ==> PcOf(st, DeleteSession(s)).Finished?
  }

  /** When every call has returned, exactly one of them has freed the graph. */
  lemma ExactlyOneFrees(steps: seq<Step>)
    requires IsRun(INIT, steps) && AllReturned(Exec(INIT, steps))
    ensures |Exec(INIT, steps).freedBy| == 1
  {
    RunKeepsInv(INIT, steps);
    var st := Exec(INIT, steps);
    assert forall s :: s in st.sessions ==> Undecided(PcOf(st, DeleteSession(s)));
    assert st.sessions == {} && |st.decisions| == 1;
    var c := st.decisions[0];
    assert st.decisions == [c] && !Undecided(PcOf(st, c));
    assert PcOf(st, c).Finished? by {
      if c.DeleteSession? {
        assert c == DeleteSession(c.s) && c.s in st.created;
      }
    }
  }

  /** While a call has not returned, some call can move: the protocol does not block. */
  lemma NeverStuck(steps: seq<Step>, c: Caller)
    requires IsRun(INIT, steps)
    requires c.DeleteSession? ==> c.s in Exec(INIT, steps).created
    requires !PcOf(Exec(INIT, steps), c).Finished?
    ensures exists step :: Enabled(Exec(INIT, steps), step) && !step.NewSession? && !step.RunLock?
  {
    RunKeepsInv(INIT, steps);
    var st := Exec(INIT, steps);
    match st.holder
    case Running(s) => assert Enabled(st, RunUnlock(s));
    case Deleting(d) => assert Enabled(st, if PcOf(st, d) == Locked then Decide(d) else Release(d));
    case Nobody => assert Enabled(st, if PcOf(st, c) == Start then Acquire(c) else Return(c));
  }
}
