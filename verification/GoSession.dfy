/** The Go Session: Run, PartialRun.Run, NewPartialRun and Close as interleaved steps of
    any number of goroutines. The three run-like calls follow the same steps. */
module GoSession {

  datatype Pc =
    // Run, PartialRun.Run, NewPartialRun
    | RunLock                // before mu.Lock()
    | RunCheck               // holds mu, about to read s.c
    | RunClosed              // holds mu, s.c was nil
    | RunAdded               // holds mu, wg.Add(1) done
    | RunUnlocked            // about to call into C with s.c
    | RunInC
    | RunReturned            // about to run wg.Done()
    // Close
    | CloseLock
    | CloseWait              // holds mu, in wg.Wait()
    | CloseCheck
    | CloseInC               // in TF_CloseSession
    | DeleteInC              // in TF_DeleteSession
    | ClearPointer
    | CloseUnlock
    | Done

  datatype Mutex = Free | HeldBy(t: nat)

  /** `open` says whether s.c is not nil; `deletes` counts the calls of TF_DeleteSession. */
  datatype State = State(mu: Mutex, wg: nat, open: bool, deletes: nat, pcs: map<nat, Pc>)

  datatype Step =
    | StartRun(t: nat)
    | StartClose(t: nat)
    | Advance(t: nat, ok: bool)   // the next statement of goroutine t; ok is the outcome of TF_CloseSession

  const INIT := State(Free, 0, true, 0, map[])

  /** Statements executed while holding the mutex. */
  predicate Holding(pc: Pc) {
    match pc
    case RunLock | RunUnlocked | RunInC | RunReturned | CloseLock | Done => false
    case _ => true
  }

  predicate Enabled(st: State, step: Step) {
    match step
    case StartRun(t) => t !in st.pcs
    case StartClose(t) => t !in st.pcs
    case Advance(t, _) =>
      t in st.pcs &&
      match st.pcs[t]
      case RunLock => st.mu == Free
      case CloseLock => st.mu == Free
      case RunReturned => st.wg > 0
      case CloseWait => st.wg == 0
      case Done => false
      case _ => true
  }

  function Next(st: State, step: Step): State
    requires Enabled(st, step)
  {
    match step
    case StartRun(t) => Goto(st, t, RunLock)
    case StartClose(t) => Goto(st, t, CloseLock)
    case Advance(t, ok) =>
      match st.pcs[t]
      case RunLock => Goto(st.(mu := HeldBy(t)), t, RunCheck)
      case RunCheck => if st.open then Goto(st.(wg := st.wg + 1), t, RunAdded) else Goto(st, t, RunClosed)
      case RunClosed => Goto(st.(mu := Free), t, Done)
      case RunAdded => Goto(st.(mu := Free), t, RunUnlocked)
      case RunUnlocked => Goto(st, t, RunInC)
      case RunInC => Goto(st, t, RunReturned)
      case RunReturned => Goto(st.(wg := st.wg - 1), t, Done)
      case CloseLock => Goto(st.(mu := HeldBy(t)), t, CloseWait)
      case CloseWait => Goto(st, t, CloseCheck)
      case CloseCheck => Goto(st, t, if st.open then CloseInC else CloseUnlock)
      case CloseInC => if ok then Goto(st.(deletes := st.deletes + 1), t, DeleteInC) else Goto(st, t, CloseUnlock)
      case DeleteInC => Goto(st, t, ClearPointer)
      case ClearPointer => Goto(st.(open := false), t, CloseUnlock)
      case CloseUnlock => Goto(st.(mu := Free), t, Done)
  }

  function Goto(st: State, t: nat, pc: Pc): State {
    st.(pcs := st.pcs[t := pc])
  }

  ghost predicate IsRun(st: State, steps: seq<Step>)
    decreases |steps|
  {
    steps == [] || (Enabled(st, steps[0]) && IsRun(Next(st, steps[0]), steps[1..]))
  }

  ghost function Exec(st: State, steps: seq<Step>): State
    requires IsRun(st, steps)
    decreases |steps|
  {
    if steps == [] then st else Exec(Next(st, steps[0]), steps[1..])
  }

  // ---- Counting goroutines ----

  ghost function At(st: State, pc: Pc): set<nat> {
    set t | t in st.pcs && st.pcs[t] == pc
  }

  /** Goroutines between wg.Add and wg.Done. */
  ghost function Counted(st: State): nat {
    |At(st, RunAdded)| + |At(st, RunUnlocked)| + |At(st, RunInC)| + |At(st, RunReturned)|
  }

  lemma SizeByOne(a: set<nat>, b: set<nat>, t: nat)
    requires forall x :: x != t ==> (x in a <==> x in b)
    ensures |b| == |a| + (if t in b then 1 else 0) - (if t in a then 1 else 0)
  {
    WithoutOne(a, t);
    WithoutOne(b, t);
    assert a - {t} == b - {t};
  }

  lemma WithoutOne(a: set<nat>, t: nat)
    ensures |a - {t}| == |a| - (if t in a then 1 else 0)
  {
    if t !in a {
      assert a - {t} == a;
    }
  }

  lemma AtMoves(st: State, t: nat, pc: Pc, q: Pc)
    requires t in st.pcs && st.pcs[t] != pc
    ensures |At(Goto(st, t, pc), q)| == |At(st, q)| + (if q == pc then 1 else 0) - (if q == st.pcs[t] then 1 else 0)
  {
    var a, b := At(st, q), At(Goto(st, t, pc), q);
    SizeByOne(a, b, t);
  }

  lemma CountStarts(st: State, t: nat, pc: Pc)
    requires t !in st.pcs && !InCount(pc)
    ensures Counted(Goto(st, t, pc)) == Counted(st) && Work(Goto(st, t, pc)) == Work(st)
  {
    assert forall q :: InCount(q) ==> At(Goto(st, t, pc), q) == At(st, q);
  }

  // ---- Invariant ----

  /** Past the wait, before the pointer is cleared. */
  predicate Closing(pc: Pc) {
    pc.CloseCheck? || pc.CloseInC? || Deleting(pc)
  }

  predicate Deleting(pc: Pc) {
    pc.DeleteInC? || pc.ClearPointer?
  }

  /** Relies on the session being alive. */
  predicate Uses(pc: Pc) {
    pc.RunAdded? || pc.RunUnlocked? || pc.RunInC? || pc.CloseInC?
  }

  ghost predicate LockInv(st: State) {
    forall t :: st.mu == HeldBy(t) <==> t in st.pcs && Holding(st.pcs[t])
  }

  ghost predicate QuietInv(st: State) {
    forall t :: t in st.pcs && Closing(st.pcs[t]) ==> st.wg == 0
  }

  ghost predicate UseInv(st: State) {
    && (forall t :: t in st.pcs && Uses(st.pcs[t]) ==> st.open && st.deletes == 0)
    && (forall t :: t in st.pcs && Deleting(st.pcs[t]) ==> st.open && st.deletes == 1)
    && st.deletes <= 1 && (!st.open ==> st.deletes == 1)
    && (st.open && st.deletes == 1 ==> exists t :: t in st.pcs && Deleting(st.pcs[t]))
  }

  ghost predicate Inv(st: State) {
    LockInv(st) && st.wg == Counted(st) && QuietInv(st) && UseInv(st)
  }

  /** The wait group counts exactly the goroutines between Add and Done. */
  lemma StepKeepsCount(st: State, step: Step)
    requires Inv(st) && Enabled(st, step)
    ensures Next(st, step).wg == Counted(Next(st, step))
  {
    hide Counted, Work;
    match step
    case StartRun(t) =>
      CountStarts(st, t, RunLock);
    case StartClose(t) =>
      CountStarts(st, t, CloseLock);
    case Advance(t, _) =>
      var st' := Next(st, step);
      CountMoves(st, t, st'.pcs[t]);
      SamePcs(Goto(st, t, st'.pcs[t]), st');
  }

  lemma SamePcs(a: State, b: State)
    requires a.pcs == b.pcs
    ensures Counted(a) == Counted(b) && Work(a) == Work(b)
  {
    assert forall q :: At(a, q) == At(b, q);
  }

  predicate InCount(pc: Pc) {
    pc.RunAdded? || pc.RunUnlocked? || pc.RunInC? || pc.RunReturned?
  }

  lemma CountMoves(st: State, t: nat, pc: Pc)
    requires t in st.pcs && st.pcs[t] != pc
    ensures Counted(Goto(st, t, pc)) ==
            Counted(st) + (if InCount(pc) then 1 else 0) - (if InCount(st.pcs[t]) then 1 else 0)
    ensures Work(Goto(st, t, pc)) == Work(st) + Left(pc) - Left(st.pcs[t])
  {
    AtMoves(st, t, pc, RunAdded);
    AtMoves(st, t, pc, RunUnlocked);
    AtMoves(st, t, pc, RunInC);
    AtMoves(st, t, pc, RunReturned);
  }

  lemma NobodyCounted(st: State, t: nat)
    requires Counted(st) == 0 && t in st.pcs
    ensures !InCount(st.pcs[t])
  {
    assert InCount(st.pcs[t]) ==> t in At(st, st.pcs[t]);
  }

  lemma StepKeepsLock(st: State, step: Step)
    requires LockInv(st) && Enabled(st, step)
    ensures LockInv(Next(st, step))
  {
  }

  ghost predicate WgCounts(st: State) {
    forall t :: t in st.pcs && InCount(st.pcs[t]) ==> st.wg > 0
  }

  lemma StepKeepsQuiet(st: State, step: Step)
    requires LockInv(st) && QuietInv(st) && WgCounts(st) && Enabled(st, step)
    ensures QuietInv(Next(st, step))
  {
  }

  lemma StepKeepsUse(st: State, step: Step)
    requires LockInv(st) && QuietInv(st) && UseInv(st) && WgCounts(st) && Enabled(st, step)
    ensures UseInv(Next(st, step))
  {
    var st' := Next(st, step);
    if st.deletes == 1 && st.open {
      var d :| d in st.pcs && Deleting(st.pcs[d]);
      assert st.mu == HeldBy(d) && st.wg == 0;
      assert d in st'.pcs && (Deleting(st'.pcs[d]) || !st'.open);
    } else if st'.deletes == 1 && st'.open {
      assert step.Advance? && Deleting(st'.pcs[step.t]);
    }
  }

  lemma StepKeepsInv(st: State, step: Step)
    requires Inv(st) && Enabled(st, step)
    ensures Inv(Next(st, step))
  {
    hide Counted, LockInv, UseInv, QuietInv;
    StepKeepsCount(st, step);
    StepKeepsLock(st, step);
    SomeoneCounted(st);
    StepKeepsQuiet(st, step);
    StepKeepsUse(st, step);
  }

  lemma {:induction false} RunKeepsInv(st: State, steps: seq<Step>)
    requires Inv(st) && IsRun(st, steps)
    ensures Inv(Exec(st, steps))
    decreases |steps|
  {
    if steps != [] {
      StepKeepsInv(st, steps[0]);
      RunKeepsInv(Next(st, steps[0]), steps[1..]);
    }
  }

  lemma InitHolds()
    ensures Inv(INIT)
  {
    assert forall q :: At(INIT, q) == {};
  }

  // ---- Safety ----

  predicate InSessionCall(pc: Pc) {
    pc == RunInC || pc == CloseInC
  }

  /** The step enters a C call on the session. */
  ghost predicate BeginsCall(st: State, step: Step)
    requires Enabled(st, step)
  {
    step.Advance? && (InSessionCall(Next(st, step).pcs[step.t]) || Next(st, step).pcs[step.t] == DeleteInC)
  }

  /** In every interleaving TF_DeleteSession is called at most once, and from that call on
      no other C call on the session is in progress or begins. */
  lemma NothingAfterDelete(steps: seq<Step>)
    requires IsRun(INIT, steps)
    ensures var st := Exec(INIT, steps);
            && st.deletes <= 1
            && (st.deletes == 1 ==>
                  && (forall t :: t in st.pcs ==> !InSessionCall(st.pcs[t]))
                  && (forall step :: Enabled(st, step) ==> !BeginsCall(st, step)))
  {
    InitHolds();
    RunKeepsInv(INIT, steps);
  }

  /** A run's C call always gets a pointer that is neither nil nor deleted. */
  lemma RunUsesLiveSession(steps: seq<Step>, t: nat)
    requires IsRun(INIT, steps) && t in Exec(INIT, steps).pcs
    requires Exec(INIT, steps).pcs[t] in {RunUnlocked, RunInC}
    ensures Exec(INIT, steps).open && Exec(INIT, steps).deletes == 0
  {
    InitHolds();
    RunKeepsInv(INIT, steps);
  }

  // ---- Progress of Close ----

  /** Statements a counted goroutine still has to execute. */
  ghost function Left(pc: Pc): nat {
    match pc
    case RunAdded => 4
    case RunUnlocked => 3
    case RunInC => 2
    case RunReturned => 1
    case _ => 0
  }

  ghost function Work(st: State): nat {
    4 * |At(st, RunAdded)| + 3 * |At(st, RunUnlocked)| + 2 * |At(st, RunInC)| + |At(st, RunReturned)|
  }

  ghost predicate ByCounted(st: State, step: Step) {
    step.Advance? && step.t in st.pcs && InCount(st.pcs[step.t])
  }

  /** While Close waits with the mutex held, the runs it waits for are never blocked: each
      can take its next step, each such step brings the wait closer to its end, and no
      other goroutine can prolong it. */
  lemma WaitingCloseBlocksNoRun(st: State, c: nat, step: Step)
    requires Inv(st) && c in st.pcs && st.pcs[c] == CloseWait
    ensures forall t, ok :: t in st.pcs && InCount(st.pcs[t]) ==> Enabled(st, Advance(t, ok))
    ensures st.wg > 0 ==> exists t :: t in st.pcs && InCount(st.pcs[t])
    ensures st.wg > 0 <==> Work(st) > 0
    ensures Enabled(st, step) && step != Advance(c, true) && step != Advance(c, false) ==>
              && Next(st, step).pcs[c] == CloseWait
              && Work(Next(st, step)) == Work(st) - (if ByCounted(st, step) then 1 else 0)
  {
    SomeoneCounted(st);
    if Enabled(st, step) && step != Advance(c, true) && step != Advance(c, false) {
      match step
      case Advance(t, ok) =>
        var st' := Next(st, step);
        assert st.mu == HeldBy(c) && t != c;
        CountMoves(st, t, st'.pcs[t]);
        SamePcs(Goto(st, t, st'.pcs[t]), st');
      case StartRun(t) =>
        CountStarts(st, t, RunLock);
      case StartClose(t) =>
        CountStarts(st, t, CloseLock);
    }
  }

  lemma SomeoneCounted(st: State)
    ensures Counted(st) > 0 ==> exists t :: t in st.pcs && InCount(st.pcs[t])
    ensures Counted(st) > 0 <==> Work(st) > 0
    ensures forall t :: t in st.pcs && InCount(st.pcs[t]) ==> Counted(st) > 0
  {
    forall t | t in st.pcs && InCount(st.pcs[t]) ensures Counted(st) > 0 {
      if Counted(st) == 0 {
        NobodyCounted(st, t);
      }
    }
    if Counted(st) > 0 {
      var q := if |At(st, RunAdded)| > 0 then RunAdded else if |At(st, RunUnlocked)| > 0 then RunUnlocked
               else if |At(st, RunInC)| > 0 then RunInC else RunReturned;
      var t :| t in At(st, q);
    }
  }

  ghost function CountedSteps(st: State, steps: seq<Step>): nat
    requires IsRun(st, steps)
    decreases |steps|
  {
    if steps == [] then 0
    else (if ByCounted(st, steps[0]) then 1 else 0) + CountedSteps(Next(st, steps[0]), steps[1..])
  }

  /** However the scheduler interleaves, the runs take exactly the steps that were left
      before the waiting Close may go on. */
  lemma {:induction false} CloseWaitIsBounded(st: State, c: nat, steps: seq<Step>)
    requires Inv(st) && IsRun(st, steps) && c in st.pcs && st.pcs[c] == CloseWait
    requires forall i :: 0 <= i < |steps| ==> steps[i] != Advance(c, true) && steps[i] != Advance(c, false)
    ensures CountedSteps(st, steps) + Work(Exec(st, steps)) == Work(st)
    ensures Work(Exec(st, steps)) == 0 <==> Enabled(Exec(st, steps), Advance(c, true))
    decreases |steps|
  {
    if steps == [] {
      WaitingCloseBlocksNoRun(st, c, StartRun(0));
    } else {
      WaitingCloseBlocksNoRun(st, c, steps[0]);
      StepKeepsInv(st, steps[0]);
      CloseWaitIsBounded(Next(st, steps[0]), c, steps[1..]);
    }
  }

  /** While a call has not returned, some goroutine can take its next step: the protocol
      does not block. */
  lemma NeverStuck(steps: seq<Step>, t: nat)
    requires IsRun(INIT, steps) && t in Exec(INIT, steps).pcs && Exec(INIT, steps).pcs[t] != Done
    ensures exists u, ok :: Enabled(Exec(INIT, steps), Advance(u, ok))
  {
    InitHolds();
    RunKeepsInv(INIT, steps);
    var st := Exec(INIT, steps);
    hide Exec, IsRun, Counted, Work;
    SomeoneCounted(st);
    var u := if st.mu.HeldBy? then st.mu.t else t;
    if st.pcs[u] == CloseWait && st.wg > 0 {
      var c :| c in st.pcs && InCount(st.pcs[c]);
      assert Enabled(st, Advance(c, true));
    } else {
      assert Enabled(st, Advance(u, true));
    }
  }

  // ---- What Close and Run achieve ----

  /** TF_CloseSession, whenever goroutine `t` calls it, ends as `ok` says. */
  ghost predicate CloseEnds(st: State, steps: seq<Step>, t: nat, ok: bool)
    requires IsRun(st, steps)
    decreases |steps|
  {
    steps != [] ==>
      && (steps[0].Advance? && steps[0].t == t && st.pcs[t] == CloseInC ==> steps[0].ok == ok)
      && CloseEnds(Next(st, steps[0]), steps[1..], t, ok)
  }

  lemma {:induction false} ClosedStays(st: State, steps: seq<Step>)
    requires IsRun(st, steps) && !st.open
    ensures !Exec(st, steps).open
    decreases |steps|
  {
    if steps != [] {
      ClosedStays(Next(st, steps[0]), steps[1..]);
    }
  }

  /** Past its end a Close has left no pointer. */
  ghost predicate ClosingWell(st: State, t: nat) {
    t in st.pcs &&
    match st.pcs[t]
    case CloseLock | CloseWait | CloseCheck | CloseInC | DeleteInC | ClearPointer => true
    case CloseUnlock | Done => !st.open
    case _ => false
  }

  /** A Close whose TF_CloseSession succeeds leaves the session closed when it returns. */
  lemma {:induction false} CloseClears(st: State, steps: seq<Step>, t: nat)
    requires IsRun(st, steps) && ClosingWell(st, t) && CloseEnds(st, steps, t, true)
    ensures ClosingWell(Exec(st, steps), t)
    ensures Exec(st, steps).pcs[t] == Done ==> !Exec(st, steps).open
    decreases |steps|
  {
    if steps != [] {
      CloseClears(Next(st, steps[0]), steps[1..], t);
    }
  }

  /** While every TF_CloseSession fails, the session stays open and is not deleted. */
  lemma {:induction false} FailedClosesKeep(st: State, steps: seq<Step>)
    requires IsRun(st, steps) && forall t :: CloseEnds(st, steps, t, false)
    requires st.open && st.deletes == 0 && forall t :: t in st.pcs ==> !Deleting(st.pcs[t])
    ensures Exec(st, steps).open && Exec(st, steps).deletes == 0
    decreases |steps|
  {
    if steps != [] {
      var step, next := steps[0], Next(st, steps[0]);
      forall t ensures CloseEnds(next, steps[1..], t, false) {
        assert CloseEnds(st, steps, t, false);
      }
      assert CloseEnds(st, steps, step.t, false);
      assert forall t :: t in next.pcs ==> !Deleting(next.pcs[t]);
      FailedClosesKeep(next, steps[1..]);
    }
  }

  /** Goroutine `t` comes to the statement `pc`. */
  ghost predicate Passes(st: State, steps: seq<Step>, t: nat, pc: Pc)
    requires IsRun(st, steps)
    decreases |steps|
  {
    (t in st.pcs && st.pcs[t] == pc) || (steps != [] && Passes(Next(st, steps[0]), steps[1..], t, pc))
  }

  /** A run that returns while the session is still open has made its C call. */
  lemma {:induction false} RunCallsSession(st: State, steps: seq<Step>, t: nat)
    requires IsRun(st, steps) && t in st.pcs && st.pcs[t] in {RunLock, RunCheck, RunAdded, RunUnlocked, RunInC}
    requires t in Exec(st, steps).pcs && Exec(st, steps).pcs[t] == Done && Exec(st, steps).open
    ensures Passes(st, steps, t, RunInC)
    decreases |steps|
  {
    if st.pcs[t] != RunInC {
      var next := Next(st, steps[0]);
      if !next.open {
        ClosedStays(next, steps[1..]);
      }
      RunCallsSession(next, steps[1..], t);
    }
  }
}
