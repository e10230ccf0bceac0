/** The executor cache: a map of entries under one mutex and, under a mutex of its own,
    a list of configurations in every entry. Get and GetOrCreate run as interleaved steps
    of any number of threads. A section under the map mutex is a single map access and so
    one step; the exclusive section of an entry spans several, with the factory inside. */
module ExecutorCache {

  datatype PluginConfig = PluginConfig(blas: nat, dnn: nat, fft: nat, rng: nat)

  /** Tags are carried along but not compared. */
  datatype Config = Config(ordinal: int, plugins: PluginConfig, flags: nat, tags: map<string, string>)

  /** What the cache distinguishes. */
  datatype Key = Key(ordinal: int, plugins: PluginConfig, flags: nat)

  function KeyOf(c: Config): Key {
    Key(c.ordinal, c.plugins, c.flags)
  }

  type Executor = nat

  datatype Result = NotFound | FactoryFailed | Found(executor: Executor)

  datatype Pc =
    | FindEntry           // Get, under the shared map mutex
    | SearchShared        // Get, under the entry's shared mutex
    | MakeEntry           // GetOrCreate, under the map mutex
    | LockEntry           // about to take the entry's mutex
    | SearchLocked        // holds the entry's mutex
    | Building            // holds it and runs the factory
    | Done(result: Result)

  /** `create` tells GetOrCreate from Get. */
  datatype Thread = Thread(config: Config, create: bool, pc: Pc)

  type Entry = seq<(Config, Executor)>

  datatype State = State(
    cache: map<int, Entry>,
    owner: map<int, nat>,              // entry mutexes held exclusively
    threads: map<nat, Thread>,
    built: seq<(Key, Executor)>)       // successful factory calls

  datatype Step =
    | Call(t: nat, config: Config, create: bool)
    | Advance(t: nat)
    | FactoryReturns(t: nat, ok: bool)

  const INIT := State(map[], map[], map[], [])

  /** The linear search in an entry: plugins and option flags decide. */
  function Search(entry: Entry, c: Config): (r: Result)
    ensures r.Found? ==> exists i :: 0 <= i < |entry| && entry[i].1 == r.executor && Matches(entry[i].0, c)
    ensures r != FactoryFailed && (r.NotFound? ==> forall i :: 0 <= i < |entry| ==> !Matches(entry[i].0, c))
  {
    if entry == [] then NotFound
    else if Matches(entry[0].0, c) then Found(entry[0].1)
    else
      assert entry == [entry[0]] + entry[1..];
      Search(entry[1..], c)
  }

  predicate Matches(a: Config, b: Config) {
    a.plugins == b.plugins && a.flags == b.flags
  }

  predicate Enabled(st: State, step: Step) {
    match step
    case Call(t, _, _) => t !in st.threads
    case FactoryReturns(t, _) =>
      t in st.threads && st.threads[t].pc == Building && st.threads[t].config.ordinal in st.cache
    case Advance(t) =>
      t in st.threads &&
      var o := st.threads[t].config.ordinal;
      match st.threads[t].pc
      case FindEntry => true
      case MakeEntry => true
      case SearchShared => o in st.cache && o !in st.owner
      case LockEntry => o !in st.owner
      case SearchLocked => o in st.cache
      case Building => false
      case Done(_) => false
  }

  function Goto(st: State, t: nat, pc: Pc): State
    requires t in st.threads
  {
    st.(threads := st.threads[t := st.threads[t].(pc := pc)])
  }

  /** Get's answer: final for Get, and for GetOrCreate only if it is a hit. */
  function Answer(st: State, t: nat, r: Result): State
    requires t in st.threads
  {
    Goto(st, t, if st.threads[t].create && !r.Found? then MakeEntry else Done(r))
  }

  function Next(st: State, step: Step): State
    requires Enabled(st, step)
  {
    match step
    case Call(t, config, create) => st.(threads := st.threads[t := Thread(config, create, FindEntry)])
    case FactoryReturns(t, ok) =>
      var c := st.threads[t].config;
      var e := |st.built|;
      var released := st.(owner := st.owner - {c.ordinal});
      if ok then
        var cache := st.cache[c.ordinal := st.cache[c.ordinal] + [(c, e)]];
        Goto(released.(cache := cache, built := st.built + [(KeyOf(c), e)]), t, Done(Found(e)))
      else Goto(released, t, Done(FactoryFailed))
    case Advance(t) =>
      var c := st.threads[t].config;
      match st.threads[t].pc
      case FindEntry => if c.ordinal in st.cache then Goto(st, t, SearchShared) else Answer(st, t, NotFound)
      case SearchShared => Answer(st, t, Search(st.cache[c.ordinal], c))
      case MakeEntry =>
        var made := if c.ordinal in st.cache then st.cache else st.cache[c.ordinal := []];
        Goto(st.(cache := made), t, LockEntry)
      case LockEntry => Goto(st.(owner := st.owner[c.ordinal := t]), t, SearchLocked)
      case SearchLocked =>
        var r := Search(st.cache[c.ordinal], c);
        if r.Found? then Goto(st.(owner := st.owner - {c.ordinal}), t, Done(r)) else Goto(st, t, Building)
  }

  ghost predicate IsRun(st: State, steps: seq<Step>)
    decreases |steps|
  {
    steps == [] || (Enabled(st, steps[0]) && IsRun(Next(st, steps[0]), steps[1..]))
  }

  ghost function Exec(st: State, steps: seq<Step>): State
    requires IsRun(st, steps)
    decreases |steps|
  {
    if steps == [] then st else Exec(Next(st, steps[0]), steps[1..])
  }

  // ---- The map behind the cache ----

  ghost predicate Holds(cache: map<int, Entry>, k: Key, e: Executor) {
    k.ordinal in cache &&
    exists i :: 0 <= i < |cache[k.ordinal]| && cache[k.ordinal][i].1 == e && KeyOf(cache[k.ordinal][i].0) == k
  }

  /** No entry holds two equal configurations, and entries hold their own ordinal. */
  ghost predicate CacheInv(cache: map<int, Entry>) {
    && (forall o, i :: o in cache && 0 <= i < |cache[o]| ==> cache[o][i].0.ordinal == o)
    && (forall o, i, j :: o in cache && 0 <= i < j < |cache[o]| ==> !Matches(cache[o][i].0, cache[o][j].0))
  }

  ghost predicate IsKey(built: seq<(Key, Executor)>, k: Key) {
    exists i :: 0 <= i < |built| && built[i].0 == k
  }

  /** The abstract map: keys to the executor their one successful factory call made. */
  ghost function Abstract(built: seq<(Key, Executor)>): (m: map<Key, Executor>)
    ensures forall k :: k in m <==> IsKey(built, k)
  {
    if built == [] then map[]
    else
      var last, rest := built[|built| - 1], built[..|built| - 1];
      assert built == rest + [last];
      Snoc(rest, last);
      Abstract(rest)[last.0 := last.1]
  }

  lemma Snoc(built: seq<(Key, Executor)>, x: (Key, Executor))
    ensures forall k :: IsKey(built + [x], k) <==> IsKey(built, k) || k == x.0
  {
    var longer := built + [x];
    forall k ensures IsKey(longer, k) <==> IsKey(built, k) || k == x.0 {
      assert longer[|built|].0 == x.0;
      if IsKey(built, k) {
        var i :| 0 <= i < |built| && built[i].0 == k;
        assert longer[i].0 == k;
      }
    }
  }

  /** The cache stores exactly the abstract map. */
  ghost predicate Refines(st: State) {
    forall k, e :: Holds(st.cache, k, e) <==> k in Abstract(st.built) && Abstract(st.built)[k] == e
  }

  ghost predicate ThreadInv(st: State, t: nat)
    requires t in st.threads
  {
    var x := st.threads[t];
    var o := x.config.ordinal;
    && (x.pc != FindEntry && x.pc != MakeEntry && !x.pc.Done? ==> o in st.cache)
    && ((x.pc == SearchLocked || x.pc == Building) ==> o in st.owner && st.owner[o] == t)
    && (x.pc == Building ==> KeyOf(x.config) !in Abstract(st.built))
    && (x.pc.Done? && x.pc.result.Found? ==>
          KeyOf(x.config) in Abstract(st.built) && Abstract(st.built)[KeyOf(x.config)] == x.pc.result.executor)
  }

  ghost predicate BuiltOnce(built: seq<(Key, Executor)>) {
    && (forall i, j :: 0 <= i < j < |built| ==> built[i].0 != built[j].0)
    && (forall i :: 0 <= i < |built| ==> built[i].1 == i)
  }

  ghost predicate Inv(st: State) {
    CacheInv(st.cache) && Refines(st) && BuiltOnce(st.built) && forall t :: t in st.threads ==> ThreadInv(st, t)
  }

  /** The search agrees with the map. */
  lemma SearchIsLookup(st: State, c: Config)
    requires CacheInv(st.cache) && Refines(st) && c.ordinal in st.cache
    ensures Search(st.cache[c.ordinal], c) ==
            if KeyOf(c) in Abstract(st.built) then Found(Abstract(st.built)[KeyOf(c)]) else NotFound
  {
    var entry, r, k := st.cache[c.ordinal], Search(st.cache[c.ordinal], c), KeyOf(c);
    match r
    case Found(e) =>
      var i :| 0 <= i < |entry| && entry[i].1 == e && Matches(entry[i].0, c);
      assert KeyOf(entry[i].0) == k;
      assert Holds(st.cache, k, e);
    case NotFound => HeldIfKnown(st, k);
  }

  lemma HeldIfKnown(st: State, k: Key)
    requires Refines(st)
    ensures k in Abstract(st.built) ==> Holds(st.cache, k, Abstract(st.built)[k])
  {
  }

  lemma MissingOrdinalIsMissing(st: State, c: Config)
    requires Refines(st) && c.ordinal !in st.cache
    ensures KeyOf(c) !in Abstract(st.built)
  {
    HeldIfKnown(st, KeyOf(c));
  }

  /** A new entry changes nothing; a new configuration adds one key. */
  lemma InsertRefines(st: State, c: Config, e: Executor)
    requires CacheInv(st.cache) && Refines(st) && c.ordinal in st.cache && KeyOf(c) !in Abstract(st.built)
    ensures var cache' := st.cache[c.ordinal := st.cache[c.ordinal] + [(c, e)]];
            var st' := st.(cache := cache', built := st.built + [(KeyOf(c), e)]);
            && CacheInv(cache') && Refines(st') && Abstract(st'.built) == Abstract(st.built)[KeyOf(c) := e]
  {
    SearchIsLookup(st, c);
    AbstractSnoc(st.built, KeyOf(c), e);
    InsertKeepsCache(st.cache, c, e);
    hide CacheInv, Holds, Abstract, Search;
    var cache' := Inserted(st.cache, c, e);
    forall x, y ensures Holds(cache', x, y) <==> Holds(st.cache, x, y) || (x == KeyOf(c) && y == e) {
      InsertHolds(st.cache, c, e, x, y);
    }
  }

  ghost function Inserted(cache: map<int, Entry>, c: Config, e: Executor): map<int, Entry>
    requires c.ordinal in cache
  {
    cache[c.ordinal := cache[c.ordinal] + [(c, e)]]
  }

  lemma AbstractSnoc(built: seq<(Key, Executor)>, k: Key, e: Executor)
    ensures Abstract(built + [(k, e)]) == Abstract(built)[k := e]
  {
    var built' := built + [(k, e)];
    assert built'[..|built|] == built && built'[|built|] == (k, e);
  }

  lemma InsertKeepsCache(cache: map<int, Entry>, c: Config, e: Executor)
    requires CacheInv(cache) && c.ordinal in cache && Search(cache[c.ordinal], c).NotFound?
    ensures CacheInv(Inserted(cache, c, e))
  {
    hide Search;
    var o, entry := c.ordinal, cache[c.ordinal];
    assert forall i :: 0 <= i < |entry| ==> !Matches(entry[i].0, c);
  }

  lemma InsertHolds(cache: map<int, Entry>, c: Config, e: Executor, x: Key, y: Executor)
    requires c.ordinal in cache
    ensures Holds(Inserted(cache, c, e), x, y) <==> Holds(cache, x, y) || (x == KeyOf(c) && y == e)
  {
    var cache', entry := Inserted(cache, c, e), cache[c.ordinal];
    if x.ordinal == c.ordinal {
      assert cache'[x.ordinal][|entry|] == (c, e) && cache'[x.ordinal][..|entry|] == entry;
      if i :| 0 <= i < |entry| && entry[i].1 == y && KeyOf(entry[i].0) == x {
        assert cache'[x.ordinal][i] == entry[i];
      }
    }
  }

  lemma EmptyEntryRefines(st: State, o: int)
    requires CacheInv(st.cache) && Refines(st) && o !in st.cache
    ensures CacheInv(st.cache[o := []]) && Refines(st.(cache := st.cache[o := []]))
  {
    var st' := st.(cache := st.cache[o := []]);
    assert forall k, e :: Holds(st'.cache, k, e) <==> Holds(st.cache, k, e);
  }

  /** What one step does to the abstract map: nothing, or one new key. */
  lemma StepRefines(st: State, step: Step)
    requires Inv(st) && Enabled(st, step)
    ensures var st' := Next(st, step);
            && CacheInv(st'.cache) && Refines(st') && BuiltOnce(st'.built)
            && (step.FactoryReturns? && step.ok ==>
                  && KeyOf(st.threads[step.t].config) !in Abstract(st.built)
                  && Abstract(st'.built) == Abstract(st.built)[KeyOf(st.threads[step.t].config) := |st.built|])
            && (!(step.FactoryReturns? && step.ok) ==> Abstract(st'.built) == Abstract(st.built))
  {
    hide CacheInv, Refines, Search;
    match step
    case FactoryReturns(t, ok) =>
      assert ThreadInv(st, t);
      if ok {
        InsertRefines(st, st.threads[t].config, |st.built|);
        SameCache(st.(cache := Next(st, step).cache, built := Next(st, step).built), Next(st, step));
      } else {
        SameCache(st, Next(st, step));
      }
    case Advance(t) =>
      if st.threads[t].pc == MakeEntry && st.threads[t].config.ordinal !in st.cache {
        EmptyEntryRefines(st, st.threads[t].config.ordinal);
        SameCache(st.(cache := Next(st, step).cache), Next(st, step));
      } else {
        SameCache(st, Next(st, step));
      }
    case Call(_, _, _) => SameCache(st, Next(st, step));
  }

  lemma SameCache(a: State, b: State)
    requires a.cache == b.cache && a.built == b.built
    ensures Refines(a) == Refines(b)
  {
  }

  /** A thread that does not move keeps its promises: the map only grows, and nobody else
      takes or gives up its entry's mutex. */
  lemma OtherThreadKept(st: State, step: Step, t: nat)
    requires Inv(st) && Enabled(st, step)
    requires t in st.threads && t in Next(st, step).threads && step.t != t
    ensures ThreadInv(Next(st, step), t)
  {
    hide CacheInv, Refines, BuiltOnce, Abstract, Search;
    StepRefines(st, step);
    assert ThreadInv(st, t);
    if step.t in st.threads {
      assert ThreadInv(st, step.t);
    }
  }

  lemma OwnThreadKept(st: State, step: Step)
    requires Inv(st) && Enabled(st, step)
    ensures ThreadInv(Next(st, step), step.t)
  {
    hide CacheInv, Refines, BuiltOnce, Abstract, Search;
    StepRefines(st, step);
    if !step.Call? {
      assert ThreadInv(st, step.t);
      var c := st.threads[step.t].config;
      if c.ordinal in st.cache {
        SearchIsLookup(st, c);
      }
    }
  }

  lemma StepKeepsInv(st: State, step: Step)
    requires Inv(st) && Enabled(st, step)
    ensures Inv(Next(st, step))
  {
    StepRefines(st, step);
    forall t | t in Next(st, step).threads ensures ThreadInv(Next(st, step), t) {
      if t == step.t {
        OwnThreadKept(st, step);
      } else {
        OtherThreadKept(st, step, t);
      }
    }
  }

  lemma {:induction false} RunKeepsInv(st: State, steps: seq<Step>)
    requires Inv(st) && IsRun(st, steps)
    ensures Inv(Exec(st, steps))
    decreases |steps|
  {
    if steps != [] {
      StepKeepsInv(st, steps[0]);
      RunKeepsInv(Next(st, steps[0]), steps[1..]);
    }
  }

  lemma InitHolds()
    ensures Inv(INIT)
  {
  }

  // ---- Results ----

  /** In every interleaving all successful calls with equal keys return one executor,
      calls with different keys different ones. */
  lemma SameKeySameExecutor(steps: seq<Step>, t: nat, u: nat)
    requires IsRun(INIT, steps) && t in Exec(INIT, steps).threads && u in Exec(INIT, steps).threads
    requires var st := Exec(INIT, steps);
             st.threads[t].pc.Done? && st.threads[t].pc.result.Found? && st.threads[u].pc.Done? &&
               st.threads[u].pc.result.Found?
    ensures var st := Exec(INIT, steps);
            var c, d := st.threads[t].config, st.threads[u].config;
            st.threads[t].pc.result.executor == st.threads[u].pc.result.executor <==>
            c.ordinal == d.ordinal && c.plugins == d.plugins && c.flags == d.flags
  {
    InitHolds();
    RunKeepsInv(INIT, steps);
    var st := Exec(INIT, steps);
    assert ThreadInv(st, t) && ThreadInv(st, u);
    if st.threads[t].pc.result.executor == st.threads[u].pc.result.executor {
      AbstractInjective(st.built, KeyOf(st.threads[t].config), KeyOf(st.threads[u].config));
    }
  }

  lemma AbstractInjective(built: seq<(Key, Executor)>, k: Key, l: Key)
    requires BuiltOnce(built) && k in Abstract(built) && l in Abstract(built) &&
             Abstract(built)[k] == Abstract(built)[l]
    ensures k == l
  {
    AbstractIsIndex(built, k);
    AbstractIsIndex(built, l);
  }

  lemma {:induction false} AbstractIsIndex(built: seq<(Key, Executor)>, k: Key)
    requires BuiltOnce(built) && k in Abstract(built)
    ensures Abstract(built)[k] < |built| && built[Abstract(built)[k]].0 == k
  {
    var last, rest := built[|built| - 1], built[..|built| - 1];
    if k != last.0 {
      AbstractIsIndex(rest, k);
    }
  }

  /** In every interleaving a factory succeeds at most once per key, and no entry holds
      two equal configurations. */
  lemma FactorySucceedsOnce(steps: seq<Step>)
    requires IsRun(INIT, steps)
    ensures BuiltOnce(Exec(INIT, steps).built) && CacheInv(Exec(INIT, steps).cache) && Refines(Exec(INIT, steps))
  {
    InitHolds();
    RunKeepsInv(INIT, steps);
  }

  /** Factories running at the same time are for different ordinals. */
  lemma FactoriesExclude(steps: seq<Step>, t: nat, u: nat)
    requires IsRun(INIT, steps) && t in Exec(INIT, steps).threads && u in Exec(INIT, steps).threads && t != u
    requires Exec(INIT, steps).threads[t].pc == Building && Exec(INIT, steps).threads[u].pc == Building
    ensures Exec(INIT, steps).threads[t].config.ordinal != Exec(INIT, steps).threads[u].config.ordinal
  {
    InitHolds();
    RunKeepsInv(INIT, steps);
    assert ThreadInv(Exec(INIT, steps), t) && ThreadInv(Exec(INIT, steps), u);
  }

  /** Get answers as the map stands when it looks: the stored executor, or NOT_FOUND just
      when the key is absent. */
  lemma GetIsLookup(steps: seq<Step>, t: nat)
    requires IsRun(INIT, steps) && Enabled(Exec(INIT, steps), Advance(t))
    requires var x := Exec(INIT, steps).threads[t]; !x.create && (x.pc == FindEntry || x.pc == SearchShared)
    ensures var st := Exec(INIT, steps);
            var k := KeyOf(st.threads[t].config);
            var pc := Next(st, Advance(t)).threads[t].pc;
            pc.Done? ==> pc.result == if k in Abstract(st.built) then Found(Abstract(st.built)[k]) else NotFound
  {
    InitHolds();
    RunKeepsInv(INIT, steps);
    var st := Exec(INIT, steps);
    var c := st.threads[t].config;
    if c.ordinal in st.cache {
      SearchIsLookup(st, c);
    } else {
      MissingOrdinalIsMissing(st, c);
    }
  }

  // ---- Progress ----

  /** An entry mutex is held by a thread that searches the entry or runs its factory. */
  ghost predicate OwnerInv(st: State) {
    forall o :: o in st.owner ==>
      && st.owner[o] in st.threads
      && var x := st.threads[st.owner[o]];
         x.config.ordinal == o && (x.pc == SearchLocked || x.pc == Building)
  }

  lemma StepKeepsOwners(st: State, step: Step)
    requires Inv(st) && OwnerInv(st) && Enabled(st, step)
    ensures OwnerInv(Next(st, step))
  {
    hide CacheInv, Refines, BuiltOnce, Abstract, Search;
    if step.t in st.threads {
      assert ThreadInv(st, step.t);
    }
  }

  lemma {:induction false} RunKeepsOwners(st: State, steps: seq<Step>)
    requires Inv(st) && OwnerInv(st) && IsRun(st, steps)
    ensures OwnerInv(Exec(st, steps))
    decreases |steps|
  {
    if steps != [] {
      StepKeepsInv(st, steps[0]);
      StepKeepsOwners(st, steps[0]);
      RunKeepsOwners(Next(st, steps[0]), steps[1..]);
    }
  }

  /** While a call has not returned, some thread can move or a factory is running, whose
      return is enabled: the protocol does not block. */
  lemma NeverStuck(steps: seq<Step>, t: nat)
    requires IsRun(INIT, steps) && t in Exec(INIT, steps).threads && !Exec(INIT, steps).threads[t].pc.Done?
    ensures exists step: Step :: !step.Call? && Enabled(Exec(INIT, steps), step)
  {
    InitHolds();
    RunKeepsInv(INIT, steps);
    RunKeepsOwners(INIT, steps);
    var st := Exec(INIT, steps);
    hide Exec, IsRun, CacheInv, Refines, BuiltOnce, Abstract;
    var o := st.threads[t].config.ordinal;
    var u := if o in st.owner then st.owner[o] else t;
    assert ThreadInv(st, t) && ThreadInv(st, u);
    var step := if st.threads[u].pc == Building then FactoryReturns(u, true) else Advance(u);
    assert Enabled(st, step);
  }

  // ---- How calls end ----

  /** A GetOrCreate does not give up on a miss, and a Get neither makes an entry nor runs a
      factory. */
  ghost predicate CallInv(st: State) {
    forall t :: t in st.threads ==>
      var x := st.threads[t];
      && (x.create ==> x.pc != Done(NotFound))
      && (!x.create ==> x.pc.FindEntry? || x.pc.SearchShared? || (x.pc.Done? && !x.pc.result.FactoryFailed?))
  }

  lemma StepKeepsCalls(st: State, step: Step)
    requires CallInv(st) && Enabled(st, step)
    ensures CallInv(Next(st, step))
  {
    hide Search;
  }

  lemma {:induction false} RunKeepsCalls(st: State, steps: seq<Step>)
    requires CallInv(st) && IsRun(st, steps)
    ensures CallInv(Exec(st, steps))
    decreases |steps|
  {
    if steps != [] {
      StepKeepsCalls(st, steps[0]);
      RunKeepsCalls(Next(st, steps[0]), steps[1..]);
    }
  }

  ghost predicate Failed(st: State, t: nat) {
    t in st.threads && st.threads[t].pc == Done(FactoryFailed)
  }

  lemma StepFails(st: State, step: Step, t: nat)
    requires Enabled(st, step)
    ensures Failed(Next(st, step), t) <==> Failed(st, t) || step == FactoryReturns(t, false)
  {
    hide Search;
  }

  /** A call has failed exactly if its factory returned a failure. */
  lemma {:induction false} FailsWithFactory(st: State, steps: seq<Step>, t: nat)
    requires IsRun(st, steps)
    ensures Failed(Exec(st, steps), t) <==> Failed(st, t) || FactoryReturns(t, false) in steps
    decreases |steps|
  {
    hide Enabled, Next, Failed;
    if steps != [] {
      StepFails(st, steps[0], t);
      FailsWithFactory(Next(st, steps[0]), steps[1..], t);
      assert steps == [steps[0]] + steps[1..];
    }
  }

  /** How a call that has returned ended, in every interleaving: a GetOrCreate with an
      executor unless its factory failed, a Get with an executor or none. */
  lemma CallsEnd(steps: seq<Step>, t: nat)
    requires IsRun(INIT, steps) && t in Exec(INIT, steps).threads && Exec(INIT, steps).threads[t].pc.Done?
    ensures var x := Exec(INIT, steps).threads[t];
            && (x.create ==> (x.pc.result.Found? <==> FactoryReturns(t, false) !in steps))
            && (x.create ==> !x.pc.result.NotFound?)
            && (!x.create ==> !x.pc.result.FactoryFailed?)
  {
    RunKeepsCalls(INIT, steps);
    FailsWithFactory(INIT, steps, t);
  }
}
