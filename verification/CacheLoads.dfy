/** Concurrent `get_or_load` calls over one event loop: every interleaving of callers and loader
    tasks at the points where they wait (files/cache.py). */
module CacheLoads {
  import opened Blocks
  import opened Wrappers
  import opened Cache

  /** The configured source, which does not change; `None` for a missing file. */
  type Source = map<Name, seq<byte>>

  function Contents(src: Source, name: Name): Option<seq<byte>> {
    if name in src then Some(src[name]) else None
  }

  datatype Result = Pending | Returned(data: Option<seq<byte>>) | Raised

  /** A future and the file it is for. */
  datatype Future = Future(name: Name, result: Result)

  /** Where a loader task waits: for the source, for the lock to store, for the lock to retire. */
  datatype Phase = Reading | Storing(data: seq<byte>) | Retiring

  datatype Loader = Loader(name: Name, phase: Phase)

  /** Where a call waits: not started, for the lock after a miss, for a future; or what it returned,
      and which future it had that from unless it was a hit. */
  datatype Caller =
    | Calling(name: Name)
    | Missed(name: Name)
    | Awaiting(name: Name, future: nat)
    | Answered(name: Name, data: Option<seq<byte>>, via: Option<nat>)

  /** `inflight` maps a name to its future; futures are numbered in order of creation, and a loader
      is known by the future it serves. */
  datatype State = State(
    entries: seq<Entry>, enabled: bool, maxBytes: int, maxFileBytes: int,
    inflight: map<Name, nat>, futures: seq<Future>, loaders: map<nat, Loader>, callers: seq<Caller>)

  datatype Move =
    | Call(name: Name)
    | Look(caller: nat)
    | Join(caller: nat)
    | Wake(caller: nat)
    | ReadDone(future: nat)
    | ReadRaises(future: nat)
    | StoreDone(future: nat)
    | Retire(future: nat)
    | Invalidate(name: Name)
    | InvalidateAll
    | Reconfigure(maxBytes: int, maxFileBytes: int, enabled: bool)

  predicate Enabled(s: State, m: Move) {
    match m
    case Look(i) => i < |s.callers| && s.callers[i].Calling?
    case Join(i) => i < |s.callers| && s.callers[i].Missed?
    case Wake(i) =>
      i < |s.callers| && s.callers[i].Awaiting? && s.callers[i].future < |s.futures| &&
      s.futures[s.callers[i].future].result != Pending
    case ReadDone(f) => f in s.loaders && s.loaders[f].phase == Reading && f < |s.futures|
    case ReadRaises(f) => f in s.loaders && s.loaders[f].phase == Reading && f < |s.futures|
    case StoreDone(f) => f in s.loaders && s.loaders[f].phase.Storing? && f < |s.futures|
    case Retire(f) => f in s.loaders && s.loaders[f].phase == Retiring
    case _ => true
  }

  function Resolve(s: State, f: nat, r: Result): State
    requires f in s.loaders && f < |s.futures|
  {
    s.(futures := s.futures[f := s.futures[f].(result := r)],
       loaders := s.loaders[f := s.loaders[f].(phase := Retiring)])
  }

  /** The look at the cache without the lock. */
  function LookUp(s: State, i: nat): State
    requires i < |s.callers|
  {
    var name := s.callers[i].name;
    var hit := if s.enabled then Lookup(s.entries, name) else None;
    if hit.Some? then s.(entries := Touch(s.entries, name), callers := s.callers[i := Answered(name, hit, None)])
    else s.(callers := s.callers[i := Missed(name)])
  }

  /** The critical section of a miss: join the load in flight or start one. */
  function JoinOrStart(s: State, i: nat): State
    requires i < |s.callers|
  {
    var name := s.callers[i].name;
    var s' := if name in s.inflight then s else StartLoad(s, name);
    s'.(callers := s.callers[i := Awaiting(name, s'.inflight[name])])
  }

  /** A new future and its loader task. */
  function StartLoad(s: State, name: Name): State {
    var f := |s.futures|;
    s.(inflight := s.inflight[name := f], futures := s.futures + [Future(name, Pending)],
       loaders := s.loaders[f := Loader(name, Reading)])
  }

  function Apply(src: Source, s: State, m: Move): State
    requires Enabled(s, m)
  {
    match m
    case Call(name) => s.(callers := s.callers + [Calling(name)])
    case Look(i) => LookUp(s, i)
    case Join(i) => JoinOrStart(s, i)
    case Wake(i) =>
      var c := s.callers[i];
      var r := s.futures[c.future].result;
      s.(callers := s.callers[i := Answered(c.name, if r.Returned? then r.data else None, Some(c.future))])
    case ReadDone(f) =>
      var data := Contents(src, s.loaders[f].name);
      if data.Some? && s.enabled && |data.value| <= s.maxFileBytes
      then s.(loaders := s.loaders[f := s.loaders[f].(phase := Storing(data.value))])
      else Resolve(s, f, Returned(data))
    case ReadRaises(f) => Resolve(s, f, Raised)
    case StoreDone(f) =>
      var l := s.loaders[f];
      Resolve(s, f, Returned(Some(l.phase.data))).(entries := Stored(s.entries, l.name, l.phase.data, s.maxBytes))
    case Retire(f) => s.(inflight := s.inflight - {s.loaders[f].name}, loaders := s.loaders - {f})
    case Invalidate(name) => s.(entries := Without(s.entries, name))
    case InvalidateAll => s.(entries := [])
    case Reconfigure(maxBytes, maxFileBytes, enabled) =>
      s.(maxBytes := maxBytes, maxFileBytes := maxFileBytes, enabled := enabled,
         entries := if enabled then s.entries else [])
  }

  datatype Run = Start(maxBytes: int, maxFileBytes: int, enabled: bool) | Then(before: Run, move: Move)

  predicate Runnable(src: Source, run: Run)
    decreases run, 0
  {
    run.Then? ==> Runnable(src, run.before) && Enabled(Exec(src, run.before), run.move)
  }

  function Exec(src: Source, run: Run): State
    requires Runnable(src, run)
    decreases run, 1
  {
    match run
    case Start(maxBytes, maxFileBytes, enabled) => State([], enabled, maxBytes, maxFileBytes, map[], [], map[], [])
    case Then(before, m) => Apply(src, Exec(src, before), m)
  }

  // ---- The invariant -------------------------------------------------

  /** Every entry holds what the source holds. */
  predicate Fresh(src: Source, entries: seq<Entry>) {
    forall e | e in entries :: Contents(src, e.name) == Some(e.data)
  }

  /** A resolved future holds what the source holds for its file. */
  predicate FutureOk(src: Source, f: Future) {
    f.result.Returned? ==> f.result.data == Contents(src, f.name)
  }

  /** Loaders and futures in flight are the same thing, one per name. */
  predicate OnePerName(inflight: map<Name, nat>, futures: seq<Future>, loaders: map<nat, Loader>) {
    && (forall f | f in loaders :: f < |futures| && futures[f].name == loaders[f].name)
    && (forall f | f in loaders :: loaders[f].name in inflight && inflight[loaders[f].name] == f)
    && (forall n | n in inflight :: inflight[n] in loaders && loaders[inflight[n]].name == n)
  }

  /** A loader that has not resolved its future is the only one that will. */
  predicate Unresolved(futures: seq<Future>, loaders: map<nat, Loader>) {
    forall f | f in loaders && f < |futures| :: loaders[f].phase != Retiring ==> futures[f].result == Pending
  }

  predicate LoaderOk(src: Source, l: Loader) {
    l.phase.Storing? ==> Contents(src, l.name) == Some(l.phase.data)
  }

  predicate CallerOk(src: Source, futures: seq<Future>, c: Caller) {
    match c
    case Awaiting(name, f) => f < |futures| && futures[f].name == name
    case Answered(name, data, None) => data == Contents(src, name)
    case Answered(name, data, Some(f)) =>
      && f < |futures| && futures[f].name == name && futures[f].result != Pending
      && data == if futures[f].result == Raised then None else Contents(src, name)
    case _ => true
  }

  predicate Inv(src: Source, s: State) {
    && Fresh(src, s.entries)
    && (forall i | 0 <= i < |s.futures| :: FutureOk(src, s.futures[i]))
    && OnePerName(s.inflight, s.futures, s.loaders) && Unresolved(s.futures, s.loaders)
    && (forall f | f in s.loaders :: LoaderOk(src, s.loaders[f]))
    && (forall i | 0 <= i < |s.callers| :: CallerOk(src, s.futures, s.callers[i]))
  }

  lemma TouchFresh(src: Source, entries: seq<Entry>, name: Name)
    requires Fresh(src, entries)
    ensures Fresh(src, Touch(entries, name)) && Fresh(src, Without(entries, name))
  {
  }

  lemma StoredFresh(src: Source, entries: seq<Entry>, name: Name, data: seq<byte>, maxBytes: int)
    requires Fresh(src, entries) && Contents(src, name) == Some(data)
    ensures Fresh(src, Stored(entries, name, data, maxBytes))
  {
    var all := Without(entries, name) + [Entry(name, data)];
    assert forall e | e in Evict(all, maxBytes) :: e in all;
    assert forall e | e in all :: e in entries || e == Entry(name, data);
  }

  lemma LookKeeps(src: Source, s: State, i: nat)
    requires Inv(src, s) && Enabled(s, Look(i))
    ensures Inv(src, LookUp(s, i))
  {
    hide Touch;
    TouchFresh(src, s.entries, s.callers[i].name);
  }

  lemma JoinKeeps(src: Source, s: State, i: nat)
    requires Inv(src, s) && Enabled(s, Join(i))
    ensures Inv(src, JoinOrStart(s, i))
  {
    hide Fresh, StartLoad;
    var name := s.callers[i].name;
    if name !in s.inflight {
      StartLoadKeeps(src, s, name);
    }
  }

  lemma StartLoadKeeps(src: Source, s: State, name: Name)
    requires Inv(src, s) && name !in s.inflight
    ensures var s' := StartLoad(s, name); Inv(src, s') && name in s'.inflight && s'.callers == s.callers
  {
    hide Fresh, LoaderOk, OnePerName;
    var s' := StartLoad(s, name);
    NewLoaderOk(src, name);
    StartOnePerName(s.inflight, s.futures, s.loaders, name);
    assert forall i | 0 <= i < |s.futures| :: s'.futures[i] == s.futures[i];
  }

  lemma StartOnePerName(inflight: map<Name, nat>, futures: seq<Future>, loaders: map<nat, Loader>, name: Name)
    requires OnePerName(inflight, futures, loaders) && name !in inflight
    ensures OnePerName(inflight[name := |futures|], futures + [Future(name, Pending)],
            loaders[|futures| := Loader(name, Reading)])
  {
    assert |futures| !in loaders;
  }

  lemma ResolveKeeps(src: Source, s: State, f: nat, r: Result)
    requires Inv(src, s) && f in s.loaders && s.loaders[f].phase != Retiring && r != Pending
    requires f < |s.futures| && FutureOk(src, Future(s.futures[f].name, r))
    ensures Inv(src, Resolve(s, f, r))
  {
    hide Fresh;
  }

  lemma EntriesKeep(src: Source, s: State, entries: seq<Entry>)
    requires Inv(src, s) && Fresh(src, entries)
    ensures Inv(src, s.(entries := entries))
  {
    hide Fresh, OnePerName;
  }

  lemma RetireKeeps(src: Source, s: State, f: nat)
    requires Inv(src, s) && Enabled(s, Retire(f))
    ensures Inv(src, Apply(src, s, Retire(f)))
  {
    hide Fresh;
  }

  lemma WakeKeeps(src: Source, s: State, i: nat)
    requires Inv(src, s) && Enabled(s, Wake(i))
    ensures Inv(src, Apply(src, s, Wake(i)))
  {
    hide Fresh;
    assert CallerOk(src, s.futures, s.callers[i]);
    assert FutureOk(src, s.futures[s.callers[i].future]);
  }

  lemma ReadKeeps(src: Source, s: State, f: nat)
    requires Inv(src, s) && Enabled(s, ReadDone(f))
    ensures Inv(src, Apply(src, s, ReadDone(f)))
  {
    hide Fresh, Resolve;
    var data := Contents(src, s.loaders[f].name);
    if !(data.Some? && s.enabled && |data.value| <= s.maxFileBytes) {
      ResolveKeeps(src, s, f, Returned(data));
    }
  }

  lemma NewLoaderOk(src: Source, name: Name)
    ensures LoaderOk(src, Loader(name, Reading))
  {
  }

  lemma StoreKeeps(src: Source, s: State, f: nat)
    requires Inv(src, s) && Enabled(s, StoreDone(f))
    ensures Inv(src, Apply(src, s, StoreDone(f)))
  {
    hide Fresh, Resolve, Stored;
    var l := s.loaders[f];
    var r := Returned(Some(l.phase.data));
    assert LoaderOk(src, l);
    ResolveKeeps(src, s, f, r);
    StoredFresh(src, s.entries, l.name, l.phase.data, s.maxBytes);
    EntriesKeep(src, Resolve(s, f, r), Stored(s.entries, l.name, l.phase.data, s.maxBytes));
  }

  lemma StepKeeps(src: Source, s: State, m: Move)
    requires Inv(src, s) && Enabled(s, m)
    ensures Inv(src, Apply(src, s, m))
  {
    hide OnePerName, LoaderOk;
    match m
    case Call(_) =>
    case Look(i) => LookKeeps(src, s, i);
    case Join(i) => JoinKeeps(src, s, i);
    case Wake(i) => WakeKeeps(src, s, i);
    case ReadDone(f) => ReadKeeps(src, s, f);
    case ReadRaises(f) => ResolveKeeps(src, s, f, Raised);
    case StoreDone(f) => StoreKeeps(src, s, f);
    case Retire(f) => RetireKeeps(src, s, f);
    case Invalidate(name) =>
      TouchFresh(src, s.entries, name);
      EntriesKeep(src, s, Without(s.entries, name));
    case InvalidateAll => EntriesKeep(src, s, []);
    case Reconfigure(maxBytes, maxFileBytes, enabled) => EntriesKeep(src, s, if enabled then s.entries else []);
  }

  lemma {:induction false} RunKeeps(src: Source, run: Run)
    requires Runnable(src, run)
    ensures Inv(src, Exec(src, run))
  {
    hide Inv, Apply, Enabled;
    match run
    case Start(maxBytes, maxFileBytes, enabled) => StartKeeps(src, maxBytes, maxFileBytes, enabled);
    case Then(before, m) =>
      RunKeeps(src, before);
      StepKeeps(src, Exec(src, before), m);
  }

  lemma StartKeeps(src: Source, maxBytes: int, maxFileBytes: int, enabled: bool)
    ensures Inv(src, State([], enabled, maxBytes, maxFileBytes, map[], [], map[], []))
  {
  }

  /** The answer came from a load that raised. */
  predicate FromRaised(s: State, c: Caller)
    requires c.Answered?
  {
    c.via.Some? && c.via.value < |s.futures| && s.futures[c.via.value].result == Raised
  }

  /** In every interleaving, the answer to a call, whether by a hit, by joining a load or by its own
      load, is exactly what the source holds, unless the load raised: then it is that of a missing
      file, which is wrong exactly when the file exists. */
  lemma AnswersAreSource(src: Source, run: Run, i: nat)
    requires Runnable(src, run) && i < |Exec(src, run).callers| && Exec(src, run).callers[i].Answered?
    ensures var s := Exec(src, run); var c := s.callers[i];
            && c.data == (if FromRaised(s, c) then None else Contents(src, c.name))
            && (c.data == Contents(src, c.name) <==> !(FromRaised(s, c) && c.name in src))
  {
    RunKeeps(src, run);
    assert CallerOk(src, Exec(src, run).futures, Exec(src, run).callers[i]);
  }

  /** In every interleaving, at most one load per name is outstanding, and it is the one that
      callers of that name join. */
  lemma OneLoadPerName(src: Source, run: Run, f: nat, g: nat)
    requires Runnable(src, run)
    requires var s := Exec(src, run); f in s.loaders && g in s.loaders && s.loaders[f].name == s.loaders[g].name
    ensures var s := Exec(src, run); f == g && s.loaders[f].name in s.inflight && s.inflight[s.loaders[f].name] == f
  {
    hide Fresh;
    RunKeeps(src, run);
  }
}
