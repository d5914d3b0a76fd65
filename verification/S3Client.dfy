/**
  Creation of the native client (_s3client.py): double-checked under a process-wide lock, tracked for the
  fork handler, and thrown away before a fork.

  A thread evaluating `client._client` runs through the steps below, one shared read or write at a
  time; a run is any interleaving.  The fork handler runs as one step and needs the lock.
 */
module S3Clients {
  import opened Results

  /** A native client: which build it came from, for which S3Client, in which process. */
  datatype Handle = Handle(build: nat, owner: nat, pid: nat)

  datatype Client = Client(native: Option<Handle>, pid: Option<nat>)

  /** Where a thread is inside `_client` of client `c`. */
  datatype Thread =
    | Idle
    | Gone
    | CheckPidSet(c: nat)
    | CheckPidSame(c: nat)
    | CheckNative(c: nat)
    | AwaitLock(c: nat)
    | RecheckPidSet(c: nat)
    | RecheckPidSame(c: nat)
    | RecheckNative(c: nat)
    | Build(c: nat)
    | StoreNative(c: nat, h: Handle)
    | StorePid(c: nat)
    | Track(c: nat)
    | Release(c: nat)
    | AssertNative(c: nat)
    | ReturnNative(c: nat)
    | Returned(c: nat, result: Option<Handle>)
    | AssertFailed(c: nat)

  /** How one evaluation of `_client` ended, in process `pid`: with what it read, or at the assertion. */
  datatype Outcome = Got(client: nat, pid: nat, result: Option<Handle>) | Tripped(client: nat)

  /** `builds` and `outcomes` are the history: every call of the builder, and the end of every evaluation. */
  datatype State = State(
    pid: nat, clients: seq<Client>, active: set<nat>, lock: Option<nat>, threads: seq<Thread>,
    builds: seq<Handle>, outcomes: seq<Outcome>)

  function Init(pid: nat, clients: nat, threads: nat): State {
    State(pid, seq(clients, i => Client(None, None)), {}, None, seq(threads, i => Idle), [], [])
  }

  /** Calls start only at idle threads; `Fork` continues in the parent or in the child. */
  datatype Action =
    | Start(t: nat, c: nat) | Step(t: nat) | Finish(t: nat)
    | ForkInParent(t: nat) | ForkInChild(t: nat, childPid: nat)

  predicate Running(p: Thread) {
    !p.Idle? && !p.Gone? && !p.Returned? && !p.AssertFailed?
  }

  predicate Enabled(s: State, a: Action) {
    && a.t < |s.threads|
    && match a
       case Start(t, c) => s.threads[t].Idle? && c < |s.clients|
       case Step(t) => Running(s.threads[t]) && s.threads[t].c < |s.clients| && (s.threads[t].AwaitLock? ==> s.lock.None?)
       case Finish(t) => s.threads[t].Returned? || s.threads[t].AssertFailed?
       case ForkInParent(t) => s.threads[t].Idle? && s.lock.None?
       case ForkInChild(t, _) => s.threads[t].Idle? && s.lock.None?
  }

  function Go(s: State, t: nat, p: Thread): State
    requires t < |s.threads|
  {
    s.(threads := s.threads[t := p])
  }

  function SetClient(s: State, c: nat, client: Client): State
    requires c < |s.clients|
  {
    s.(clients := s.clients[c := client])
  }

  /** One shared read or write of thread `t`. */
  function ThreadStep(s: State, t: nat): State
    requires t < |s.threads| && Running(s.threads[t]) && s.threads[t].c < |s.clients|
  {
    var p := s.threads[t];
    var c := p.c;
    var client := s.clients[c];
    match p
    case CheckPidSet(_) => Go(s, t, if client.pid.None? then AwaitLock(c) else CheckPidSame(c))
    case CheckPidSame(_) => Go(s, t, if client.pid != Some(s.pid) then AwaitLock(c) else CheckNative(c))
    case CheckNative(_) => Go(s, t, if client.native.None? then AwaitLock(c) else AssertNative(c))
    case AwaitLock(_) => Go(s, t, RecheckPidSet(c)).(lock := Some(t))
    case RecheckPidSet(_) => Go(s, t, if client.pid.None? then Build(c) else RecheckPidSame(c))
    case RecheckPidSame(_) => Go(s, t, if client.pid != Some(s.pid) then Build(c) else RecheckNative(c))
    case RecheckNative(_) => Go(s, t, if client.native.None? then Build(c) else Release(c))
    case Build(_) =>
      var h := Handle(|s.builds|, c, s.pid);
      Go(s, t, StoreNative(c, h)).(builds := s.builds + [h])
    case StoreNative(_, h) => SetClient(Go(s, t, StorePid(c)), c, client.(native := Some(h)))
    case StorePid(_) => SetClient(Go(s, t, Track(c)), c, client.(pid := Some(s.pid)))
    case Track(_) => Go(s, t, Release(c)).(active := s.active + {c})
    case Release(_) => Go(s, t, AssertNative(c)).(lock := None)
    case AssertNative(_) =>
      if client.native.None? then Go(s, t, AssertFailed(c)).(outcomes := s.outcomes + [Tripped(c)])
      else Go(s, t, ReturnNative(c))
    case ReturnNative(_) => Go(s, t, Returned(c, client.native)).(outcomes := s.outcomes + [Got(c, s.pid, client.native)])
  }

  /** `_before_fork_handler`: releases the tracked native clients and forgets them. */
  function BeforeFork(s: State): State {
    if s.active == {} then s
    else
      s.(clients := seq(|s.clients|, c requires 0 <= c < |s.clients| =>
        if c in s.active then s.clients[c].(native := None) else s.clients[c]),
        active := {})
  }

  /** In the child only the forking thread lives on, and `_after_fork_handler` resets the tracking. */
  function Forked(s: State, t: nat, childPid: nat): State {
    s.(pid := childPid, active := {},
    threads := seq(|s.threads|, u requires 0 <= u < |s.threads| => if u == t then s.threads[u] else Gone))
  }

  function Next(s: State, a: Action): State
    requires Enabled(s, a)
  {
    match a
    case Start(t, c) => Go(s, t, CheckPidSet(c))
    case Step(t) => ThreadStep(s, t)
    case Finish(t) => Go(s, t, Idle)
    case ForkInParent(t) => BeforeFork(s)
    case ForkInChild(t, childPid) => Forked(BeforeFork(s), t, childPid)
  }

  // ---------- with forks ----------

  predicate HoldsLock(p: Thread) {
    p.RecheckPidSet? || p.RecheckPidSame? || p.RecheckNative?
    || p.Build? || p.StoreNative? || p.StorePid? || p.Track? || p.Release?
  }

  /** The lock is held by exactly the thread inside the critical section. */
  ghost predicate LockDiscipline(s: State) {
    && (forall t :: 0 <= t < |s.threads| ==> (s.lock == Some(t) <==> HoldsLock(s.threads[t])))
    && (s.lock.Some? ==> s.lock.value < |s.threads|)
  }

  /** The lock holder has stored client `c`'s native client but not yet tracked it. */
  predicate AboutToTrack(s: State, c: nat) {
    && s.lock.Some? && s.lock.value < |s.threads|
    && (s.threads[s.lock.value] == StorePid(c) || s.threads[s.lock.value] == Track(c))
  }

  /** Every live native client belongs to this process and is tracked, or about to be. */
  ghost predicate Tracked(s: State) {
    forall c :: 0 <= c < |s.clients| && s.clients[c].native.Some? ==>
                  s.clients[c].native.value.pid == s.pid && (c in s.active || AboutToTrack(s, c))
  }

  predicate GotOwn(o: Outcome) {
    o.Got? && o.result.Some? ==> o.result.value.pid == o.pid
  }

  /** What a thread is about to store was built in this process, what one got in the process it ran in. */
  ghost predicate BuiltHere(s: State) {
    && (forall t :: 0 <= t < |s.threads| && s.threads[t].StoreNative? ==> s.threads[t].h.pid == s.pid)
    && (forall i :: 0 <= i < |s.outcomes| ==> GotOwn(s.outcomes[i]))
  }

  ghost predicate Inv(s: State) {
    LockDiscipline(s) && Tracked(s) && BuiltHere(s)
  }

  lemma ThreadStepTracks(s: State, t: nat)
    requires Inv(s) && Enabled(s, Step(t))
    ensures Tracked(ThreadStep(s, t))
  {
  }

  lemma ThreadStepInv(s: State, t: nat)
    requires Inv(s) && Enabled(s, Step(t))
    ensures Inv(ThreadStep(s, t))
  {
    ThreadStepTracks(s, t);
    ThreadStepBuildsHere(s, t);
  }

  lemma ThreadStepBuildsHere(s: State, t: nat)
    requires Inv(s) && Enabled(s, Step(t))
    ensures BuiltHere(ThreadStep(s, t))
  {
    var s' := ThreadStep(s, t);
    forall i | 0 <= i < |s'.outcomes| ensures GotOwn(s'.outcomes[i]) {
      if i < |s.outcomes| { assert GotOwn(s.outcomes[i]); }
    }
  }

  /** With the lock free, the handler leaves no live native client behind. */
  lemma HandlerReleasesAll(s: State)
    requires Inv(s) && s.lock.None?
    ensures forall c :: 0 <= c < |s.clients| && s.clients[c].native.Some? ==> c in s.active
    ensures forall c :: 0 <= c < |BeforeFork(s).clients| ==> BeforeFork(s).clients[c].native.None?
    ensures BeforeFork(s).active == {}
  {
  }

  lemma NextInv(s: State, a: Action)
    requires Inv(s) && Enabled(s, a)
    ensures Inv(Next(s, a))
  {
    match a {
      case Step(t) => ThreadStepInv(s, t);
      case ForkInParent(_) => HandlerReleasesAll(s);
      case ForkInChild(_, _) => HandlerReleasesAll(s);
      case _ =>
    }
  }

  /** An interleaving of threads and forks. */
  ghost function Run(s: State, actions: seq<Action>): Option<State>
    decreases |actions|
  {
    if actions == [] then Some(s)
    else if !Enabled(s, actions[0]) then None
    else Run(Next(s, actions[0]), actions[1..])
  }

  lemma {:induction false} RunInv(s: State, actions: seq<Action>)
    requires Inv(s) && Run(s, actions).Some?
    ensures Inv(Run(s, actions).value)
    decreases |actions|
  {
    if actions != [] {
      NextInv(s, actions[0]);
      RunInv(Next(s, actions[0]), actions[1..]);
    }
  }

  /**
    Safety across forks.  In every interleaving: a native client that `_client` ever returned was built in
    the process that called it; and at any moment at which the process may fork, every live native
    client is tracked and none survives the handler.
   */
  lemma ForkSafety(pid: nat, clients: nat, threads: nat, actions: seq<Action>)
    requires Run(Init(pid, clients, threads), actions).Some?
    ensures var s := Run(Init(pid, clients, threads), actions).value;
            && (forall o <- s.outcomes :: o.Got? && o.result.Some? ==> o.result.value.pid == o.pid)
            && (s.lock.None? ==>
                  && (forall c :: 0 <= c < |s.clients| && s.clients[c].native.Some? ==> c in s.active)
                  && (forall c :: 0 <= c < |BeforeFork(s).clients| ==> BeforeFork(s).clients[c].native.None?))
  {
    RunInv(Init(pid, clients, threads), actions);
    var s := Run(Init(pid, clients, threads), actions).value;
    forall o <- s.outcomes ensures GotOwn(o) {}
    if s.lock.None? { HandlerReleasesAll(s); }
  }

  predicate IsFork(a: Action) {
    a.ForkInParent? || a.ForkInChild?
  }

  lemma {:induction false} RunConcat(s: State, first: seq<Action>, rest: seq<Action>)
    ensures Run(s, first + rest) == if Run(s, first).None? then None else Run(Run(s, first).value, rest)
    decreases |first|
  {
    if first == [] {
      assert first + rest == rest;
    } else {
      assert (first + rest)[1..] == first[1..] + rest;
      if Enabled(s, first[0]) { RunConcat(Next(s, first[0]), first[1..], rest); }
    }
  }

  // ---------- between two forks ----------

  /** Where a stretch without forks began: how long the two histories were. */
  datatype Mark = Mark(builds: nat, outcomes: nat)

  function Now(s: State): Mark {
    Mark(|s.builds|, |s.outcomes|)
  }

  /** No client was built twice since the mark. */
  ghost predicate BuiltOnce(s: State, m: Mark) {
    forall i, j :: m.builds <= i < j < |s.builds| ==> s.builds[i].owner != s.builds[j].owner
  }

  /** Native client `h` was built for `c` since the mark. */
  ghost predicate BuiltFor(s: State, m: Mark, c: nat, h: Handle) {
    h.owner == c && exists i :: m.builds <= i < |s.builds| && s.builds[i] == h
  }

  /** The lock holder has built for `c` and not stored it yet. */
  predicate AboutToStore(s: State, c: nat) {
    s.lock.Some? && s.lock.value < |s.threads| && s.threads[s.lock.value].StoreNative? && s.threads[s.lock.value].c == c
  }

  predicate AboutToStorePid(s: State, c: nat) {
    s.lock.Some? && s.lock.value < |s.threads| && s.threads[s.lock.value] == StorePid(c)
  }

  /** A client without a native client was not built since the mark, unless it is just being stored. */
  ghost predicate OneClient(s: State, m: Mark, c: nat)
    requires c < |s.clients|
  {
    && (s.clients[c].native.None? ==>
          AboutToStore(s, c) || forall i :: m.builds <= i < |s.builds| ==> s.builds[i].owner != c)
    && (s.clients[c].native.Some? ==>
          && BuiltFor(s, m, c, s.clients[c].native.value)
          && (s.clients[c].pid == Some(s.pid) || AboutToStorePid(s, c)))
  }

  ghost predicate AllOne(s: State, m: Mark) {
    forall c: nat :: c < |s.clients| ==> OneClient(s, m, c)
  }

  ghost predicate ThreadKnows(s: State, m: Mark, p: Thread) {
    match p
    case Build(c) => c < |s.clients| && s.clients[c].native.None?
    case StoreNative(c, h) => c < |s.clients| && s.clients[c].native.None? && BuiltFor(s, m, c, h)
    case _ => true
  }

  ghost predicate AllKnow(s: State, m: Mark) {
    forall t :: 0 <= t < |s.threads| ==> ThreadKnows(s, m, s.threads[t])
  }

  /** A native client that was handed out is the one its client still holds. */
  predicate StillHeld(s: State, o: Outcome) {
    o.Got? && o.result.Some? ==> o.client < |s.clients| && s.clients[o.client].native == o.result
  }

  ghost predicate AllHeld(s: State, m: Mark) {
    forall i :: m.outcomes <= i < |s.outcomes| ==> StillHeld(s, s.outcomes[i])
  }

  ghost predicate OnceInv(s: State, m: Mark) {
    && m.builds <= |s.builds| && m.outcomes <= |s.outcomes|
    && LockDiscipline(s) && BuiltOnce(s, m) && AllOne(s, m) && AllKnow(s, m) && AllHeld(s, m)
  }

  lemma OnceLock(s: State, m: Mark, t: nat)
    requires OnceInv(s, m) && Enabled(s, Step(t))
    ensures LockDiscipline(ThreadStep(s, t))
  {
  }

  lemma OnceBuilds(s: State, m: Mark, t: nat)
    requires OnceInv(s, m) && Enabled(s, Step(t))
    ensures BuiltOnce(ThreadStep(s, t), m)
  {
    if s.threads[t].Build? {
      var c := s.threads[t].c;
      assert ThreadKnows(s, m, s.threads[t]) && OneClient(s, m, c);
      assert HoldsLock(s.threads[t]) && !AboutToStore(s, c);
    }
  }

  lemma StillBuilt(s: State, m: Mark, t: nat, c: nat, h: Handle)
    requires Enabled(s, Step(t)) && BuiltFor(s, m, c, h)
    ensures BuiltFor(ThreadStep(s, t), m, c, h)
  {
    var i :| m.builds <= i < |s.builds| && s.builds[i] == h;
    assert ThreadStep(s, t).builds[i] == h;
  }

  lemma JustBuilt(s: State, m: Mark, t: nat)
    requires Enabled(s, Step(t)) && s.threads[t].Build? && m.builds <= |s.builds|
    ensures ThreadStep(s, t).threads[t].StoreNative?
    ensures BuiltFor(ThreadStep(s, t), m, s.threads[t].c, ThreadStep(s, t).threads[t].h)
  {
    assert ThreadStep(s, t).builds[|s.builds|] == ThreadStep(s, t).threads[t].h;
  }

  lemma OnceClient(s: State, m: Mark, t: nat, c: nat)
    requires OnceInv(s, m) && Enabled(s, Step(t)) && c < |s.clients|
    ensures OneClient(ThreadStep(s, t), m, c)
  {
    hide BuiltFor;
    assert OneClient(s, m, c) && ThreadKnows(s, m, s.threads[t]);
    if s.clients[c].native.Some? { StillBuilt(s, m, t, c, s.clients[c].native.value); }
    if s.threads[t].StoreNative? { StillBuilt(s, m, t, s.threads[t].c, s.threads[t].h); }
  }

  lemma OnceThread(s: State, m: Mark, t: nat, u: nat)
    requires OnceInv(s, m) && Enabled(s, Step(t)) && u < |s.threads|
    ensures ThreadKnows(ThreadStep(s, t), m, ThreadStep(s, t).threads[u])
  {
    hide BuiltFor;
    assert ThreadKnows(s, m, s.threads[t]) && ThreadKnows(s, m, s.threads[u]);
    assert OneClient(s, m, s.threads[t].c);
    assert HoldsLock(s.threads[t]) && HoldsLock(s.threads[u]) ==> t == u;
    if s.threads[t].Build? { JustBuilt(s, m, t); }
    if s.threads[u].StoreNative? { StillBuilt(s, m, t, s.threads[u].c, s.threads[u].h); }
  }

  lemma OnceHeld(s: State, m: Mark, t: nat)
    requires OnceInv(s, m) && Enabled(s, Step(t))
    ensures AllHeld(ThreadStep(s, t), m)
  {
    assert ThreadKnows(s, m, s.threads[t]);
    var s' := ThreadStep(s, t);
    forall i | m.outcomes <= i < |s'.outcomes| ensures StillHeld(s', s'.outcomes[i]) {
      if i < |s.outcomes| { assert StillHeld(s, s.outcomes[i]); }
    }
  }

  /** Every step other than a fork keeps the discipline of one build per client. */
  lemma NextOnce(s: State, m: Mark, a: Action)
    requires OnceInv(s, m) && Enabled(s, a) && !IsFork(a)
    ensures OnceInv(Next(s, a), m)
  {
    if a.Step? {
      StepOnceInv(s, m, a.t);
    } else {
      CallOnceInv(s, m, a);
    }
  }

  lemma StepOnceInv(s: State, m: Mark, t: nat)
    requires OnceInv(s, m) && Enabled(s, Step(t))
    ensures OnceInv(ThreadStep(s, t), m)
  {
    hide OneClient, ThreadKnows, LockDiscipline, BuiltOnce, AllHeld;
    OnceLock(s, m, t);
    OnceBuilds(s, m, t);
    OnceHeld(s, m, t);
    forall c: nat | c < |s.clients| ensures OneClient(ThreadStep(s, t), m, c) { OnceClient(s, m, t, c); }
    forall u | 0 <= u < |s.threads| ensures ThreadKnows(ThreadStep(s, t), m, ThreadStep(s, t).threads[u]) {
      OnceThread(s, m, t, u);
    }
  }

  lemma CallOnceInv(s: State, m: Mark, a: Action)
    requires OnceInv(s, m) && Enabled(s, a) && (a.Start? || a.Finish?)
    ensures OnceInv(Next(s, a), m)
  {
    var s' := Next(s, a);
    forall c: nat | c < |s.clients| ensures OneClient(s', m, c) {
      assert OneClient(s, m, c);
    }
    forall u | 0 <= u < |s.threads| ensures ThreadKnows(s', m, s'.threads[u]) {
      assert ThreadKnows(s, m, s.threads[u]);
    }
    forall i | m.outcomes <= i < |s'.outcomes| ensures StillHeld(s', s'.outcomes[i]) {
      assert StillHeld(s, s.outcomes[i]);
    }
  }

  lemma {:induction false} RunOnce(s: State, m: Mark, actions: seq<Action>)
    requires OnceInv(s, m) && Run(s, actions).Some?
    requires forall a <- actions :: !IsFork(a)
    ensures OnceInv(Run(s, actions).value, m)
    decreases |actions|
  {
    if actions != [] {
      NextOnce(s, m, actions[0]);
      RunOnce(Next(s, actions[0]), m, actions[1..]);
    }
  }

  /** A fork, in either process, starts a new stretch: nothing is held, and nobody is building. */
  lemma ForkStartsAfresh(s: State, a: Action)
    requires Inv(s) && Enabled(s, a) && IsFork(a)
    ensures OnceInv(Next(s, a), Now(Next(s, a)))
  {
    HandlerReleasesAll(s);
    NextInv(s, a);
    var s' := Next(s, a);
    assert forall t :: 0 <= t < |s'.threads| ==> !HoldsLock(s'.threads[t]);
  }

  /**
    Double-checked creation.  Take any interleaving, with any forks before `rest` and none in it.  Within
    `rest`, counted from the last fork or from the start: the builder runs at most once for each
    client, every native client handed out was built in it for the client that was asked, and all that
    one client ever hands out are the same.  Every evaluation yields a native client if the forks
    were guarded (see below), or if there were none.
   */
  lemma BuilderRunsOnce(pid: nat, clients: nat, threads: nat, before: seq<Action>, rest: seq<Action>)
    requires Run(Init(pid, clients, threads), before + rest).Some?
    requires before == [] || IsFork(before[|before| - 1])
    requires forall a <- rest :: !IsFork(a)
    ensures Run(Init(pid, clients, threads), before).Some?
    ensures var m := Now(Run(Init(pid, clients, threads), before).value);
            var s := Run(Init(pid, clients, threads), before + rest).value;
            && BuiltOnce(s, m)
            && (forall i :: m.outcomes <= i < |s.outcomes| && s.outcomes[i].Got? && s.outcomes[i].result.Some? ==>
                              BuiltFor(s, m, s.outcomes[i].client, s.outcomes[i].result.value))
            && (forall i, j ::
                  (m.outcomes <= i < j < |s.outcomes| && s.outcomes[i].Got? && s.outcomes[j].Got?
                   && s.outcomes[i].client == s.outcomes[j].client
                   && s.outcomes[i].result.Some? && s.outcomes[j].result.Some?) ==>
                    s.outcomes[i].result == s.outcomes[j].result)
            && (Guarded(Init(pid, clients, threads), before + rest) || before == [] ==>
                  forall o <- s.outcomes :: o.Got? && o.result.Some?)
  {
    hide BuiltFor, Init, OneClient, ThreadKnows, Inv;
    InitHolds(pid, clients, threads);
    var start := Init(pid, clients, threads);
    RunConcat(start, before, rest);
    var s0 := Run(start, before).value;
    if before != [] {
      var n := |before| - 1;
      assert before == before[..n] + [before[n]];
      RunConcat(start, before[..n], [before[n]]);
      RunInv(start, before[..n]);
      ForkStartsAfresh(Run(start, before[..n]).value, before[n]);
      assert Run(s0, []) == Some(s0);
    }
    if before == [] {
      assert before + rest == rest;
      ForkFreeIsGuarded(start, rest);
    }
    if Guarded(start, before + rest) { GuardedForksLoseNothing(pid, clients, threads, before + rest); }
    RunOnce(s0, Now(s0), rest);
    assert Run(s0, rest) == Some(Run(start, before + rest).value);
    HandedOut(Run(start, before + rest).value, Now(s0));
  }

  lemma InitHolds(pid: nat, clients: nat, threads: nat)
    ensures var s := Init(pid, clients, threads);
            Inv(s) && OnceInv(s, Now(s)) && Now(s) == Mark(0, 0)
  {
  }

  /** What was handed out since the mark was built since then, once a client. */
  lemma HandedOut(s: State, m: Mark)
    requires OnceInv(s, m)
    ensures forall i :: m.outcomes <= i < |s.outcomes| && s.outcomes[i].Got? && s.outcomes[i].result.Some? ==>
                          BuiltFor(s, m, s.outcomes[i].client, s.outcomes[i].result.value)
    ensures forall i, j ::
              (m.outcomes <= i < j < |s.outcomes| && s.outcomes[i].Got? && s.outcomes[j].Got?
               && s.outcomes[i].client == s.outcomes[j].client
               && s.outcomes[i].result.Some? && s.outcomes[j].result.Some?) ==>
                s.outcomes[i].result == s.outcomes[j].result
  {
    hide BuiltFor;
    forall i | m.outcomes <= i < |s.outcomes| && s.outcomes[i].Got? && s.outcomes[i].result.Some?
      ensures s.outcomes[i].client < |s.clients| && s.outcomes[i].result == s.clients[s.outcomes[i].client].native
      ensures BuiltFor(s, m, s.outcomes[i].client, s.outcomes[i].result.value)
    {
      assert StillHeld(s, s.outcomes[i]);
      assert OneClient(s, m, s.outcomes[i].client);
    }
  }

  // ---------- when `_client` yields nothing ----------

  /** Behind the check and outside the lock: the native client was seen, and will be read again. */
  predicate Leaving(p: Thread) {
    p.AssertNative? || p.ReturnNative?
  }

  /** No thread is at one of these two points: the guard for a fork in the parent. */
  predicate NobodyLeaving(s: State) {
    forall t :: 0 <= t < |s.threads| ==> !Leaving(s.threads[t])
  }

  predicate Yielded(o: Outcome) {
    o.Got? && o.result.Some?
  }

  ghost predicate AllYielded(s: State) {
    forall i :: 0 <= i < |s.outcomes| ==> Yielded(s.outcomes[i])
  }

  /** A thread that has stored or seen the native client of its client finds it there. */
  predicate Finds(s: State, p: Thread) {
    p.StorePid? || p.Track? || p.Release? || Leaving(p) ==> p.c < |s.clients| && s.clients[p.c].native.Some?
  }

  ghost predicate AllFind(s: State) {
    forall t :: 0 <= t < |s.threads| ==> Finds(s, s.threads[t])
  }

  ghost predicate Serving(s: State) {
    Inv(s) && AllFind(s) && AllYielded(s)
  }

  lemma StepServes(s: State, t: nat)
    requires Serving(s) && Enabled(s, Step(t))
    ensures Serving(ThreadStep(s, t))
  {
    hide Inv;
    NextInv(s, Step(t));
    var s' := ThreadStep(s, t);
    assert Finds(s, s.threads[t]);
    forall u | 0 <= u < |s'.threads| ensures Finds(s', s'.threads[u]) {
      assert Finds(s, s.threads[u]);
    }
    forall i | 0 <= i < |s'.outcomes| ensures Yielded(s'.outcomes[i]) {
      if i < |s.outcomes| { assert Yielded(s.outcomes[i]); }
    }
  }

  /** Every action keeps `_client` serving, except a fork in the parent with a thread on its way out. */
  lemma NextServes(s: State, a: Action)
    requires Serving(s) && Enabled(s, a) && (a.ForkInParent? ==> NobodyLeaving(s))
    ensures Serving(Next(s, a))
  {
    NextInv(s, a);
    var s' := Next(s, a);
    if a.Step? {
      StepServes(s, a.t);
    } else {
      forall u | 0 <= u < |s'.threads| ensures Finds(s', s'.threads[u]) {
        assert Finds(s, s.threads[u]);
        assert s.lock.None? ==> !HoldsLock(s.threads[u]);
      }
      assert s'.outcomes == s.outcomes;
    }
  }

  /** Every fork in the parent happens while no thread is on its way out. */
  ghost predicate Guarded(s: State, actions: seq<Action>)
    requires Run(s, actions).Some?
    decreases |actions|
  {
    actions == []
    || ((actions[0].ForkInParent? ==> NobodyLeaving(s)) && Guarded(Next(s, actions[0]), actions[1..]))
  }

  lemma {:induction false} ForkFreeIsGuarded(s: State, actions: seq<Action>)
    requires Run(s, actions).Some? && forall a <- actions :: !IsFork(a)
    ensures Guarded(s, actions)
    decreases |actions|
  {
    if actions != [] {
      assert !IsFork(actions[0]);
      ForkFreeIsGuarded(Next(s, actions[0]), actions[1..]);
    }
  }

  lemma {:induction false} GuardedRunServes(s: State, actions: seq<Action>)
    requires Serving(s) && Run(s, actions).Some? && Guarded(s, actions)
    ensures Serving(Run(s, actions).value)
    decreases |actions|
  {
    if actions != [] {
      NextServes(s, actions[0]);
      GuardedRunServes(Next(s, actions[0]), actions[1..]);
    }
  }

  /** In every guarded run each evaluation of `_client`, up to the end, yields a native client. */
  lemma GuardedForksLoseNothing(pid: nat, clients: nat, threads: nat, actions: seq<Action>)
    requires Run(Init(pid, clients, threads), actions).Some? && Guarded(Init(pid, clients, threads), actions)
    ensures forall o <- Run(Init(pid, clients, threads), actions).value.outcomes :: o.Got? && o.result.Some?
  {
    GuardedRunServes(Init(pid, clients, threads), actions);
    var s := Run(Init(pid, clients, threads), actions).value;
    forall o <- s.outcomes ensures Yielded(o) {}
  }

  /** Right after a fork in the parent: who trips, who gets nothing, and who is safe. */
  lemma AfterFork(s: State, f: nat, t: nat)
    requires Inv(s) && Enabled(s, ForkInParent(f)) && Enabled(s, Step(t))
    ensures var after := Next(s, ForkInParent(f));
            && Enabled(after, Step(t)) && after.threads == s.threads && after.outcomes == s.outcomes
            && var p := ThreadStep(after, t).threads[t];
            && (p == AssertFailed(s.threads[t].c) <==> s.threads[t].AssertNative?)
            && (p == Returned(s.threads[t].c, None) <==> s.threads[t].ReturnNative?)
            && (AllYielded(ThreadStep(after, t)) <==> AllYielded(s) && !Leaving(s.threads[t]))
  {
    HandlerReleasesAll(s);
    var after := Next(s, ForkInParent(f));
    var last := ThreadStep(after, t);
    if Leaving(s.threads[t]) {
      assert !Yielded(last.outcomes[|s.outcomes|]);
    } else {
      assert last.outcomes == s.outcomes;
    }
  }

  /** A guarded continuation in which some evaluation trips or yields nothing. */
  ghost predicate Harms(s: State, more: seq<Action>) {
    Run(s, more).Some? && Guarded(s, more) && !AllYielded(Run(s, more).value)
  }

  /**
    The exact condition.  After any guarded run, let a thread fork.  Some continuation, without another
    unguarded fork, has an evaluation that trips over the assertion or yields nothing, if and only
    if a thread was between its check, or its lock, and its return.
   */
  lemma ForkHarmsIff(pid: nat, clients: nat, threads: nat, actions: seq<Action>, f: nat)
    requires Run(Init(pid, clients, threads), actions).Some? && Guarded(Init(pid, clients, threads), actions)
    requires Enabled(Run(Init(pid, clients, threads), actions).value, ForkInParent(f))
    ensures var s := Run(Init(pid, clients, threads), actions).value;
            (exists more :: Harms(Next(s, ForkInParent(f)), more)) <==> !NobodyLeaving(s)
  {
    GuardedRunServes(Init(pid, clients, threads), actions);
    RunClientsExist(Init(pid, clients, threads), actions);
    ForkHarms(Run(Init(pid, clients, threads), actions).value, f);
  }

  lemma ForkHarms(s: State, f: nat)
    requires Serving(s) && ClientsExist(s) && Enabled(s, ForkInParent(f))
    ensures (exists more :: Harms(Next(s, ForkInParent(f)), more)) <==> !NobodyLeaving(s)
  {
    var after := Next(s, ForkInParent(f));
    if NobodyLeaving(s) {
      NextServes(s, ForkInParent(f));
      forall more | Run(after, more).Some? && Guarded(after, more) ensures !Harms(after, more) {
        GuardedRunServes(after, more);
      }
    } else {
      var t :| 0 <= t < |s.threads| && Leaving(s.threads[t]);
      AfterFork(s, f, t);
      var more := [Step(t)];
      assert more[1..] == [] && Run(ThreadStep(after, t), []) == Some(ThreadStep(after, t));
      assert Run(after, more) == Some(ThreadStep(after, t));
      assert Harms(after, more);
    }
  }

  // ---------- every evaluation ends ----------

  /** At most how many steps of its own a thread needs until its evaluation ends. */
  function StepsLeft(p: Thread): nat {
    match p
    case CheckPidSet(_) => 14
    case CheckPidSame(_) => 13
    case CheckNative(_) => 12
    case AwaitLock(_) => 11
    case RecheckPidSet(_) => 10
    case RecheckPidSame(_) => 9
    case RecheckNative(_) => 8
    case Build(_) => 7
    case StoreNative(_, _) => 6
    case StorePid(_) => 5
    case Track(_) => 4
    case Release(_) => 3
    case AssertNative(_) => 2
    case ReturnNative(_) => 1
    case _ => 0
  }

  /** Between the two states the evaluation of client `c` by thread `t` ended, and is in the history. */
  predicate Ended(before: State, after: State, t: nat, c: nat) {
    && t < |after.threads| && c < |after.clients|
    && ((after.threads[t] == Returned(c, after.clients[c].native)
         && after.outcomes == before.outcomes + [Got(c, after.pid, after.clients[c].native)])
        || (after.threads[t] == AssertFailed(c) && after.outcomes == before.outcomes + [Tripped(c)]))
  }

  /** Each step of its own brings a thread closer to the end; the last one ends the evaluation. */
  lemma OwnStep(s: State, t: nat)
    requires Enabled(s, Step(t))
    ensures var s' := ThreadStep(s, t);
            && StepsLeft(s'.threads[t]) < StepsLeft(s.threads[t])
            && (Running(s'.threads[t]) ==> s'.threads[t].c == s.threads[t].c && s'.outcomes == s.outcomes)
            && (!Running(s'.threads[t]) ==> Ended(s, s', t, s.threads[t].c))
  {
  }

  /** Nobody else moves it, unless the process it lives in is left behind by a fork. */
  lemma OthersStep(s: State, a: Action, t: nat)
    requires Enabled(s, a) && t < |s.threads| && Running(s.threads[t]) && a != Step(t) && !a.ForkInChild?
    ensures t < |Next(s, a).threads| && Next(s, a).threads[t] == s.threads[t]
  {
  }

  /** How many of the actions are steps of thread `t`. */
  function CountSteps(actions: seq<Action>, t: nat): nat {
    if actions == [] then 0 else (if actions[0] == Step(t) then 1 else 0) + CountSteps(actions[1..], t)
  }

  /** A thread that is given the steps it needs ends its evaluation, whatever the other threads do. */
  lemma {:induction false} EvaluationEnds(s: State, actions: seq<Action>, t: nat) returns (k: nat)
    requires Run(s, actions).Some? && forall a <- actions :: !a.ForkInChild?
    requires t < |s.threads| && Running(s.threads[t]) && CountSteps(actions, t) >= StepsLeft(s.threads[t])
    ensures k < |actions| && actions[k] == Step(t)
    ensures Run(s, actions[..k]).Some? && Run(s, actions[..k + 1]).Some?
    ensures Ended(Run(s, actions[..k]).value, Run(s, actions[..k + 1]).value, t, s.threads[t].c)
    decreases |actions|
  {
    hide Next, Ended, StepsLeft;
    StillToGo(s.threads[t]);
    var next := Next(s, actions[0]);
    if actions[0] == Step(t) {
      OwnStep(s, t);
      NextIsStep(s, t);
      if !Running(next.threads[t]) {
        k := 0;
        assert actions[..0] == [] && actions[..1][1..] == [] && Run(next, []) == Some(next);
        return;
      }
    } else {
      OthersStep(s, actions[0], t);
    }
    var j := EvaluationEnds(next, actions[1..], t);
    k := j + 1;
    assert actions[..k][1..] == actions[1..][..j] && actions[..k + 1][1..] == actions[1..][..j + 1];
  }

  lemma StillToGo(p: Thread)
    ensures Running(p) <==> StepsLeft(p) > 0
  {
  }

  lemma NextIsStep(s: State, t: nat)
    requires Enabled(s, Step(t))
    ensures t < |s.threads| && Running(s.threads[t]) && s.threads[t].c < |s.clients|
    ensures Next(s, Step(t)) == ThreadStep(s, t) && |ThreadStep(s, t).threads| == |s.threads|
    ensures ThreadStep(s, t).threads == s.threads[t := ThreadStep(s, t).threads[t]]
  {
  }

  lemma {:induction false} GuardedPrefix(s: State, actions: seq<Action>, k: nat)
    requires Run(s, actions).Some? && Guarded(s, actions) && k <= |actions|
    ensures Run(s, actions[..k]).Some? && Guarded(s, actions[..k])
    decreases |actions|
  {
    if k > 0 {
      GuardedPrefix(Next(s, actions[0]), actions[1..], k - 1);
      assert actions[..k][1..] == actions[1..][..k - 1];
    }
  }

  /**
    Every evaluation yields.  After any guarded run from the start let thread `t` be evaluating `_client`, and
    let it take 14 more steps while others do what they like, forks in the parent guarded.  Then its
    evaluation returned, with the native client its client held at that moment.
   */
  lemma EveryEvaluationYields(pid: nat, clients: nat, threads: nat, before: seq<Action>, rest: seq<Action>, t: nat)
    returns (k: nat)
    requires Run(Init(pid, clients, threads), before).Some? && Guarded(Init(pid, clients, threads), before)
    requires var s := Run(Init(pid, clients, threads), before).value;
             && t < |s.threads| && Running(s.threads[t])
             && Run(s, rest).Some? && Guarded(s, rest)
    requires (forall a <- rest :: !a.ForkInChild?) && CountSteps(rest, t) >= 14
    ensures k < |rest| && rest[k] == Step(t)
    ensures var s := Run(Init(pid, clients, threads), before).value;
            && Run(s, rest[..k]).Some? && Run(s, rest[..k + 1]).Some?
            && var (last, end) := (Run(s, rest[..k]).value, Run(s, rest[..k + 1]).value);
            var c := s.threads[t].c;
            && c < |end.clients| && end.clients[c].native.Some? && t < |end.threads|
            && end.threads[t] == Returned(c, end.clients[c].native)
            && end.outcomes == last.outcomes + [Got(c, end.pid, end.clients[c].native)]
  {
    var s := Run(Init(pid, clients, threads), before).value;
    GuardedRunServes(Init(pid, clients, threads), before);
    AtMostFourteen(s.threads[t]);
    k := EvaluationEnds(s, rest, t);
    GuardedPrefix(s, rest, k + 1);
    GuardedRunServes(s, rest[..k + 1]);
    var end := Run(s, rest[..k + 1]).value;
    assert Yielded(end.outcomes[|end.outcomes| - 1]);
  }

  lemma AtMostFourteen(p: Thread)
    ensures StepsLeft(p) <= 14
  {
  }

  function AllStepsLeft(threads: seq<Thread>): nat {
    if threads == [] then 0 else StepsLeft(threads[0]) + AllStepsLeft(threads[1..])
  }

  lemma {:induction false} AllStepsLeftUpdate(threads: seq<Thread>, t: nat, p: Thread)
    requires t < |threads|
    ensures AllStepsLeft(threads[t := p]) + StepsLeft(threads[t]) == AllStepsLeft(threads) + StepsLeft(p)
  {
    if t == 0 {
      assert threads[t := p][1..] == threads[1..];
    } else {
      assert threads[t := p][1..] == threads[1..][t - 1 := p];
      AllStepsLeftUpdate(threads[1..], t - 1, p);
    }
  }

  /**
    Without new calls the threads come to rest: they take no more steps than they have left, 14 a thread at
    most.  (That they do not stop before the calls have ended is `NeverDeadlocked`.)
   */
  lemma {:induction false} StepsAreBounded(s: State, actions: seq<Action>)
    requires Run(s, actions).Some? && forall a <- actions :: a.Step?
    ensures |actions| <= AllStepsLeft(s.threads)
    decreases |actions|
  {
    hide StepsLeft, ThreadStep, Next, Enabled;
    if actions != [] {
      assert actions[0] in actions;
      var t := actions[0].t;
      assert actions[0] == Step(t);
      OwnStep(s, t);
      NextIsStep(s, t);
      var s' := ThreadStep(s, t);
      AllStepsLeftUpdate(s.threads, t, s'.threads[t]);
      StepsAreBounded(s', actions[1..]);
    }
  }

  lemma {:induction false} FourteenEach(threads: seq<Thread>)
    ensures AllStepsLeft(threads) <= 14 * |threads|
  {
    if threads != [] {
      AtMostFourteen(threads[0]);
      FourteenEach(threads[1..]);
    }
  }

  // ---------- what both share ----------

  ghost predicate ClientsExist(s: State) {
    forall t :: 0 <= t < |s.threads| && Running(s.threads[t]) ==> s.threads[t].c < |s.clients|
  }

  lemma {:induction false} RunClientsExist(s: State, actions: seq<Action>)
    requires ClientsExist(s) && Run(s, actions).Some?
    ensures ClientsExist(Run(s, actions).value)
    decreases |actions|
  {
    if actions != [] { RunClientsExist(Next(s, actions[0]), actions[1..]); }
  }

  /** The lock never deadlocks: while a call is under way, with or without forks, some thread can take a step. */
  lemma NeverDeadlocked(pid: nat, clients: nat, threads: nat, actions: seq<Action>, t: nat)
    requires Run(Init(pid, clients, threads), actions).Some?
    requires var s := Run(Init(pid, clients, threads), actions).value; t < |s.threads| && Running(s.threads[t])
    ensures exists u: nat :: Enabled(Run(Init(pid, clients, threads), actions).value, Step(u))
  {
    var s := Run(Init(pid, clients, threads), actions).value;
    RunInv(Init(pid, clients, threads), actions);
    RunClientsExist(Init(pid, clients, threads), actions);
    if s.lock.Some? {
      assert HoldsLock(s.threads[s.lock.value]);
      assert Enabled(s, Step(s.lock.value));
    } else {
      assert Enabled(s, Step(t));
    }
  }

  lemma {:induction false} RunOneMore(s: State, actions: seq<Action>, a: Action)
    requires Run(s, actions).Some? && Enabled(Run(s, actions).value, a)
    ensures Run(s, actions + [a]) == Some(Next(Run(s, actions).value, a))
    decreases |actions|
  {
    if actions == [] {
      assert Run(Next(s, a), []) == Some(Next(s, a));
    } else {
      assert (actions + [a])[1..] == actions[1..] + [a];
      RunOneMore(Next(s, actions[0]), actions[1..], a);
    }
  }

  /** `n` steps of thread 0. */
  function Steps(n: nat): seq<Action> {
    seq(n, i => Step(0))
  }

  lemma StepOnce(s: State, actions: seq<Action>, n: nat)
    requires Run(s, actions + Steps(n)).Some? && Enabled(Run(s, actions + Steps(n)).value, Step(0))
    ensures Run(s, actions + Steps(n + 1)) == Some(Next(Run(s, actions + Steps(n)).value, Step(0)))
  {
    RunOneMore(s, actions + Steps(n), Step(0));
    assert actions + Steps(n) + [Step(0)] == actions + Steps(n + 1);
  }

  lemma AloneBuilds(pid: nat, n: nat)
    requires n <= 9
    ensures var r := Run(Init(pid, 1, 2), [Start(0, 0)] + Steps(n));
            && r.Some? && |r.value.clients| == 1 && r.value.pid == pid && r.value.outcomes == []
            && r.value.builds == (if n < 4 then [] else [Handle(0, 0, pid)])
            && r.value.threads == [AlongBuild(pid, n), Idle]
            && r.value.lock == (if 2 <= n < 8 then Some(0) else None)
            && r.value.clients[0].native == (if n >= 5 then Some(Handle(0, 0, pid)) else None)
            && (n < 6 ==> r.value.clients[0].pid.None?)
            && r.value.active == (if n < 7 then {} else {0})
  {
    var start := [Start(0, 0)];
    if n == 0 {
      RunOneMore(Init(pid, 1, 2), [], Start(0, 0));
      assert [] + start == start && start + Steps(0) == start;
    } else {
      AloneBuilds(pid, n - 1);
      StepOnce(Init(pid, 1, 2), start, n - 1);
    }
  }

  /** A first call on its own returns the client it has built, after ten steps. */
  lemma LoneCallReturns(pid: nat)
    ensures var r := Run(Init(pid, 1, 2), [Start(0, 0)] + Steps(10));
            && r.Some? && r.value.outcomes == [Got(0, pid, Some(Handle(0, 0, pid)))]
            && r.value.threads != [] && r.value.threads[0] == Returned(0, Some(Handle(0, 0, pid)))
  {
    AloneBuilds(pid, 9);
    StepOnce(Init(pid, 1, 2), [Start(0, 0)], 9);
  }

  /**
    The guard is needed, for either outcome: when another thread forks just before the assertion,
    the assertion fails; between the assertion and the return, `_client` returns nothing.
   */
  lemma ForkCanLeaveNothing(pid: nat, n: nat)
    requires n == 8 || n == 9
    ensures var r := Run(Init(pid, 1, 2), [Start(0, 0)] + Steps(n) + [ForkInParent(1)] + [Step(0)]);
            r.Some? && r.value.outcomes == [if n == 8 then Tripped(0) else Got(0, pid, None)]
  {
    var s, first := Init(pid, 1, 2), [Start(0, 0)] + Steps(n);
    AloneBuilds(pid, n);
    RunOneMore(s, first, ForkInParent(1));
    RunOneMore(s, first + [ForkInParent(1)], Step(0));
  }

  /** Where a first call alone is after `n` steps. */
  function AlongBuild(pid: nat, n: nat): Thread {
    match n
    case 0 => CheckPidSet(0)
    case 1 => AwaitLock(0)
    case 2 => RecheckPidSet(0)
    case 3 => Build(0)
    case 4 => StoreNative(0, Handle(0, 0, pid))
    case 5 => StorePid(0)
    case 6 => Track(0)
    case 7 => Release(0)
    case 8 => AssertNative(0)
    case _ => ReturnNative(0)
  }
}
