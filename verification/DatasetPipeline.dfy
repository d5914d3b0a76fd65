/**
  The dataset pipeline (datagen.py): producers share one iterator and a bounded queue with consumers,
  and shut them down with a single sentinel that every consumer puts back.

  Each thread's code is cut into its atomic steps; a run is any interleaving of enabled steps.
 */
module DatasetPipeline {
  import opened Results

  datatype Message = Item(id: nat) | Sentinel

  /** `producer`: fetch an item, put it; at the end wait at the barrier, then number 0 signals. */
  datatype Producer = Fetching | Holding(id: nat) | AtBarrier | Signalling | Finished

  /** `consumer`: get a message, process it; put a sentinel back and stop. */
  datatype Consumer = Getting | Busy(id: nat) | Restoring | Stopped

  datatype Config = Config(items: nat, capacity: nat, producers: nat, consumers: nat)

  datatype State = State(
    next: nat, queue: seq<Message>, producers: seq<Producer>, consumers: seq<Consumer>, processed: seq<nat>)

  datatype Action =
    | Next(t: nat) | Put(t: nat) | Pass(t: nat) | Signal(t: nat)
    | Get(t: nat) | Process(t: nat) | Restore(t: nat)

  function Init(cfg: Config): State {
    State(0, [], seq(cfg.producers, i => Fetching), seq(cfg.consumers, i => Getting), [])
  }

  predicate PastLoop(p: Producer) {
    p.AtBarrier? || p.Signalling? || p.Finished?
  }

  /** All parties have arrived at the barrier. */
  predicate BarrierOpen(s: State) {
    forall i :: 0 <= i < |s.producers| ==> PastLoop(s.producers[i])
  }

  /** A put blocks while the queue is full, a get while it is empty, the barrier until all arrived. */
  predicate Enabled(cfg: Config, s: State, a: Action) {
    match a
    case Next(t) => t < |s.producers| && s.producers[t].Fetching?
    case Put(t) => t < |s.producers| && s.producers[t].Holding? && |s.queue| < cfg.capacity
    case Pass(t) => t < |s.producers| && s.producers[t].AtBarrier? && BarrierOpen(s)
    case Signal(t) => t < |s.producers| && s.producers[t].Signalling? && |s.queue| < cfg.capacity
    case Get(t) => t < |s.consumers| && s.consumers[t].Getting? && s.queue != []
    case Process(t) => t < |s.consumers| && s.consumers[t].Busy?
    case Restore(t) => t < |s.consumers| && s.consumers[t].Restoring? && |s.queue| < cfg.capacity
  }

  function Step(cfg: Config, s: State, a: Action): State
    requires Enabled(cfg, s, a)
  {
    match a
    case Next(t) =>
      if s.next < cfg.items then s.(next := s.next + 1, producers := s.producers[t := Holding(s.next)])
      else s.(producers := s.producers[t := AtBarrier])
    case Put(t) => s.(queue := s.queue + [Item(s.producers[t].id)], producers := s.producers[t := Fetching])
    case Pass(t) => s.(producers := s.producers[t := if t == 0 then Signalling else Finished])
    case Signal(t) => s.(queue := s.queue + [Sentinel], producers := s.producers[t := Finished])
    case Get(t) =>
      s.(queue := s.queue[1..],
      consumers := s.consumers[t := if s.queue[0].Sentinel? then Restoring else Busy(s.queue[0].id)])
    case Process(t) => s.(processed := s.processed + [s.consumers[t].id], consumers := s.consumers[t := Getting])
    case Restore(t) => s.(queue := s.queue + [Sentinel], consumers := s.consumers[t := Stopped])
  }

  // ---------- bookkeeping ----------

  function Sum<T>(s: seq<T>, f: T -> nat): nat {
    if s == [] then 0 else f(s[0]) + Sum(s[1..], f)
  }

  lemma {:induction false} SumConcat<T>(a: seq<T>, b: seq<T>, f: T -> nat)
    ensures Sum(a + b, f) == Sum(a, f) + Sum(b, f)
  {
    if a == [] {
      assert a + b == b;
    } else {
      assert (a + b)[1..] == a[1..] + b;
      SumConcat(a[1..], b, f);
    }
  }

  lemma SumAppend<T>(s: seq<T>, x: T, f: T -> nat)
    ensures Sum(s + [x], f) == Sum(s, f) + f(x)
  {
    SumConcat(s, [x], f);
    assert [x][1..] == [];
  }

  lemma SumUpdate<T>(s: seq<T>, t: nat, x: T, f: T -> nat)
    requires t < |s|
    ensures Sum(s[t := x], f) + f(s[t]) == Sum(s, f) + f(x)
  {
    assert s == s[..t] + ([s[t]] + s[t + 1..]);
    assert s[t := x] == s[..t] + ([x] + s[t + 1..]);
    SumConcat(s[..t], [s[t]] + s[t + 1..], f);
    SumConcat(s[..t], [x] + s[t + 1..], f);
    assert ([x] + s[t + 1..])[1..] == s[t + 1..] == ([s[t]] + s[t + 1..])[1..];
  }

  lemma {:induction false} SumPositive<T>(s: seq<T>, i: nat, f: T -> nat)
    requires i < |s|
    ensures Sum(s, f) >= f(s[i])
  {
    if i > 0 { SumPositive(s[1..], i - 1, f); }
  }

  lemma {:induction false} SumZero<T>(s: seq<T>, f: T -> nat)
    requires forall i :: 0 <= i < |s| ==> f(s[i]) == 0
    ensures Sum(s, f) == 0
  {
    if s != [] { SumZero(s[1..], f); }
  }

  function HoldsItem(id: nat): Producer -> nat { p => if p == Holding(id) then 1 else 0 }
  function IsItem(id: nat): Message -> nat { m => if m == Item(id) then 1 else 0 }
  function BusyWith(id: nat): Consumer -> nat { c => if c == Busy(id) then 1 else 0 }
  function IsId(id: nat): nat -> nat { n => if n == id then 1 else 0 }
  function IsSentinel(): Message -> nat { m => if m == Sentinel then 1 else 0 }
  function IsRestoring(): Consumer -> nat { c => if c == Restoring then 1 else 0 }
  function OwesSentinel(s: State): nat { if s.producers != [] && s.producers[0] != Finished then 1 else 0 }

  /** How often item `id` is around: with a producer, queued, with a consumer, or processed. */
  function Copies(s: State, id: nat): nat {
    Sum(s.producers, HoldsItem(id)) + Sum(s.queue, IsItem(id)) + Sum(s.consumers, BusyWith(id)) + Sum(s.processed, IsId(id))
  }

  /** The sentinels: still owed by producer 0, in the queue, or in the hands of a consumer. */
  function Tokens(s: State): nat {
    OwesSentinel(s) + Sum(s.queue, IsSentinel()) + Sum(s.consumers, IsRestoring())
  }

  // ---------- the invariant ----------

  /** Every generated item is in exactly one place, no other item exists. */
  ghost predicate Conserved(s: State) {
    forall id: nat :: Copies(s, id) == if id < s.next then 1 else 0
  }

  /** The sentinel comes last in the queue. */
  ghost predicate SentinelLast(q: seq<Message>) {
    forall i :: 0 <= i < |q| - 1 ==> q[i].Item?
  }

  predicate Leaving(c: Consumer) {
    c.Restoring? || c.Stopped?
  }

  predicate PastBarrier(p: Producer) {
    p.Signalling? || p.Finished?
  }

  ghost predicate Ordered(cfg: Config, s: State) {
    && (forall i :: 0 <= i < |s.producers| && PastLoop(s.producers[i]) ==> s.next == cfg.items)
    && (forall i :: 0 <= i < |s.producers| && PastBarrier(s.producers[i]) ==> BarrierOpen(s))
    && (forall i :: 0 < i < |s.producers| ==> !s.producers[i].Signalling?)
    && SentinelLast(s.queue)
    && (s.queue != [] && s.queue[|s.queue| - 1] == Sentinel ==> s.producers != [] && s.producers[0] == Finished)
    && (forall i :: 0 <= i < |s.consumers| && Leaving(s.consumers[i]) ==>
                      s.producers != [] && s.producers[0] == Finished && (s.queue == [] || s.queue == [Sentinel]))
  }

  ghost predicate Shape(cfg: Config, s: State) {
    && cfg.capacity > 0 && cfg.producers > 0 && cfg.consumers > 0
    && |s.producers| == cfg.producers && |s.consumers| == cfg.consumers
    && s.next <= cfg.items && |s.queue| <= cfg.capacity
  }

  ghost predicate Inv(cfg: Config, s: State) {
    Shape(cfg, s) && Conserved(s) && Tokens(s) == 1 && Ordered(cfg, s)
  }

  lemma InitInv(cfg: Config)
    requires cfg.capacity > 0 && cfg.producers > 0 && cfg.consumers > 0
    ensures Inv(cfg, Init(cfg))
  {
    var s := Init(cfg);
    forall id: nat ensures Copies(s, id) == 0 {
      SumZero(s.producers, HoldsItem(id));
      SumZero(s.consumers, BusyWith(id));
    }
    SumZero(s.consumers, IsRestoring());
  }

  lemma StepConserves(cfg: Config, s: State, a: Action, id: nat)
    requires Shape(cfg, s) && Conserved(s) && Enabled(cfg, s, a)
    ensures var s' := Step(cfg, s, a);
            Copies(s', id) == if id < s'.next then 1 else 0
  {
    hide Sum;
    var s' := Step(cfg, s, a);
    assert Copies(s, id) == if id < s.next then 1 else 0;
    match a {
      case Next(t) =>
        SumUpdate(s.producers, t, s'.producers[t], HoldsItem(id));
      case Put(t) =>
        SumUpdate(s.producers, t, s'.producers[t], HoldsItem(id));
        SumAppend(s.queue, Item(s.producers[t].id), IsItem(id));
      case Pass(t) =>
        SumUpdate(s.producers, t, s'.producers[t], HoldsItem(id));
      case Signal(t) =>
        SumUpdate(s.producers, t, s'.producers[t], HoldsItem(id));
        SumAppend(s.queue, Sentinel, IsItem(id));
      case Get(t) =>
        SumUpdate(s.consumers, t, s'.consumers[t], BusyWith(id));
        SumHead(s.queue, IsItem(id));
      case Process(t) =>
        SumUpdate(s.consumers, t, s'.consumers[t], BusyWith(id));
        SumAppend(s.processed, s.consumers[t].id, IsId(id));
      case Restore(t) =>
        SumUpdate(s.consumers, t, s'.consumers[t], BusyWith(id));
        SumAppend(s.queue, Sentinel, IsItem(id));
    }
  }

  lemma SumHead<T>(s: seq<T>, f: T -> nat)
    requires s != []
    ensures Sum(s, f) == f(s[0]) + Sum(s[1..], f)
  {
  }

  lemma StepKeepsTokens(cfg: Config, s: State, a: Action)
    requires Inv(cfg, s) && Enabled(cfg, s, a)
    ensures Tokens(Step(cfg, s, a)) == 1
  {
    hide Sum, Conserved;
    var s' := Step(cfg, s, a);
    match a {
      case Put(t) => SumAppend(s.queue, Item(s.producers[t].id), IsSentinel());
      case Signal(t) => SumAppend(s.queue, Sentinel, IsSentinel());
      case Get(t) =>
        SumUpdate(s.consumers, t, s'.consumers[t], IsRestoring());
        SumHead(s.queue, IsSentinel());
      case Process(t) => SumUpdate(s.consumers, t, s'.consumers[t], IsRestoring());
      case Restore(t) =>
        SumUpdate(s.consumers, t, s'.consumers[t], IsRestoring());
        SumAppend(s.queue, Sentinel, IsSentinel());
      case _ =>
    }
  }

  /** While the sentinel is in a consumer's hands it is not in the queue. */
  lemma RestoringMeansNoneQueued(s: State, t: nat)
    requires Tokens(s) == 1 && t < |s.consumers| && s.consumers[t].Restoring?
    ensures s.queue != [Sentinel]
  {
    SumPositive(s.consumers, t, IsRestoring());
  }

  lemma {:induction false} ProducerStepKeepsOrder(cfg: Config, s: State, a: Action)
    requires Inv(cfg, s) && Enabled(cfg, s, a) && (a.Next? || a.Put? || a.Pass? || a.Signal?)
    ensures Ordered(cfg, Step(cfg, s, a))
  {
    hide Conserved, Tokens;
    var s', t := Step(cfg, s, a), a.t;
    forall i | 0 <= i < |s'.producers| && PastBarrier(s'.producers[i]) ensures BarrierOpen(s') {
      if i != t { assert PastBarrier(s.producers[i]); }
      assert BarrierOpen(s);
    }
  }

  lemma ConsumerStepKeepsOrder(cfg: Config, s: State, a: Action)
    requires Inv(cfg, s) && Enabled(cfg, s, a) && (a.Get? || a.Process? || a.Restore?)
    ensures Ordered(cfg, Step(cfg, s, a))
  {
    hide Conserved, Tokens;
    var s', t := Step(cfg, s, a), a.t;
    if a.Restore? {
      assert Leaving(s.consumers[t]);
      RestoringMeansNoneQueued(s, t);
    }
    forall i | 0 <= i < |s'.consumers| && Leaving(s'.consumers[i])
      ensures s.producers[0] == Finished && (s'.queue == [] || s'.queue == [Sentinel])
    {
      if i != t { assert Leaving(s.consumers[i]); }
    }
    assert BarrierOpen(s) ==> BarrierOpen(s');
  }

  /** Every step of every thread keeps the invariant. */
  lemma StepInv(cfg: Config, s: State, a: Action)
    requires Inv(cfg, s) && Enabled(cfg, s, a)
    ensures Inv(cfg, Step(cfg, s, a))
  {
    hide Conserved, Ordered, Tokens;
    var s' := Step(cfg, s, a);
    assert Conserved(s') by { AllConserved(cfg, s, a); }
    StepKeepsTokens(cfg, s, a);
    if a.Get? || a.Process? || a.Restore? {
      ConsumerStepKeepsOrder(cfg, s, a);
    } else {
      ProducerStepKeepsOrder(cfg, s, a);
    }
  }

  lemma AllConserved(cfg: Config, s: State, a: Action)
    requires Inv(cfg, s) && Enabled(cfg, s, a)
    ensures Conserved(Step(cfg, s, a))
  {
    forall id: nat ensures Copies(Step(cfg, s, a), id) == if id < Step(cfg, s, a).next then 1 else 0 {
      StepConserves(cfg, s, a, id);
    }
  }

  // ---------- no deadlock ----------

  predicate Final(s: State) {
    && (forall i :: 0 <= i < |s.producers| ==> s.producers[i] == Finished)
    && (forall i :: 0 <= i < |s.consumers| ==> s.consumers[i] == Stopped)
  }

  /** While a producer has still to put something, every consumer is at work or ready to get. */
  lemma PuttableOrGettable(cfg: Config, s: State, put: Action) returns (a: Action)
    requires Inv(cfg, s) && (put.Put? || put.Signal?)
    requires put.t < |s.producers| && (if put.Put? then s.producers[put.t].Holding? else s.producers[put.t].Signalling?)
    ensures Enabled(cfg, s, a)
  {
    if |s.queue| < cfg.capacity {
      a := put;
    } else {
      assert put.Signal? ==> put.t == 0;
      assert PastBarrier(s.producers[0]) ==> BarrierOpen(s);
      assert s.producers[0] != Finished;
      assert !Leaving(s.consumers[0]);
      a := if s.consumers[0].Busy? then Process(0) else Get(0);
    }
  }

  /** In every reachable state that is not final, some thread can take a step. */
  lemma NeverStuck(cfg: Config, s: State) returns (a: Action)
    requires Inv(cfg, s) && !Final(s)
    ensures Enabled(cfg, s, a)
  {
    if i :| 0 <= i < |s.producers| && s.producers[i] != Finished {
      match s.producers[i] {
        case Fetching => a := Next(i);
        case Holding(_) => a := PuttableOrGettable(cfg, s, Put(i));
        case Signalling => a := PuttableOrGettable(cfg, s, Signal(i));
        case AtBarrier =>
          if j :| 0 <= j < |s.producers| && !PastLoop(s.producers[j]) {
            if s.producers[j].Fetching? {
              a := Next(j);
            } else {
              a := PuttableOrGettable(cfg, s, Put(j));
            }
          } else {
            a := Pass(i);
          }
      }
    } else {
      var i :| 0 <= i < |s.consumers| && s.consumers[i] != Stopped;
      match s.consumers[i] {
        case Busy(_) => a := Process(i);
        case Getting => a := GetOrRestore(cfg, s, i);
        case Restoring =>
          assert Leaving(s.consumers[i]);
          RestoringMeansNoneQueued(s, i);
          a := Restore(i);
      }
    }
  }

  /** With all producers done the sentinel is in the queue or about to be put back. */
  lemma GetOrRestore(cfg: Config, s: State, i: nat) returns (a: Action)
    requires Inv(cfg, s) && i < |s.consumers| && s.consumers[i].Getting? && s.producers[0] == Finished
    ensures Enabled(cfg, s, a)
  {
    if s.queue != [] {
      a := Get(i);
    } else if j :| 0 <= j < |s.consumers| && s.consumers[j].Restoring? {
      a := Restore(j);
    } else {
      SumZero(s.consumers, IsRestoring());
      assert false;
    }
  }

  // ---------- runs ----------

  function ProducerWork(): Producer -> nat {
    (p: Producer) =>
      match p case Fetching => 3 case Holding(_) => 6 case AtBarrier => 2 case Signalling => 1 case Finished => 0
  }

  function ConsumerWork(): Consumer -> nat {
    (c: Consumer) => match c case Getting => 2 case Busy(_) => 3 case Restoring => 1 case Stopped => 0
  }

  function MessageWork(): Message -> nat {
    (m: Message) => if m.Item? then 2 else 0
  }

  /** Bounds the number of steps that are still possible. */
  function Work(cfg: Config, s: State): int {
    4 * (cfg.items - s.next) + Sum(s.producers, ProducerWork())
    + Sum(s.queue, MessageWork()) + Sum(s.consumers, ConsumerWork())
  }

  lemma StepWorks(cfg: Config, s: State, a: Action)
    requires Inv(cfg, s) && Enabled(cfg, s, a)
    ensures Work(cfg, Step(cfg, s, a)) < Work(cfg, s)
  {
    hide Sum, Conserved, Tokens, Ordered;
    var s' := Step(cfg, s, a);
    if a.Next? || a.Put? || a.Pass? || a.Signal? {
      SumUpdate(s.producers, a.t, s'.producers[a.t], ProducerWork());
      if a.Put? { SumAppend(s.queue, Item(s.producers[a.t].id), MessageWork()); }
      if a.Signal? { SumAppend(s.queue, Sentinel, MessageWork()); }
    } else {
      SumUpdate(s.consumers, a.t, s'.consumers[a.t], ConsumerWork());
      if a.Get? { SumHead(s.queue, MessageWork()); }
      if a.Restore? { SumAppend(s.queue, Sentinel, MessageWork()); }
    }
  }

  /** An interleaving: one enabled step after the other. */
  ghost function Run(cfg: Config, s: State, actions: seq<Action>): Option<State>
    decreases |actions|
  {
    if actions == [] then Some(s)
    else if !Enabled(cfg, s, actions[0]) then None
    else Run(cfg, Step(cfg, s, actions[0]), actions[1..])
  }

  lemma {:induction false} RunInv(cfg: Config, s: State, actions: seq<Action>)
    requires Inv(cfg, s) && Run(cfg, s, actions).Some?
    ensures Inv(cfg, Run(cfg, s, actions).value)
    ensures |actions| <= Work(cfg, s) - Work(cfg, Run(cfg, s, actions).value)
    decreases |actions|
  {
    if actions != [] {
      StepInv(cfg, s, actions[0]);
      StepWorks(cfg, s, actions[0]);
      RunInv(cfg, Step(cfg, s, actions[0]), actions[1..]);
    }
  }

  lemma {:induction false} SumConstant<T>(s: seq<T>, f: T -> nat, w: nat)
    requires forall i :: 0 <= i < |s| ==> f(s[i]) == w
    ensures Sum(s, f) == w * |s|
  {
    if s != [] { SumConstant(s[1..], f, w); }
  }

  /** Every interleaving stops after at most this many steps. */
  lemma {:induction false} RunsAreBounded(cfg: Config, actions: seq<Action>)
    requires cfg.capacity > 0 && cfg.producers > 0 && cfg.consumers > 0
    requires Run(cfg, Init(cfg), actions).Some?
    ensures |actions| <= 4 * cfg.items + 3 * cfg.producers + 2 * cfg.consumers
  {
    var s := Init(cfg);
    InitInv(cfg);
    RunInv(cfg, s, actions);
    SumConstant(s.producers, ProducerWork(), 3);
    SumConstant(s.consumers, ConsumerWork(), 2);
    assert Work(cfg, Run(cfg, s, actions).value) >= 0;
  }

  lemma {:induction false} CountIsMultiplicity(s: seq<nat>, id: nat)
    ensures Sum(s, IsId(id)) == multiset(s)[id]
  {
    if s != [] {
      CountIsMultiplicity(s[1..], id);
      assert s == [s[0]] + s[1..];
    }
  }

  /**
    The protocol theorem.  In every interleaving: a sentinel in the queue means that every item was
    generated and none is still with a producer; and a run that cannot go on has ended properly, with
    every item processed exactly once and exactly one sentinel left in the queue.
   */
  lemma EveryRunEndsWell(cfg: Config, actions: seq<Action>)
    requires cfg.capacity > 0 && cfg.producers > 0 && cfg.consumers > 0
    requires Run(cfg, Init(cfg), actions).Some?
    ensures var s := Run(cfg, Init(cfg), actions).value;
            && (Sentinel in s.queue ==>
                  s.next == cfg.items
                  && forall i :: 0 <= i < |s.producers| ==> !s.producers[i].Fetching? && !s.producers[i].Holding?)
            && (forall i :: 0 < i < |s.producers| ==> !s.producers[i].Signalling?)
            && ((forall a :: !Enabled(cfg, s, a)) ==>
                  && Final(s) && s.queue == [Sentinel]
                  && forall id: nat :: multiset(s.processed)[id] == if id < cfg.items then 1 else 0)
  {
    InitInv(cfg);
    RunInv(cfg, Init(cfg), actions);
    var s := Run(cfg, Init(cfg), actions).value;
    if Sentinel in s.queue { SentinelIsLate(cfg, s); }
    if forall a :: !Enabled(cfg, s, a) {
      if !Final(s) {
        var a := NeverStuck(cfg, s);
      }
      FinalIsComplete(cfg, s);
    }
  }

  lemma {:induction false} SentinelIsLate(cfg: Config, s: State)
    requires Inv(cfg, s) && Sentinel in s.queue
    ensures s.next == cfg.items && BarrierOpen(s)
  {
    var i :| 0 <= i < |s.queue| && s.queue[i] == Sentinel;
    assert PastBarrier(s.producers[0]) && PastLoop(s.producers[0]);
  }

  lemma FinalIsComplete(cfg: Config, s: State)
    requires Inv(cfg, s) && Final(s)
    ensures s.queue == [Sentinel]
    ensures forall id: nat :: multiset(s.processed)[id] == if id < cfg.items then 1 else 0
  {
    SumZero(s.consumers, IsRestoring());
    assert Leaving(s.consumers[0]) && PastLoop(s.producers[0]);
    assert s.queue == [Sentinel];
    forall id: nat ensures multiset(s.processed)[id] == if id < cfg.items then 1 else 0 {
      SumZero(s.producers, HoldsItem(id));
      SumZero(s.queue, IsItem(id));
      SumZero(s.consumers, BusyWith(id));
      CountIsMultiplicity(s.processed, id);
      assert Copies(s, id) == if id < s.next then 1 else 0;
    }
  }
}
