/**
  Two-level sharding of an iterable dataset (s3iterable_dataset.py, `__iter__`): first across ranks, then
  across the workers of a rank.
 */
module Sharding {
  import opened Results
  import opened Arithmetic

  /** `obj for idx, obj in enumerate(s) if idx % m == r`. */
  function Every<T>(s: seq<T>, m: nat, r: nat): seq<T>
    requires m > 0
  {
    if s == [] then []
    else
      var n := |s| - 1;
      Every(s[..n], m, r) + if n % m == r then [s[n]] else []
  }

  datatype WorkerInfo = WorkerInfo(id: nat, numWorkers: nat)

  /** The objects one worker of one rank iterates over. */
  function Iterate<T>(objects: seq<T>, enableSharding: bool, worldSize: nat, rank: nat,
                      info: Option<WorkerInfo>): seq<T>
    requires worldSize > rank && (info.Some? ==> info.value.numWorkers > info.value.id)
  {
    var worker := if enableSharding && info.Some? then info.value else WorkerInfo(0, 1);
    if !enableSharding || (worldSize == 1 && worker.numWorkers == 1) then objects
    else Every(Every(objects, worldSize, rank), worker.numWorkers, worker.id)
  }

  /** How many numbers below `n` leave the remainder `r`. */
  function SelectedCount(n: nat, m: nat, r: nat): nat
    requires m > 0
  {
    n / m + if r < n % m then 1 else 0
  }

  lemma SelectedNext(n: nat, m: nat, r: nat)
    requires r < m
    ensures SelectedCount(0, m, r) == 0
    ensures SelectedCount(n + 1, m, r) == SelectedCount(n, m, r) + if n % m == r then 1 else 0
    ensures n % m == r ==> n == r + SelectedCount(n, m, r) * m
  {
    DivModUnique(0, m, 0, 0);
    CountStep(n, m, r);
    assert n == n / m * m + n % m;
  }

  /** The k-th of the selected elements is element `r + k * m`. */
  ghost predicate Places<T>(s: seq<T>, selected: seq<T>, m: nat, r: nat) {
    forall k: nat :: k < |selected| ==> r + k * m < |s| && selected[k] == s[r + k * m]
  }

  lemma PlacesNext<T>(s: seq<T>, selected: seq<T>, m: nat, r: nat)
    requires s != [] && Places(s[..|s| - 1], selected, m, r)
    ensures Places(s, selected, m, r)
    ensures |s| - 1 == r + |selected| * m ==> Places(s, selected + [s[|s| - 1]], m, r)
  {
  }

  lemma {:induction false} EveryPlaces<T>(s: seq<T>, m: nat, r: nat)
    requires r < m
    ensures |Every(s, m, r)| == SelectedCount(|s|, m, r) && Places(s, Every(s, m, r), m, r)
    decreases |s|
  {
    hide SelectedCount, Places;
    if s == [] {
      SelectedNext(0, m, r);
      NoPlaces(s, m, r);
    } else {
      var n := |s| - 1;
      EveryPlaces(s[..n], m, r);
      SelectedNext(n, m, r);
      PlacesNext(s, Every(s[..n], m, r), m, r);
      assert Every(s[..n], m, r) + [] == Every(s[..n], m, r);
    }
  }

  lemma NoPlaces<T>(s: seq<T>, m: nat, r: nat)
    ensures Places(s, [], m, r)
  {
  }

  /** The k-th selected element sits at index `r + k * m`; counts differ by at most one. */
  lemma EveryClosedForm<T>(s: seq<T>, m: nat, r: nat)
    requires r < m
    ensures |Every(s, m, r)| == |s| / m + if r < |s| % m then 1 else 0
    ensures forall k: nat :: k < |Every(s, m, r)| ==> r + k * m < |s| && Every(s, m, r)[k] == s[r + k * m]
  {
    hide Every;
    EveryPlaces(s, m, r);
  }

  lemma EveryAt<T>(s: seq<T>, m: nat, r: nat, k: nat)
    requires r < m && k < |Every(s, m, r)|
    ensures r + k * m < |s| && Every(s, m, r)[k] == s[r + k * m]
  {
    EveryClosedForm(s, m, r);
  }

  /** Every index is selected by its remainder, at the place its quotient says. */
  lemma {:induction false} EverySelects<T>(s: seq<T>, m: nat, r: nat, i: nat)
    requires r < m && i < |s| && i % m == r
    ensures i / m < |Every(s, m, r)| && Every(s, m, r)[i / m] == s[i]
    decreases |s|
  {
    var n := |s| - 1;
    if i < n {
      EverySelects(s[..n], m, r, i);
    } else {
      EveryClosedForm(s[..n], m, r);
    }
  }

  lemma SameCount<T, U>(s: seq<T>, t: seq<U>, m: nat, r: nat)
    requires r < m && |s| == |t|
    ensures |Every(s, m, r)| == |Every(t, m, r)|
  {
    EveryClosedForm(s, m, r);
    EveryClosedForm(t, m, r);
  }

  lemma EveryOne<T>(s: seq<T>)
    ensures Every(s, 1, 0) == s
  {
    EveryClosedForm(s, 1, 0);
    DivModUnique(|s|, 1, |s|, 0);
    forall k: nat | k < |s| ensures Every(s, 1, 0)[k] == s[k] {
      assert 0 + k * 1 == k;
    }
  }

  function Indices(n: nat): (r: seq<nat>)
    ensures |r| == n && forall i :: 0 <= i < n ==> r[i] == i
  {
    seq(n, i => i)
  }

  /** The shard of worker `w` of rank `r`, as positions in the dataset. */
  function Shard(n: nat, worldSize: nat, rank: nat, workers: nat, worker: nat): seq<nat>
    requires rank < worldSize && worker < workers
  {
    Every(Every(Indices(n), worldSize, rank), workers, worker)
  }

  lemma ShardAt(n: nat, worldSize: nat, rank: nat, workers: nat, worker: nat, k: nat)
    requires rank < worldSize && worker < workers && k < |Shard(n, worldSize, rank, workers, worker)|
    ensures var i := Shard(n, worldSize, rank, workers, worker)[k];
            && i == rank + (worker + k * workers) * worldSize < n
            && i % worldSize == rank && i / worldSize == worker + k * workers
            && i / worldSize % workers == worker
  {
    hide Every;
    var ranked := Every(Indices(n), worldSize, rank);
    var x := worker + k * workers;
    EveryAt(ranked, workers, worker, k);
    EveryAt(Indices(n), worldSize, rank, x);
    DivModUnique(rank + x * worldSize, worldSize, x, rank);
    DivModUnique(x, workers, k, worker);
  }

  /** Every position belongs to exactly one shard, even when ranks have different numbers of workers. */
  lemma ShardsPartition(n: nat, worldSize: nat, workersOf: seq<nat>, i: nat, rank: nat, worker: nat)
    requires |workersOf| == worldSize && rank < worldSize && worker < workersOf[rank]
    ensures i in Shard(n, worldSize, rank, workersOf[rank], worker) <==>
            i < n && rank == i % worldSize && worker == i / worldSize % workersOf[rank]
  {
    hide Every;
    var workers := workersOf[rank];
    var shard := Shard(n, worldSize, rank, workers, worker);
    if i in shard {
      var k: nat :| k < |shard| && shard[k] == i;
      ShardAt(n, worldSize, rank, workers, worker, k);
    }
    if i < n && rank == i % worldSize && worker == i / worldSize % workers {
      var ranked := Every(Indices(n), worldSize, rank);
      EverySelects(Indices(n), worldSize, rank, i);
      EverySelects(ranked, workers, worker, i / worldSize);
      assert shard[i / worldSize / workers] == i;
    }
  }

  /** Shards keep the order of the dataset, and so list no position twice. */
  lemma ShardsKeepOrder(n: nat, worldSize: nat, rank: nat, workers: nat, worker: nat, a: nat, b: nat)
    requires rank < worldSize && worker < workers
    requires a < b < |Shard(n, worldSize, rank, workers, worker)|
    ensures Shard(n, worldSize, rank, workers, worker)[a] < Shard(n, worldSize, rank, workers, worker)[b]
  {
    ShardAt(n, worldSize, rank, workers, worker, a);
    ShardAt(n, worldSize, rank, workers, worker, b);
    MulMonotone(a + 1, b, workers);
    MulDistributes(a, 1, workers);
    MulMonotone(worker + a * workers + 1, worker + b * workers, worldSize);
    MulDistributes(worker + a * workers, 1, worldSize);
  }

  /** The worker really iterates over the objects at the positions of its shard. */
  lemma IterateFollowsShard<T>(objects: seq<T>, worldSize: nat, rank: nat, info: Option<WorkerInfo>, k: nat)
    requires worldSize > rank && (info.Some? ==> info.value.numWorkers > info.value.id)
    ensures var worker := if info.Some? then info.value else WorkerInfo(0, 1);
            var shard := Shard(|objects|, worldSize, rank, worker.numWorkers, worker.id);
            && |Iterate(objects, true, worldSize, rank, info)| == |shard|
            && (k < |shard| ==> shard[k] < |objects| && Iterate(objects, true, worldSize, rank, info)[k] == objects[shard[k]])
  {
    hide Every;
    var worker := if info.Some? then info.value else WorkerInfo(0, 1);
    var ranked, positions := Every(objects, worldSize, rank), Every(Indices(|objects|), worldSize, rank);
    SameCount(objects, Indices(|objects|), worldSize, rank);
    SameCount(ranked, positions, worker.numWorkers, worker.id);
    if worldSize == 1 && worker.numWorkers == 1 {
      EveryOne(objects);
      EveryOne(ranked);
    }
    if k < |Every(ranked, worker.numWorkers, worker.id)| {
      EveryAt(ranked, worker.numWorkers, worker.id, k);
      EveryAt(positions, worker.numWorkers, worker.id, k);
      EveryAt(objects, worldSize, rank, worker.id + k * worker.numWorkers);
      EveryAt(Indices(|objects|), worldSize, rank, worker.id + k * worker.numWorkers);
    }
  }

  /** Ranks get equally many objects up to one, and so do the workers of one rank. */
  lemma ShardsAreBalanced(n: nat, worldSize: nat, r: nat, r': nat, workers: nat, w: nat, w': nat)
    requires r < worldSize && r' < worldSize && w < workers && w' < workers
    ensures |Every(Indices(n), worldSize, r)| - |Every(Indices(n), worldSize, r')| <= 1
    ensures |Shard(n, worldSize, r, workers, w)| - |Shard(n, worldSize, r, workers, w')| <= 1
  {
    EveryClosedForm(Indices(n), worldSize, r);
    EveryClosedForm(Indices(n), worldSize, r');
    EveryClosedForm(Every(Indices(n), worldSize, r), workers, w);
    EveryClosedForm(Every(Indices(n), worldSize, r), workers, w');
  }

  /** With sharding off, the default, every rank and every worker gets every object. */
  lemma UnshardedIsEverything<T>(objects: seq<T>, worldSize: nat, rank: nat, info: Option<WorkerInfo>)
    requires worldSize > rank && (info.Some? ==> info.value.numWorkers > info.value.id)
    ensures Iterate(objects, false, worldSize, rank, info) == objects
  {
  }

  /** Place of the `k`-th object of worker `id` of `workers` on a rank. */
  function PlaceOf(worldSize: nat, rank: nat, workers: nat, id: nat, k: nat): nat {
    rank + (id + k * workers) * worldSize
  }

  /** With sharding on, the `k`-th object a worker gets; without workers a rank is its own only worker. */
  lemma IterateElements<T>(objects: seq<T>, worldSize: nat, rank: nat, info: Option<WorkerInfo>, k: nat)
    requires worldSize > rank && (info.Some? ==> info.value.numWorkers > info.value.id)
    requires k < |Iterate(objects, true, worldSize, rank, info)|
    ensures var place := if info.None? then PlaceOf(worldSize, rank, 1, 0, k)
                         else PlaceOf(worldSize, rank, info.value.numWorkers, info.value.id, k);
            place < |objects| && Iterate(objects, true, worldSize, rank, info)[k] == objects[place]
  {
    hide Iterate, Shard;
    IterateFollowsShard(objects, worldSize, rank, info, k);
    var worker := if info.Some? then info.value else WorkerInfo(0, 1);
    ShardAt(|objects|, worldSize, rank, worker.numWorkers, worker.id, k);
  }
}
