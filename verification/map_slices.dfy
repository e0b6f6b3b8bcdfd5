/**
 `map_slices` (src/libstd/par.rs): run one worker per chunk of the input and
 collect the workers' results in chunk order. Each spawned task is modelled
 as a pending `Future` holding its chunk's base and slice; joining the futures
 evaluates them one after another in the order they were pushed, which is
 the only order the source's results depend on.
 */
module MapSlices {
  import opened Vec
  import opened Chunks

  /** The outcome of a call: its value, or the task failure a false `assert!` raises. */
  datatype Outcome<T> = Done(value: T) | Abort

  /** A spawned task: the worker is to be run on `slice`, which starts at position `base` of the input. */
  datatype Future<A> = Future(base: nat, slice: seq<A>)

  /** The task spawned for each chunk, in chunk order: the chunk's base and its view of the input. */
  function Futures<A>(xs: seq<A>, cs: seq<Chunk>): (r: seq<Future<A>>)
    requires Within(cs, |xs|)
    ensures |r| == |cs|
    ensures forall k :: 0 <= k < |cs| ==>
      r[k].base == cs[k].base && r[k].slice == xs[cs[k].base..cs[k].end] &&
      |r[k].slice| == cs[k].end - cs[k].base
    decreases |cs|
  {
    if cs == [] then []
    else [Future(cs[0].base, xs[cs[0].base..cs[0].end])] + Futures(xs, cs[1..])
  }

  /** The worker's result for each chunk, in chunk order. */
  function ChunkResults<A, B>(xs: seq<A>, f: (nat, seq<A>) -> B, cs: seq<Chunk>): (r: seq<B>)
    requires Within(cs, |xs|)
    ensures |r| == |cs|
    ensures forall k :: 0 <= k < |cs| ==> r[k] == f(cs[k].base, xs[cs[k].base..cs[k].end])
    decreases |cs|
  {
    if cs == [] then []
    else [f(cs[0].base, xs[cs[0].base..cs[0].end])] + ChunkResults(xs, f, cs[1..])
  }

  /** Spawning a task for one more chunk appends its future. */
  lemma FuturesSnoc<A>(xs: seq<A>, cs: seq<Chunk>, c: Chunk)
    requires Within(cs, |xs|) && c.base <= c.end <= |xs|
    ensures Within(cs + [c], |xs|)
    ensures Futures(xs, cs + [c]) == Futures(xs, cs) + [Future(c.base, xs[c.base..c.end])]
  {
    var r := Futures(xs, cs + [c]);
    var t := Futures(xs, cs) + [Future(c.base, xs[c.base..c.end])];
    assert (cs + [c])[|cs|] == c;
    forall k | 0 <= k < |cs| ensures r[k] == t[k] {
      assert (cs + [c])[k] == cs[k];
    }
  }

  /**
   One turn of the spawn loop as written: the chunk at `base` is the next
   chunk of the walk, and its future is the next one pushed.
   */
  lemma SpawnStep<A>(xs: seq<A>, done: seq<Chunk>, base: nat, step: nat)
    requires step > 0 && base < |xs| && Within(done, |xs|)
    ensures var c := Chunk(base, Min(|xs|, base + step));
      done + Walk(base, |xs|, step) == (done + [c]) + Walk(base + step, |xs|, step) &&
      Within(done + [c], |xs|) &&
      Futures(xs, done + [c]) == Futures(xs, done) + [Future(c.base, xs[c.base..c.end])]
  {
    var c := Chunk(base, Min(|xs|, base + step));
    assert Walk(base, |xs|, step) == [c] + Walk(base + step, |xs|, step);
    assert done + ([c] + Walk(base + step, |xs|, step)) == (done + [c]) + Walk(base + step, |xs|, step);
    FuturesSnoc(xs, done, c);
  }

  /**
   One turn of the corrected spawn loop: the chunk at `base` is the next
   chunk of the corrected walk, and its future is the next one pushed.
   */
  lemma SpawnBalancedStep<A>(xs: seq<A>, done: seq<Chunk>, base: nat, step: nat)
    requires step > 0 && base < |xs| && Within(done, |xs|)
    ensures var c := Chunk(base, if |xs| - base < 2 * step then |xs| else base + step);
      done + Absorb(base, |xs|, step) == (done + [c]) + Absorb(c.end, |xs|, step) &&
      Within(done + [c], |xs|) &&
      Futures(xs, done + [c]) == Futures(xs, done) + [Future(c.base, xs[c.base..c.end])]
  {
    var c := Chunk(base, if |xs| - base < 2 * step then |xs| else base + step);
    assert Absorb(base, |xs|, step) == [c] + Absorb(c.end, |xs|, step);
    assert done + ([c] + Absorb(c.end, |xs|, step)) == (done + [c]) + Absorb(c.end, |xs|, step);
    FuturesSnoc(xs, done, c);
  }

  /**
   The spawn loop of `map_slices`, as written: from base 0, while `base < len`,
   spawn a task on `[base, min(len, base + step))` and move `base` on by
   `step` (`items_per_task` in the source). The tasks are those of the walk,
   in its order.
   */
  method Spawn<A>(xs: seq<A>, step: nat) returns (futures: seq<Future<A>>)
    requires step > 0
    ensures Within(Walk(0, |xs|, step), |xs|)
    ensures futures == Futures(xs, Walk(0, |xs|, step))
  {
    var len := |xs|;
    futures := [];
    var base := 0;
    ghost var spawned: seq<Chunk> := [];
    while base < len
      invariant spawned + Walk(base, len, step) == Walk(0, len, step)
      invariant Within(spawned, len)
      invariant futures == Futures(xs, spawned)
      decreases len - base
    {
      var end := Min(len, base + step);
      SpawnStep(xs, spawned, base, step);
      futures := futures + [Future(base, xs[base..end])];
      spawned := spawned + [Chunk(base, end)];
      base := base + step;
    }
    assert spawned + [] == spawned;
  }

  /**
   The join of `map_slices`: wait on each future in the order it was pushed,
   so result `k` is the output of the `k`-th task whatever order the tasks
   finished in.
   */
  method Join<A, B>(futures: seq<Future<A>>, f: (nat, seq<A>) -> B) returns (r: seq<B>)
    ensures |r| == |futures|
    ensures forall k :: 0 <= k < |futures| ==> r[k] == f(futures[k].base, futures[k].slice)
  {
    r := [];
    for i := 0 to |futures|
      invariant |r| == i
      invariant forall k :: 0 <= k < i ==> r[k] == f(futures[k].base, futures[k].slice)
    {
      r := r + [f(futures[i].base, futures[i].slice)];
    }
  }

  /**
   `map_slices` as written. A small input goes to one worker whole, at base 0.
   Otherwise the input is walked in steps of `items_per_task`, one task per
   chunk; the call fails on `num_tasks == futures.len()` exactly when
   `num_tasks` does not divide the length, and else returns one result per
   chunk, in dispatch order.
   */
  method MapSlices<A, B>(xs: seq<A>, f: (nat, seq<A>) -> B) returns (r: Outcome<seq<B>>)
    ensures |xs| < MinGranularity ==> r == Done([f(0, xs)])
    ensures r.Abort? <==> |xs| >= MinGranularity && |xs| % NumTasks(|xs|) != 0
    ensures r.Done? ==> r.value == ChunkResults(xs, f, WalkPartition(|xs|))
  {
    var len := |xs|;
    if len < MinGranularity {
      assert xs[0..len] == xs;
      return Done([f(0, xs)]);
    }
    var numTasks := Min(MaxTasks, len / MinGranularity);
    var itemsPerTask := len / numTasks;
    assert numTasks == NumTasks(len) && itemsPerTask == ItemsPerTask(len);

    var futures := Spawn(xs, itemsPerTask);
    DispatchCount(len);
    if numTasks != |futures| {
      return Abort;
    }
    var results := Join(futures, f);
    assert |results| == |futures|;
    r := Done(results);
  }

  /**
   The corrected `map_slices`: what every caller receives, one result per
   chunk of `Partition`, in dispatch order; never more than `MaxTasks`.
   */
  function Slices<A, B>(xs: seq<A>, f: (nat, seq<A>) -> B): (r: seq<B>)
    ensures 1 <= |r| <= MaxTasks
    ensures |xs| < MinGranularity ==> r == [f(0, xs)]
    ensures |xs| >= MinGranularity ==> |r| == NumTasks(|xs|)
    ensures forall k :: 0 <= k < |r| ==>
      var c := Partition(|xs|)[k]; r[k] == f(c.base, xs[c.base..c.end])
  {
    assert xs[0..|xs|] == xs;
    ChunkResults(xs, f, Partition(|xs|))
  }

  /**
   The corrected spawn loop: as written, except that the chunk which would
   leave less than a whole `step` behind it runs to the end of the input, and
   `base` moves on to where the chunk ends.
   */
  method SpawnBalanced<A>(xs: seq<A>, step: nat) returns (futures: seq<Future<A>>)
    requires step > 0
    ensures Within(Absorb(0, |xs|, step), |xs|)
    ensures futures == Futures(xs, Absorb(0, |xs|, step))
  {
    var len := |xs|;
    futures := [];
    var base := 0;
    ghost var spawned: seq<Chunk> := [];
    while base < len
      invariant base <= len
      invariant spawned + Absorb(base, len, step) == Absorb(0, len, step)
      invariant Within(spawned, len)
      invariant futures == Futures(xs, spawned)
      decreases len - base
    {
      var end := if len - base < 2 * step then len else base + step;
      SpawnBalancedStep(xs, spawned, base, step);
      futures := futures + [Future(base, xs[base..end])];
      spawned := spawned + [Chunk(base, end)];
      base := end;
    }
    assert spawned + [] == spawned;
  }

  /**
   The corrected `map_slices`: exactly `num_tasks` tasks are spawned for a
   large input, so the assertion on their number always holds.
   */
  method MapSlicesBalanced<A, B>(xs: seq<A>, f: (nat, seq<A>) -> B) returns (r: seq<B>)
    ensures r == Slices(xs, f)
  {
    var len := |xs|;
    if len < MinGranularity {
      return [f(0, xs)];
    }
    var numTasks := Min(MaxTasks, len / MinGranularity);
    var itemsPerTask := len / numTasks;
    assert numTasks == NumTasks(len) && itemsPerTask == ItemsPerTask(len);

    var futures := SpawnBalanced(xs, itemsPerTask);
    assert Absorb(0, len, itemsPerTask) == Partition(len);
    assert numTasks == |futures|;
    r := Join(futures, f);
  }
}
