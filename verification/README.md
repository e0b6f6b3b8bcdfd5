# Parallel slice engine of `std::par`, modelled in Dafny

This project models the data-parallel vector engine of Rust's old `std::par`
module (`src/libstd/par.rs`):

- `map_slices` cuts an input vector into contiguous chunks. Inputs shorter
  than `min_granularity` (1024) form one chunk. Longer inputs get
  `num_tasks = min(max_tasks, len / min_granularity)` tasks of
  `items_per_task = len / num_tasks` elements, with `max_tasks` = 32.
- It runs a fresh worker on each `(base, slice)` chunk in its own task, joins
  the tasks in the order they were spawned, and returns one result per chunk.
- `map`, `mapi`, `alli` and `any` are built on it. Each runs a sequential
  vector operation per chunk and combines the results by concatenation, AND
  or OR.

Modules, one per component:

- `Vec` (`vec.dfy`): the sequential `core::vec` operations the engine composes
  (`min`, `concat`, `map`, `mapi`, `all`, `alli`, `any`). `Min` is the plain
  minimum. The vector operations are recursive definitions. `Concat` is
  characterised by its definition: its contract only says that the first
  piece is a prefix of the result. The contracts of the others state their
  meaning element by element. `core::vec` is not part of this model.
- `Chunks` (`chunks.dfy`): the sizing constants and arithmetic, and the walk
  that the spawn loop performs as written (`Walk`, `WalkPartition`). It also
  holds the corrected partition, in which the last chunk absorbs the remainder
  (`Absorb`, `Partition`). `Covers` says a list of chunks tiles a range end to
  end.
- `MapSlices` (`map_slices.dfy`): `map_slices` as written (`MapSlices`) and
  corrected (`MapSlicesBalanced`). Each is split into its spawn loop (`Spawn`,
  `SpawnBalanced`) and its join (`Join`). A spawned task is a pending
  `Future(base, slice)`. The join evaluates the futures one by one, in the
  order they were pushed. `Slices` is the function that specifies the
  corrected engine, and the derived operations use it.
- `Par` (`par.dfy`): the workers and combinators of `map`, `mapi`, `alli` and
  `any`. The `…OverChunks` lemmas prove that each operation gives the
  sequential answer for any tiling of the input, wherever its chunk boundaries
  fall. Each operation appears twice. `MapAsWritten`, `MapiAsWritten`,
  `AlliAsWritten` and `AnyAsWritten` run on `map_slices` as written, so they
  fail exactly when it does. `Map`, `Mapi`, `Alli` and `Any` run on the
  corrected engine, which never fails.

Two behaviours of the code are worth noting:

- On an empty input, the code still runs one worker on the empty slice at
  base 0, so `map_slices` returns one result. `alli` is therefore true and
  `any` false.
- The code does not guarantee that the number of chunks equals `num_tasks`.
  See "Findings".

## Model

| member | source | states |
|---|---|---|
| `Chunks.NumTasks` | src/libstd/par.rs:49 | for `len >= min_granularity`, `num_tasks` lies between 1 and `max_tasks`; `num_tasks` granules fit in `len`, and it is the largest such count unless capped at `max_tasks` |
| `Chunks.ItemsPerTask` | src/libstd/par.rs:51 | `items_per_task` is at least `min_granularity`; `num_tasks` copies of it fit in `len` and one more each would not; the remainder `len % num_tasks` is smaller than `items_per_task` |
| `Chunks.CoversWithin` | src/libstd/par.rs:56-57 | chunks laid end to end over `[lo, hi)` are well-formed ranges inside it (each `end` is clamped to `len`) |
| `Chunks.CoversOrdered` | src/libstd/par.rs:54-78 | chunks laid end to end are in ascending order and pairwise disjoint: each ends no later than any later one begins |
| `Chunks.CoversEveryPosition` | src/libstd/par.rs:54-78 | every position of a tiled range lies in some chunk (the union of the chunks is the whole range) |
| `Chunks.Walk` | src/libstd/par.rs:56-78 | the chunks the `while base < len` loop visits from `base`, as written: none exactly when `base >= len` (its tiling and chunk lengths are `WalkCovers`, its chunk count `WalkCount`) |
| `Chunks.WalkChunkAt` | src/libstd/par.rs:56-78 | chunk `k` of the walk is `[base + k * step, min(len, base + (k + 1) * step))`: the loop's `end = min(len, base + items_per_task)` after `k` steps of `base += items_per_task` |
| `Chunks.WalkCovers` | src/libstd/par.rs:54-78 | the spawn loop's walk from `base` tiles `[base, len)`; every chunk is non-empty and at most `items_per_task` long, and all but the last are exactly `items_per_task` long |
| `Chunks.WalkCount` | src/libstd/par.rs:54-78 | over `q` whole steps plus a remainder `r < step`, the walk emits `q` chunks, plus one when `r > 0` |
| `Chunks.WalkPartition` | src/libstd/par.rs:43-78 | the chunks dispatched as written tile `[0, len)`; a small input is the single chunk `[0, len)`; for a large input, all chunks are non-empty, at most `items_per_task` long, and all but the last are exactly that long |
| `Chunks.DispatchOrder` | src/libstd/par.rs:43-78 | for every input, the dispatched chunks have strictly ascending bases, and each position lies in exactly one chunk |
| `Chunks.DispatchCount` | src/libstd/par.rs:82 | the number of dispatched chunks is `num_tasks`, plus one when `num_tasks` does not divide `len`; so `num_tasks == futures.len()` holds exactly when `len % num_tasks == 0` |
| `Chunks.AssertionFailsAt2049` | src/libstd/par.rs:82 | for `len = 2049` there are 2 tasks of 1024 items, but the walk emits `[0,1024)`, `[1024,2048)` and `[2048,2049)`: 3 chunks, so the assertion fails |
| `Chunks.WalkExceedsMaxTasks` | src/libstd/par.rs:21-25 | for `len = 32 * 1024 + 1`, `num_tasks` is `max_tasks` (32), yet the walk spawns 33 tasks |
| `Chunks.Absorb` | src/libstd/par.rs:56-78 | the corrected walk, in which the chunk that would leave less than a whole step behind it runs to `len`: none exactly when `base >= len` (its tiling is `AbsorbCovers`, its count and chunk lengths `AbsorbShape`) |
| `Chunks.AbsorbChunkAt` | src/libstd/par.rs:56-78 | chunk `k` of the corrected walk starts `k` whole steps after `base`; every chunk but the last ends one step later, and the last ends at `len` |
| `Chunks.AbsorbCovers` | src/libstd/par.rs:56-78 | the corrected walk from `base` tiles `[base, len)` |
| `Chunks.AbsorbShape` | src/libstd/par.rs:54-78 | the corrected walk over `q >= 1` steps plus a remainder `r < step` emits exactly `q` chunks, tiles the range, and each chunk is at least `step` and less than `2 * step` long |
| `Chunks.AbsorbIsWalk` | src/libstd/par.rs:54-78 | with no remainder, the corrected walk and the walk as written emit the same chunks |
| `Chunks.Partition` | src/libstd/par.rs:43-82 | the corrected chunks tile `[0, len)`; there are between 1 and `max_tasks` of them; a small input is the single chunk `[0, len)`; a large input gets exactly `num_tasks` chunks, each between `items_per_task` (at least `min_granularity`) and `2 * items_per_task` long |
| `Chunks.PartitionIsWalkIff` | src/libstd/par.rs:82 | the corrected chunks equal the chunks as written exactly when the assertion holds: a small input, or `num_tasks` dividing `len` |
| `Chunks.PartitionAt2048` | src/libstd/par.rs:43-78 | for `len = 2048`, both partitions are the two chunks `[0,1024)` and `[1024,2048)` |
| `MapSlices.Futures` | src/libstd/par.rs:58-72 | the task for chunk `k` gets the chunk's base and the slice `xs[base..end]`, whose length is `end - base` |
| `MapSlices.ChunkResults` | src/libstd/par.rs:84-88 | one result per chunk; entry `k` is the worker applied to chunk `k`'s base and slice |
| `MapSlices.Spawn` | src/libstd/par.rs:53-78 | the spawn loop as written, stepping by `step` (`items_per_task`) from base 0, pushes exactly one future per chunk of the walk, in ascending order, each holding its chunk's base and slice |
| `MapSlices.Join` | src/libstd/par.rs:84-87 | the join returns one result per future (`r.len() == futures.len()`); result `k` is the output of the `k`-th pushed task |
| `MapSlices.MapSlices` | src/libstd/par.rs:37-90 | `map_slices` as written: a small input yields exactly `[f(0, xs)]`; a large input fails (`Abort`) exactly when `num_tasks` does not divide `len`; otherwise entry `k` of the result is the worker's output for the `k`-th dispatched chunk |
| `MapSlices.Slices` | src/libstd/par.rs:37-90 | the corrected `map_slices`: between 1 and `max_tasks` results; `[f(0, xs)]` for a small input; `num_tasks` results for a large one; entry `k` is the worker's output for chunk `k` |
| `MapSlices.SpawnBalanced` | src/libstd/par.rs:53-78 | the corrected spawn loop, whose last chunk runs to the end of the input, pushes exactly one future per chunk of the corrected walk, in ascending order, each holding its chunk's base and slice |
| `MapSlices.MapSlicesBalanced` | src/libstd/par.rs:37-90 | the corrected method returns exactly what `Slices` specifies; it never fails its count assertion |
| `Par.MapWorker` | src/libstd/par.rs:97-98 | the `map` worker returns one result per element of its slice, result `i` being `f(slice[i])`; the base is ignored |
| `Par.MapiWorker` | src/libstd/par.rs:109-113 | the `mapi` worker returns one result per element of its slice, result `i` being `f(base + i, slice[i])` |
| `Par.AlliWorker` | src/libstd/par.rs:129-133 | the `alli` worker is true iff `f(base + i, slice[i])` holds for every `i` of its slice |
| `Par.AnyWorker` | src/libstd/par.rs:144-145 | the `any` worker is true iff `f(slice[i])` holds for some `i` of its slice |
| `Par.MapOverChunks` | src/libstd/par.rs:93-101 | for any tiling of `[lo, hi)`, concatenating the per-chunk `vec::map` results gives the sequential map of `xs[lo..hi]` |
| `Par.MapiChunk` | src/libstd/par.rs:109-113 | the `mapi` worker on chunk `[lo, e)` calls `f(i + base, x)` with each element's absolute index `i` |
| `Par.MapiOverChunks` | src/libstd/par.rs:104-120 | for any tiling of `[lo, hi)`, the concatenated `mapi` results have `hi - lo` entries, and the entry for position `i` is `f(i, xs[i])` |
| `Par.AlliChunk` | src/libstd/par.rs:129-133 | the `alli` worker on chunk `[lo, e)` is true iff `f(i, xs[i])` holds at every absolute position of the chunk |
| `Par.AlliOverChunks` | src/libstd/par.rs:123-136 | for any tiling of `[lo, hi)`, the AND of the per-chunk results is true iff `f(i, xs[i])` holds for every `i` in the range |
| `Par.AnyOverChunks` | src/libstd/par.rs:139-148 | for any tiling of `[lo, hi)`, the OR of the per-chunk results is true iff `f(xs[i])` holds for some `i` in the range |
| `Par.MapAsWritten` | src/libstd/par.rs:93-101 | `map` as written fails (`Abort`) exactly when `map_slices` does, for a large input whose length `num_tasks` does not divide; otherwise it returns the sequential map of `xs` |
| `Par.MapiAsWritten` | src/libstd/par.rs:104-120 | `mapi` as written fails exactly when `map_slices` does; otherwise it returns `xs.len()` results (the assertion at line 118 holds) with `r[i] == f(i, xs[i])` |
| `Par.AlliAsWritten` | src/libstd/par.rs:123-136 | `alli` as written fails exactly when `map_slices` does; otherwise it is true iff `f(i, xs[i])` holds for every `i` |
| `Par.AnyAsWritten` | src/libstd/par.rs:139-148 | `any` as written fails exactly when `map_slices` does; otherwise it is true iff `f(xs[i])` holds for some `i` |
| `Par.Map` | src/libstd/par.rs:93-101 | `map` on the corrected engine never fails; it returns as many results as `xs` has elements, and `r[i] == f(xs[i])` |
| `Par.Mapi` | src/libstd/par.rs:104-120 | `mapi` on the corrected engine never fails; it returns `xs.len()` results (the assertion at line 118), and `r[i] == f(i, xs[i])` |
| `Par.Alli` | src/libstd/par.rs:123-136 | `alli` on the corrected engine never fails; it is true iff `f(i, xs[i])` holds for every `i`; it is true on an empty vector |
| `Par.Any` | src/libstd/par.rs:139-148 | `any` on the corrected engine never fails; it is true iff `f(xs[i])` holds for some `i`; it is false on an empty vector |
| `Par.EvenScenario` | src/libstd/par.rs:123-148 | on the integers 0 to 2047 (a length `num_tasks` divides, so the written and corrected engines agree), `alli` of "is even" is false and `any` of "is even" is true |

## Left out

- Concurrency: `future_spawn` and `get` become a pending `Future` per chunk, evaluated at the join in the order the futures were pushed. Real parallelism, scheduling and completion order are not modelled. The results depend only on push order.
- The unsafe slice reconstruction (`vec::as_imm_buf`, `ptr::offset`, `cast::reinterpret_cast`) is modelled as the subsequence `xs[base..end]`. Aliasing and lifetimes are not modelled.
- The worker factory is a pure function of `(base, slice)`. The freshness of each task's closure, and any mutable state private to it, is not modelled.
- Worker failure is not modelled. Workers are total functions; the only failure modelled is the count assertion at line 82.
- The `info!` logging calls are I/O only and are left out.
- `uint` arithmetic is modelled with unbounded naturals. `base + items_per_task` could overflow only for lengths above 2^63, which the model does not consider.
- `core::vec` is not part of this model. `Vec` gives its operations their standard sequential meaning.
- The companion benchmark `src/test/bench/pingpong.rs` measures channel throughput with timers and floating point. It is not part of this model.

## Findings

| source | as written | input that shows it | evidently intended | confidence | as-written member | corrected member |
|---|---|---|---|---|---|---|
| src/libstd/par.rs:54-82 | the spawn loop steps by `items_per_task = len / num_tasks` until `base >= len`, so it emits `ceil(len / items_per_task)` chunks; `assert!(num_tasks == futures.len())` then fails whenever `num_tasks` does not divide `len` | `len = 2049`: `num_tasks = 2`, `items_per_task = 1024`, chunks `[0,1024)`, `[1024,2048)`, `[2048,2049)`: 3 futures | exactly `num_tasks` chunks, with the last one absorbing the remainder, so the assertion holds for every length | high (proved, not executed) | `Chunks.AssertionFailsAt2049`, and for the operations built on it `Par.MapAsWritten`, `Par.MapiAsWritten`, `Par.AlliAsWritten`, `Par.AnyAsWritten` | `MapSlices.MapSlicesBalanced` |
| src/libstd/par.rs:21-25 | `max_tasks` is documented as the most tasks one operation spawns, but the remainder chunk is spawned as one more task | `len = 32769`: `num_tasks = 32` but 33 tasks are spawned | never more than `max_tasks` tasks | high (proved, not executed) | `Chunks.WalkExceedsMaxTasks` | `Chunks.Partition` |
| src/libstd/par.rs:27-28 | `min_granularity` is documented as the fewest elements a task processes, but for a large input the remainder chunk of the walk can be far shorter | `len = 2049`: the third task gets the chunk `[2048, 2049)`, which holds 1 element | every task of a large input processes at least `min_granularity` elements | high (proved, not executed) | `Chunks.AssertionFailsAt2049` | `Chunks.Partition` |
