/**
 How `map_slices` (src/libstd/par.rs) cuts an input of `len` elements into
 chunks: the sizing heuristic (`max_tasks`, `min_granularity`, `num_tasks`,
 `items_per_task`), the walk its spawn loop performs as written, and the
 corrected partition in which the last chunk absorbs the remainder.
 */
module Chunks {
  import opened Vec

  /** `max_tasks`: the most tasks one operation is meant to spawn. */
  const MaxTasks: nat := 32

  /** `min_granularity`: the fewest elements worth giving to one task. */
  const MinGranularity: nat := 1024

  /** `num_tasks`: one task per whole granule, but no more than `MaxTasks`. */
  function NumTasks(len: nat): (n: nat)
    requires len >= MinGranularity
    ensures 1 <= n <= MaxTasks
    ensures n * MinGranularity <= len
    ensures n == MaxTasks || len < (n + 1) * MinGranularity
  {
    Min(MaxTasks, len / MinGranularity)
  }

  /** `items_per_task`: `len` shared out evenly over `NumTasks(len)` tasks, rounded down. */
  function ItemsPerTask(len: nat): (s: nat)
    requires len >= MinGranularity
    ensures s >= MinGranularity
    ensures s * NumTasks(len) <= len < (s + 1) * NumTasks(len)
    ensures len % NumTasks(len) < s
  {
    DivAtLeast(len, NumTasks(len), MinGranularity);
    len / NumTasks(len)
  }

  /** When `n` parts of `m` fit in `len`, sharing `len` out over `n` gives each at least `m`. */
  lemma DivAtLeast(len: nat, n: nat, m: nat)
    requires n >= 1 && n * m <= len
    ensures len / n >= m
  {
    var s, r := len / n, len % n;
    assert len == n * s + r && r < n;
    if s < m {
      MulAtLeast(n, m - s);
      assert false;
    }
  }

  /** A product with a positive factor is at least the other factor. */
  lemma MulAtLeast(n: nat, k: nat)
    requires k >= 1
    ensures n * k >= n
  {
    assert n * k == n + n * (k - 1);
  }

  /** One chunk of the input: the element positions `[base, end)`. */
  datatype Chunk = Chunk(base: nat, end: nat) {
    /** Position `i` lies in this chunk. */
    predicate Holds(i: nat) {
      base <= i < end
    }
  }

  /**
   The chunks, laid end to end in order, cover exactly `[lo, hi)`: the first
   starts at `lo`, each next one starts where the previous one ends, and the
   last ends at `hi`.
   */
  predicate Covers(cs: seq<Chunk>, lo: nat, hi: nat)
    decreases |cs|
  {
    if cs == [] then lo == hi
    else cs[0].base == lo && lo <= cs[0].end && Covers(cs[1..], cs[0].end, hi)
  }

  /** Every chunk is a well-formed range of positions below `n`. */
  predicate Within(cs: seq<Chunk>, n: nat)
  {
    forall k :: 0 <= k < |cs| ==> cs[k].base <= cs[k].end <= n
  }

  /** Chunks that cover `[lo, hi)` lie inside it. */
  lemma {:induction false} CoversWithin(cs: seq<Chunk>, lo: nat, hi: nat)
    requires Covers(cs, lo, hi)
    ensures lo <= hi && Within(cs, hi)
    ensures forall k :: 0 <= k < |cs| ==> lo <= cs[k].base
    decreases |cs|
  {
    if cs != [] {
      CoversWithin(cs[1..], cs[0].end, hi);
      assert forall k :: 1 <= k < |cs| ==> cs[k] == cs[1..][k - 1];
    }
  }

  /**
   Chunks that cover a range are in ascending order and pairwise disjoint:
   every chunk ends no later than any later chunk begins.
   */
  lemma {:induction false} CoversOrdered(cs: seq<Chunk>, lo: nat, hi: nat)
    requires Covers(cs, lo, hi)
    ensures forall j, k :: 0 <= j < k < |cs| ==> cs[j].end <= cs[k].base
    decreases |cs|
  {
    if cs != [] {
      CoversOrdered(cs[1..], cs[0].end, hi);
      forall j, k | 0 <= j < k < |cs| ensures cs[j].end <= cs[k].base {
        if j > 0 {
          assert cs[j] == cs[1..][j - 1] && cs[k] == cs[1..][k - 1];
        } else {
          assert cs[k] == cs[1..][k - 1];
        }
      }
    }
  }

  /** Every position of a covered range lies in some chunk. */
  lemma {:induction false} CoversEveryPosition(cs: seq<Chunk>, lo: nat, hi: nat, i: nat)
    requires Covers(cs, lo, hi) && lo <= i < hi
    ensures exists k :: 0 <= k < |cs| && cs[k].Holds(i)
    decreases |cs|
  {
    if i >= cs[0].end {
      CoversEveryPosition(cs[1..], cs[0].end, hi, i);
      var k :| 0 <= k < |cs[1..]| && cs[1..][k].Holds(i);
      assert cs[k + 1] == cs[1..][k];
    } else {
      assert cs[0].Holds(i);
    }
  }

  /**
   The chunks `map_slices`'s spawn loop visits from `base` on, as written: while
   `base < len`, the chunk `[base, min(len, base + step))`, and then `base`
   moves on by `step`.
   */
  function Walk(base: nat, len: nat, step: nat): (cs: seq<Chunk>)
    requires step > 0
    ensures cs == [] <==> base >= len
    decreases len - base
  {
    if base >= len then []
    else [Chunk(base, Min(len, base + step))] + Walk(base + step, len, step)
  }

  /**
   The walk from `base` covers `[base, len)`; each of its chunks is `step`
   long, except a shorter, non-empty last one.
   */
  lemma {:induction false} WalkCovers(base: nat, len: nat, step: nat)
    requires step > 0 && base <= len
    ensures Covers(Walk(base, len, step), base, len)
    ensures forall k :: 0 <= k < |Walk(base, len, step)| ==>
      0 < Walk(base, len, step)[k].end - Walk(base, len, step)[k].base <= step
    ensures forall k :: 0 <= k < |Walk(base, len, step)| - 1 ==>
      Walk(base, len, step)[k].end - Walk(base, len, step)[k].base == step
    decreases len - base
  {
    if base < len {
      if base + step < len {
        WalkCovers(base + step, len, step);
        assert Walk(base, len, step) == [Chunk(base, base + step)] + Walk(base + step, len, step);
      } else {
        assert Walk(base, len, step) == [Chunk(base, len)];
      }
    }
  }

  /**
   Chunk `k` of the walk from `base` starts `k` whole steps after `base` and
   ends one step later, or at `len` if that comes first.
   */
  lemma {:induction false} WalkChunkAt(base: nat, len: nat, step: nat, k: nat)
    requires step > 0 && k < |Walk(base, len, step)|
    ensures Walk(base, len, step)[k] == Chunk(base + k * step, Min(len, base + (k + 1) * step))
    decreases k
  {
    assert Walk(base, len, step) == [Chunk(base, Min(len, base + step))] + Walk(base + step, len, step);
    if k > 0 {
      WalkChunkAt(base + step, len, step, k - 1);
      assert (base + step) + (k - 1) * step == base + k * step;
      assert (base + step) + k * step == base + (k + 1) * step;
    }
  }

  /**
   The walk over `q` whole steps and a remainder `r < step` visits `q` chunks,
   plus one more for the remainder when `r > 0`.
   */
  lemma {:induction false} WalkCount(base: nat, q: nat, r: nat, step: nat)
    requires 0 < step && r < step
    ensures |Walk(base, base + q * step + r, step)| == q + (if r > 0 then 1 else 0)
    decreases q
  {
    var len := base + q * step + r;
    if q == 0 {
      if r > 0 {
        assert Walk(base, len, step) == [Chunk(base, len)] + Walk(base + step, len, step);
      }
    } else {
      assert len == (base + step) + (q - 1) * step + r;
      WalkCount(base + step, q - 1, r, step);
    }
  }

  /** The chunks `map_slices` dispatches, as written: one chunk for a small input, else the walk. */
  function WalkPartition(len: nat): (cs: seq<Chunk>)
    ensures Covers(cs, 0, len) && Within(cs, len)
    ensures len < MinGranularity ==> cs == [Chunk(0, len)]
    ensures len >= MinGranularity ==>
      (forall k :: 0 <= k < |cs| ==> 0 < cs[k].end - cs[k].base <= ItemsPerTask(len)) &&
      (forall k :: 0 <= k < |cs| - 1 ==> cs[k].end - cs[k].base == ItemsPerTask(len))
  {
    if len < MinGranularity then [Chunk(0, len)]
    else
      var cs := Walk(0, len, ItemsPerTask(len));
      WalkCovers(0, len, ItemsPerTask(len));
      CoversWithin(cs, 0, len);
      cs
  }

  /**
   The chunks `map_slices` dispatches have strictly
   ascending bases, and each position `i` of the input lies in exactly one of
   them.
   */
  lemma DispatchOrder(len: nat, i: nat)
    requires i < len
    ensures var cs := WalkPartition(len);
      forall j, k :: 0 <= j < k < |cs| ==> cs[j].base < cs[j].end <= cs[k].base
    ensures var cs := WalkPartition(len);
      exists k :: 0 <= k < |cs| && cs[k].Holds(i)
    ensures var cs := WalkPartition(len);
      forall j, k :: 0 <= j < |cs| && 0 <= k < |cs| && cs[j].Holds(i) && cs[k].Holds(i) ==> j == k
  {
    var cs := WalkPartition(len);
    CoversOrdered(cs, 0, len);
    CoversEveryPosition(cs, 0, len, i);
  }

  /**
   The assertion `num_tasks == futures.len()` holds exactly when `num_tasks`
   divides `len`: otherwise the walk emits one extra chunk for the remainder.
   */
  lemma DispatchCount(len: nat)
    requires len >= MinGranularity
    ensures |WalkPartition(len)| == NumTasks(len) + (if len % NumTasks(len) == 0 then 0 else 1)
    ensures |WalkPartition(len)| == NumTasks(len) <==> len % NumTasks(len) == 0
  {
    var n, s := NumTasks(len), ItemsPerTask(len);
    assert len == 0 + n * s + len % n;
    WalkCount(0, n, len % n, s);
  }

  /** For `len = 2049` there are 2 tasks of 1024 items, but the walk emits 3 chunks. */
  lemma AssertionFailsAt2049()
    ensures NumTasks(2049) == 2 && ItemsPerTask(2049) == 1024
    ensures WalkPartition(2049) == [Chunk(0, 1024), Chunk(1024, 2048), Chunk(2048, 2049)]
    ensures |WalkPartition(2049)| != NumTasks(2049)
  {
    assert Walk(2048, 2049, 1024) == [Chunk(2048, 2049)];
    assert Walk(1024, 2049, 1024) == [Chunk(1024, 2048)] + Walk(2048, 2049, 1024);
  }

  /** For `len = 32 * 1024 + 1` the walk emits 33 chunks, more than `MaxTasks`. */
  lemma WalkExceedsMaxTasks()
    ensures NumTasks(32 * 1024 + 1) == MaxTasks
    ensures |WalkPartition(32 * 1024 + 1)| == MaxTasks + 1
  {
    var len := 32 * 1024 + 1;
    assert NumTasks(len) == 32;
    assert ItemsPerTask(len) == 1024;
    assert len % NumTasks(len) == 1;
    DispatchCount(len);
  }

  /**
   The corrected walk: as the written one, except that a chunk which would
   leave less than a whole `step` behind it runs to `len`, so the remainder
   joins the last chunk instead of forming one of its own.
   */
  function Absorb(base: nat, len: nat, step: nat): (cs: seq<Chunk>)
    requires step > 0
    ensures cs == [] <==> base >= len
    decreases len - base
  {
    if base >= len then []
    else if len - base < 2 * step then [Chunk(base, len)]
    else [Chunk(base, base + step)] + Absorb(base + step, len, step)
  }

  /**
   Chunk `k` of the corrected walk from `base` starts `k` whole steps after
   `base`; it ends one step later, except the last chunk, which ends at `len`.
   */
  lemma {:induction false} AbsorbChunkAt(base: nat, len: nat, step: nat, k: nat)
    requires step > 0 && k < |Absorb(base, len, step)|
    ensures Absorb(base, len, step)[k].base == base + k * step
    ensures k < |Absorb(base, len, step)| - 1 ==> Absorb(base, len, step)[k].end == base + (k + 1) * step
    ensures k == |Absorb(base, len, step)| - 1 ==> Absorb(base, len, step)[k].end == len
    decreases k
  {
    if len - base < 2 * step {
      assert Absorb(base, len, step) == [Chunk(base, len)];
    } else {
      assert Absorb(base, len, step) == [Chunk(base, base + step)] + Absorb(base + step, len, step);
      if k > 0 {
        AbsorbChunkAt(base + step, len, step, k - 1);
        assert (base + step) + (k - 1) * step == base + k * step;
        assert (base + step) + k * step == base + (k + 1) * step;
      }
    }
  }

  /** The corrected walk from `base` covers `[base, len)`. */
  lemma {:induction false} AbsorbCovers(base: nat, len: nat, step: nat)
    requires step > 0 && base <= len
    ensures Covers(Absorb(base, len, step), base, len)
    decreases len - base
  {
    if base < len {
      if len - base < 2 * step {
        assert Absorb(base, len, step) == [Chunk(base, len)];
        assert Absorb(base, len, step)[1..] == [];
      } else {
        AbsorbCovers(base + step, len, step);
        assert Absorb(base, len, step)[1..] == Absorb(base + step, len, step);
      }
    }
  }

  /**
   Over `q >= 1` whole steps and a remainder `r < step`, the corrected walk
   covers the range in exactly `q` chunks, each at least `step` and less than
   `2 * step` long.
   */
  lemma {:induction false} AbsorbShape(base: nat, q: nat, r: nat, step: nat)
    requires 0 < step && r < step && q >= 1
    ensures var cs := Absorb(base, base + q * step + r, step);
      |cs| == q && Covers(cs, base, base + q * step + r) &&
      forall k :: 0 <= k < |cs| ==> step <= cs[k].end - cs[k].base < 2 * step
    decreases q
  {
    var len := base + q * step + r;
    if q == 1 {
      assert Absorb(base, len, step) == [Chunk(base, len)];
    } else {
      assert len == (base + step) + (q - 1) * step + r;
      assert len - base >= 2 * step;
      AbsorbShape(base + step, q - 1, r, step);
      assert Absorb(base, len, step) == [Chunk(base, base + step)] + Absorb(base + step, len, step);
    }
  }

  /** With no remainder, the corrected walk and the written one visit the same chunks. */
  lemma {:induction false} AbsorbIsWalk(base: nat, q: nat, step: nat)
    requires 0 < step
    ensures Absorb(base, base + q * step, step) == Walk(base, base + q * step, step)
    decreases q
  {
    var len := base + q * step;
    if q == 1 {
      assert Walk(base, len, step) == [Chunk(base, len)] + Walk(base + step, len, step);
    } else if q > 1 {
      assert len == (base + step) + (q - 1) * step;
      AbsorbIsWalk(base + step, q - 1, step);
    }
  }

  /** The chunks the corrected `map_slices` dispatches: one chunk for a small input, else the corrected walk. */
  function Partition(len: nat): (cs: seq<Chunk>)
    ensures Covers(cs, 0, len) && Within(cs, len)
    ensures 1 <= |cs| <= MaxTasks
    ensures len < MinGranularity ==> cs == [Chunk(0, len)]
    ensures len >= MinGranularity ==> |cs| == NumTasks(len)
    ensures len >= MinGranularity ==>
      forall k :: 0 <= k < |cs| ==>
        MinGranularity <= ItemsPerTask(len) <= cs[k].end - cs[k].base < 2 * ItemsPerTask(len)
  {
    if len < MinGranularity then
      assert Covers([Chunk(0, len)][1..], len, len);
      [Chunk(0, len)]
    else
      PartitionShape(len);
      Absorb(0, len, ItemsPerTask(len))
  }

  /** For a large input, the corrected walk in steps of `items_per_task` has the shape `Partition` promises. */
  lemma PartitionShape(len: nat)
    requires len >= MinGranularity
    ensures Covers(Absorb(0, len, ItemsPerTask(len)), 0, len) && Within(Absorb(0, len, ItemsPerTask(len)), len)
    ensures |Absorb(0, len, ItemsPerTask(len))| == NumTasks(len)
    ensures forall k :: 0 <= k < |Absorb(0, len, ItemsPerTask(len))| ==>
      ItemsPerTask(len) <= Absorb(0, len, ItemsPerTask(len))[k].end - Absorb(0, len, ItemsPerTask(len))[k].base < 2 * ItemsPerTask(len)
  {
    var n, s := NumTasks(len), ItemsPerTask(len);
    assert len == 0 + n * s + len % n;
    AbsorbShape(0, n, len % n, s);
    CoversWithin(Absorb(0, len, s), 0, len);
  }

  /**
   The corrected partition is the written one exactly when the written one
   passes its assertion: a small input, or `num_tasks` dividing `len`.
   */
  lemma PartitionIsWalkIff(len: nat)
    ensures Partition(len) == WalkPartition(len) <==>
      (len < MinGranularity || len % NumTasks(len) == 0)
  {
    if len >= MinGranularity {
      var n, s := NumTasks(len), ItemsPerTask(len);
      DispatchCount(len);
      if len % n == 0 {
        assert len == 0 + n * s;
        AbsorbIsWalk(0, n, s);
      }
    }
  }

  /** For `len = 2048` there are two chunks of 1024 elements. */
  lemma PartitionAt2048()
    ensures Partition(2048) == WalkPartition(2048) == [Chunk(0, 1024), Chunk(1024, 2048)]
  {
    assert Absorb(1024, 2048, 1024) == [Chunk(1024, 2048)];
    assert Walk(2048, 2048, 1024) == [];
  }
}
