/**
 The parallel vector operations of src/libstd/par.rs: `map`, `mapi`, `alli`
 and `any`. Each gives `map_slices` a worker that runs the sequential
 operation over its chunk (with absolute indices `i + base` where the
 element function takes an index), then combines the per-chunk results by
 concatenation, conjunction or disjunction.

 The `...OverChunks` lemmas show that this combination gives the sequential
 answer for ANY list of chunks laid end to end over the input, wherever the
 boundaries fall. `MapAsWritten`, `MapiAsWritten`, `AlliAsWritten` and
 `AnyAsWritten` run on `map_slices` as written, and so fail with it whenever
 `num_tasks` does not divide the length; `Map`, `Mapi`, `Alli` and `Any` are
 the same operations on the corrected `map_slices` (`Slices`), which never
 fails.
 */
module Par {
  import Vec
  import opened Chunks
  import opened MapSlices

  /** The worker `map` gives each chunk: `g` over the slice. */
  function MapWorker<A(!new), B>(g: A -> B): (w: (nat, seq<A>) -> seq<B>)
    ensures forall base: nat, slice: seq<A> :: |w(base, slice)| == |slice|
    ensures forall base: nat, slice: seq<A>, i :: 0 <= i < |slice| ==> w(base, slice)[i] == g(slice[i])
  {
    (base: nat, slice: seq<A>) => Vec.Map(slice, g)
  }

  /** The worker `mapi` gives each chunk: `g` over the slice, with each element's absolute index. */
  function MapiWorker<A(!new), B>(g: (nat, A) -> B): (w: (nat, seq<A>) -> seq<B>)
    ensures forall base: nat, slice: seq<A> :: |w(base, slice)| == |slice|
    ensures forall base: nat, slice: seq<A>, i :: 0 <= i < |slice| ==> w(base, slice)[i] == g(base + i, slice[i])
  {
    (base: nat, slice: seq<A>) => Vec.Mapi(slice, (i: nat, x: A) => g(i + base, x))
  }

  /** The worker `alli` gives each chunk: does `p` hold of every element, with its absolute index? */
  function AlliWorker<A(!new)>(p: (nat, A) -> bool): (w: (nat, seq<A>) -> bool)
    ensures forall base: nat, slice: seq<A> :: w(base, slice) <==> forall i :: 0 <= i < |slice| ==> p(base + i, slice[i])
  {
    (base: nat, slice: seq<A>) => Vec.Alli(slice, (i: nat, x: A) => p(i + base, x))
  }

  /** The worker `any` gives each chunk: does `p` hold of some element? */
  function AnyWorker<A(!new)>(p: A -> bool): (w: (nat, seq<A>) -> bool)
    ensures forall base: nat, slice: seq<A> :: w(base, slice) <==> exists i :: 0 <= i < |slice| && p(slice[i])
  {
    (base: nat, slice: seq<A>) => Vec.Any(slice, p)
  }

  /** Concatenating the mapped chunks of any covering gives the sequential map of the covered range. */
  lemma {:induction false} MapOverChunks<A(!new), B>(xs: seq<A>, g: A -> B, cs: seq<Chunk>, lo: nat, hi: nat)
    requires Covers(cs, lo, hi) && hi <= |xs|
    ensures lo <= hi && Within(cs, |xs|)
    ensures Vec.Concat(ChunkResults(xs, MapWorker(g), cs)) == Vec.Map(xs[lo..hi], g)
    decreases |cs|
  {
    CoversWithin(cs, lo, hi);
    assert Within(cs, |xs|);
    if cs != [] {
      var e := cs[0].end;
      MapOverChunks(xs, g, cs[1..], e, hi);
      var rest := ChunkResults(xs, MapWorker(g), cs[1..]);
      assert ChunkResults(xs, MapWorker(g), cs) == [Vec.Map(xs[lo..e], g)] + rest;
      MapSplit(xs, g, lo, e, hi);
    }
  }

  /** Mapping two adjacent ranges and laying the results end to end maps their union. */
  lemma MapSplit<A, B>(xs: seq<A>, g: A -> B, lo: nat, e: nat, hi: nat)
    requires lo <= e <= hi <= |xs|
    ensures Vec.Map(xs[lo..e], g) + Vec.Map(xs[e..hi], g) == Vec.Map(xs[lo..hi], g)
  {
    var l := Vec.Map(xs[lo..e], g) + Vec.Map(xs[e..hi], g);
    forall i | 0 <= i < hi - lo ensures l[i] == Vec.Map(xs[lo..hi], g)[i] {
      if i >= e - lo {
        assert l[i] == Vec.Map(xs[e..hi], g)[i - (e - lo)];
      }
    }
  }

  /**
   Concatenating the index-mapped chunks of any covering applies `g` to each
   element of the covered range with its absolute position in the input.
   */
  lemma {:induction false} MapiOverChunks<A(!new), B>(xs: seq<A>, g: (nat, A) -> B, cs: seq<Chunk>, lo: nat, hi: nat)
    requires Covers(cs, lo, hi) && hi <= |xs|
    ensures lo <= hi && Within(cs, |xs|)
    ensures |Vec.Concat(ChunkResults(xs, MapiWorker(g), cs))| == hi - lo
    ensures forall i :: lo <= i < hi ==> Vec.Concat(ChunkResults(xs, MapiWorker(g), cs))[i - lo] == g(i, xs[i])
    decreases |cs|
  {
    CoversWithin(cs, lo, hi);
    assert Within(cs, |xs|);
    if cs != [] {
      var e := cs[0].end;
      MapiOverChunks(xs, g, cs[1..], e, hi);
      var head := MapiWorker(g)(lo, xs[lo..e]);
      var rest := ChunkResults(xs, MapiWorker(g), cs[1..]);
      MapiChunk(xs, g, lo, e);
      assert ChunkResults(xs, MapiWorker(g), cs) == [head] + rest;
      MapiSplit(xs, g, head, Vec.Concat(rest), lo, e, hi);
    }
  }

  /** Two index-mapped adjacent ranges laid end to end are the index-mapped union. */
  lemma MapiSplit<A, B>(xs: seq<A>, g: (nat, A) -> B, head: seq<B>, tail: seq<B>, lo: nat, e: nat, hi: nat)
    requires lo <= e <= hi <= |xs|
    requires |head| == e - lo && forall i :: lo <= i < e ==> head[i - lo] == g(i, xs[i])
    requires |tail| == hi - e && forall i :: e <= i < hi ==> tail[i - e] == g(i, xs[i])
    ensures |head + tail| == hi - lo
    ensures forall i :: lo <= i < hi ==> (head + tail)[i - lo] == g(i, xs[i])
  {
    forall i | lo <= i < hi ensures (head + tail)[i - lo] == g(i, xs[i]) {
      if i >= e {
        assert (head + tail)[i - lo] == tail[i - e];
      }
    }
  }

  /** The `mapi` worker on the chunk `[lo, e)` gives each element its absolute index. */
  lemma MapiChunk<A(!new), B>(xs: seq<A>, g: (nat, A) -> B, lo: nat, e: nat)
    requires lo <= e <= |xs|
    ensures |MapiWorker(g)(lo, xs[lo..e])| == e - lo
    ensures forall i :: lo <= i < e ==> MapiWorker(g)(lo, xs[lo..e])[i - lo] == g(i, xs[i])
  {
    var r := Vec.Mapi(xs[lo..e], (j: nat, x: A) => g(j + lo, x));
    forall i | lo <= i < e ensures r[i - lo] == g(i, xs[i]) {
      assert r[i - lo] == g(i - lo + lo, xs[lo..e][i - lo]);
    }
  }

  /** The `alli` worker on the chunk `[lo, e)` says whether `p` holds throughout it, at absolute indices. */
  lemma AlliChunk<A(!new)>(xs: seq<A>, p: (nat, A) -> bool, lo: nat, e: nat)
    requires lo <= e <= |xs|
    ensures AlliWorker(p)(lo, xs[lo..e]) <==> forall i :: lo <= i < e ==> p(i, xs[i])
  {
    var s := xs[lo..e];
    assert Vec.Alli(s, (j: nat, x: A) => p(j + lo, x)) <==> forall j :: 0 <= j < |s| ==> p(j + lo, s[j]);
    if forall j :: 0 <= j < |s| ==> p(j + lo, s[j]) {
      forall i | lo <= i < e ensures p(i, xs[i]) {
        assert s[i - lo] == xs[i];
      }
    }
    if forall i :: lo <= i < e ==> p(i, xs[i]) {
      forall j | 0 <= j < |s| ensures p(j + lo, s[j]) {
        assert s[j] == xs[j + lo];
      }
    }
  }

  /** The conjunction of the per-chunk `alli` results of any covering says that `p` holds throughout the covered range. */
  lemma {:induction false} AlliOverChunks<A(!new)>(xs: seq<A>, p: (nat, A) -> bool, cs: seq<Chunk>, lo: nat, hi: nat)
    requires Covers(cs, lo, hi) && hi <= |xs|
    ensures lo <= hi && Within(cs, |xs|)
    ensures Vec.All(ChunkResults(xs, AlliWorker(p), cs), (b: bool) => b) <==>
      forall i :: lo <= i < hi ==> p(i, xs[i])
    decreases |cs|
  {
    CoversWithin(cs, lo, hi);
    assert Within(cs, |xs|);
    if cs != [] {
      var e := cs[0].end;
      AlliOverChunks(xs, p, cs[1..], e, hi);
      var rs := ChunkResults(xs, AlliWorker(p), cs);
      var head := AlliWorker(p)(lo, xs[lo..e]);
      assert rs == [head] + ChunkResults(xs, AlliWorker(p), cs[1..]);
      AlliChunk(xs, p, lo, e);
      assert Vec.All(rs, (b: bool) => b) <==> head && Vec.All(rs[1..], (b: bool) => b);
    }
  }

  /** The disjunction of the per-chunk `any` results of any covering says that `p` holds somewhere in the covered range. */
  lemma {:induction false} AnyOverChunks<A(!new)>(xs: seq<A>, p: A -> bool, cs: seq<Chunk>, lo: nat, hi: nat)
    requires Covers(cs, lo, hi) && hi <= |xs|
    ensures lo <= hi && Within(cs, |xs|)
    ensures Vec.Any(ChunkResults(xs, AnyWorker(p), cs), (b: bool) => b) <==>
      exists i :: lo <= i < hi && p(xs[i])
    decreases |cs|
  {
    CoversWithin(cs, lo, hi);
    assert Within(cs, |xs|);
    if cs != [] {
      var e := cs[0].end;
      AnyOverChunks(xs, p, cs[1..], e, hi);
      var rs := ChunkResults(xs, AnyWorker(p), cs);
      var head := Vec.Any(xs[lo..e], p);
      assert rs == [head] + ChunkResults(xs, AnyWorker(p), cs[1..]);
      assert head <==> exists i :: lo <= i < e && p(xs[i]) by {
        forall i | lo <= i < e ensures xs[lo..e][i - lo] == xs[i] { }
        if head {
          var j :| 0 <= j < e - lo && p(xs[lo..e][j]);
          assert p(xs[lo + j]);
        }
      }
      assert Vec.Any(rs, (b: bool) => b) <==> head || Vec.Any(rs[1..], (b: bool) => b);
    }
  }

  /** `par::map` on the corrected `map_slices`: `g` applied to every element, in order, whatever the chunking. */
  function Map<A(!new), B>(xs: seq<A>, g: A -> B): (r: seq<B>)
    ensures |r| == |xs|
    ensures forall i :: 0 <= i < |xs| ==> r[i] == g(xs[i])
  {
    MapOverChunks(xs, g, Partition(|xs|), 0, |xs|);
    assert xs[0..|xs|] == xs;
    Vec.Concat(Slices(xs, MapWorker(g)))
  }

  /** `par::mapi` on the corrected `map_slices`: `g` applied to every element with its absolute index; as many results as elements. */
  function Mapi<A(!new), B>(xs: seq<A>, g: (nat, A) -> B): (r: seq<B>)
    ensures |r| == |xs|
    ensures forall i :: 0 <= i < |xs| ==> r[i] == g(i, xs[i])
  {
    MapiOverChunks(xs, g, Partition(|xs|), 0, |xs|);
    Vec.Concat(Slices(xs, MapiWorker(g)))
  }

  /** `par::alli` on the corrected `map_slices`: whether `p` holds of every element with its index; true of the empty vector. */
  function Alli<A(!new)>(xs: seq<A>, p: (nat, A) -> bool): (r: bool)
    ensures r <==> forall i :: 0 <= i < |xs| ==> p(i, xs[i])
    ensures xs == [] ==> r
  {
    AlliOverChunks(xs, p, Partition(|xs|), 0, |xs|);
    Vec.All(Slices(xs, AlliWorker(p)), (b: bool) => b)
  }

  /** `par::any` on the corrected `map_slices`: whether `p` holds of some element; false of the empty vector. */
  function Any<A(!new)>(xs: seq<A>, p: A -> bool): (r: bool)
    ensures r <==> exists i :: 0 <= i < |xs| && p(xs[i])
    ensures xs == [] ==> !r
  {
    AnyOverChunks(xs, p, Partition(|xs|), 0, |xs|);
    Vec.Any(Slices(xs, AnyWorker(p)), (b: bool) => b)
  }

  /**
   `par::map` as written: it fails with `map_slices` whenever `num_tasks`
   does not divide the length, and otherwise maps every element in order.
   */
  method MapAsWritten<A(!new), B>(xs: seq<A>, g: A -> B) returns (r: Outcome<seq<B>>)
    ensures r.Abort? <==> |xs| >= MinGranularity && |xs| % NumTasks(|xs|) != 0
    ensures r.Done? ==> r.value == Vec.Map(xs, g)
  {
    var o := MapSlices.MapSlices(xs, MapWorker(g));
    if o.Abort? {
      return Abort;
    }
    MapOverChunks(xs, g, WalkPartition(|xs|), 0, |xs|);
    assert xs[0..|xs|] == xs;
    r := Done(Vec.Concat(o.value));
  }

  /**
   `par::mapi` as written: it fails with `map_slices` whenever `num_tasks`
   does not divide the length, and otherwise applies `g` to every element
   with its index.
   */
  method MapiAsWritten<A(!new), B>(xs: seq<A>, g: (nat, A) -> B) returns (r: Outcome<seq<B>>)
    ensures r.Abort? <==> |xs| >= MinGranularity && |xs| % NumTasks(|xs|) != 0
    ensures r.Done? ==> |r.value| == |xs| && forall i :: 0 <= i < |xs| ==> r.value[i] == g(i, xs[i])
  {
    var o := MapSlices.MapSlices(xs, MapiWorker(g));
    if o.Abort? {
      return Abort;
    }
    MapiOverChunks(xs, g, WalkPartition(|xs|), 0, |xs|);
    r := Done(Vec.Concat(o.value));
  }

  /**
   `par::alli` as written: it fails with `map_slices` whenever `num_tasks`
   does not divide the length, and otherwise says whether `p` holds of
   every element with its index.
   */
  method AlliAsWritten<A(!new)>(xs: seq<A>, p: (nat, A) -> bool) returns (r: Outcome<bool>)
    ensures r.Abort? <==> |xs| >= MinGranularity && |xs| % NumTasks(|xs|) != 0
    ensures r.Done? ==> (r.value <==> forall i :: 0 <= i < |xs| ==> p(i, xs[i]))
  {
    var o := MapSlices.MapSlices(xs, AlliWorker(p));
    if o.Abort? {
      return Abort;
    }
    AlliOverChunks(xs, p, WalkPartition(|xs|), 0, |xs|);
    r := Done(Vec.All(o.value, (b: bool) => b));
  }

  /**
   `par::any` as written: it fails with `map_slices` whenever `num_tasks`
   does not divide the length, and otherwise says whether `p` holds of some
   element.
   */
  method AnyAsWritten<A(!new)>(xs: seq<A>, p: A -> bool) returns (r: Outcome<bool>)
    ensures r.Abort? <==> |xs| >= MinGranularity && |xs| % NumTasks(|xs|) != 0
    ensures r.Done? ==> (r.value <==> exists i :: 0 <= i < |xs| && p(xs[i]))
  {
    var o := MapSlices.MapSlices(xs, AnyWorker(p));
    if o.Abort? {
      return Abort;
    }
    AnyOverChunks(xs, p, WalkPartition(|xs|), 0, |xs|);
    r := Done(Vec.Any(o.value, (b: bool) => b));
  }

  /** On the integers 0 to 2047, "is even" holds of some element but not of all. */
  lemma EvenScenario()
    ensures var xs := seq(2048, i => i);
      !Alli(xs, (i: nat, x: int) => x % 2 == 0) && Any(xs, (x: int) => x % 2 == 0)
  {
    var xs := seq(2048, i => i);
    assert xs[1] == 1 && xs[0] == 0;
  }
}
