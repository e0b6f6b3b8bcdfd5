/**
 The sequential vector operations that the parallel slice engine composes
 (`uint::min`, `vec::concat`, `vec::map`, `vec::mapi`, `vec::all`,
 `vec::alli`, `vec::any`). `core::vec` is not part of this model. `Min` is
 the plain minimum. The vector operations are recursive definitions in the
 shape of a loop over the vector: `Concat` is characterised by its
 definition (its contract only says the first piece is a prefix of the
 result), and the contracts of the others state their meaning element by
 element. They are the sequential answers the parallel operations are proved
 to give.
 */
module Vec {

  /** `uint::min`. */
  function Min(a: nat, b: nat): (m: nat)
    ensures m <= a && m <= b
    ensures m == a || m == b
  {
    if a <= b then a else b
  }

  /** `vec::concat`: the pieces laid end to end, in order. */
  function Concat<T>(ss: seq<seq<T>>): (r: seq<T>)
    ensures ss == [] ==> r == []
    ensures ss != [] ==> |ss[0]| <= |r| && r[..|ss[0]|] == ss[0]
    decreases |ss|
  {
    if ss == [] then [] else ss[0] + Concat(ss[1..])
  }

  /** `vec::map`: `g` applied to every element, in order. */
  function Map<A, B>(s: seq<A>, g: A -> B): (r: seq<B>)
    ensures |r| == |s|
    ensures forall i :: 0 <= i < |s| ==> r[i] == g(s[i])
    decreases |s|
  {
    if s == [] then [] else [g(s[0])] + Map(s[1..], g)
  }

  /** `vec::mapi`: `g` applied to every element together with its index. */
  function Mapi<A, B>(s: seq<A>, g: (nat, A) -> B): (r: seq<B>)
    ensures |r| == |s|
    ensures forall i :: 0 <= i < |s| ==> r[i] == g(i, s[i])
    decreases |s|
  {
    if s == [] then [] else Mapi(s[..|s| - 1], g) + [g(|s| - 1, s[|s| - 1])]
  }

  /** `vec::all`: true when `p` holds of every element. */
  function All<A>(s: seq<A>, p: A -> bool): (r: bool)
    ensures r <==> forall i :: 0 <= i < |s| ==> p(s[i])
    decreases |s|
  {
    s == [] || (p(s[0]) && All(s[1..], p))
  }

  /** `vec::alli`: true when `p` holds of every element together with its index. */
  function Alli<A>(s: seq<A>, p: (nat, A) -> bool): (r: bool)
    ensures r <==> forall i :: 0 <= i < |s| ==> p(i, s[i])
    decreases |s|
  {
    s == [] || (Alli(s[..|s| - 1], p) && p(|s| - 1, s[|s| - 1]))
  }

  /** `vec::any`: true when `p` holds of some element. */
  function Any<A>(s: seq<A>, p: A -> bool): (r: bool)
    ensures r <==> exists i :: 0 <= i < |s| && p(s[i])
    decreases |s|
  {
    s != [] && (p(s[0]) || Any(s[1..], p))
  }
}
