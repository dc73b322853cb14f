/**
 * The array primitives the observation mapper is built from, stated on
 * sequences: positions of a value (numpy's `flatnonzero(a == v)`), boolean
 * masking (`a[mask]`) and integer-array indexing (`a[positions]`).
 */
module Sequences {

  /** Every element is smaller than the next one, so no element repeats. */
  predicate StrictlyAscending(r: seq<nat>) {
    forall i, j :: 0 <= i < j < |r| ==> r[i] < r[j]
  }

  /** The number of occurrences of `v` in `s`. */
  function Count<T(==)>(s: seq<T>, v: T): (c: nat) {
    if s == [] then 0
    else Count(s[..|s| - 1], v) + (if s[|s| - 1] == v then 1 else 0)
  }

  /** Counting agrees with the multiplicity of `v` in the multiset of `s`. */
  lemma {:induction false} CountIsMultiplicity<T>(s: seq<T>, v: T)
    ensures Count(s, v) == multiset(s)[v]
  {
    if s != [] {
      var last := |s| - 1;
      CountIsMultiplicity(s[..last], v);
      assert s == s[..last] + [s[last]];
    }
  }

  /** An element occurs at least once exactly when it is in the sequence. */
  lemma CountPositive<T>(s: seq<T>, v: T)
    ensures Count(s, v) > 0 <==> v in s
  {
    CountIsMultiplicity(s, v);
  }

  /** Counting over a sequence with one more element. */
  lemma CountSnoc<T>(s: seq<T>, x: T, v: T)
    ensures Count(s + [x], v) == Count(s, v) + (if x == v then 1 else 0)
  {
    assert (s + [x])[..|s|] == s;
  }

  /** In an ascending sequence an element does not occur before its own position. */
  lemma AscendingFresh(r: seq<nat>, i: nat)
    requires StrictlyAscending(r) && i < |r|
    ensures r[i] !in r[..i]
  {
  }

  /** Every element is a valid position of a sequence of length `n`. */
  predicate InBounds(ps: seq<nat>, n: nat) {
    forall i :: 0 <= i < |ps| ==> ps[i] < n
  }

  /** The positions of `s` that hold `v` (numpy's `flatnonzero(s == v)`;
      ascending, see IndicesOfAscending). */
  function IndicesOf<T(==)>(s: seq<T>, v: T): (r: seq<nat>)
    ensures InBounds(r, |s|)
    ensures forall j {:trigger j in r} :: j in r <==> 0 <= j < |s| && s[j] == v
  {
    if s == [] then []
    else
      var last := |s| - 1;
      IndicesOf(s[..last], v) + (if s[last] == v then [last] else [])
  }

  /** The positions come out in strictly ascending order, so none repeats. */
  lemma {:induction false} IndicesOfAscending<T>(s: seq<T>, v: T)
    ensures StrictlyAscending(IndicesOf(s, v))
  {
    if s != [] {
      var last := |s| - 1;
      IndicesOfAscending(s[..last], v);
    }
  }

  /** The elements of `a` at `ps`, in the order of `ps`. */
  function Gather<T>(a: seq<T>, ps: seq<nat>): (r: seq<T>)
    requires InBounds(ps, |a|)
    ensures |r| == |ps|
    ensures forall v {:trigger v in r} :: v in r ==> v in a
  {
    seq(|ps|, i requires 0 <= i < |ps| => a[ps[i]])
  }

  /** The elements of `a` whose mask entry is true, in their original order. */
  function Filter<T>(a: seq<T>, mask: seq<bool>): (r: seq<T>)
    requires |a| == |mask|
    ensures |r| == Count(mask, true)
    ensures forall v {:trigger v in r} :: v in r ==> v in a
  {
    if a == [] then []
    else
      var last := |a| - 1;
      assert mask == mask[..last] + [mask[last]];
      Filter(a[..last], mask[..last]) + (if mask[last] then [a[last]] else [])
  }

  /** Masking never introduces a position that was out of bounds. */
  lemma FilterInBounds(a: seq<nat>, mask: seq<bool>, n: nat)
    requires |a| == |mask| && InBounds(a, n)
    ensures InBounds(Filter(a, mask), n)
  {
    FilterIsGather(a, mask);
  }

  /** There are exactly as many positions of `v` as occurrences of `v`. */
  lemma {:induction false} IndicesOfCount<T>(s: seq<T>, v: T)
    ensures |IndicesOf(s, v)| == Count(s, v)
  {
    if s != [] {
      var last := |s| - 1;
      IndicesOfCount(s[..last], v);
      assert s == s[..last] + [s[last]];
    }
  }

  /** Masking keeps exactly the entries at the true positions of the mask, in order. */
  lemma {:induction false} FilterIsGather<T>(a: seq<T>, mask: seq<bool>)
    requires |a| == |mask|
    ensures Filter(a, mask) == Gather(a, IndicesOf(mask, true))
  {
    if a != [] {
      var last := |a| - 1;
      FilterIsGather(a[..last], mask[..last]);
      var ps := IndicesOf(mask[..last], true);
      var tail := if mask[last] then [last] else [];
      assert IndicesOf(mask, true) == ps + tail;
      assert Filter(a, mask) == Gather(a[..last], ps) + (if mask[last] then [a[last]] else []);
      GatherSnoc(a, ps, tail);
    }
  }

  /** Indexing with `ps + tail` indexes with `ps`, then with `tail`. */
  lemma GatherSnoc<T>(a: seq<T>, ps: seq<nat>, tail: seq<nat>)
    requires |a| > 0 && InBounds(ps, |a| - 1)
    requires tail == [] || tail == [|a| - 1]
    ensures InBounds(ps + tail, |a|)
    ensures Gather(a, ps + tail) == Gather(a[..|a| - 1], ps) + (if tail == [] then [] else [a[|a| - 1]])
  {
  }

  /** A mask never keeps more entries than it has. */
  lemma {:induction false} KeptAtMostAll(mask: seq<bool>)
    ensures Count(mask, true) <= |mask|
  {
    if mask != [] {
      var last := |mask| - 1;
      KeptAtMostAll(mask[..last]);
      assert mask == mask[..last] + [mask[last]];
    }
  }

  /** A mask that keeps as many entries as it has changes nothing. */
  lemma {:induction false} FilterAllKept<T>(a: seq<T>, mask: seq<bool>)
    requires |a| == |mask|
    requires Count(mask, true) == |mask|
    ensures Filter(a, mask) == a
  {
    if a != [] {
      var last := |a| - 1;
      assert mask == mask[..last] + [mask[last]];
      KeptAtMostAll(mask[..last]);
      FilterAllKept(a[..last], mask[..last]);
      assert a == a[..last] + [a[last]];
    }
  }

  /** Indexing `s` with the positions of `v` yields `v` once per occurrence. */
  lemma GatherIndicesOf<T>(s: seq<T>, v: T)
    ensures Gather(s, IndicesOf(s, v)) == seq(Count(s, v), _ => v)
  {
    IndicesOfCount(s, v);
    var ps := IndicesOf(s, v);
    forall i | 0 <= i < |ps| ensures Gather(s, ps)[i] == v {
      assert ps[i] in ps;
    }
  }
}
