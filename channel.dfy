/**
 * Coordinate bookkeeping of the observation mapper: the absolute along-track
 * coordinate, the channel-width mask, and the "raw or filtered" view of a
 * caller's array.
 */
module Channel {
  import opened Wrappers
  import opened Sequences

  function Abs(v: real): (a: real)
    ensures a >= 0.0 && (a == v || a == -v)
  {
    if v < 0.0 then -v else v
  }

  /** The channel mask: true where the across-track offset is within half the width. */
  function InChannelMask(n: seq<real>, maxWidth: real): (mask: seq<bool>)
    ensures |mask| == |n|
  {
    seq(|n|, i requires 0 <= i < |n| => Abs(n[i]) <= maxWidth / 2.0)
  }

  /** Local along-track offsets shifted by the cumulative arc length of each
      observation's nearest centerline sample. */
  function AbsoluteS(localS: seq<real>, index: seq<nat>, cumS: seq<real>): (s: seq<real>)
    requires |localS| == |index| && InBounds(index, |cumS|)
    ensures |s| == |localS|
  {
    seq(|localS|, i requires 0 <= i < |localS| => localS[i] + cumS[index[i]])
  }

  /** The channel filter keeps exactly the in-channel entries, in original order:
      the kept positions are the ascending positions with `|n| <= maxWidth/2`,
      and every array of the same length is cut at the same positions. */
  lemma ChannelFilter<T>(a: seq<T>, n: seq<real>, maxWidth: real)
    requires |a| == |n|
    ensures var ps := IndicesOf(InChannelMask(n, maxWidth), true);
      && Filter(a, InChannelMask(n, maxWidth)) == Gather(a, ps)
      && StrictlyAscending(ps)
      && (forall j :: j in ps <==> 0 <= j < |n| && Abs(n[j]) <= maxWidth / 2.0)
      && |Filter(a, InChannelMask(n, maxWidth))| <= |a|
  {
    FilterIsGather(a, InChannelMask(n, maxWidth));
    KeptAtMostAll(InChannelMask(n, maxWidth));
    IndicesOfAscending(InChannelMask(n, maxWidth), true);
  }

  /** Every retained across-track offset lies inside the channel. */
  lemma {:induction false} RetainedInChannel(n: seq<real>, maxWidth: real)
    ensures forall v :: v in Filter(n, InChannelMask(n, maxWidth)) ==> Abs(v) <= maxWidth / 2.0
  {
    var mask := InChannelMask(n, maxWidth);
    FilterIsGather(n, mask);
    var ps := IndicesOf(mask, true);
    forall v | v in Filter(n, mask) ensures Abs(v) <= maxWidth / 2.0 {
      var i :| 0 <= i < |ps| && Gather(n, ps)[i] == v;
      assert ps[i] in ps;
    }
  }

  /** Filtering the shifted coordinate is shifting the filtered coordinates:
      after the channel filter, each remaining `s` is still its own local
      offset plus the arc length of its own nearest sample. */
  lemma AbsoluteSFilter(localS: seq<real>, index: seq<nat>, cumS: seq<real>, mask: seq<bool>)
    requires |localS| == |index| == |mask| && InBounds(index, |cumS|)
    ensures InBounds(Filter(index, mask), |cumS|)
    ensures Filter(AbsoluteS(localS, index, cumS), mask)
         == AbsoluteS(Filter(localS, mask), Filter(index, mask), cumS)
  {
    var abs := AbsoluteS(localS, index, cumS);
    var ps := IndicesOf(mask, true);
    FilterIsGather(abs, mask);
    FilterIsGather(localS, mask);
    FilterIsGather(index, mask);
    var fl, fi := Filter(localS, mask), Filter(index, mask);
    assert forall i :: 0 <= i < |fl| ==> fl[i] == localS[ps[i]] && fi[i] == index[ps[i]];
    var rhs := AbsoluteS(fl, fi, cumS);
    assert forall i :: 0 <= i < |rhs| ==> rhs[i] == abs[ps[i]];
  }

  /** The view of `obs` in filtered-observation space: a raw-length array is
      masked down when a channel filter is active, any other array is left as is. */
  function Edited<T>(obs: seq<T>, filtering: bool, ndata: nat, mask: seq<bool>): (view: seq<T>)
    ensures filtering && |obs| == ndata == |mask| ==> |view| == Count(mask, true)
    ensures forall v {:trigger v in view} :: v in view ==> v in obs
  {
    if filtering && |obs| == ndata == |mask| then Filter(obs, mask) else obs
  }

  /** The relation between the raw count `ndata`, the filtered count `nedited`
      and the mask, as the constructor leaves them. */
  predicate Consistent(filtering: bool, ndata: nat, nedited: nat, mask: seq<bool>) {
    if filtering then |mask| == ndata && Count(mask, true) == nedited
    else nedited == ndata
  }

  /** An array of raw or filtered length has a filtered-length view, and the
      view of that view is itself. */
  lemma EditedIdempotent<T>(obs: seq<T>, filtering: bool, ndata: nat, nedited: nat, mask: seq<bool>)
    requires Consistent(filtering, ndata, nedited, mask)
    requires |obs| == ndata || |obs| == nedited
    ensures |Edited(obs, filtering, ndata, mask)| == nedited
    ensures Edited(Edited(obs, filtering, ndata, mask), filtering, ndata, mask)
         == Edited(obs, filtering, ndata, mask)
    ensures |obs| == nedited ==> Edited(obs, filtering, ndata, mask) == obs
  {
    if filtering && nedited == ndata {
      if |obs| == ndata {
        FilterAllKept(obs, mask);
      }
    }
  }

  /** What registering `obs` stores: nothing when its length is neither the raw
      nor the filtered count, otherwise its filtered-length view. */
  function Registered(obs: seq<real>, filtering: bool, ndata: nat, nedited: nat, mask: seq<bool>)
    : (r: Option<seq<real>>)
    requires Consistent(filtering, ndata, nedited, mask)
    ensures r.None? <==> |obs| != ndata && |obs| != nedited
    ensures r.Some? ==> |r.value| == nedited
    ensures r.Some? && filtering && |obs| == ndata ==> r.value == Filter(obs, mask)
    ensures r.Some? && |obs| == nedited ==> r.value == obs
  {
    if |obs| != ndata && |obs| != nedited then None
    else
      EditedIdempotent(obs, filtering, ndata, nedited, mask);
      Some(Edited(obs, filtering, ndata, mask))
  }
}
