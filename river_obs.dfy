/**
 * The river observation mapper: observations of one reach, placed in the
 * along/across-track frame of its centerline, cut to the channel, and
 * grouped into per-node aggregates.
 */
module SWOTRiver {
  import opened Wrappers
  import opened Sequences
  import opened NodeMapping
  import opened Channel

  /** What the centerline's nearest-point projection returns, one entry per
      observation: nearest sample, distance to it, its coordinates, and the
      local along/across-track offsets. */
  datatype Projection = Projection(
    index: seq<nat>, d: seq<real>, x: seq<real>, y: seq<real>, s: seq<real>, n: seq<real>)
  {
    predicate Aligned() {
      |d| == |index| && |x| == |index| && |y| == |index| && |s| == |index| && |n| == |index|
    }

    /** All six arrays cut with the same boolean mask: entry `i` of every cut
        array is the entry of the same observation, the `i`-th one kept. */
    function Cut(mask: seq<bool>): (p: Projection)
      requires Aligned() && |mask| == |index|
      ensures p.Aligned() && |p.index| == Count(mask, true)
      ensures var ps := IndicesOf(mask, true);
        && |ps| == |p.index|
        && forall i :: 0 <= i < |ps| ==>
             && p.index[i] == index[ps[i]] && p.d[i] == d[ps[i]] && p.x[i] == x[ps[i]]
             && p.y[i] == y[ps[i]] && p.s[i] == s[ps[i]] && p.n[i] == n[ps[i]]
    {
      IndicesOfCount(mask, true);
      FilterIsGather(index, mask);
      FilterIsGather(d, mask);
      FilterIsGather(x, mask);
      FilterIsGather(y, mask);
      FilterIsGather(s, mask);
      FilterIsGather(n, mask);
      Projection(Filter(index, mask), Filter(d, mask), Filter(x, mask), Filter(y, mask),
        Filter(s, mask), Filter(n, mask))
    }
  }

  /** The coordinates the constructor stores: `s` shifted to the absolute
      along-track coordinate by the arc length `cumS` of each observation's
      nearest sample and, when a channel width is given, every array cut to
      the observations inside the channel. */
  function Edit(proj: Projection, cumS: seq<real>, maxWidth: Option<real>): (e: Projection)
    requires proj.Aligned() && InBounds(proj.index, |cumS|)
    ensures e.Aligned() && InBounds(e.index, |cumS|)
    ensures maxWidth.None? ==> |e.index| == |proj.index|
    ensures maxWidth.Some? ==> |e.index| == Count(InChannelMask(proj.n, maxWidth.value), true) <= |proj.index|
  {
    var shifted := proj.(s := AbsoluteS(proj.s, proj.index, cumS));
    if maxWidth.None? then shifted
    else
      var mask := InChannelMask(proj.n, maxWidth.value);
      KeptAtMostAll(mask);
      FilterInBounds(proj.index, mask, |cumS|);
      shifted.Cut(mask)
  }

  /** After the edit the arrays are those of the kept observations (all of
      them, or the in-channel ones in original order), except that each `s`
      is the observation's own local offset plus the arc length of its own
      nearest sample; with a channel width every remaining observation lies
      inside the channel. */
  lemma EditedCoordinates(proj: Projection, cumS: seq<real>, maxWidth: Option<real>)
    requires proj.Aligned() && InBounds(proj.index, |cumS|)
    ensures var e := Edit(proj, cumS, maxWidth);
      var kept := if maxWidth.None? then proj else proj.Cut(InChannelMask(proj.n, maxWidth.value));
      && e.(s := kept.s) == kept
      && (forall i :: 0 <= i < |e.index| ==> e.s[i] == kept.s[i] + cumS[e.index[i]])
      && (maxWidth.Some? ==> forall v :: v in e.n ==> Abs(v) <= maxWidth.value / 2.0)
  {
    if maxWidth.Some? {
      var mask := InChannelMask(proj.n, maxWidth.value);
      AbsoluteSFilter(proj.s, proj.index, cumS, mask);
      RetainedInChannel(proj.n, maxWidth.value);
    }
  }

  /** Inverts `idx`: visits its distinct node ids in ascending order and keeps
      those with at least `minobs` observations, recording each one's
      positions and, in a dense array of `size` counts, its count. */
  method ObsToNodeMap(idx: seq<nat>, minobs: int, size: nat)
    returns (populated: seq<nat>, nodeMap: map<nat, seq<nat>>, counts: array<int>)
    requires InBounds(idx, size)
    ensures fresh(counts) && counts.Length == size
    ensures populated == PopulatedNodes(idx, minobs)
    ensures nodeMap == NodeMap(idx, populated)
    ensures forall k :: 0 <= k < counts.Length ==> counts[k] == NodeCount(idx, minobs, k)
  {
    var nodes := Unique(idx);
    counts := new int[size](_ => 0);
    var pop: seq<nat> := [];
    var m: map<nat, seq<nat>> := map[];
    var i := 0;
    while i < |nodes|
      invariant 0 <= i <= |nodes|
      invariant counts.Length == size
      invariant pop == KeepPopulated(nodes[..i], idx, minobs)
      invariant m == NodeMap(idx, pop)
      invariant forall k :: 0 <= k < counts.Length ==> counts[k] == CountAfter(nodes, i, idx, minobs, k)
    {
      var node := nodes[i];
      assert node in nodes;
      var obsIndex := IndicesOf(idx, node);
      IndicesOfCount(idx, node);
      KeepStep(nodes, i, idx, minobs);
      if |obsIndex| >= minobs {
        NodeMapSnoc(idx, pop, node);
        pop := pop + [node];
        m := m[node := obsIndex];
        counts[node] := |obsIndex|;
      } else {
        assert pop + [] == pop;
        UniqueFresh(idx, i);
        CountAfterAt(nodes, i, idx, minobs, node);
      }
      i := i + 1;
    }
    assert nodes[..|nodes|] == nodes;
    forall k: nat | k < counts.Length ensures counts[k] == NodeCount(idx, minobs, k) {
      CountAfterAt(nodes, |nodes|, idx, minobs, k);
      CountPositive(idx, k);
    }
    populated, nodeMap := pop, m;
  }

  /** The aggregate built for one populated node: its id, its observations'
      intrinsic coordinates, and the named variables added to it. */
  datatype RiverNode = RiverNode(
    id: nat, d: seq<real>, x: seq<real>, y: seq<real>, s: seq<real>, n: seq<real>,
    obs: map<string, seq<real>>)
  {
    function AddObs(name: string, values: seq<real>): (rn: RiverNode) {
      this.(obs := obs[name := values])
    }
  }

  const IncompatibleSize := "Observation size incompatible with initial observations"
  /** The attribute error raised when statistics are asked for before any nodes were loaded. */
  const NotLoaded := "RiverObs instance has no attribute 'river_nodes'"

  class RiverObs {
    const ndata: nat
    const centerlineS: seq<real>
    const maxWidth: Option<real>
    const minobs: int

    var index: seq<nat>
    var d: seq<real>
    var x: seq<real>
    var y: seq<real>
    var s: seq<real>
    var n: seq<real>
    var inChannel: seq<bool>
    var neditedData: nat

    var populatedNodes: seq<nat>
    var obsToNodeMap: map<nat, seq<nat>>
    var nobs: array<int>

    /** The named observation arrays registered with AddObs. */
    var named: map<string, seq<real>>
    /** The materialized nodes, in ascending node id order; None until LoadNodes runs. */
    var riverNodes: Option<seq<RiverNode>>

    /** The six coordinate arrays as one projection. */
    function Coordinates(): (p: Projection)
      reads this`index, this`d, this`x, this`y, this`s, this`n
    {
      Projection(index, d, x, y, s, n)
    }

    /** The six coordinate arrays have one entry per observation. */
    predicate Aligned()
      reads this`index, this`d, this`x, this`y, this`s, this`n
    {
      Coordinates().Aligned()
    }

    /** The coordinate arrays are in filtered space and the populated nodes and
        their position lists are the inverse of the node index. */
    ghost predicate Mapped()
      reads this`index, this`d, this`x, this`y, this`s, this`n, this`neditedData, this`inChannel, this`populatedNodes, this`obsToNodeMap
    {
      && Aligned() && |index| == neditedData
      && InBounds(index, |centerlineS|)
      && Consistent(maxWidth.Some?, ndata, neditedData, inChannel)
      && populatedNodes == PopulatedNodes(index, minobs)
      && obsToNodeMap == NodeMap(index, populatedNodes)
    }

    /** The dense count array holds each populated node's population and 0 elsewhere. */
    ghost predicate Counted()
      reads this`nobs, nobs, this`index, this`populatedNodes
    {
      && nobs.Length == |centerlineS|
      && forall k :: 0 <= k < nobs.Length ==> nobs[k] == NodeCount(index, minobs, k)
    }

    /** Every registered array is stored in filtered space. */
    ghost predicate NamedAligned()
      reads this`named, this`neditedData
    {
      forall name :: name in named ==> |named[name]| == neditedData
    }

    /** The state the constructor establishes. AddObs and LoadNodes keep it;
        GetObsToNodeMap keeps it when re-run on the stored index with the stored
        threshold; another threshold, or a second channel filter, leaves it. */
    ghost predicate Valid()
      reads this`index, this`d, this`x, this`y, this`s, this`n, this`neditedData, this`inChannel, this`populatedNodes, this`obsToNodeMap,
        this`named, this`nobs, nobs
    {
      Mapped() && Counted() && NamedAligned()
    }

    /** Takes the projection of the observations onto the centerline and the
        centerline's cumulative arc length per sample; shifts `s` to the absolute
        along-track coordinate, applies the channel filter when `maxWidth` is
        given, and builds the node map. */
    constructor (proj: Projection, centerlineS: seq<real>, maxWidth: Option<real> := None, minobs: int := 1)
      requires proj.Aligned()
      requires InBounds(proj.index, |centerlineS|)
      ensures Valid() && fresh(nobs)
      ensures ndata == |proj.index| && this.centerlineS == centerlineS
      ensures this.maxWidth == maxWidth && this.minobs == minobs
      ensures Coordinates() == Edit(proj, centerlineS, maxWidth)
      ensures maxWidth.Some? ==> inChannel == InChannelMask(proj.n, maxWidth.value)
      ensures named == map[] && riverNodes == None
    {
      var e := Edit(proj, centerlineS, maxWidth);
      ndata := |proj.index|;
      this.centerlineS := centerlineS;
      this.maxWidth := maxWidth;
      this.minobs := minobs;
      index, d, x, y, s, n := e.index, e.d, e.x, e.y, e.s, e.n;
      inChannel := if maxWidth.Some? then InChannelMask(proj.n, maxWidth.value) else [];
      neditedData := |e.index|;
      var populated, nodeMap, counts := ObsToNodeMap(e.index, minobs, |centerlineS|);
      populatedNodes, obsToNodeMap, nobs := populated, nodeMap, counts;
      named, riverNodes := map[], None;
    }

    /** The channel filter: computes the in-channel mask from the across-track
        offsets and cuts all six coordinate arrays with it. It assumes the
        arrays still have their raw length, as they do only before it runs. */
    method FlagOutChannel(width: real) returns (mask: seq<bool>)
      requires Aligned() && |n| == ndata
      modifies this`inChannel, this`index, this`d, this`x, this`y, this`s, this`n
      ensures mask == inChannel == InChannelMask(old(n), width)
      ensures Coordinates() == old(Coordinates()).Cut(mask)
    {
      inChannel := InChannelMask(n, width);
      index := Filter(index, inChannel);
      d := Filter(d, inChannel);
      x := Filter(x, inChannel);
      y := Filter(y, inChannel);
      s := Filter(s, inChannel);
      n := Filter(n, inChannel);
      mask := inChannel;
    }

    /** Builds the node map of `idx` and stores it: the populated nodes, their
        position lists and the dense count array. */
    method GetObsToNodeMap(idx: seq<nat>, minobs: int := 1) returns (populated: seq<nat>, nodeMap: map<nat, seq<nat>>)
      requires InBounds(idx, |centerlineS|)
      modifies this`populatedNodes, this`obsToNodeMap, this`nobs
      ensures fresh(nobs) && nobs.Length == |centerlineS|
      ensures populated == populatedNodes == PopulatedNodes(idx, minobs)
      ensures nodeMap == obsToNodeMap == NodeMap(idx, populated)
      ensures forall k :: 0 <= k < nobs.Length ==> nobs[k] == NodeCount(idx, minobs, k)
      ensures old(Valid()) && idx == index && minobs == this.minobs ==> Valid()
    {
      var counts;
      populated, nodeMap, counts := ObsToNodeMap(idx, minobs, |centerlineS|);
      populatedNodes, obsToNodeMap, nobs := populated, nodeMap, counts;
    }

    /** Registers a named observation array. An array of neither the raw nor
        the filtered length is refused and nothing changes; a raw-length array
        is masked down when the channel filter is active; a name registered
        again is overwritten. */
    method AddObs(name: string, obs: seq<real>) returns (outcome: Outcome)
      requires Consistent(maxWidth.Some?, ndata, neditedData, inChannel)
      modifies this`named
      ensures old(Valid()) ==> Valid()
      ensures var stored := Registered(obs, maxWidth.Some?, ndata, neditedData, inChannel);
        && (stored.None? ==> outcome == Fail(IncompatibleSize) && named == old(named))
        && (stored.Some? ==> outcome == Pass && named == old(named)[name := stored.value])
    {
      if |obs| != ndata && |obs| != neditedData {
        return Fail(IncompatibleSize);
      }
      var stored := obs;
      if maxWidth.Some? && |obs| == ndata {
        stored := Filter(obs, inChannel);
      }
      EditedIdempotent(obs, maxWidth.Some?, ndata, neditedData, inChannel);
      named := named[name := stored];
      return Pass;
    }

    /** The entries of `obs` that belong to node `k`: the entries of its
        filtered-length view at the node's positions. A node without a
        position list, or positions past the end of the view, give nothing. */
    function ObsToNode<T>(obs: seq<T>, k: nat): (r: seq<T>)
      reads this`inChannel, this`obsToNodeMap
      ensures k !in obsToNodeMap ==> r == []
      ensures forall v {:trigger v in r} :: v in r ==> v in obs
    {
      if k !in obsToNodeMap then []
      else
        var view := Edited(obs, maxWidth.Some?, ndata, inChannel);
        if InBounds(obsToNodeMap[k], |view|) then Gather(view, obsToNodeMap[k]) else []
    }

    /** For a populated node, the retrieved entries are those of the array's
        filtered-length view at the positions whose nearest sample is `k`,
        ascending, as many as the node's count and at least `minobs`. */
    lemma ObsToNodeContents<T>(obs: seq<T>, k: nat)
      requires Mapped() && k in populatedNodes
      requires |obs| == ndata || |obs| == neditedData
      ensures var view := Edited(obs, maxWidth.Some?, ndata, inChannel);
        && |view| == neditedData
        && ObsToNode(obs, k) == Gather(view, IndicesOf(index, k))
        && |ObsToNode(obs, k)| == Count(index, k) >= minobs
    {
      EditedIdempotent(obs, maxWidth.Some?, ndata, neditedData, inChannel);
      IndicesOfCount(index, k);
      NodeMapAt(index, populatedNodes, k);
    }

    /** A node that is not populated has no entries. */
    lemma ObsToNodeUnpopulated<T>(obs: seq<T>, k: nat)
      requires Mapped() && k !in populatedNodes
      ensures ObsToNode(obs, k) == []
    {
      NodeMapAt(index, populatedNodes, k);
    }

    /** Retrieving the node index array for a populated node yields that node,
        once per observation. */
    lemma ObsToNodeIndex(k: nat)
      requires Valid() && k in populatedNodes
      ensures ObsToNode(index, k) == seq(nobs[k], _ => k)
    {
      EditedIdempotent(index, maxWidth.Some?, ndata, neditedData, inChannel);
      GatherIndicesOf(index, k);
      NodeMapAt(index, populatedNodes, k);
    }

    /** Retrieving a registered array gives what retrieving the array it was
        registered from gives, raw length or not. */
    lemma ObsToNodeRegistered(obs: seq<real>, k: nat)
      requires Mapped() && (|obs| == ndata || |obs| == neditedData)
      ensures var stored := Registered(obs, maxWidth.Some?, ndata, neditedData, inChannel);
        stored.Some? && ObsToNode(stored.value, k) == ObsToNode(obs, k)
    {
      EditedIdempotent(obs, maxWidth.Some?, ndata, neditedData, inChannel);
    }

    /** The named variables `vars` of node `k`, each the entries of its
        registered array that belong to the node; a name listed twice keeps
        its last entry. */
    function NodeObs(k: nat, vars: seq<string>): (obs: map<string, seq<real>>)
      reads this`inChannel, this`obsToNodeMap, this`named
      requires forall t :: 0 <= t < |vars| ==> vars[t] in named
      ensures forall v :: v in obs <==> v in vars
    {
      if vars == [] then map[]
      else
        var last := vars[|vars| - 1];
        NodeObs(k, vars[..|vars| - 1])[last := ObsToNode(named[last], k)]
    }

    /** The aggregate of node `k` holding the named variables `vars`: its
        intrinsic coordinates and each variable are the node's entries. */
    function BuildNode(k: nat, vars: seq<string>): (rn: RiverNode)
      reads this`d, this`x, this`y, this`s, this`n, this`inChannel, this`obsToNodeMap, this`named
      requires forall t :: 0 <= t < |vars| ==> vars[t] in named
      ensures rn.id == k && forall v :: v in rn.obs <==> v in vars
    {
      RiverNode(k, ObsToNode(d, k), ObsToNode(x, k), ObsToNode(y, k), ObsToNode(s, k), ObsToNode(n, k),
        NodeObs(k, vars))
    }

    /** A populated node's aggregate holds one entry per observation of the
        node in each coordinate and each variable, and for each variable the
        entries retrieved from its registered array. */
    lemma {:induction false} BuildNodeShape(k: nat, vars: seq<string>)
      requires Mapped() && NamedAligned() && k in populatedNodes
      requires forall t :: 0 <= t < |vars| ==> vars[t] in named
      ensures var rn, c := BuildNode(k, vars), Count(index, k);
        && |rn.d| == c && |rn.x| == c && |rn.y| == c && |rn.s| == c && |rn.n| == c
        && forall v :: v in rn.obs ==> rn.obs[v] == ObsToNode(named[v], k) && |rn.obs[v]| == c
    {
      ObsToNodeContents(d, k);
      ObsToNodeContents(x, k);
      ObsToNodeContents(y, k);
      ObsToNodeContents(s, k);
      ObsToNodeContents(n, k);
      NodeObsValues(k, vars);
      forall v | v in vars ensures |ObsToNode(named[v], k)| == Count(index, k) {
        ObsToNodeContents(named[v], k);
      }
    }

    /** Each variable of a node is retrieved from its registered array. */
    lemma {:induction false} NodeObsValues(k: nat, vars: seq<string>)
      requires forall t :: 0 <= t < |vars| ==> vars[t] in named
      ensures forall v :: v in NodeObs(k, vars) ==> NodeObs(k, vars)[v] == ObsToNode(named[v], k)
    {
      if vars != [] {
        NodeObsValues(k, vars[..|vars| - 1]);
      }
    }

    /** Adding one more variable to a node is building it with one more name. */
    lemma BuildNodeSnoc(k: nat, vars: seq<string>, j: nat)
      requires j < |vars| && forall t :: 0 <= t <= j ==> vars[t] in named
      ensures BuildNode(k, vars[..j + 1]) == BuildNode(k, vars[..j]).AddObs(vars[j], ObsToNode(named[vars[j]], k))
    {
      assert vars[..j + 1][..j] == vars[..j];
    }

    /** Builds the aggregate of node `k`: its intrinsic coordinates first,
        then each variable of `vars` in turn. */
    method LoadNode(k: nat, vars: seq<string>) returns (rn: RiverNode)
      requires forall t :: 0 <= t < |vars| ==> vars[t] in named
      ensures rn == BuildNode(k, vars)
    {
      rn := RiverNode(k, ObsToNode(d, k), ObsToNode(x, k), ObsToNode(y, k), ObsToNode(s, k), ObsToNode(n, k), map[]);
      var j := 0;
      while j < |vars|
        invariant 0 <= j <= |vars|
        invariant rn == BuildNode(k, vars[..j])
      {
        BuildNodeSnoc(k, vars, j);
        rn := rn.AddObs(vars[j], ObsToNode(named[vars[j]], k));
        j := j + 1;
      }
      assert vars[..j] == vars;
    }

    /** Materializes one aggregate per populated node, in ascending node
        order, each holding the variables `vars`, all of which must have been
        registered before. */
    method LoadNodes(vars: seq<string> := [])
      requires forall t :: 0 <= t < |vars| ==> vars[t] in named
      modifies this`riverNodes
      ensures riverNodes.Some? && |riverNodes.value| == |populatedNodes|
      ensures forall t :: 0 <= t < |populatedNodes| ==> riverNodes.value[t].id == populatedNodes[t]
      ensures forall t :: 0 <= t < |populatedNodes| ==> riverNodes.value[t] == BuildNode(populatedNodes[t], vars)
    {
      var nodes: seq<RiverNode> := [];
      var i := 0;
      while i < |populatedNodes|
        invariant 0 <= i <= |populatedNodes|
        invariant |nodes| == i
        invariant forall t :: 0 <= t < i ==> nodes[t] == BuildNode(populatedNodes[t], vars)
      {
        var rn := LoadNode(populatedNodes[i], vars);
        nodes := nodes + [rn];
        i := i + 1;
      }
      riverNodes := Some(nodes);
    }

    /** Applies `stat` to variable `variable` of every materialized node, in node
        order; the first failure is the result, as the node service's error
        propagates out of the loop. Before any nodes were loaded there is no
        node collection to iterate, and the lookup itself fails. */
    method GetNodeStat<V>(stat: (RiverNode, string) -> Result<V, string>, variable: string)
      returns (result: Result<seq<V>, string>)
      ensures riverNodes.None? ==> result == Failure(NotLoaded)
      ensures riverNodes.Some? ==> var nodes := riverNodes.value;
        && (result.Success? <==> forall i :: 0 <= i < |nodes| ==> stat(nodes[i], variable).Success?)
        && (result.Success? ==>
              && |result.value| == |nodes|
              && forall i :: 0 <= i < |nodes| ==> result.value[i] == stat(nodes[i], variable).value)
        && (result.Failure? ==>
              exists i :: 0 <= i < |nodes| && stat(nodes[i], variable) == Failure(result.error)
                && forall j :: 0 <= j < i ==> stat(nodes[j], variable).Success?)
    {
      if riverNodes.None? {
        return Failure(NotLoaded);
      }
      var nodes := riverNodes.value;
      var values: seq<V> := [];
      var i := 0;
      while i < |nodes|
        invariant 0 <= i <= |nodes|
        invariant |values| == i
        invariant forall j :: 0 <= j < i ==>
          stat(nodes[j], variable).Success? && values[j] == stat(nodes[j], variable).value
      {
        var r := stat(nodes[i], variable);
        if r.Failure? {
          return Failure(r.error);
        }
        values := values + [r.value];
        i := i + 1;
      }
      return Success(values);
    }
  }
}
