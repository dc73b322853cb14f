/**
 * The inverse of the observation-to-centerline index: which nodes are
 * populated, and which filtered observation positions belong to each.
 * The number of observations at node `k` is `Count(index, k)`.
 */
module NodeMapping {
  import opened Sequences

  /** Inserts `v` before the first element not smaller than it, unless it is
      already there. */
  function Insert(r: seq<nat>, v: nat): (r': seq<nat>)
    ensures forall k {:trigger k in r'} :: k in r' <==> k in r || k == v
  {
    if r == [] then [v]
    else if v < r[0] then [v] + r
    else if v == r[0] then r
    else [r[0]] + Insert(r[1..], v)
  }

  /** Putting `v` in front of an ascending sequence of larger elements keeps it ascending. */
  lemma Cons(v: nat, r: seq<nat>)
    requires StrictlyAscending(r)
    requires forall k :: k in r ==> v < k
    ensures StrictlyAscending([v] + r)
  {
    var res := [v] + r;
    forall i, j | 0 <= i < j < |res| ensures res[i] < res[j] {
      if i == 0 {
        assert r[j - 1] in r;
      }
    }
  }

  /** Inserting into an ascending sequence keeps it ascending and duplicate-free. */
  lemma {:induction false} InsertAscending(r: seq<nat>, v: nat)
    requires StrictlyAscending(r)
    ensures StrictlyAscending(Insert(r, v))
  {
    if r == [] {
    } else if v < r[0] {
      forall k | k in r ensures v < k {
        var i :| 0 <= i < |r| && r[i] == k;
      }
      Cons(v, r);
    } else if v > r[0] {
      InsertAscending(r[1..], v);
      forall k | k in Insert(r[1..], v) ensures r[0] < k {
        if k != v {
          var i :| 0 <= i < |r[1..]| && r[1..][i] == k;
        }
      }
      Cons(r[0], Insert(r[1..], v));
    }
  }

  /** The distinct node ids of `index` (numpy's `unique`; ascending, see UniqueAscending). */
  function Unique(index: seq<nat>): (r: seq<nat>)
    ensures forall k {:trigger k in r} :: k in r <==> k in index
  {
    if index == [] then []
    else
      var last := |index| - 1;
      assert index == index[..last] + [index[last]];
      Insert(Unique(index[..last]), index[last])
  }

  /** The distinct node ids come out in ascending order. */
  lemma {:induction false} UniqueAscending(index: seq<nat>)
    ensures StrictlyAscending(Unique(index))
  {
    if index != [] {
      var last := |index| - 1;
      UniqueAscending(index[..last]);
      InsertAscending(Unique(index[..last]), index[last]);
    }
  }

  /** A distinct node id is not met again before its own position. */
  lemma UniqueFresh(index: seq<nat>, i: nat)
    requires i < |Unique(index)|
    ensures Unique(index)[i] !in Unique(index)[..i]
  {
    UniqueAscending(index);
    AscendingFresh(Unique(index), i);
  }

  /** The nodes of `nodes`, in their order, that hold at least `minobs` observations. */
  function KeepPopulated(nodes: seq<nat>, index: seq<nat>, minobs: int): (r: seq<nat>)
    ensures forall k {:trigger k in r} :: k in r <==> k in nodes && Count(index, k) >= minobs
  {
    if nodes == [] then []
    else
      var last := |nodes| - 1;
      assert nodes == nodes[..last] + [nodes[last]];
      KeepPopulated(nodes[..last], index, minobs)
        + (if Count(index, nodes[last]) >= minobs then [nodes[last]] else [])
  }

  /** Keeping some nodes of an ascending sequence leaves it ascending. */
  lemma {:induction false} KeepAscending(nodes: seq<nat>, index: seq<nat>, minobs: int)
    requires StrictlyAscending(nodes)
    ensures StrictlyAscending(KeepPopulated(nodes, index, minobs))
  {
    if nodes != [] {
      var last := |nodes| - 1;
      assert StrictlyAscending(nodes[..last]);
      KeepAscending(nodes[..last], index, minobs);
      var front := KeepPopulated(nodes[..last], index, minobs);
      var r := KeepPopulated(nodes, index, minobs);
      assert r == front + (if Count(index, nodes[last]) >= minobs then [nodes[last]] else []);
      forall i | 0 <= i < |front| ensures front[i] < nodes[last] {
        assert front[i] in front;
        var j :| 0 <= j < last && nodes[..last][j] == front[i];
      }
    }
  }

  /** The populated nodes: those observed at least `minobs` times, ascending
      (see PopulatedAscending). */
  function PopulatedNodes(index: seq<nat>, minobs: int): (r: seq<nat>)
    ensures forall k {:trigger k in r} :: k in r <==> k in index && Count(index, k) >= minobs
  {
    KeepPopulated(Unique(index), index, minobs)
  }

  /** The populated nodes are listed in strictly ascending order. */
  lemma PopulatedAscending(index: seq<nat>, minobs: int)
    ensures StrictlyAscending(PopulatedNodes(index, minobs))
  {
    UniqueAscending(index);
    KeepAscending(Unique(index), index, minobs);
  }

  /** Node id to the ascending positions of its observations, for every node of
      `populated`, entered in the order of `populated` (see NodeMapAt). */
  function NodeMap(index: seq<nat>, populated: seq<nat>): (m: map<nat, seq<nat>>)
    ensures forall k {:trigger k in m} :: k in m <==> k in populated
  {
    if populated == [] then map[]
    else
      var last := |populated| - 1;
      NodeMap(index, populated[..last])[populated[last] := IndicesOf(index, populated[last])]
  }

  /** The map has an entry exactly for the nodes of `populated`, and each entry
      lists the positions of that node. */
  lemma {:induction false} NodeMapAt(index: seq<nat>, populated: seq<nat>, k: nat)
    ensures k in NodeMap(index, populated) <==> k in populated
    ensures k in populated ==> NodeMap(index, populated)[k] == IndicesOf(index, k)
  {
    if populated != [] {
      var last := |populated| - 1;
      NodeMapAt(index, populated[..last], k);
      assert populated == populated[..last] + [populated[last]];
    }
  }

  /** The dense per-centerline-point count: a node's population when it meets
      `minobs`, else 0 (a node that is never observed has population 0). */
  function NodeCount(index: seq<nat>, minobs: int, k: nat): (c: nat)
    ensures c > 0 <==> k in index && Count(index, k) >= minobs
    ensures c > 0 ==> c == Count(index, k)
  {
    CountPositive(index, k);
    if Count(index, k) >= minobs then Count(index, k) else 0
  }

  /** The dense count is positive exactly at the populated nodes, where it is
      the node's population. */
  lemma NodeCountPopulated(index: seq<nat>, minobs: int, k: nat)
    ensures NodeCount(index, minobs, k) > 0 <==> k in PopulatedNodes(index, minobs)
    ensures k in PopulatedNodes(index, minobs) ==> NodeCount(index, minobs, k) == Count(index, k)
  {
    CountPositive(index, k);
  }

  /** The count recorded for node `k` after visiting the first `i` of `nodes`:
      its dense count once it has been visited, 0 before. */
  function CountAfter(nodes: seq<nat>, i: nat, index: seq<nat>, minobs: int, k: nat): (c: nat)
    requires i <= |nodes|
  {
    if i == 0 then 0
    else if nodes[i - 1] == k then NodeCount(index, minobs, k)
    else CountAfter(nodes, i - 1, index, minobs, k)
  }

  /** After visiting a prefix, exactly the visited nodes have their dense count. */
  lemma {:induction false} CountAfterAt(nodes: seq<nat>, i: nat, index: seq<nat>, minobs: int, k: nat)
    requires i <= |nodes|
    ensures CountAfter(nodes, i, index, minobs, k) == if k in nodes[..i] then NodeCount(index, minobs, k) else 0
  {
    if i > 0 {
      CountAfterAt(nodes, i - 1, index, minobs, k);
      assert nodes[..i] == nodes[..i - 1] + [nodes[i - 1]];
    }
  }

  /** Filtering by `minobs` keeps the order of the nodes it keeps. */
  lemma KeepSnoc(nodes: seq<nat>, x: nat, index: seq<nat>, minobs: int)
    ensures KeepPopulated(nodes + [x], index, minobs)
         == KeepPopulated(nodes, index, minobs) + (if Count(index, x) >= minobs then [x] else [])
  {
    assert (nodes + [x])[..|nodes|] == nodes;
  }

  /** One more step of the ascending visit of `nodes`: the kept prefix grows by
      the visited node exactly when it is populated. */
  lemma KeepStep(nodes: seq<nat>, i: nat, index: seq<nat>, minobs: int)
    requires i < |nodes|
    ensures KeepPopulated(nodes[..i + 1], index, minobs)
         == KeepPopulated(nodes[..i], index, minobs) + (if Count(index, nodes[i]) >= minobs then [nodes[i]] else [])
  {
    assert nodes[..i + 1] == nodes[..i] + [nodes[i]];
    KeepSnoc(nodes[..i], nodes[i], index, minobs);
  }

  /** Recording one more populated node adds its position list to the map. */
  lemma NodeMapSnoc(index: seq<nat>, populated: seq<nat>, node: nat)
    ensures NodeMap(index, populated + [node]) == NodeMap(index, populated)[node := IndicesOf(index, node)]
  {
    assert (populated + [node])[..|populated|] == populated;
  }

  /** Raising the threshold from `lo` to `hi` only removes nodes: the survivors of
      `hi` are what `hi` keeps of the survivors of `lo`, in the same order. */
  lemma {:induction false} RaiseThreshold(nodes: seq<nat>, index: seq<nat>, lo: int, hi: int)
    requires lo <= hi
    ensures KeepPopulated(KeepPopulated(nodes, index, lo), index, hi) == KeepPopulated(nodes, index, hi)
  {
    if nodes != [] {
      var last := |nodes| - 1;
      var x := nodes[last];
      RaiseThreshold(nodes[..last], index, lo, hi);
      var front := KeepPopulated(nodes[..last], index, lo);
      assert KeepPopulated(nodes, index, lo) == front + (if Count(index, x) >= lo then [x] else []);
      assert KeepPopulated(nodes, index, hi)
          == KeepPopulated(nodes[..last], index, hi) + (if Count(index, x) >= hi then [x] else []);
      if Count(index, x) >= lo {
        KeepSnoc(front, x, index, hi);
      } else {
        assert front + [] == front;
      }
    }
  }

  /** Raising `minobs` can only remove populated nodes, never add or reorder them. */
  lemma PopulatedMonotone(index: seq<nat>, lo: int, hi: int)
    requires lo <= hi
    ensures KeepPopulated(PopulatedNodes(index, lo), index, hi) == PopulatedNodes(index, hi)
    ensures forall k :: k in PopulatedNodes(index, hi) ==> k in PopulatedNodes(index, lo)
  {
    RaiseThreshold(Unique(index), index, lo, hi);
  }

  /** The map holds, for each populated node, all and only its observation positions,
      ascending and without repeats, and as many of them as the node's count. */
  lemma NodeMapContents(index: seq<nat>, minobs: int, k: nat)
    requires k in PopulatedNodes(index, minobs)
    ensures var m := NodeMap(index, PopulatedNodes(index, minobs));
      && k in m
      && StrictlyAscending(m[k])
      && |m[k]| == Count(index, k) >= minobs
      && (forall j :: j in m[k] <==> 0 <= j < |index| && index[j] == k)
  {
    NodeMapAt(index, PopulatedNodes(index, minobs), k);
    IndicesOfCount(index, k);
    IndicesOfAscending(index, k);
  }

  /** Each observation of a populated node is listed under that node and under no other. */
  lemma NodeMapPartition(index: seq<nat>, populated: seq<nat>, j: nat)
    requires j < |index| && index[j] in populated
    ensures var m := NodeMap(index, populated);
      index[j] in m && j in m[index[j]] && forall k :: k in m && k != index[j] ==> j !in m[k]
  {
    NodeMapAt(index, populated, index[j]);
    forall k | k in NodeMap(index, populated) && k != index[j]
      ensures j !in NodeMap(index, populated)[k]
    {
      NodeMapAt(index, populated, k);
    }
  }

  /** Total population of `nodes`, counted with multiplicity. */
  function SumCounts(nodes: seq<nat>, index: seq<nat>): (total: nat) {
    if nodes == [] then 0
    else SumCounts(nodes[..|nodes| - 1], index) + Count(index, nodes[|nodes| - 1])
  }

  /** The number of positions of `index` whose node is one of `nodes`. */
  function CountIn(index: seq<nat>, nodes: seq<nat>): (c: nat) {
    if index == [] then 0
    else CountIn(index[..|index| - 1], nodes) + (if index[|index| - 1] in nodes then 1 else 0)
  }

  /** Appending one observation grows the population of duplicate-free `nodes`
      by one exactly when its node is among them. */
  lemma {:induction false} SumCountsSnoc(nodes: seq<nat>, index: seq<nat>, x: nat)
    requires StrictlyAscending(nodes)
    ensures SumCounts(nodes, index + [x]) == SumCounts(nodes, index) + (if x in nodes then 1 else 0)
  {
    if nodes != [] {
      var last := |nodes| - 1;
      SumCountsSnoc(nodes[..last], index, x);
      CountSnoc(index, x, nodes[last]);
      assert nodes == nodes[..last] + [nodes[last]];
      assert x == nodes[last] ==> x !in nodes[..last];
    }
  }

  /** The position lists of the populated nodes, with multiplicity, cover exactly the
      filtered observations whose node is populated. */
  lemma {:induction false} SumCountsIsCoverage(nodes: seq<nat>, index: seq<nat>)
    requires StrictlyAscending(nodes)
    ensures SumCounts(nodes, index) == CountIn(index, nodes)
  {
    if index == [] {
      SumCountsEmpty(nodes);
    } else {
      var last := |index| - 1;
      SumCountsIsCoverage(nodes, index[..last]);
      assert index == index[..last] + [index[last]];
      SumCountsSnoc(nodes, index[..last], index[last]);
    }
  }

  /** No observations, no population. */
  lemma {:induction false} SumCountsEmpty(nodes: seq<nat>)
    ensures SumCounts(nodes, []) == 0
  {
    if nodes != [] {
      SumCountsEmpty(nodes[..|nodes| - 1]);
    }
  }
}
