/**
 * The greedy path partition of `VertexDag::get_paths` (src/graph.rs), on graph values: the
 * nodes are ranked by the `y` coordinate of their position, and from each node not yet seen,
 * in rank order, a walk repeatedly moves to the lowest-ranked neighbour not seen yet. Walks of
 * at least two nodes are kept.
 */
module PathPartition {
  import opened Obj
  import opened Graphs

  /** The sort key of node `v`: the `y` coordinate of its position. */
  function Height(nodes: seq<ObjVertex>, v: nat): real
    requires v < |nodes|
  {
    nodes[v].position.1
  }

  /** `order` lists every node index once, by non-decreasing height. */
  ghost predicate SortedOrder(order: seq<nat>, nodes: seq<ObjVertex>)
  {
    && |order| == |nodes|
    && (forall i | 0 <= i < |order| :: order[i] < |nodes|)
    && Distinct(order)
    && (forall v | 0 <= v < |nodes| :: v in order)
    && (forall i, j | 0 <= i < j < |order| :: Height(nodes, order[i]) <= Height(nodes, order[j]))
  }

  /**
   * `node_indices().sorted_unstable_by(..)` on the heights, as an insertion sort. The source
   * leaves the order of equal heights open; this sort keeps them in index order.
   */
  method SortByHeight(nodes: seq<ObjVertex>) returns (order: seq<nat>)
    ensures SortedOrder(order, nodes)
  {
    order := [];
    for i := 0 to |nodes|
      invariant |order| == i
      invariant forall k | 0 <= k < |order| :: order[k] < i
      invariant forall k, l | 0 <= k < l < |order| :: order[k] != order[l]
      invariant forall v | 0 <= v < i :: v in order
      invariant forall k, l | 0 <= k < l < |order| :: Height(nodes, order[k]) <= Height(nodes, order[l])
    {
      var p := 0;
      while p < |order| && Height(nodes, order[p]) <= Height(nodes, i)
        invariant 0 <= p <= |order|
        invariant forall k | 0 <= k < p :: Height(nodes, order[k]) <= Height(nodes, i)
      {
        p := p + 1;
      }
      InsertKeepsSorted(nodes, order, p, i);
      order := order[..p] + [i] + order[p..];
    }
  }

  lemma InsertKeepsSorted(nodes: seq<ObjVertex>, order: seq<nat>, p: nat, i: nat)
    requires i < |nodes| && p <= |order|
    requires forall k | 0 <= k < |order| :: order[k] < i
    requires forall k, l | 0 <= k < l < |order| :: order[k] != order[l]
    requires forall v | 0 <= v < i :: v in order
    requires forall k, l | 0 <= k < l < |order| :: Height(nodes, order[k]) <= Height(nodes, order[l])
    requires forall k | 0 <= k < p :: Height(nodes, order[k]) <= Height(nodes, i)
    requires p < |order| ==> Height(nodes, i) < Height(nodes, order[p])
    ensures var o := order[..p] + [i] + order[p..];
            && (forall k | 0 <= k < |o| :: o[k] < i + 1)
            && (forall k, l | 0 <= k < l < |o| :: o[k] != o[l])
            && (forall v | 0 <= v < i + 1 :: v in o)
            && (forall k, l | 0 <= k < l < |o| :: Height(nodes, o[k]) <= Height(nodes, o[l]))
  {
    var o := order[..p] + [i] + order[p..];
    assert |o| == |order| + 1;
    assert forall k | 0 <= k < p :: o[k] == order[k];
    assert o[p] == i;
    assert forall k | p < k < |o| :: o[k] == order[k - 1];
    forall k, l | 0 <= k < l < |o| ensures o[k] != o[l] && Height(nodes, o[k]) <= Height(nodes, o[l]) {
      if l < p {
        assert o[k] == order[k] && o[l] == order[l];
      } else if l == p {
        assert o[k] == order[k];
      } else if k < p {
        assert o[k] == order[k] && o[l] == order[l - 1];
      } else if k == p {
        assert o[l] == order[l - 1] && Height(nodes, order[p]) <= Height(nodes, order[l - 1]);
      } else {
        assert o[k] == order[k - 1] && o[l] == order[l - 1];
      }
    }
    forall v | 0 <= v < i + 1 ensures v in o {
      if v < i {
        var k := Rank(order, v);
        if k < p {
          assert o[k] == v;
        } else {
          assert o[k + 1] == v;
        }
      } else {
        assert o[p] == v;
      }
    }
  }

  /** The position of `v` in `order`: `sorted_indices.iter().position(|&n| n == v)`. */
  function Rank(order: seq<nat>, v: nat): (r: nat)
    requires v in order
    ensures r < |order| && order[r] == v
  {
    if order[0] == v then 0 else Rank(order[1..], v) + 1
  }

  /** In a list without repetitions, the rank of the entry at `k` is `k`. */
  lemma {:induction false} RankAt(order: seq<nat>, k: nat)
    requires k < |order| && Distinct(order)
    ensures Rank(order, order[k]) == k
  {
    if k > 0 {
      assert order[0] != order[k];
      RankAt(order[1..], k - 1);
    }
  }

  /** A node ranked at or above `r` is not among the first `r` entries, and conversely. */
  lemma RankBelow(order: seq<nat>, v: nat, r: nat)
    requires v in order && r <= |order| && Distinct(order)
    ensures v in Elements(order[..r]) <==> Rank(order, v) < r
  {
    if v in Elements(order[..r]) {
      var k :| 0 <= k < r && order[..r][k] == v;
      RankAt(order, k);
    }
  }

  /** The neighbour sets `adj` name only nodes below `n`. */
  ghost predicate AdjacencyOf(adj: seq<set<nat>>, n: nat)
  {
    forall v | 0 <= v < |adj| :: forall c | c in adj[v] :: c < n
  }

  /** The nodes on the paths `ps`. */
  function NodesOf(ps: seq<seq<nat>>): set<nat>
  {
    if ps == [] then {} else NodesOf(ps[..|ps| - 1]) + Elements(ps[|ps| - 1])
  }

  lemma {:induction false} NodesOfMember(ps: seq<seq<nat>>, i: nat, j: nat)
    requires i < |ps| && j < |ps[i]|
    ensures ps[i][j] in NodesOf(ps)
    decreases |ps|
  {
    if i < |ps| - 1 {
      NodesOfMember(ps[..|ps| - 1], i, j);
    }
  }

  lemma NodesOfAppend(ps: seq<seq<nat>>, p: seq<nat>)
    ensures NodesOf(ps + [p]) == NodesOf(ps) + Elements(p)
  {
    assert (ps + [p])[..|ps|] == ps;
  }

  /** `next` is the lowest-ranked of `cands` (`min_by_key` over the rank). */
  predicate Lowest(order: seq<nat>, cands: set<nat>, next: nat)
  {
    && next in cands && next in order
    && forall c | c in cands :: c in order && Rank(order, next) <= Rank(order, c)
  }

  lemma {:induction false} LowestExists(order: seq<nat>, cands: set<nat>) returns (next: nat)
    requires cands != {} && forall c | c in cands :: c in order
    ensures Lowest(order, cands, next)
    decreases |cands|
  {
    var x :| x in cands;
    if cands == {x} {
      next := x;
    } else {
      var m := LowestExists(order, cands - {x});
      next := if Rank(order, x) <= Rank(order, m) then x else m;
    }
  }

  predicate Distinct(p: seq<nat>)
  {
    forall j, l | 0 <= j < l < |p| :: p[j] != p[l]
  }

  /** No node of `p` had been seen (is in `before`) when the walk began. */
  ghost predicate Unseen(order: seq<nat>, before: set<nat>, p: seq<nat>)
  {
    forall x | x in p :: x in order && x !in before
  }

  /** Each node of `p` is a neighbour of the one before it. */
  ghost predicate Linked(adj: seq<set<nat>>, p: seq<nat>)
  {
    forall j | 0 <= j < |p| - 1 :: p[j] < |adj| && p[j + 1] in adj[p[j]]
  }

  /** Every neighbour of `prv` that was not yet seen ranks no lower than `next`. */
  ghost predicate LowestUnseen(adj: seq<set<nat>>, order: seq<nat>, seen: set<nat>, prv: nat, next: nat)
  {
    && prv < |adj| && next in order
    && forall c | c in adj[prv] :: c in seen || (c in order && Rank(order, next) <= Rank(order, c))
  }

  /** Each step of `p` went to the lowest-ranked neighbour not seen at that point. */
  ghost predicate LowestSteps(adj: seq<set<nat>>, order: seq<nat>, before: set<nat>, p: seq<nat>)
  {
    forall j | 1 <= j < |p| :: LowestUnseen(adj, order, before + Elements(p[..j]), p[j - 1], p[j])
  }

  /**
   * The walk `p` was built greedily while the nodes in `before` were already seen: its nodes
   * are distinct and were unseen, each is a neighbour of the one before, and no step passed
   * over an unseen neighbour of lower rank.
   */
  ghost predicate GreedyWalk(adj: seq<set<nat>>, order: seq<nat>, before: set<nat>, p: seq<nat>)
  {
    Distinct(p) && Unseen(order, before, p) && Linked(adj, p) && LowestSteps(adj, order, before, p)
  }

  /** The walk `p` stopped because every neighbour of its last node had been seen. */
  ghost predicate Ended(adj: seq<set<nat>>, before: set<nat>, p: seq<nat>)
  {
    p != [] && (p[|p| - 1] < |adj| ==> adj[p[|p| - 1]] <= before + Elements(p))
  }

  /** What had been seen when path `i` began: every node ranked below its start, and the earlier paths. */
  function Before(order: seq<nat>, paths: seq<seq<nat>>, i: nat): set<nat>
    requires i < |paths| && paths[i] != [] && paths[i][0] in order
  {
    Elements(order[..Rank(order, paths[i][0])]) + NodesOf(paths[..i])
  }

  /** Path `i` of `paths` is a greedy walk of at least two nodes that ended, begun above the previous path's start. */
  ghost predicate PathAt(adj: seq<set<nat>>, order: seq<nat>, paths: seq<seq<nat>>, i: nat)
    requires i < |paths|
  {
    && |paths[i]| >= 2 && paths[i][0] in order
    && GreedyWalk(adj, order, Before(order, paths, i), paths[i])
    && Ended(adj, Before(order, paths, i), paths[i])
    && (i > 0 ==> paths[i - 1] != [] && paths[i - 1][0] in order && Rank(order, paths[i - 1][0]) < Rank(order, paths[i][0]))
  }

  /** Every path of `paths` is a greedy walk begun at its turn. */
  ghost predicate EachPathGreedy(adj: seq<set<nat>>, order: seq<nat>, paths: seq<seq<nat>>)
  {
    forall i | 0 <= i < |paths| :: PathAt(adj, order, paths, i)
  }

  /** The paths before index `i` began before turn `k`, and the others at turn `k` or later. */
  ghost predicate SplitAt(order: seq<nat>, paths: seq<seq<nat>>, i: nat, k: nat)
  {
    && i <= |paths|
    && forall j | 0 <= j < |paths| :: paths[j] != [] && paths[j][0] in order && (j < i <==> Rank(order, paths[j][0]) < k)
  }

  /** What had been seen at turn `k`, once the paths before index `i` had been walked. */
  function SeenAt(order: seq<nat>, paths: seq<seq<nat>>, k: nat, i: nat): set<nat>
    requires k <= |order| && i <= |paths|
  {
    Elements(order[..k]) + NodesOf(paths[..i])
  }

  /**
   * The turn of `order[k]`, with the paths before index `i` walked: it began path `i` exactly
   * when it had not been seen and had a neighbour not seen yet.
   */
  ghost predicate TurnOutcome(adj: seq<set<nat>>, order: seq<nat>, paths: seq<seq<nat>>, k: nat, i: nat)
    requires k < |order| && i <= |paths|
  {
    var seen := SeenAt(order, paths, k, i);
    (i < |paths| && paths[i] != [] && paths[i][0] == order[k])
    <==> (order[k] !in seen && order[k] < |adj| && adj[order[k]] - (seen + {order[k]}) != {})
  }

  /** Every turn before `n` went as `TurnOutcome` says. */
  ghost predicate CompleteBelow(adj: seq<set<nat>>, order: seq<nat>, paths: seq<seq<nat>>, n: nat)
    requires n <= |order|
  {
    forall k, i | 0 <= k < n && 0 <= i <= |paths| && SplitAt(order, paths, i, k) :: TurnOutcome(adj, order, paths, k, i)
  }

  /**
   * The result of `get_paths` for the neighbour sets `adj` and the node ranking `order`: the
   * paths are greedy walks, and a node began one exactly when, at its turn, it was unseen and
   * had an unseen neighbour.
   */
  ghost predicate GreedyPaths(adj: seq<set<nat>>, order: seq<nat>, paths: seq<seq<nat>>)
  {
    EachPathGreedy(adj, order, paths) && CompleteBelow(adj, order, paths, |order|)
  }

  /** The state of the outer loop after the first `k` entries of `order`. */
  ghost predicate OuterInv(adj: seq<set<nat>>, order: seq<nat>, k: nat, seen: set<nat>, paths: seq<seq<nat>>)
  {
    && k <= |order|
    && seen == Elements(order[..k]) + NodesOf(paths)
    && EachPathGreedy(adj, order, paths)
    && (forall i | 0 <= i < |paths| :: paths[i] != [] && paths[i][0] in order && Rank(order, paths[i][0]) < k)
    && CompleteBelow(adj, order, paths, k)
  }

  /** The state of the inner loop that grows `path` from `order[k]`. */
  ghost predicate InnerInv(adj: seq<set<nat>>, order: seq<nat>, k: nat, seen: set<nat>, paths: seq<seq<nat>>, path: seq<nat>)
  {
    && k < |order| && path != [] && path[0] == order[k]
    && seen == Elements(order[..k]) + NodesOf(paths) + Elements(path)
    && GreedyWalk(adj, order, Elements(order[..k]) + NodesOf(paths), path)
  }

  /**
   * The loops of `get_paths` on the neighbour sets `adj` of the mesh graph and the nodes
   * `nodes` of the directed graph. `order` is the ranking the sort produced.
   */
  method GreedyPartition(nodes: seq<ObjVertex>, adj: seq<set<nat>>) returns (paths: seq<seq<nat>>, order: seq<nat>)
    requires |adj| == |nodes| && AdjacencyOf(adj, |nodes|)
    ensures SortedOrder(order, nodes)
    ensures GreedyPaths(adj, order, paths)
  {
    var sorted := SortByHeight(nodes);
    order := sorted;
    paths := [];
    var seen: set<nat> := {};
    assert sorted[..0] == [];
    for k := 0 to |sorted|
      invariant OuterInv(adj, sorted, k, seen, paths)
    {
      var start := sorted[k];
      if start in seen {
        SkipSeen(adj, sorted, k, seen, paths);
        continue;
      }
      ghost var before := seen;
      var path, prv;
      path, seen, prv := WalkFrom(adj, sorted, k, seen, paths);
      if prv != start {
        KeepPath(adj, sorted, k, before, seen, paths, path);
        paths := paths + [path];
      } else {
        DropWalk(adj, sorted, k, before, seen, paths, path);
      }
    }
  }

  /**
   * The inner `while let` of `get_paths`: the walk from `order[k]` that moves to the
   * lowest-ranked unseen neighbour until there is none. `prv` is where it stopped.
   */
  method WalkFrom(adj: seq<set<nat>>, order: seq<nat>, k: nat, seen0: set<nat>, ghost paths: seq<seq<nat>>)
    returns (path: seq<nat>, seen: set<nat>, prv: nat)
    requires OuterInv(adj, order, k, seen0, paths) && k < |order| && order[k] !in seen0
    requires AdjacencyOf(adj, |adj|) && forall v | 0 <= v < |adj| :: v in order
    requires order[k] < |adj|
    ensures InnerInv(adj, order, k, seen, paths, path) && prv == path[|path| - 1]
    ensures prv < |adj| && adj[prv] <= seen
  {
    var start := order[k];
    StartFresh(adj, order, k, seen0, paths);
    path := [start];
    seen := seen0 + {start};
    prv := start;
    while true
      invariant InnerInv(adj, order, k, seen, paths, path) && prv == path[|path| - 1]
      invariant prv < |adj|
      decreases Elements(order) - seen
    {
      var cands := set c | c in adj[prv] && c !in seen;
      if cands == {} {
        assert forall c | c in adj[prv] :: c in seen || c in cands;
        break;
      }
      ghost var lowest := LowestExists(order, cands);
      var next :| Lowest(order, cands, next);
      GrowWalk(adj, order, k, seen, paths, path, next);
      ghost var len := |path|;
      seen := seen + {next};
      path := path + [next];
      assert |path| - 1 == len && path[len] == next;
      prv := next;
    }
  }

  lemma SkipSeen(adj: seq<set<nat>>, order: seq<nat>, k: nat, seen: set<nat>, paths: seq<seq<nat>>)
    requires OuterInv(adj, order, k, seen, paths) && k < |order| && order[k] in seen
    ensures OuterInv(adj, order, k + 1, seen, paths)
  {
    assert order[..k + 1] == order[..k] + [order[k]];
    assert Elements(order[..k + 1]) == Elements(order[..k]) + {order[k]};
    TurnWithoutPath(adj, order, k, paths);
  }

  /** Turn `k` began no path because `order[k]` was seen or had no unseen neighbour. */
  lemma TurnWithoutPath(adj: seq<set<nat>>, order: seq<nat>, k: nat, paths: seq<seq<nat>>)
    requires k < |order| && CompleteBelow(adj, order, paths, k)
    requires forall i | 0 <= i < |paths| :: paths[i] != [] && paths[i][0] in order && Rank(order, paths[i][0]) < k
    requires var seen := Elements(order[..k]) + NodesOf(paths);
             !(order[k] !in seen && order[k] < |adj| && adj[order[k]] - (seen + {order[k]}) != {})
    ensures CompleteBelow(adj, order, paths, k + 1)
  {
    forall k', i | 0 <= k' < k + 1 && 0 <= i <= |paths| && SplitAt(order, paths, i, k')
      ensures TurnOutcome(adj, order, paths, k', i)
    {
      if k' == k {
        if |paths| > 0 {
          assert |paths| - 1 < i;
        }
        assert i == |paths| && paths[..i] == paths;
      }
    }
  }

  /** A path begun at turn `k` leaves the outcome of every earlier turn as it was. */
  lemma CompleteAppend(adj: seq<set<nat>>, order: seq<nat>, k: nat, paths: seq<seq<nat>>, path: seq<nat>)
    requires k < |order| && Distinct(order) && CompleteBelow(adj, order, paths, k)
    requires forall i | 0 <= i < |paths| :: paths[i] != [] && paths[i][0] in order && Rank(order, paths[i][0]) < k
    requires path != [] && path[0] == order[k]
    ensures CompleteBelow(adj, order, paths + [path], k)
  {
    var ps := paths + [path];
    RankAt(order, k);
    forall k', i | 0 <= k' < k && 0 <= i <= |ps| && SplitAt(order, ps, i, k')
      ensures TurnOutcome(adj, order, ps, k', i)
    {
      assert ps[|paths|][0] == order[k];
      assert !(Rank(order, ps[|paths|][0]) < k');
      assert i <= |paths|;
      assert ps[..i] == paths[..i];
      assert SplitAt(order, paths, i, k') by {
        forall j | 0 <= j < |paths| ensures ps[j] == paths[j] {}
      }
      assert SeenAt(order, ps, k', i) == SeenAt(order, paths, k', i);
      assert TurnOutcome(adj, order, paths, k', i);
      assert order[k] != order[k'];
      if i < |paths| {
        assert ps[i] == paths[i];
      }
    }
  }

  /** The turn that began `path` went as `TurnOutcome` says. */
  lemma TurnWithPath(adj: seq<set<nat>>, order: seq<nat>, k: nat, paths: seq<seq<nat>>, path: seq<nat>)
    requires k < |order| && Distinct(order) && CompleteBelow(adj, order, paths + [path], k)
    requires forall i | 0 <= i < |paths| :: paths[i] != [] && paths[i][0] in order && Rank(order, paths[i][0]) < k
    requires |path| >= 2 && path[0] == order[k] && path[0] < |adj| && path[1] in adj[path[0]]
    requires path[1] != path[0] && path[0] !in Elements(order[..k]) + NodesOf(paths)
    requires path[1] !in Elements(order[..k]) + NodesOf(paths)
    ensures CompleteBelow(adj, order, paths + [path], k + 1)
  {
    var ps := paths + [path];
    RankAt(order, k);
    forall k', i | 0 <= k' < k + 1 && 0 <= i <= |ps| && SplitAt(order, ps, i, k')
      ensures TurnOutcome(adj, order, ps, k', i)
    {
      if k' == k {
        assert ps[|paths|][0] == order[k];
        assert !(Rank(order, ps[|paths|][0]) < k);
        if |paths| > 0 {
          assert ps[|paths| - 1] == paths[|paths| - 1];
          assert |paths| - 1 < i;
        }
        assert i == |paths| && ps[..i] == paths;
        assert path[1] in adj[order[k]] - (SeenAt(order, ps, k, i) + {order[k]});
      }
    }
  }

  lemma StartFresh(adj: seq<set<nat>>, order: seq<nat>, k: nat, seen: set<nat>, paths: seq<seq<nat>>)
    requires OuterInv(adj, order, k, seen, paths) && k < |order| && order[k] !in seen
    ensures InnerInv(adj, order, k, seen + {order[k]}, paths, [order[k]])
  {
    assert Elements([order[k]]) == {order[k]};
  }

  lemma GrowWalk(adj: seq<set<nat>>, order: seq<nat>, k: nat, seen: set<nat>, paths: seq<seq<nat>>, path: seq<nat>, next: nat)
    requires InnerInv(adj, order, k, seen, paths, path) && path[|path| - 1] < |adj|
    requires Lowest(order, (set c | c in adj[path[|path| - 1]] && c !in seen), next)
    ensures InnerInv(adj, order, k, seen + {next}, paths, path + [next])
  {
    var before := Elements(order[..k]) + NodesOf(paths);
    var last := path[|path| - 1];
    assert next in adj[last] && next !in seen;
    assert LowestUnseen(adj, order, before + Elements(path), last, next) by {
      forall c | c in adj[last] && c !in seen
        ensures c in order && Rank(order, next) <= Rank(order, c)
      {
        assert c in (set c | c in adj[last] && c !in seen);
      }
    }
    ExtendWalk(adj, order, before, path, next);
    assert Elements(path + [next]) == Elements(path) + {next};
  }

  /** A greedy walk stays greedy when it moves to the lowest-ranked unseen neighbour. */
  lemma ExtendWalk(adj: seq<set<nat>>, order: seq<nat>, before: set<nat>, path: seq<nat>, next: nat)
    requires GreedyWalk(adj, order, before, path) && path != []
    requires next in order && next !in before + Elements(path)
    requires path[|path| - 1] < |adj| && next in adj[path[|path| - 1]]
    requires LowestUnseen(adj, order, before + Elements(path), path[|path| - 1], next)
    ensures GreedyWalk(adj, order, before, path + [next])
  {
    var p := path + [next];
    assert Distinct(p) by {
      forall j, l | 0 <= j < l < |p| ensures p[j] != p[l] {
        assert p[j] == path[j];
        if l < |path| {
          assert p[l] == path[l];
        } else {
          assert path[j] in Elements(path);
        }
      }
    }
    assert Unseen(order, before, p) by {
      forall x | x in p ensures x in order && x !in before {
        if x != next {
          assert x in path;
        }
      }
    }
    assert Linked(adj, p) by {
      forall j | 0 <= j < |p| - 1 ensures p[j] < |adj| && p[j + 1] in adj[p[j]] {
        assert p[j] == path[j];
        if j < |path| - 1 {
          assert p[j + 1] == path[j + 1];
        }
      }
    }
    assert LowestSteps(adj, order, before, p) by {
      forall j | 1 <= j < |p|
        ensures LowestUnseen(adj, order, before + Elements(p[..j]), p[j - 1], p[j])
      {
        if j < |path| {
          assert p[..j] == path[..j];
        } else {
          assert p[..j] == path;
        }
      }
    }
  }

  lemma KeepPath(adj: seq<set<nat>>, order: seq<nat>, k: nat, before: set<nat>, seen: set<nat>, paths: seq<seq<nat>>, path: seq<nat>)
    requires OuterInv(adj, order, k, before, paths) && Distinct(order)
    requires InnerInv(adj, order, k, seen, paths, path) && |path| >= 2
    requires path[|path| - 1] < |adj| && adj[path[|path| - 1]] <= seen
    ensures OuterInv(adj, order, k + 1, seen, paths + [path])
  {
    var ps := paths + [path];
    NodesOfAppend(paths, path);
    assert order[..k + 1] == order[..k] + [order[k]];
    assert Elements(order[..k + 1]) == Elements(order[..k]) + {order[k]};
    KeptPathsGreedy(adj, order, k, before, seen, paths, path);
    RankAt(order, k);
    assert forall i | 0 <= i < |paths| :: ps[i] == paths[i];
    CompleteAppend(adj, order, k, paths, path);
    assert path[1] != path[0] && path[0] < |adj| && path[1] in adj[path[0]] by {
      assert Distinct(path) && Linked(adj, path);
    }
    assert path[0] !in before && path[1] !in before by {
      assert Unseen(order, before, path);
      assert path[0] in path && path[1] in path;
    }
    TurnWithPath(adj, order, k, paths, path);
  }

  lemma KeptPathsGreedy(adj: seq<set<nat>>, order: seq<nat>, k: nat, before: set<nat>, seen: set<nat>, paths: seq<seq<nat>>, path: seq<nat>)
    requires OuterInv(adj, order, k, before, paths) && Distinct(order)
    requires InnerInv(adj, order, k, seen, paths, path) && |path| >= 2
    requires path[|path| - 1] < |adj| && adj[path[|path| - 1]] <= seen
    ensures EachPathGreedy(adj, order, paths + [path])
  {
    NewPathAt(adj, order, k, before, seen, paths, path);
    forall i | 0 <= i < |paths|
      ensures PathAt(adj, order, paths + [path], i)
    {
      EarlierPathAt(adj, order, paths, path, i);
    }
  }

  lemma NewPathAt(adj: seq<set<nat>>, order: seq<nat>, k: nat, before: set<nat>, seen: set<nat>, paths: seq<seq<nat>>, path: seq<nat>)
    requires OuterInv(adj, order, k, before, paths) && Distinct(order)
    requires InnerInv(adj, order, k, seen, paths, path) && |path| >= 2
    requires path[|path| - 1] < |adj| && adj[path[|path| - 1]] <= seen
    ensures PathAt(adj, order, paths + [path], |paths|)
  {
    var ps := paths + [path];
    RankAt(order, k);
    assert ps[..|paths|] == paths;
    assert Before(order, ps, |paths|) == Elements(order[..k]) + NodesOf(paths);
    if |paths| > 0 {
      assert PathAt(adj, order, paths, |paths| - 1);
    }
  }

  lemma EarlierPathAt(adj: seq<set<nat>>, order: seq<nat>, paths: seq<seq<nat>>, path: seq<nat>, i: nat)
    requires i < |paths| && PathAt(adj, order, paths, i)
    ensures PathAt(adj, order, paths + [path], i)
  {
    var ps := paths + [path];
    assert ps[..i] == paths[..i];
    assert Before(order, ps, i) == Before(order, paths, i);
  }

  lemma DropWalk(adj: seq<set<nat>>, order: seq<nat>, k: nat, before: set<nat>, seen: set<nat>, paths: seq<seq<nat>>, path: seq<nat>)
    requires OuterInv(adj, order, k, before, paths)
    requires InnerInv(adj, order, k, seen, paths, path) && |path| == 1
    requires path[0] < |adj| && adj[path[0]] <= seen
    ensures OuterInv(adj, order, k + 1, seen, paths)
  {
    assert order[..k + 1] == order[..k] + [order[k]];
    assert Elements(path) == {order[k]};
    assert Elements(order[..k + 1]) == Elements(order[..k]) + {order[k]};
    TurnWithoutPath(adj, order, k, paths);
  }

  /** The neighbour sets of the nodes `0 .. n - 1` of the mesh graph `u`. */
  function Adjacency(u: Graph, n: nat): (adj: seq<set<nat>>)
    ensures |adj| == n && forall v | 0 <= v < n :: adj[v] == Neighbours(u, v)
  {
    seq(n, v requires 0 <= v < n => Neighbours(u, v))
  }

  lemma AdjacencyBounded(u: Graph, n: nat)
    requires u.WellFormed() && |u.nodes| <= n
    ensures AdjacencyOf(Adjacency(u, n), n)
  {
    RangeMembers(|u.nodes|);
    forall v | 0 <= v < n ensures Neighbours(u, v) <= Range(|u.nodes|) {
      StepInNodes(u, {v}, false);
    }
  }

  /** Paths begin in increasing rank. */
  lemma {:induction false} StartsIncrease(adj: seq<set<nat>>, order: seq<nat>, paths: seq<seq<nat>>, j: nat, l: nat)
    requires EachPathGreedy(adj, order, paths) && j < l < |paths|
    ensures PathAt(adj, order, paths, j) && PathAt(adj, order, paths, l)
    ensures Rank(order, paths[j][0]) < Rank(order, paths[l][0])
    decreases l - j
  {
    assert PathAt(adj, order, paths, l);
    if j < l - 1 {
      StartsIncrease(adj, order, paths, j, l - 1);
    }
  }

  /**
   * At every turn `k` of `get_paths`, `order[k]` began a path exactly when it was unseen and had
   * an unseen neighbour, where "seen" counts the nodes ranked before it and the nodes of the
   * paths begun before it.
   */
  lemma TurnOutcomeAt(adj: seq<set<nat>>, order: seq<nat>, paths: seq<seq<nat>>, k: nat) returns (i: nat)
    requires GreedyPaths(adj, order, paths) && k < |order|
    ensures SplitAt(order, paths, i, k) && TurnOutcome(adj, order, paths, k, i)
  {
    forall j | 0 <= j < |paths| ensures paths[j] != [] && paths[j][0] in order {
      assert PathAt(adj, order, paths, j);
    }
    i := 0;
    while i < |paths| && Rank(order, paths[i][0]) < k
      invariant i <= |paths|
      invariant forall j | 0 <= j < i :: Rank(order, paths[j][0]) < k
    {
      i := i + 1;
    }
    forall j | 0 <= j < |paths| ensures j < i <==> Rank(order, paths[j][0]) < k {
      if j > i {
        StartsIncrease(adj, order, paths, i, j);
      }
    }
    assert SplitAt(order, paths, i, k);
  }

  /** No node lies on two paths, nor twice on one. */
  lemma PathsDisjoint(adj: seq<set<nat>>, order: seq<nat>, paths: seq<seq<nat>>, i: nat, a: nat, j: nat, b: nat)
    requires GreedyPaths(adj, order, paths)
    requires i < |paths| && a < |paths[i]| && j < |paths| && b < |paths[j]|
    requires i != j || a != b
    ensures paths[i][a] != paths[j][b]
  {
    assert PathAt(adj, order, paths, i) && PathAt(adj, order, paths, j);
    if i < j {
      NodesOfMember(paths[..j], i, a);
    } else if j < i {
      NodesOfMember(paths[..i], j, b);
    }
  }

  /** Each path starts at its lowest node: no node of the path ranks, or lies, below its first. */
  lemma StartIsLowest(nodes: seq<ObjVertex>, adj: seq<set<nat>>, order: seq<nat>, paths: seq<seq<nat>>, i: nat, j: nat)
    requires SortedOrder(order, nodes) && GreedyPaths(adj, order, paths)
    requires i < |paths| && j < |paths[i]|
    ensures paths[i][0] < |nodes| && paths[i][j] < |nodes|
    ensures Rank(order, paths[i][0]) <= Rank(order, paths[i][j])
    ensures Height(nodes, paths[i][0]) <= Height(nodes, paths[i][j])
  {
    var p := paths[i];
    assert PathAt(adj, order, paths, i);
    assert p[j] in p && p[0] in p;
    RankBelow(order, p[j], Rank(order, p[0]));
    var r0, rj := Rank(order, p[0]), Rank(order, p[j]);
    if r0 < rj {
      assert Height(nodes, order[r0]) <= Height(nodes, order[rj]);
    }
  }

  /** Consecutive nodes of a path are mesh neighbours. */
  lemma PathsFollowEdges(u: Graph, n: nat, order: seq<nat>, paths: seq<seq<nat>>, i: nat, j: nat)
    requires GreedyPaths(Adjacency(u, n), order, paths)
    requires i < |paths| && j + 1 < |paths[i]|
    ensures paths[i][j + 1] in Neighbours(u, paths[i][j])
  {
    assert PathAt(Adjacency(u, n), order, paths, i);
  }
}
