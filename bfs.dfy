/** Breadth-first traversal of an adjacency map (arithmetic/bfs.py).

    `Bfs` is the imperative loop: a FIFO queue (`stack` in the source) taken
    from the front and appended at the back, a `seen` set marked when a vertex
    is enqueued, and the output `scan`.  `BfsOrder` is the same computation as
    a function; the lemmas below prove what that order is. */
module Bfs {
  import opened Graphs

  /** What `bfs(graph, star)` does: return the visit order, or stop with
      Python's KeyError on the first dequeued vertex that is not a key. */
  datatype Traversal<V> = Scan(order: seq<V>) | KeyError(key: V)

  // ---------------------------------------------------------------------------
  // The traversal as functions

  /** The inner `for ver in vers` loop from position `t` on: every neighbour
      not yet seen is appended to the queue and marked seen, in list order. */
  function Expand<V>(vers: seq<V>, t: nat, queue: seq<V>, seen: set<V>): (r: (seq<V>, set<V>))
    requires t <= |vers|
    ensures seen <= r.1
    ensures forall w :: w in r.1 && w !in seen ==> w in vers
    ensures r.1 == seen ==> r.0 == queue
    decreases |vers| - t
  {
    if t == |vers| then (queue, seen)
    else if vers[t] in seen then Expand(vers, t + 1, queue, seen)
    else Expand(vers, t + 1, queue + [vers[t]], seen + {vers[t]})
  }

  /** Marking a neighbour of `cur` shrinks the set of vertices still unseen. */
  lemma Shrinks<V>(g: Graph<V>, cur: V, seen: set<V>, seen': set<V>)
    requires cur in g && seen <= seen'
    requires forall w :: w in seen' && w !in seen ==> w in g[cur]
    ensures seen' == seen || Targets(g) - seen' < Targets(g) - seen
  {
    if seen' != seen {
      var w :| w in seen' && w !in seen;
      assert w in Targets(g);
    }
  }

  /** The outer `while len(stack)` loop from the given state. */
  function Run<V>(g: Graph<V>, queue: seq<V>, seen: set<V>, scan: seq<V>): Traversal<V>
    decreases Targets(g) - seen, |queue|
  {
    if queue == [] then Scan(scan)
    else
      var cur := queue[0];
      if cur !in g then KeyError(cur)
      else
        var next := Expand(g[cur], 0, queue[1..], seen);
        Shrinks(g, cur, seen, next.1);
        Run(g, next.0, next.1, scan + [cur])
  }

  /** `bfs(graph, star)`: start with `star` queued and seen, nothing output. */
  function BfsOrder<V>(g: Graph<V>, star: V): Traversal<V> {
    Run(g, [star], {star}, [])
  }

  // ---------------------------------------------------------------------------
  // The traversal as the source writes it

  /** `bfs(graph, star)`: the loop keeps `Inv`, which at the exit and at the
      failing lookup gives `Sound`; it computes exactly `BfsOrder`. */
  method Bfs<V(!new)>(graph: Graph<V>, star: V) returns (r: Traversal<V>)
    ensures Sound(graph, star, r)
    ensures r == BfsOrder(graph, star)
  {
    var seen: set<V> := {star};
    var queue: seq<V> := [star];
    var scan: seq<V> := [];
    ghost var par: seq<nat>, pos: seq<nat> := [0], [0];
    InitInv(graph, star);
    while |queue| > 0
      invariant Inv(graph, star, scan, queue, seen, par, pos)
      invariant Run(graph, queue, seen, scan) == BfsOrder(graph, star)
      decreases Targets(graph) - seen, |queue|
    {
      var cur := queue[0];
      ghost var queue1 := queue;
      queue := queue[1..];
      if cur !in graph {
        assert Reachable(graph, star, cur);
        return KeyError(cur);
      }
      StartInner(graph, star, scan, queue1, seen, par, pos);
      var vers := graph[cur];
      ghost var queue0, seen0 := queue, seen;
      for i := 0 to |vers|
        invariant Expand(vers, i, queue, seen) == Expand(vers, 0, queue0, seen0)
      {
        var ver := vers[i];
        if ver !in seen {
          queue := queue + [ver];
          seen := seen + {ver};
        }
      }
      par, pos := ExpandSound(graph, star, scan, cur, queue0, seen0, par, pos, 0);
      FinishInner(graph, star, scan, cur, queue, seen, par, pos);
      Shrinks(graph, cur, seen0, seen);
      scan := scan + [cur];
    }
    FinalSound(graph, star, scan, seen, par, pos);
    return Scan(scan);
  }

  // ---------------------------------------------------------------------------
  // What a breadth-first order is

  /** Every vertex after the first was found as neighbour number `pos[j]` of
      the earlier vertex `D[par[j]]`. */
  ghost predicate TreeEdges<V>(g: Graph<V>, D: seq<V>, par: seq<nat>, pos: seq<nat>) {
    && |par| == |D| && |pos| == |D|
    && forall j :: 0 < j < |D| ==>
         && par[j] < j && D[par[j]] in g
         && pos[j] < |g[D[par[j]]]| && g[D[par[j]]][pos[j]] == D[j]
  }

  /** First in, first out: the children of an earlier vertex come before those
      of a later one, and the children of one vertex come in adjacency order. */
  ghost predicate FifoOrder(par: seq<nat>, pos: seq<nat>) {
    forall i, j :: 0 < i < j < |par| && j < |pos| ==>
      par[i] < par[j] || (par[i] == par[j] && pos[i] < pos[j])
  }

  /** Each vertex's tree parent is the first vertex of `D` whose adjacency
      list holds it, and its position there is the first one that holds it:
      no earlier vertex lists it, and no earlier neighbour of the parent is it. */
  ghost predicate FirstFound<V>(g: Graph<V>, D: seq<V>, par: seq<nat>, pos: seq<nat>) {
    forall j :: 0 < j < |D| && j < |par| && j < |pos| && par[j] < |D| && D[par[j]] in g
                && pos[j] <= |g[D[par[j]]]| ==>
      && (forall i :: 0 <= i < par[j] && D[i] in g ==> D[j] !in g[D[i]])
      && (forall k :: 0 <= k < pos[j] ==> g[D[par[j]]][k] != D[j])
  }

  ghost predicate AllReachable<V>(g: Graph<V>, s: V, D: seq<V>) {
    forall j :: 0 <= j < |D| ==> Reachable(g, s, D[j])
  }

  /** Each tree edge goes one level further from the start: the tree is a
      shortest-path tree. */
  ghost predicate ShortestTree<V>(g: Graph<V>, s: V, D: seq<V>, par: seq<nat>) {
    && AllReachable(g, s, D)
    && forall j :: 0 < j < |D| && j < |par| && par[j] < |D| ==>
         Dist(g, s, D[j]) == Dist(g, s, D[par[j]]) + 1
  }

  /** The distance from the start never decreases along `D`. */
  ghost predicate LevelSorted<V>(g: Graph<V>, s: V, D: seq<V>) {
    && AllReachable(g, s, D)
    && forall i, j :: 0 <= i < j < |D| ==> Dist(g, s, D[i]) <= Dist(g, s, D[j])
  }

  /** `D` starts at `s`, repeats nothing, and is a breadth-first order whose
      search tree is given by `par` and `pos`. */
  ghost predicate Discovered<V>(g: Graph<V>, s: V, D: seq<V>, par: seq<nat>, pos: seq<nat>) {
    && |D| > 0 && D[0] == s
    && NoDup(D)
    && TreeEdges(g, D, par, pos)
    && FifoOrder(par, pos)
    && FirstFound(g, D, par, pos)
    && ShortestTree(g, s, D, par)
    && LevelSorted(g, s, D)
  }

  /** What `bfs` promises: the order is breadth-first from `s`, holds exactly
      the reachable vertices, all of them keys; or the KeyError names a
      reachable vertex that is not a key. */
  ghost predicate Sound<V(!new)>(g: Graph<V>, s: V, r: Traversal<V>) {
    match r
    case Scan(order) =>
      && (exists par, pos :: Discovered(g, s, order, par, pos))
      && (forall v :: v in order <==> Reachable(g, s, v))
      && (forall v :: v in order ==> v in g)
    case KeyError(k) => Reachable(g, s, k) && k !in g
  }

  // ---------------------------------------------------------------------------
  // Loop invariants

  /** Every output vertex is a key whose neighbours have all been seen. */
  ghost predicate Closed<V>(g: Graph<V>, scan: seq<V>, seen: set<V>) {
    && (forall i :: 0 <= i < |scan| ==> scan[i] in g)
    && (forall u, w :: u in scan && u in g && w in g[u] ==> w in seen)
  }

  /** Every vertex closer to the start than `d` has been output. */
  ghost predicate SettledBelow<V(!new)>(g: Graph<V>, s: V, scan: seq<V>, d: nat) {
    forall v :: Reachable(g, s, v) && Dist(g, s, v) < d ==> v in scan
  }

  /** Between iterations of the outer loop: `scan + queue` is the discovery
      order, `seen` is exactly its set, and the queue spans at most two levels,
      everything below the front's level being output already. */
  ghost predicate Inv<V(!new)>(g: Graph<V>, s: V, scan: seq<V>, queue: seq<V>, seen: set<V>,
                         par: seq<nat>, pos: seq<nat>) {
    && Discovered(g, s, scan + queue, par, pos)
    && (forall v :: v in seen <==> v in scan + queue)
    && Closed(g, scan, seen)
    && (forall j :: 0 < j < |par| ==> par[j] < |scan|)
    && (queue != [] ==>
          && Reachable(g, s, queue[0])
          && (forall j :: 0 <= j < |queue| ==>
                Reachable(g, s, queue[j]) && Dist(g, s, queue[j]) <= Dist(g, s, queue[0]) + 1)
          && SettledBelow(g, s, scan, Dist(g, s, queue[0])))
  }

  /** Inside the inner loop, with `cur` dequeued and its first `t` neighbours
      handled. */
  ghost predicate InnerInv<V(!new)>(g: Graph<V>, s: V, scan: seq<V>, cur: V, queue: seq<V>,
                              seen: set<V>, par: seq<nat>, pos: seq<nat>, t: nat) {
    InnerState(g, s, scan, cur, scan + [cur] + queue, seen, par, pos, t)
  }

  /** `InnerInv` stated over the discovery order `D = scan + [cur] + queue`. */
  ghost predicate InnerState<V(!new)>(g: Graph<V>, s: V, scan: seq<V>, cur: V, D: seq<V>,
                                seen: set<V>, par: seq<nat>, pos: seq<nat>, t: nat) {
    && Discovered(g, s, D, par, pos)
    && (forall v :: v in seen <==> v in D)
    && Closed(g, scan, seen)
    && |scan| < |D| && D[|scan|] == cur
    && (forall i :: 0 <= i < |scan| ==> D[i] == scan[i])
    && cur in g && t <= |g[cur]|
    && (forall i :: 0 <= i < t ==> g[cur][i] in seen)
    && |pos| == |par|
    && (forall j :: 0 < j < |par| ==> par[j] < |scan| || (par[j] == |scan| && pos[j] < t))
    && Reachable(g, s, cur)
    && (forall j :: 0 <= j < |D| ==> Reachable(g, s, D[j]) && Dist(g, s, D[j]) <= Dist(g, s, cur) + 1)
    && SettledBelow(g, s, scan, Dist(g, s, cur))
  }

  lemma InitInv<V(!new)>(g: Graph<V>, s: V)
    ensures Inv(g, s, [], [s], {s}, [0], [0])
  {
    DistZero(g, s, s);
    InitDiscovered(g, s);
    InitSeen(s);
  }

  lemma InitDiscovered<V(!new)>(g: Graph<V>, s: V)
    ensures Discovered(g, s, [] + [s], [0], [0])
  {
    DistZero(g, s, s);
    assert [] + [s] == [s];
    assert AllReachable(g, s, [s]);
  }

  lemma InitSeen<V>(s: V)
    ensures forall v :: v in {s} <==> v in [] + [s]
  {
    assert [] + [s] == [s];
  }

  /** The loop invariant of `bfs`: `seen` is the queue together with the
      output, and no vertex is both queued and output. */
  lemma InvSeen<V(!new)>(g: Graph<V>, s: V, scan: seq<V>, queue: seq<V>, seen: set<V>,
                         par: seq<nat>, pos: seq<nat>)
    requires Inv(g, s, scan, queue, seen, par, pos)
    ensures forall v :: v in seen <==> v in scan || v in queue
    ensures forall v :: v in queue ==> v !in scan
  {
    var D := scan + queue;
    forall v | v in queue
      ensures v !in scan
    {
      var k :| 0 <= k < |queue| && queue[k] == v;
      forall i | 0 <= i < |scan|
        ensures scan[i] != v
      {
        assert D[i] == scan[i] && D[|scan| + k] == v;
      }
    }
  }

  /** Every vertex no further than the current level has been seen. */
  lemma SeenUpTo<V(!new)>(g: Graph<V>, s: V, scan: seq<V>, seen: set<V>, d: nat)
    requires Closed(g, scan, seen) && s in seen
    requires SettledBelow(g, s, scan, d)
    ensures forall v :: Reachable(g, s, v) && Dist(g, s, v) <= d ==> v in seen
  {
    forall v | Reachable(g, s, v) && Dist(g, s, v) <= d
      ensures v in seen
    {
      DistZero(g, s, v);
      if Dist(g, s, v) > 0 {
        var u := DistPred(g, s, v);
        assert u in scan;
      }
    }
  }

  lemma StartInner<V(!new)>(g: Graph<V>, s: V, scan: seq<V>, queue: seq<V>, seen: set<V>,
                      par: seq<nat>, pos: seq<nat>)
    requires Inv(g, s, scan, queue, seen, par, pos)
    requires queue != [] && queue[0] in g
    ensures InnerInv(g, s, scan, queue[0], queue[1..], seen, par, pos, 0)
  {
    var D := scan + queue;
    assert D == scan + [queue[0]] + queue[1..];
    forall x | x in D
      ensures Reachable(g, s, x) && Dist(g, s, x) <= Dist(g, s, queue[0]) + 1
    {
      var k :| 0 <= k < |D| && D[k] == x;
      if k >= |scan| {
        assert x == queue[k - |scan|];
      } else {
        assert D[|scan|] == queue[0];
      }
    }
  }

  lemma AppendNoDup<V>(D: seq<V>, w: V)
    requires NoDup(D) && w !in D
    ensures NoDup(D + [w])
  {
    var D' := D + [w];
    forall i, j | 0 <= i < j < |D'|
      ensures D'[i] != D'[j]
    {
      assert D'[i] == D[i];
      if j < |D| { assert D'[j] == D[j]; }
    }
  }

  lemma AppendTree<V>(g: Graph<V>, D: seq<V>, par: seq<nat>, pos: seq<nat>, w: V, p: nat, t: nat)
    requires TreeEdges(g, D, par, pos)
    requires p < |D| && D[p] in g && t < |g[D[p]]| && g[D[p]][t] == w
    ensures TreeEdges(g, D + [w], par + [p], pos + [t])
  {
    var D', par', pos' := D + [w], par + [p], pos + [t];
    forall j | 0 < j < |D'|
      ensures && par'[j] < j && D'[par'[j]] in g
              && pos'[j] < |g[D'[par'[j]]]| && g[D'[par'[j]]][pos'[j]] == D'[j]
    {
      if j < |D| {
        assert D'[j] == D[j] && par'[j] == par[j] && pos'[j] == pos[j];
        assert D'[par[j]] == D[par[j]];
      } else {
        assert D'[p] == D[p];
      }
    }
  }

  lemma AppendFifo(par: seq<nat>, pos: seq<nat>, p: nat, t: nat)
    requires FifoOrder(par, pos) && |par| == |pos|
    requires forall j :: 0 < j < |par| ==> par[j] < p || (par[j] == p && pos[j] < t)
    ensures FifoOrder(par + [p], pos + [t])
  {
    var par', pos' := par + [p], pos + [t];
    forall i, j | 0 < i < j < |par'| && j < |pos'|
      ensures par'[i] < par'[j] || (par'[i] == par'[j] && pos'[i] < pos'[j])
    {
      assert par'[i] == par[i] && pos'[i] == pos[i];
      if j < |par| { assert par'[j] == par[j] && pos'[j] == pos[j]; }
    }
  }

  lemma AppendLevels<V(!new)>(g: Graph<V>, s: V, D: seq<V>, par: seq<nat>, w: V, p: nat)
    requires ShortestTree(g, s, D, par) && LevelSorted(g, s, D) && |par| == |D|
    requires forall j :: 0 < j < |D| ==> par[j] < j
    requires p < |D|
    requires Reachable(g, s, w) && Dist(g, s, w) == Dist(g, s, D[p]) + 1
    requires forall j :: 0 <= j < |D| ==> Dist(g, s, D[j]) <= Dist(g, s, w)
    ensures ShortestTree(g, s, D + [w], par + [p]) && LevelSorted(g, s, D + [w])
  {
    var D', par' := D + [w], par + [p];
    assert forall j :: 0 <= j < |D| ==> D'[j] == D[j] && par'[j] == par[j];
    assert AllReachable(g, s, D');
    forall j | 0 < j < |D'| && j < |par'| && par'[j] < |D'|
      ensures Dist(g, s, D'[j]) == Dist(g, s, D'[par'[j]]) + 1
    {
      if j < |D| { assert D'[par[j]] == D[par[j]]; } else { assert D'[p] == D[p]; }
    }
    forall i, j | 0 <= i < j < |D'|
      ensures Dist(g, s, D'[i]) <= Dist(g, s, D'[j])
    {
    }
  }

  lemma AppendFirst<V>(g: Graph<V>, D: seq<V>, par: seq<nat>, pos: seq<nat>, w: V, p: nat, t: nat)
    requires FirstFound(g, D, par, pos) && |par| == |D| && |pos| == |D|
    requires forall j :: 0 < j < |D| ==> par[j] < j
    requires p < |D| && D[p] in g && t < |g[D[p]]|
    requires forall i :: 0 <= i < p && D[i] in g ==> w !in g[D[i]]
    requires forall k :: 0 <= k < t ==> g[D[p]][k] != w
    ensures FirstFound(g, D + [w], par + [p], pos + [t])
  {
    var D', par', pos' := D + [w], par + [p], pos + [t];
    assert forall i :: 0 <= i < |D| ==> D'[i] == D[i] && par'[i] == par[i] && pos'[i] == pos[i];
    forall j | 0 < j < |D'| && j < |par'| && j < |pos'| && par'[j] < |D'| && D'[par'[j]] in g
               && pos'[j] <= |g[D'[par'[j]]]|
      ensures forall i :: 0 <= i < par'[j] && D'[i] in g ==> D'[j] !in g[D'[i]]
      ensures forall k :: 0 <= k < pos'[j] ==> g[D'[par'[j]]][k] != D'[j]
    {
      if j < |D| {
        assert D'[par[j]] == D[par[j]];
      } else {
        assert D'[p] == D[p];
      }
    }
  }

  /** Appending a newly found vertex `w`, the neighbour number `t` of `D[p]`,
      keeps `D` a breadth-first discovery order. */
  lemma DiscoveredAppend<V(!new)>(g: Graph<V>, s: V, D: seq<V>, par: seq<nat>, pos: seq<nat>,
                            w: V, p: nat, t: nat)
    requires Discovered(g, s, D, par, pos)
    requires w !in D
    requires p < |D| && D[p] in g && t < |g[D[p]]| && g[D[p]][t] == w
    requires forall j :: 0 < j < |D| ==> par[j] < p || (par[j] == p && pos[j] < t)
    requires forall i :: 0 <= i < p && D[i] in g ==> w !in g[D[i]]
    requires forall k :: 0 <= k < t ==> g[D[p]][k] != w
    requires Reachable(g, s, w) && Dist(g, s, w) == Dist(g, s, D[p]) + 1
    requires forall j :: 0 <= j < |D| ==> Dist(g, s, D[j]) <= Dist(g, s, w)
    ensures Discovered(g, s, D + [w], par + [p], pos + [t])
  {
    AppendNoDup(D, w);
    AppendTree(g, D, par, pos, w, p, t);
    AppendFifo(par, pos, p, t);
    AppendFirst(g, D, par, pos, w, p, t);
    AppendLevels(g, s, D, par, w, p);
    assert (D + [w])[0] == s;
  }

  /** The neighbour `g[cur][t]` has been seen already: nothing changes. */
  lemma InnerStepSeen<V(!new)>(g: Graph<V>, s: V, scan: seq<V>, cur: V, D: seq<V>,
                               seen: set<V>, par: seq<nat>, pos: seq<nat>, t: nat)
    requires InnerState(g, s, scan, cur, D, seen, par, pos, t)
    requires t < |g[cur]| && g[cur][t] in seen
    ensures InnerState(g, s, scan, cur, D, seen, par, pos, t + 1)
  {
  }

  lemma AppendSeen<V(!new)>(D: seq<V>, seen: set<V>, w: V)
    requires forall v :: v in seen <==> v in D
    ensures forall v :: v in seen + {w} <==> v in D + [w]
  {
  }

  lemma ClosedGrows<V>(g: Graph<V>, scan: seq<V>, seen: set<V>, seen': set<V>)
    requires Closed(g, scan, seen) && seen <= seen'
    ensures Closed(g, scan, seen')
  {
  }

  lemma AppendBound<V(!new)>(g: Graph<V>, s: V, D: seq<V>, w: V, d: nat)
    requires forall j :: 0 <= j < |D| ==> Reachable(g, s, D[j]) && Dist(g, s, D[j]) <= d + 1
    requires Reachable(g, s, w) && Dist(g, s, w) == d + 1
    ensures forall j :: 0 <= j < |D + [w]| ==>
      Reachable(g, s, (D + [w])[j]) && Dist(g, s, (D + [w])[j]) <= d + 1
  {
    assert forall j :: 0 <= j < |D| ==> (D + [w])[j] == D[j];
  }

  lemma AppendParent(par: seq<nat>, pos: seq<nat>, p: nat, t: nat)
    requires |pos| == |par|
    requires forall j :: 0 < j < |par| ==> par[j] < p || (par[j] == p && pos[j] < t)
    ensures forall j :: 0 < j < |par + [p]| ==>
      (par + [p])[j] < p || ((par + [p])[j] == p && (pos + [t])[j] < t + 1)
  {
    assert forall j :: 0 <= j < |par| ==> (par + [p])[j] == par[j] && (pos + [t])[j] == pos[j];
  }

  /** A vertex not yet seen is in no adjacency list of an output vertex. */
  lemma Unlisted<V>(g: Graph<V>, scan: seq<V>, D: seq<V>, seen: set<V>, w: V)
    requires Closed(g, scan, seen) && w !in seen
    requires |scan| <= |D| && forall i :: 0 <= i < |scan| ==> D[i] == scan[i]
    ensures forall i :: 0 <= i < |scan| && D[i] in g ==> w !in g[D[i]]
  {
    assert forall i :: 0 <= i < |scan| ==> D[i] in scan;
  }

  /** The neighbour `w = g[cur][t]` is new: it is queued, seen, and becomes a
      child of `cur` one level further out. */
  lemma InnerStepNew<V(!new)>(g: Graph<V>, s: V, scan: seq<V>, cur: V, D: seq<V>,
                              seen: set<V>, par: seq<nat>, pos: seq<nat>, t: nat)
    requires InnerState(g, s, scan, cur, D, seen, par, pos, t)
    requires t < |g[cur]| && g[cur][t] !in seen
    ensures var w := g[cur][t];
      InnerState(g, s, scan, cur, D + [w], seen + {w}, par + [|scan|], pos + [t], t + 1)
  {
    var w := g[cur][t];
    NewDiscovered(g, s, scan, cur, D, seen, par, pos, t);
    NewBookkeeping(g, s, scan, cur, D, seen, par, pos, t);
  }

  /** The new neighbour extends the discovery order. */
  lemma NewDiscovered<V(!new)>(g: Graph<V>, s: V, scan: seq<V>, cur: V, D: seq<V>,
                               seen: set<V>, par: seq<nat>, pos: seq<nat>, t: nat)
    requires InnerState(g, s, scan, cur, D, seen, par, pos, t)
    requires t < |g[cur]| && g[cur][t] !in seen
    ensures Discovered(g, s, D + [g[cur][t]], par + [|scan|], pos + [t])
  {
    var w := g[cur][t];
    DistEdge(g, s, cur, w);
    SeenUpTo(g, s, scan, seen, Dist(g, s, cur));
    assert w !in D;
    Unlisted(g, scan, D, seen, w);
    DiscoveredAppend(g, s, D, par, pos, w, |scan|, t);
  }

  /** The rest of `InnerState` after queuing the new neighbour. */
  lemma NewBookkeeping<V(!new)>(g: Graph<V>, s: V, scan: seq<V>, cur: V, D: seq<V>,
                                seen: set<V>, par: seq<nat>, pos: seq<nat>, t: nat)
    requires InnerState(g, s, scan, cur, D, seen, par, pos, t)
    requires t < |g[cur]| && g[cur][t] !in seen
    ensures var w, D' := g[cur][t], D + [g[cur][t]];
      && (forall v :: v in seen + {w} <==> v in D')
      && Closed(g, scan, seen + {w})
      && |scan| < |D'| && D'[|scan|] == cur
      && (forall i :: 0 <= i < |scan| ==> D'[i] == scan[i])
      && (forall i :: 0 <= i < t + 1 ==> g[cur][i] in seen + {w})
      && (forall j :: 0 < j < |par + [|scan|]| ==>
            (par + [|scan|])[j] < |scan| || ((par + [|scan|])[j] == |scan| && (pos + [t])[j] < t + 1))
      && (forall j :: 0 <= j < |D'| ==> Reachable(g, s, D'[j]) && Dist(g, s, D'[j]) <= Dist(g, s, cur) + 1)
  {
    var w := g[cur][t];
    var p := |scan|;
    DistEdge(g, s, cur, w);
    SeenUpTo(g, s, scan, seen, Dist(g, s, cur));
    assert (D + [w])[p] == cur;
    assert forall i :: 0 <= i < p ==> (D + [w])[i] == scan[i];
    AppendSeen(D, seen, w);
    ClosedGrows(g, scan, seen, seen + {w});
    AppendParent(par, pos, p, t);
    AppendBound(g, s, D, w, Dist(g, s, cur));
  }

  lemma FinishInner<V(!new)>(g: Graph<V>, s: V, scan: seq<V>, cur: V, queue: seq<V>,
                       seen: set<V>, par: seq<nat>, pos: seq<nat>)
    requires cur in g
    requires InnerInv(g, s, scan, cur, queue, seen, par, pos, |g[cur]|)
    ensures Inv(g, s, scan + [cur], queue, seen, par, pos)
  {
    var D := scan + [cur] + queue;
    var scan' := scan + [cur];
    assert D == scan' + queue;
    assert D[|scan|] == cur;
    assert Closed(g, scan', seen) by {
      forall u, w | u in scan' && u in g && w in g[u]
        ensures w in seen
      {
        if u == cur {
          var i :| 0 <= i < |g[cur]| && g[cur][i] == w;
        }
      }
    }
    if queue != [] {
      var d := Dist(g, s, cur);
      assert D[|scan'|] == queue[0];
      var d' := Dist(g, s, queue[0]);
      assert d <= d' <= d + 1;
      forall j | 0 <= j < |queue|
        ensures Reachable(g, s, queue[j]) && Dist(g, s, queue[j]) <= d' + 1
      {
        assert queue[j] == D[|scan'| + j];
      }
      assert SettledBelow(g, s, scan', d') by {
        SeenUpTo(g, s, scan, seen, d);
        forall v | Reachable(g, s, v) && Dist(g, s, v) < d'
          ensures v in scan'
        {
        }
      }
    }
  }

  /** One iteration of the inner loop keeps `InnerInv` and leaves the rest of
      the loop's result unchanged. */
  lemma InnerStep<V(!new)>(g: Graph<V>, s: V, scan: seq<V>, cur: V, queue: seq<V>,
                           seen: set<V>, par: seq<nat>, pos: seq<nat>, t: nat)
    returns (queue': seq<V>, seen': set<V>, par': seq<nat>, pos': seq<nat>)
    requires InnerInv(g, s, scan, cur, queue, seen, par, pos, t) && t < |g[cur]|
    ensures InnerInv(g, s, scan, cur, queue', seen', par', pos', t + 1)
    ensures Expand(g[cur], t + 1, queue', seen') == Expand(g[cur], t, queue, seen)
  {
    var w := g[cur][t];
    var D := scan + [cur] + queue;
    if w in seen {
      InnerStepSeen(g, s, scan, cur, D, seen, par, pos, t);
      queue', seen', par', pos' := queue, seen, par, pos;
    } else {
      InnerStepNew(g, s, scan, cur, D, seen, par, pos, t);
      queue', seen', par', pos' := queue + [w], seen + {w}, par + [|scan|], pos + [t];
      assert scan + [cur] + queue' == D + [w];
    }
  }

  lemma {:induction false} ExpandSound<V(!new)>(g: Graph<V>, s: V, scan: seq<V>, cur: V, queue: seq<V>,
                                          seen: set<V>, par: seq<nat>, pos: seq<nat>, t: nat)
    returns (par': seq<nat>, pos': seq<nat>)
    requires cur in g && t <= |g[cur]|
    requires InnerInv(g, s, scan, cur, queue, seen, par, pos, t)
    ensures InnerInv(g, s, scan, cur, Expand(g[cur], t, queue, seen).0,
                     Expand(g[cur], t, queue, seen).1, par', pos', |g[cur]|)
    decreases |g[cur]| - t
  {
    if t == |g[cur]| {
      par', pos' := par, pos;
    } else {
      var queue1, seen1, par1, pos1 := InnerStep(g, s, scan, cur, queue, seen, par, pos, t);
      par', pos' := ExpandSound(g, s, scan, cur, queue1, seen1, par1, pos1, t + 1);
    }
  }

  lemma FinalSound<V(!new)>(g: Graph<V>, s: V, scan: seq<V>, seen: set<V>, par: seq<nat>, pos: seq<nat>)
    requires Inv(g, s, scan, [], seen, par, pos)
    ensures Sound(g, s, Scan(scan))
  {
    assert scan + [] == scan;
    assert s in seen by { assert scan[0] == s; }
    forall v | Reachable(g, s, v)
      ensures v in scan
    {
      var k: nat :| Within(g, s, v, k);
      ClosedHoldsReachable(g, s, seen, v, k);
    }
    assert forall v :: v in scan ==> Reachable(g, s, v) by {
      assert AllReachable(g, s, scan);
    }
  }

  lemma {:induction false} RunSound<V(!new)>(g: Graph<V>, s: V, scan: seq<V>, queue: seq<V>, seen: set<V>,
                                       par: seq<nat>, pos: seq<nat>)
    requires Inv(g, s, scan, queue, seen, par, pos)
    ensures Sound(g, s, Run(g, queue, seen, scan))
    decreases Targets(g) - seen, |queue|
  {
    if queue == [] {
      FinalSound(g, s, scan, seen, par, pos);
    } else {
      var cur := queue[0];
      assert (scan + queue)[|scan|] == cur;
      if cur in g {
        StartInner(g, s, scan, queue, seen, par, pos);
        var par', pos' := ExpandSound(g, s, scan, cur, queue[1..], seen, par, pos, 0);
        var next := Expand(g[cur], 0, queue[1..], seen);
        FinishInner(g, s, scan, cur, next.0, next.1, par', pos');
        Shrinks(g, cur, seen, next.1);
        RunSound(g, s, scan + [cur], next.0, next.1, par', pos');
      }
    }
  }

  // ---------------------------------------------------------------------------
  // Properties of bfs(graph, star)

  /** The whole contract of `bfs`, from which the lemmas below are read off. */
  lemma BfsOrderSound<V(!new)>(g: Graph<V>, star: V)
    ensures Sound(g, star, BfsOrder(g, star))
  {
    InitInv(g, star);
    RunSound(g, star, [], [star], {star}, [0], [0]);
  }

  /** The output starts with the start vertex (arithmetic/bfs.py:16-17, 21-28). */
  lemma BfsStartsAtStar<V(!new)>(g: Graph<V>, star: V)
    ensures BfsOrder(g, star).Scan? ==>
      |BfsOrder(g, star).order| > 0 && BfsOrder(g, star).order[0] == star
  {
    BfsOrderSound(g, star);
  }

  /** No vertex is output twice. */
  lemma BfsNoDuplicates<V(!new)>(g: Graph<V>, star: V)
    ensures BfsOrder(g, star).Scan? ==> NoDup(BfsOrder(g, star).order)
  {
    BfsOrderSound(g, star);
  }

  /** The output holds exactly the vertices reachable from the start. */
  lemma BfsVisitsReachable<V(!new)>(g: Graph<V>, star: V, v: V)
    ensures BfsOrder(g, star).Scan? ==>
      (v in BfsOrder(g, star).order <==> Reachable(g, star, v))
  {
    BfsOrderSound(g, star);
  }

  /** The lookup `graph[cur]` fails exactly when some reachable vertex is not a
      key, and the failing key is such a vertex. */
  lemma BfsKeyError<V(!new)>(g: Graph<V>, star: V)
    ensures BfsOrder(g, star).KeyError? <==> exists v :: Reachable(g, star, v) && v !in g
    ensures BfsOrder(g, star).KeyError? ==>
      Reachable(g, star, BfsOrder(g, star).key) && BfsOrder(g, star).key !in g
  {
    BfsOrderSound(g, star);
    if BfsOrder(g, star).Scan? {
      var order := BfsOrder(g, star).order;
      forall v | Reachable(g, star, v)
        ensures v in g
      {
        assert v in order;
      }
    }
  }

  /** Breadth-first: the distance from the start never decreases along the
      output. */
  lemma BfsLevelOrder<V(!new)>(g: Graph<V>, star: V, i: nat, j: nat)
    requires BfsOrder(g, star).Scan? && i <= j < |BfsOrder(g, star).order|
    ensures Reachable(g, star, BfsOrder(g, star).order[i])
    ensures Reachable(g, star, BfsOrder(g, star).order[j])
    ensures Dist(g, star, BfsOrder(g, star).order[i]) <= Dist(g, star, BfsOrder(g, star).order[j])
  {
    BfsOrderSound(g, star);
    var order := BfsOrder(g, star).order;
    var par, pos :| Discovered(g, star, order, par, pos);
    assert LevelSorted(g, star, order);
  }

  /** Every vertex after the first is a neighbour of an earlier one, found along
      a shortest path; the vertices found from one parent come in its
      adjacency-list order, and those of an earlier parent come first; and the
      parent is the first output vertex listing it, at the first position that
      holds it. */
  lemma BfsTreeOrder<V(!new)>(g: Graph<V>, star: V)
    requires BfsOrder(g, star).Scan?
    ensures exists par, pos ::
      && TreeEdges(g, BfsOrder(g, star).order, par, pos)
      && FifoOrder(par, pos)
      && FirstFound(g, BfsOrder(g, star).order, par, pos)
      && ShortestTree(g, star, BfsOrder(g, star).order, par)
  {
    BfsOrderSound(g, star);
  }

  /** On `{A: [B, C], B: [F], C: [D, F]}` the order A, B, C, D, F with F a
      child of C is no breadth-first discovery: B, dequeued before C, lists F
      and queues it first. */
  lemma LateParentRejected()
    ensures var g := map["A" := ["B", "C"], "B" := ["F"], "C" := ["D", "F"], "D" := [], "F" := []];
      !FirstFound(g, ["A", "B", "C", "D", "F"], [0, 0, 0, 2, 2], [0, 0, 1, 0, 1])
  {
    var g := map["A" := ["B", "C"], "B" := ["F"], "C" := ["D", "F"], "D" := [], "F" := []];
    var D, par, pos := ["A", "B", "C", "D", "F"], [0, 0, 0, 2, 2], [0, 0, 1, 0, 1];
    assert D[par[4]] == "C" && |g["C"]| == 2;
    assert D[1] in g && D[4] in g[D[1]] && 1 < par[4];
    assert !FirstFound(g, D, par, pos);
  }

  /** Each key is output at most once, so the loop runs at most once per key. */
  lemma BfsLength<V(!new)>(g: Graph<V>, star: V)
    ensures BfsOrder(g, star).Scan? ==> |BfsOrder(g, star).order| <= |g.Keys|
  {
    BfsOrderSound(g, star);
    if BfsOrder(g, star).Scan? {
      NoDupLength(BfsOrder(g, star).order, g.Keys);
    }
  }

  // ---------------------------------------------------------------------------
  // The sample graph of arithmetic/bfs.py

  const Sample: Graph<string> := map[
    "A" := ["B", "C"],
    "B" := ["A", "C", "D"],
    "C" := ["A", "B", "D", "E"],
    "D" := ["B", "C", "E", "F"],
    "E" := ["C", "D"],
    "F" := ["D"]]

  /** Dequeuing "A" in the sample run. */
  lemma {:induction false} SampleStepA()
    ensures Run(Sample, ["A"], {"A"}, []) == Run(Sample, ["B", "C"], {"A", "B", "C"}, ["A"])
  {
    assert Expand(Sample["A"], 2, ["B", "C"], {"A", "B", "C"}) == (["B", "C"], {"A", "B", "C"});
    assert "C" !in {"A", "B"} && ["B"] + ["C"] == ["B", "C"] && {"A", "B"} + {"C"} == {"A", "B", "C"};
    assert Expand(Sample["A"], 1, ["B"], {"A", "B"}) == (["B", "C"], {"A", "B", "C"});
    assert "B" !in {"A"} && [] + ["B"] == ["B"] && {"A"} + {"B"} == {"A", "B"};
    assert Expand(Sample["A"], 0, [], {"A"}) == (["B", "C"], {"A", "B", "C"});
    assert ["A"][1..] == [] && [] + ["A"] == ["A"];
  }

  /** Dequeuing "B" in the sample run. */
  lemma {:induction false} SampleStepB()
    ensures Run(Sample, ["B", "C"], {"A", "B", "C"}, ["A"]) == Run(Sample, ["C", "D"], {"A", "B", "C", "D"}, ["A", "B"])
  {
    assert Expand(Sample["B"], 3, ["C", "D"], {"A", "B", "C", "D"}) == (["C", "D"], {"A", "B", "C", "D"});
    assert "D" !in {"A", "B", "C"} && ["C"] + ["D"] == ["C", "D"] && {"A", "B", "C"} + {"D"} == {"A", "B", "C", "D"};
    assert Expand(Sample["B"], 2, ["C"], {"A", "B", "C"}) == (["C", "D"], {"A", "B", "C", "D"});
    assert Expand(Sample["B"], 1, ["C"], {"A", "B", "C"}) == (["C", "D"], {"A", "B", "C", "D"});
    assert Expand(Sample["B"], 0, ["C"], {"A", "B", "C"}) == (["C", "D"], {"A", "B", "C", "D"});
    assert ["B", "C"][1..] == ["C"] && ["A"] + ["B"] == ["A", "B"];
  }

  /** Dequeuing "C" in the sample run. */
  lemma {:induction false} SampleStepC()
    ensures Run(Sample, ["C", "D"], {"A", "B", "C", "D"}, ["A", "B"]) == Run(Sample, ["D", "E"], {"A", "B", "C", "D", "E"}, ["A", "B", "C"])
  {
    assert Expand(Sample["C"], 4, ["D", "E"], {"A", "B", "C", "D", "E"}) == (["D", "E"], {"A", "B", "C", "D", "E"});
    assert "E" !in {"A", "B", "C", "D"} && ["D"] + ["E"] == ["D", "E"] && {"A", "B", "C", "D"} + {"E"} == {"A", "B", "C", "D", "E"};
    assert Expand(Sample["C"], 3, ["D"], {"A", "B", "C", "D"}) == (["D", "E"], {"A", "B", "C", "D", "E"});
    assert Expand(Sample["C"], 2, ["D"], {"A", "B", "C", "D"}) == (["D", "E"], {"A", "B", "C", "D", "E"});
    assert Expand(Sample["C"], 1, ["D"], {"A", "B", "C", "D"}) == (["D", "E"], {"A", "B", "C", "D", "E"});
    assert Expand(Sample["C"], 0, ["D"], {"A", "B", "C", "D"}) == (["D", "E"], {"A", "B", "C", "D", "E"});
    assert ["C", "D"][1..] == ["D"] && ["A", "B"] + ["C"] == ["A", "B", "C"];
  }

  /** Dequeuing "D" in the sample run. */
  lemma {:induction false} SampleStepD()
    ensures Run(Sample, ["D", "E"], {"A", "B", "C", "D", "E"}, ["A", "B", "C"]) == Run(Sample, ["E", "F"], {"A", "B", "C", "D", "E", "F"}, ["A", "B", "C", "D"])
  {
    assert Expand(Sample["D"], 4, ["E", "F"], {"A", "B", "C", "D", "E", "F"}) == (["E", "F"], {"A", "B", "C", "D", "E", "F"});
    assert "F" !in {"A", "B", "C", "D", "E"} && ["E"] + ["F"] == ["E", "F"] && {"A", "B", "C", "D", "E"} + {"F"} == {"A", "B", "C", "D", "E", "F"};
    assert Expand(Sample["D"], 3, ["E"], {"A", "B", "C", "D", "E"}) == (["E", "F"], {"A", "B", "C", "D", "E", "F"});
    assert Expand(Sample["D"], 2, ["E"], {"A", "B", "C", "D", "E"}) == (["E", "F"], {"A", "B", "C", "D", "E", "F"});
    assert Expand(Sample["D"], 1, ["E"], {"A", "B", "C", "D", "E"}) == (["E", "F"], {"A", "B", "C", "D", "E", "F"});
    assert Expand(Sample["D"], 0, ["E"], {"A", "B", "C", "D", "E"}) == (["E", "F"], {"A", "B", "C", "D", "E", "F"});
    assert ["D", "E"][1..] == ["E"] && ["A", "B", "C"] + ["D"] == ["A", "B", "C", "D"];
  }

  /** Dequeuing "E" in the sample run. */
  lemma {:induction false} SampleStepE()
    ensures Run(Sample, ["E", "F"], {"A", "B", "C", "D", "E", "F"}, ["A", "B", "C", "D"]) == Run(Sample, ["F"], {"A", "B", "C", "D", "E", "F"}, ["A", "B", "C", "D", "E"])
  {
    assert Expand(Sample["E"], 2, ["F"], {"A", "B", "C", "D", "E", "F"}) == (["F"], {"A", "B", "C", "D", "E", "F"});
    assert Expand(Sample["E"], 1, ["F"], {"A", "B", "C", "D", "E", "F"}) == (["F"], {"A", "B", "C", "D", "E", "F"});
    assert Expand(Sample["E"], 0, ["F"], {"A", "B", "C", "D", "E", "F"}) == (["F"], {"A", "B", "C", "D", "E", "F"});
    assert ["E", "F"][1..] == ["F"] && ["A", "B", "C", "D"] + ["E"] == ["A", "B", "C", "D", "E"];
  }

  /** Dequeuing "F" in the sample run. */
  lemma {:induction false} SampleStepF()
    ensures Run(Sample, ["F"], {"A", "B", "C", "D", "E", "F"}, ["A", "B", "C", "D", "E"]) == Run(Sample, [], {"A", "B", "C", "D", "E", "F"}, ["A", "B", "C", "D", "E", "F"])
  {
    assert Expand(Sample["F"], 1, [], {"A", "B", "C", "D", "E", "F"}) == ([], {"A", "B", "C", "D", "E", "F"});
    assert Expand(Sample["F"], 0, [], {"A", "B", "C", "D", "E", "F"}) == ([], {"A", "B", "C", "D", "E", "F"});
    assert ["F"][1..] == [] && ["A", "B", "C", "D", "E"] + ["F"] == ["A", "B", "C", "D", "E", "F"];
  }

  /** The traversal of the sample graph from "A" (arithmetic/bfs.py:4-11, 31-33). */
  lemma SampleOrder()
    ensures BfsOrder(Sample, "A") == Scan(["A", "B", "C", "D", "E", "F"])
  {
    SampleStepA();
    SampleStepB();
    SampleStepC();
    SampleStepD();
    SampleStepE();
    SampleStepF();
    assert Run(Sample, [], {"A", "B", "C", "D", "E", "F"}, ["A", "B", "C", "D", "E", "F"]) == Scan(["A", "B", "C", "D", "E", "F"]);
  }
}
