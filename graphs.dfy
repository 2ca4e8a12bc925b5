/** Adjacency-map graphs, the vertices reachable from a start vertex, and
    their breadth-first distance. */
module Graphs {

  /** A graph as an adjacency map: each key lists its neighbours in order. */
  type Graph<V> = map<V, seq<V>>

  /** No element occurs twice. */
  ghost predicate NoDup<V>(s: seq<V>) {
    forall i, j :: 0 <= i < j < |s| ==> s[i] != s[j]
  }

  /** Every vertex named in some adjacency list. */
  ghost function Targets<V>(g: Graph<V>): set<V> {
    set u, w | u in g && w in g[u] :: w
  }

  /** `v` is at most `k` edges away from `s`. */
  ghost predicate Within<V>(g: Graph<V>, s: V, v: V, k: nat)
    decreases k
  {
    if k == 0 then v == s
    else Within(g, s, v, k - 1) || exists u :: u in g && v in g[u] && Within(g, s, u, k - 1)
  }

  ghost predicate Reachable<V>(g: Graph<V>, s: V, v: V) {
    exists k: nat :: Within(g, s, v, k)
  }

  lemma {:induction false} WithinMono<V>(g: Graph<V>, s: V, v: V, i: nat, j: nat)
    requires i <= j && Within(g, s, v, i)
    ensures Within(g, s, v, j)
    decreases j - i
  {
    if i < j {
      WithinMono(g, s, v, i, j - 1);
    }
  }

  /** The least level that contains `v`, searching down from `k`. */
  ghost function MinLevel<V>(g: Graph<V>, s: V, v: V, k: nat): (d: nat)
    requires Within(g, s, v, k)
    ensures d <= k && Within(g, s, v, d)
    ensures d > 0 ==> !Within(g, s, v, d - 1)
    decreases k
  {
    if k == 0 || !Within(g, s, v, k - 1) then k else MinLevel(g, s, v, k - 1)
  }

  /** The length of a shortest path from `s` to `v`. */
  ghost function Dist<V>(g: Graph<V>, s: V, v: V): (d: nat)
    requires Reachable(g, s, v)
    ensures Within(g, s, v, d)
    ensures d > 0 ==> !Within(g, s, v, d - 1)
  {
    var k: nat :| Within(g, s, v, k);
    MinLevel(g, s, v, k)
  }

  /** No level below `Dist` contains `v`. */
  lemma DistLeast<V>(g: Graph<V>, s: V, v: V, k: nat)
    requires Within(g, s, v, k)
    ensures Reachable(g, s, v) && Dist(g, s, v) <= k
  {
    FirstLevel(g, s, v, k, Dist(g, s, v));
  }

  /** A level holding `v` is no lower than a level `d` whose level below
      misses `v`. */
  lemma FirstLevel<V>(g: Graph<V>, s: V, v: V, k: nat, d: nat)
    requires Within(g, s, v, k)
    requires d > 0 ==> !Within(g, s, v, d - 1)
    ensures d <= k
  {
    if k < d {
      WithinMono(g, s, v, k, d - 1);
    }
  }

  /** The start vertex is the only vertex at distance zero. */
  lemma DistZero<V>(g: Graph<V>, s: V, v: V)
    ensures Reachable(g, s, s) && Dist(g, s, s) == 0
    ensures Reachable(g, s, v) && Dist(g, s, v) == 0 ==> v == s
  {
    DistLeast(g, s, s, 0);
  }

  /** Following one edge adds at most one to the distance. */
  lemma DistEdge<V>(g: Graph<V>, s: V, u: V, w: V)
    requires Reachable(g, s, u) && u in g && w in g[u]
    ensures Reachable(g, s, w) && Dist(g, s, w) <= Dist(g, s, u) + 1
  {
    var d := Dist(g, s, u);
    NextLevel(g, s, u, w, d);
    DistLeast(g, s, w, d + 1);
  }

  /** A neighbour of a vertex of level `k` is in level `k + 1`. */
  lemma NextLevel<V>(g: Graph<V>, s: V, u: V, w: V, k: nat)
    requires Within(g, s, u, k) && u in g && w in g[u]
    ensures Within(g, s, w, k + 1)
  {
  }

  /** A vertex other than the start has a neighbour one step closer. */
  lemma DistPred<V>(g: Graph<V>, s: V, v: V) returns (u: V)
    requires Reachable(g, s, v) && Dist(g, s, v) > 0
    ensures Reachable(g, s, u) && u in g && v in g[u]
    ensures Dist(g, s, u) + 1 == Dist(g, s, v)
  {
    var d := Dist(g, s, v);
    u := PrevLevel(g, s, v, d);
    DistLeast(g, s, u, d - 1);
    DistEdge(g, s, u, v);
  }

  /** A vertex that first appears at level `k > 0` is a neighbour of a vertex
      of level `k - 1`. */
  lemma PrevLevel<V>(g: Graph<V>, s: V, v: V, k: nat) returns (u: V)
    requires k > 0 && Within(g, s, v, k) && !Within(g, s, v, k - 1)
    ensures Within(g, s, u, k - 1) && u in g && v in g[u]
  {
    u :| u in g && v in g[u] && Within(g, s, u, k - 1);
  }

  /** A set that holds `s` and every neighbour of its members holds every
      vertex reachable from `s`. */
  lemma {:induction false} ClosedHoldsReachable<V>(g: Graph<V>, s: V, c: set<V>, v: V, k: nat)
    requires s in c
    requires forall u, w :: u in c && u in g && w in g[u] ==> w in c
    requires Within(g, s, v, k)
    ensures v in c
    decreases k
  {
    if k > 0 {
      if Within(g, s, v, k - 1) {
        ClosedHoldsReachable(g, s, c, v, k - 1);
      } else {
        var u :| u in g && v in g[u] && Within(g, s, u, k - 1);
        ClosedHoldsReachable(g, s, c, u, k - 1);
      }
    }
  }

  /** A sequence without repetitions is no longer than any set holding its elements. */
  lemma {:induction false} NoDupLength<V>(s: seq<V>, c: set<V>)
    requires NoDup(s)
    requires forall i :: 0 <= i < |s| ==> s[i] in c
    ensures |s| <= |c|
    decreases |s|
  {
    if s != [] {
      var init, last := s[..|s| - 1], s[|s| - 1];
      assert forall i :: 0 <= i < |init| ==> init[i] == s[i] != last;
      NoDupLength(init, c - {last});
    }
  }
}
