/** Dependency graphs: a step id maps to the list of ids it depends on.
    Chains, cycles and the height-bounded sets that stand for dependency layers. */
module Graphs {

  type Graph = map<int, seq<int>>

  /** A non-empty set of ids has a member. */
  lemma {:induction false} Inhabited(s: set<int>)
    ensures s == {} || exists x :: x in s
  {
    if forall x :: x !in s { assert s == {}; }
  }

  /** Every dependency names a node of the graph. */
  ghost predicate Closed(g: Graph) {
    forall x, d :: x in g && d in g[x] ==> d in g
  }

  /** Each entry of a chain depends on the next one. */
  ghost predicate IsChain(g: Graph, p: seq<int>) {
    && |p| > 0
    && (forall i :: 0 <= i < |p| ==> p[i] in g)
    && (forall i :: 0 <= i < |p| - 1 ==> p[i + 1] in g[p[i]])
  }

  ghost predicate ChainFrom(g: Graph, x: int, p: seq<int>) {
    IsChain(g, p) && p[0] == x
  }

  ghost predicate ChainBetween(g: Graph, x: int, y: int, p: seq<int>) {
    IsChain(g, p) && |p| >= 2 && p[0] == x && p[|p| - 1] == y
  }

  /** x depends, directly or not, on y. */
  ghost predicate DependsOn(g: Graph, x: int, y: int) {
    exists p :: ChainBetween(g, x, y, p)
  }

  ghost predicate Acyclic(g: Graph) {
    forall x :: x in g ==> !DependsOn(g, x, x)
  }

  lemma {:induction false} DependsDirect(g: Graph, x: int, d: int)
    requires x in g && d in g && d in g[x]
    ensures DependsOn(g, x, d)
  {
    assert ChainBetween(g, x, d, [x, d]);
  }

  lemma {:induction false} DependsTransitive(g: Graph, x: int, y: int, z: int)
    requires DependsOn(g, x, y) && DependsOn(g, y, z)
    ensures DependsOn(g, x, z)
  {
    var p :| ChainBetween(g, x, y, p);
    var q :| ChainBetween(g, y, z, q);
    var r := p + q[1..];
    forall i | 0 <= i < |r| - 1 ensures r[i + 1] in g[r[i]] {
      if i >= |p| - 1 {
        assert r[i] == q[i + 1 - |p|];
        assert r[i + 1] == q[i + 2 - |p|];
      }
    }
    assert ChainBetween(g, x, z, r);
  }

  /** A dependency goes through a direct one. */
  lemma {:induction false} DependsFirstHop(g: Graph, x: int, y: int) returns (d: int)
    requires DependsOn(g, x, y)
    ensures x in g && y in g && d in g && d in g[x] && (d == y || DependsOn(g, d, y))
  {
    var p :| ChainBetween(g, x, y, p);
    d := p[1];
    if |p| > 2 {
      assert ChainBetween(g, d, y, p[1..]);
    }
  }

  // ---------------------------------------------------------------------
  // Height-bounded sets and layers
  // ---------------------------------------------------------------------

  /** Nodes none of whose chains is longer than n, computed from below. */
  ghost function Within(g: Graph, n: nat): set<int> {
    if n == 0 then {} else set x | x in g && forall d :: d in g[x] ==> d in Within(g, n - 1)
  }

  ghost function Layer(g: Graph, k: nat): set<int> {
    Within(g, k + 1) - Within(g, k)
  }

  lemma {:induction false} WithinMonotone(g: Graph, m: nat, n: nat)
    requires m <= n
    ensures Within(g, m) <= Within(g, n) <= g.Keys
    decreases n
  {
    if m > 0 {
      WithinMonotone(g, m - 1, n - 1);
    } else if n > 0 {
      WithinMonotone(g, 0, n - 1);
    }
  }

  /** The bounded sets are exactly what their name says: a bound on every dependency chain. */
  lemma {:induction false} WithinBoundsChains(g: Graph, x: int, n: nat)
    requires Closed(g) && x in g
    ensures x in Within(g, n) <==> forall p :: ChainFrom(g, x, p) ==> |p| <= n
    decreases n
  {
    if x in Within(g, n) {
      forall p | ChainFrom(g, x, p) ensures |p| <= n {
        if |p| > 1 {
          assert ChainFrom(g, p[1], p[1..]);
          WithinBoundsChains(g, p[1], n - 1);
        }
      }
    } else if n == 0 {
      assert ChainFrom(g, x, [x]);
    } else {
      var d :| d in g[x] && d !in Within(g, n - 1);
      WithinBoundsChains(g, d, n - 1);
      var q :| ChainFrom(g, d, q) && |q| > n - 1;
      assert ChainFrom(g, x, [x] + q);
    }
  }

  lemma {:induction false} Pigeonhole(p: seq<int>, s: set<int>) returns (i: nat, j: nat)
    requires |p| > |s| && forall k :: 0 <= k < |p| ==> p[k] in s
    ensures i < j < |p| && p[i] == p[j]
    decreases |p|
  {
    var last := p[|p| - 1];
    if last in p[..|p| - 1] {
      i :| 0 <= i < |p| - 1 && p[i] == last;
      j := |p| - 1;
    } else {
      i, j := Pigeonhole(p[..|p| - 1], s - {last});
    }
  }

  /** A chain longer than the graph closes a cycle. */
  lemma {:induction false} LongChainRepeats(g: Graph, p: seq<int>)
    requires IsChain(g, p) && |p| > |g|
    ensures !Acyclic(g)
  {
    assert |g.Keys| == |g|;
    var i, j := Pigeonhole(p, g.Keys);
    assert ChainBetween(g, p[i], p[i], p[i..j + 1]);
  }

  /** Acyclicity is the same as every chain fitting in the number of nodes. */
  lemma {:induction false} AcyclicIffBounded(g: Graph)
    requires Closed(g)
    ensures Acyclic(g) <==> Within(g, |g|) == g.Keys
  {
    WithinMonotone(g, 0, |g|);
    if Acyclic(g) {
      forall x | x in g ensures x in Within(g, |g|) {
        forall p | ChainFrom(g, x, p) ensures |p| <= |g| {
          if |p| > |g| { LongChainRepeats(g, p); }
        }
        WithinBoundsChains(g, x, |g|);
      }
    } else {
      var x :| x in g && DependsOn(g, x, x);
      var p := LongLoop(g, x, |g| + 1);
      WithinBoundsChains(g, x, |g|);
    }
  }

  /** A loop can be walked as often as wished. */
  lemma {:induction false} LongLoop(g: Graph, x: int, n: nat) returns (p: seq<int>)
    requires DependsOn(g, x, x)
    ensures ChainFrom(g, x, p) && |p| >= n
  {
    var q :| ChainBetween(g, x, x, q);
    if n <= 2 {
      p := q;
    } else {
      var r := LongLoop(g, x, n - 1);
      p := q + r[1..];
      forall i | 0 <= i < |p| - 1 ensures p[i + 1] in g[p[i]] {
        if i >= |q| - 1 {
          assert p[i] == r[i + 1 - |q|];
        }
      }
    }
  }

  ghost predicate WaitsInside(g: Graph, u: set<int>, x: int)
    requires x in g
  {
    exists d :: d in g[x] && d in u
  }

  /** A non-empty set in which every node still waits for another one of the set hides a cycle. */
  lemma {:induction false} StuckSetHasCycle(g: Graph, u: set<int>, x: int)
    requires Closed(g) && x in u && u <= g.Keys
    requires forall y :: y in u ==> WaitsInside(g, u, y)
    ensures !Acyclic(g)
  {
    StuckSetOutside(g, u, |g|);
    AcyclicIffBounded(g);
    assert x in g.Keys && x !in Within(g, |g|);
  }

  lemma {:induction false} StuckSetOutside(g: Graph, u: set<int>, n: nat)
    requires u <= g.Keys && forall x :: x in u ==> WaitsInside(g, u, x)
    ensures u !! Within(g, n)
  {
    if n > 0 {
      StuckSetOutside(g, u, n - 1);
      forall x | x in u ensures x !in Within(g, n) {
        assert WaitsInside(g, u, x);
      }
    }
  }

  ghost predicate Distinct(s: seq<int>) {
    forall i, j :: 0 <= i < j < |s| ==> s[i] != s[j]
  }

  ghost predicate DepsBefore(g: Graph, order: seq<int>, i: nat)
    requires i < |order| && order[i] in g
  {
    forall d :: d in g[order[i]] ==> d in order[..i]
  }

  /** The order lists each node once and always after its dependencies. */
  ghost predicate Topological(g: Graph, order: seq<int>) {
    && Distinct(order)
    && (forall i :: 0 <= i < |order| ==> order[i] in g)
    && (forall i :: 0 <= i < |order| ==> DepsBefore(g, order, i))
  }

  ghost function Elems(s: seq<int>): set<int> {
    set x | x in s
  }

  /** In a topological order a node comes after everything it depends on. */
  lemma {:induction false} TopologicalDepends(g: Graph, order: seq<int>, i: nat, y: int)
    requires Topological(g, order) && i < |order| && DependsOn(g, order[i], y)
    ensures y in order[..i]
    decreases i
  {
    var d := DependsFirstHop(g, order[i], y);
    assert DepsBefore(g, order, i);
    if d != y {
      var j :| 0 <= j < i && order[j] == d;
      TopologicalDepends(g, order, j, y);
    }
  }

  lemma {:induction false} TopologicalAcyclic(g: Graph, order: seq<int>)
    requires Topological(g, order) && Elems(order) == g.Keys
    ensures Acyclic(g)
  {
    forall x | x in g ensures !DependsOn(g, x, x) {
      if DependsOn(g, x, x) {
        assert x in Elems(order);
        var i :| 0 <= i < |order| && order[i] == x;
        TopologicalDepends(g, order, i, x);
      }
    }
  }

  /** The bounded sets contain, with a node, all it depends on; one level lower. */
  lemma {:induction false} WithinDepends(g: Graph, x: int, y: int, n: nat)
    requires DependsOn(g, x, y) && x in Within(g, n)
    ensures n > 0 && y in Within(g, n - 1)
    decreases n
  {
    var d := DependsFirstHop(g, x, y);
    if d != y {
      WithinDepends(g, d, y, n - 1);
      WithinMonotone(g, n - 2, n - 1);
    }
  }

  /** A layer holds exactly the nodes whose longest dependency chain has k + 1 entries. */
  lemma {:induction false} LayerIsLongestChain(g: Graph, x: int, k: nat)
    requires Closed(g) && x in g
    ensures x in Layer(g, k) <==>
            && (exists p :: ChainFrom(g, x, p) && |p| == k + 1)
            && (forall p :: ChainFrom(g, x, p) ==> |p| <= k + 1)
  {
    WithinBoundsChains(g, x, k + 1);
    WithinBoundsChains(g, x, k);
  }

  /** A node of a higher layer depends on one of the layer just below. */
  lemma {:induction false} LayerNeeds(g: Graph, x: int, k: nat) returns (d: int)
    requires Closed(g) && x in Layer(g, k) && k > 0
    ensures x in g && d in g && d in g[x] && d in Layer(g, k - 1)
  {
    d :| d in g[x] && d !in Within(g, k - 1);
  }

  /** No way of numbering the nodes so that dependencies come strictly earlier beats the layers. */
  lemma {:induction false} LayersAreEarliest(g: Graph, rank: map<int, nat>, x: int, k: nat)
    requires Closed(g) && g.Keys <= rank.Keys
    requires forall y, d :: y in g && d in g[y] ==> rank[d] < rank[y]
    requires x in Layer(g, k)
    ensures rank[x] >= k
    decreases k
  {
    if k > 0 {
      var d := LayerNeeds(g, x, k);
      LayersAreEarliest(g, rank, d, k - 1);
    }
  }

  /** In any sequence of groups that puts every dependency into an earlier group, a node of layer k is in group k at
      the earliest. */
  lemma {:induction false} GroupsAreLater(g: Graph, groups: seq<set<int>>, x: int, k: nat, m: nat)
    requires Closed(g) && RespectsDependencies(g, groups)
    requires x in g && x in Layer(g, k) && m < |groups| && x in groups[m]
    ensures k <= m
    decreases k
  {
    hide Within;
    if k > 0 {
      var d := LayerNeeds(g, x, k);
      assert Earlier(groups, m, d);
      var j :| 0 <= j < m && d in groups[j];
      GroupsAreLater(g, groups, d, k - 1, j);
    }
  }

  /** Some group before the m-th holds the node. */
  ghost predicate Earlier(groups: seq<set<int>>, m: nat, d: int)
    requires m <= |groups|
  {
    exists j :: 0 <= j < m && d in groups[j]
  }

  ghost predicate RespectsDependencies(g: Graph, groups: seq<set<int>>) {
    forall m, x, d :: 0 <= m < |groups| && x in groups[m] && x in g && d in g[x] ==> Earlier(groups, m, d)
  }

  /** Two layers share no node. */
  lemma {:induction false} LayersDisjoint(g: Graph, j: nat, k: nat)
    requires j < k
    ensures Layer(g, j) !! Layer(g, k)
  {
    WithinMonotone(g, j + 1, k);
  }

  /** Once a layer is empty nothing lies above it. */
  lemma {:induction false} EmptyLayerIsTop(g: Graph, k: nat, n: nat)
    requires Layer(g, k) == {} && k <= n
    ensures Within(g, n) == Within(g, k)
    decreases n
  {
    if n == k + 1 {
      WithinMonotone(g, k, k + 1);
      assert Within(g, k + 1) <= Within(g, k) by {
        forall x | x in Within(g, k + 1) ensures x in Within(g, k) {
          assert x !in Layer(g, k);
        }
      }
    } else if n > k + 1 {
      EmptyLayerIsTop(g, k, n - 1);
      EmptyLayerIsTop(g, k, n - 2);
    }
  }
}
