/** Which nodes a traversal from a node visits when it follows only the
    child indices below a bound: the recursion of alphabet widening (old
    alphabet size) and the breadth-first traversal used to retire age
    entries (current alphabet size). */
module Reachability {
  import opened Values
  import opened Tree

  /** Nodes reachable from `n` through child indices below `bound`, `n` included. */
  function Reachable(nodes: seq<Node>, n: nat, bound: nat): (r: set<nat>)
    requires WellFormed(nodes) && n < |nodes|
    ensures n in r
    ensures forall m :: m in r ==> n <= m < |nodes|
    decreases |nodes| - n, bound + 1
  {
    {n} + ReachableVia(nodes, n, bound, bound)
  }

  /** Nodes reachable from `n` through its children at indices below `k`. */
  function ReachableVia(nodes: seq<Node>, n: nat, k: nat, bound: nat): (r: set<nat>)
    requires WellFormed(nodes) && n < |nodes| && k <= bound
    ensures forall m :: m in r ==> n < m < |nodes|
    decreases |nodes| - n, k
  {
    if k == 0 then {}
    else
      ReachableVia(nodes, n, k - 1, bound) +
      match GetChild(nodes[n], k - 1)
      case None => {}
      case Some(c) => Reachable(nodes, c, bound)
  }

  /** The node reached from `n` by following a sequence of child indices. */
  ghost function WalkIndices(nodes: seq<Node>, n: nat, ks: seq<nat>): (r: Option<nat>)
    requires WellFormed(nodes) && n < |nodes|
    ensures r.Some? ==> r.value < |nodes|
    decreases |ks|
  {
    if ks == [] then Some(n)
    else match GetChild(nodes[n], ks[0])
      case None => None
      case Some(c) => WalkIndices(nodes, c, ks[1..])
  }

  ghost predicate Below(ks: seq<nat>, bound: nat)
  {
    forall i :: 0 <= i < |ks| ==> ks[i] < bound
  }

  /** Everything in the reachable set is reached by some path below the bound. */
  lemma {:induction false} ReachableSound(nodes: seq<Node>, n: nat, bound: nat, m: nat)
    requires WellFormed(nodes) && n < |nodes|
    requires m in Reachable(nodes, n, bound)
    ensures exists ks :: Below(ks, bound) && WalkIndices(nodes, n, ks) == Some(m)
    decreases |nodes| - n, bound + 1
  {
    if m == n {
      assert Below([], bound) && WalkIndices(nodes, n, []) == Some(m);
    } else {
      ReachableViaSound(nodes, n, bound, bound, m);
    }
  }

  lemma {:induction false} ReachableViaSound(nodes: seq<Node>, n: nat, k: nat, bound: nat, m: nat)
    requires WellFormed(nodes) && n < |nodes| && k <= bound
    requires m in ReachableVia(nodes, n, k, bound)
    ensures exists ks :: Below(ks, bound) && WalkIndices(nodes, n, ks) == Some(m)
    decreases |nodes| - n, k
  {
    if m in ReachableVia(nodes, n, k - 1, bound) {
      ReachableViaSound(nodes, n, k - 1, bound, m);
    } else {
      var c := GetChild(nodes[n], k - 1).value;
      ReachableSound(nodes, c, bound, m);
      var ks :| Below(ks, bound) && WalkIndices(nodes, c, ks) == Some(m);
      var ks' := [k - 1] + ks;
      assert ks'[1..] == ks;
      assert Below(ks', bound) && WalkIndices(nodes, n, ks') == Some(m);
    }
  }

  /** Every node on a path below the bound is in the reachable set. */
  lemma {:induction false} ReachableComplete(nodes: seq<Node>, n: nat, bound: nat, ks: seq<nat>)
    requires WellFormed(nodes) && n < |nodes| && Below(ks, bound)
    requires WalkIndices(nodes, n, ks).Some?
    ensures WalkIndices(nodes, n, ks).value in Reachable(nodes, n, bound)
    decreases |ks|
  {
    if ks != [] {
      var c := GetChild(nodes[n], ks[0]).value;
      assert Below(ks[1..], bound);
      ReachableComplete(nodes, c, bound, ks[1..]);
      ReachableViaContains(nodes, n, bound, bound, ks[0]);
    }
  }

  lemma {:induction false} ReachableViaContains(nodes: seq<Node>, n: nat, k: nat, bound: nat, j: nat)
    requires WellFormed(nodes) && n < |nodes| && j < k <= bound
    requires GetChild(nodes[n], j).Some?
    ensures Reachable(nodes, GetChild(nodes[n], j).value, bound) <= ReachableVia(nodes, n, k, bound)
    decreases k
  {
    if j < k - 1 {
      ReachableViaContains(nodes, n, k - 1, bound, j);
    }
  }

  /** Trees of the same shape have the same reachable sets. */
  lemma {:induction false} ReachableSameShape(a: seq<Node>, b: seq<Node>, n: nat, bound: nat)
    requires WellFormed(a) && WellFormed(b) && SameShape(a, b) && n < |a|
    ensures Reachable(a, n, bound) == Reachable(b, n, bound)
    decreases |a| - n, bound + 1
  {
    ReachableViaSameShape(a, b, n, bound, bound);
  }

  lemma {:induction false} ReachableViaSameShape(a: seq<Node>, b: seq<Node>, n: nat, k: nat, bound: nat)
    requires WellFormed(a) && WellFormed(b) && SameShape(a, b) && n < |a| && k <= bound
    ensures ReachableVia(a, n, k, bound) == ReachableVia(b, n, k, bound)
    decreases |a| - n, k
  {
    if k > 0 {
      ReachableViaSameShape(a, b, n, k - 1, bound);
      assert GetChild(a[n], k - 1) == GetChild(b[n], k - 1);
      if GetChild(a[n], k - 1).Some? {
        ReachableSameShape(a, b, GetChild(a[n], k - 1).value, bound);
      }
    }
  }
}
