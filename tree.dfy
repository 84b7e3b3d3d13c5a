/** The cache tree as a value: an arena of nodes addressed by id, the root
    at id 0. Each node holds symbol-indexed child storage, a three-valued
    acceptance and an origin. This module defines walking a word through
    the tree, the lookup contract, and the path extension that insertion
    performs, with the facts about them that both builders rely on. */
module Tree {
  import opened Values
  import opened Alphabets

  datatype Node = Node(children: seq<Option<nat>>, acceptance: Acceptance, origin: Option<CexOrigin>)

  const Root: nat := 0

  /** A node without child storage; `new Node()` leaves the origin unset. */
  function NewNode(acceptance: Acceptance): Node
  {
    Node([], acceptance, None)
  }

  /** Child at a symbol index; storage the node does not have holds no child. */
  function GetChild(nd: Node, idx: nat): Option<nat>
  {
    if idx < |nd.children| then nd.children[idx] else None
  }

  /** Widens the child storage to at least `capacity`, never truncating. */
  function EnsureInputCapacity(nd: Node, capacity: nat): (r: Node)
    ensures |r.children| >= capacity && |r.children| >= |nd.children|
    ensures |nd.children| >= capacity ==> r == nd
    ensures forall k :: GetChild(r, k) == GetChild(nd, k)
    ensures r.acceptance == nd.acceptance && r.origin == nd.origin
  {
    if capacity <= |nd.children| then nd
    else nd.(children := nd.children + seq(capacity - |nd.children|, _ => None))
  }

  /** Stores `child` at `idx`, first widening the storage to the alphabet size. */
  function SetChild(nd: Node, idx: nat, alphabetSize: nat, child: nat): (r: Node)
    requires idx < alphabetSize
    ensures |r.children| >= alphabetSize
    ensures GetChild(r, idx) == Some(child)
    ensures forall k :: k != idx ==> GetChild(r, k) == GetChild(nd, k)
    ensures r.acceptance == nd.acceptance && r.origin == nd.origin
  {
    var wide := EnsureInputCapacity(nd, alphabetSize);
    wide.(children := wide.children[idx := Some(child)])
  }

  /** Every edge leads to a node created later: the tree is acyclic. */
  ghost predicate EdgesForward(nodes: seq<Node>)
  {
    forall n, k :: 0 <= n < |nodes| && GetChild(nodes[n], k).Some? ==>
      n < GetChild(nodes[n], k).value < |nodes|
  }

  /** No node has two incoming edges. */
  ghost predicate UniqueParents(nodes: seq<Node>)
  {
    forall n1, k1, n2, k2 {:trigger GetChild(nodes[n1], k1), GetChild(nodes[n2], k2)} ::
      (0 <= n1 < |nodes| && 0 <= n2 < |nodes| && GetChild(nodes[n1], k1).Some? &&
       GetChild(nodes[n1], k1) == GetChild(nodes[n2], k2)) ==> n1 == n2 && k1 == k2
  }

  ghost predicate WellFormed(nodes: seq<Node>)
  {
    |nodes| > 0 && EdgesForward(nodes) && UniqueParents(nodes)
  }

  /** The node reached from the root by `w`, or None where a child is missing. */
  function Walk<I(==)>(nodes: seq<Node>, symbols: seq<I>, w: seq<I>): (r: Option<nat>)
    requires WellFormed(nodes) && InAlphabet(symbols, w)
    ensures r.Some? ==> r.value < |nodes|
    ensures r.Some? && w != [] ==> r.value != Root
    decreases |w|
  {
    if w == [] then Some(Root)
    else match Walk(nodes, symbols, w[..|w| - 1])
      case None => None
      case Some(m) => GetChild(nodes[m], IndexOf(symbols, w[|w| - 1]))
  }

  /** The lookup contract: definitive exactly when the path exists and its
      node is committed, and then the committed value. */
  function LookupSpec<I(==)>(nodes: seq<Node>, symbols: seq<I>, w: seq<I>): (r: (bool, Option<bool>))
    requires WellFormed(nodes) && InAlphabet(symbols, w)
    ensures r.0 <==> r.1.Some?
    ensures r.0 <==> Walk(nodes, symbols, w).Some? && nodes[Walk(nodes, symbols, w).value].acceptance != DONT_KNOW
    ensures r.0 ==> nodes[Walk(nodes, symbols, w).value].acceptance == Acceptance.FromBoolean(r.1.value)
  {
    match Walk(nodes, symbols, w)
    case None => (false, None)
    case Some(n) =>
      if nodes[n].acceptance == DONT_KNOW then (false, None)
      else (true, Some(nodes[n].acceptance.ToBoolean()))
  }

  /** `b` keeps every edge of `a`. */
  ghost predicate Grows(a: seq<Node>, b: seq<Node>)
  {
    |a| <= |b| &&
    forall n, k :: 0 <= n < |a| && GetChild(a[n], k).Some? ==> GetChild(b[n], k) == GetChild(a[n], k)
  }

  /** `b` keeps every edge of `a` and adds edges only towards new nodes. */
  ghost predicate GrowsFresh(a: seq<Node>, b: seq<Node>)
  {
    Grows(a, b) &&
    forall n, k :: 0 <= n < |a| && GetChild(a[n], k).None? && GetChild(b[n], k).Some? ==>
      GetChild(b[n], k).value >= |a|
  }

  /** `b` keeps the acceptance and origin of every node of `a`. */
  ghost predicate KeepsLabels(a: seq<Node>, b: seq<Node>)
  {
    |a| <= |b| &&
    forall n :: 0 <= n < |a| ==> b[n].acceptance == a[n].acceptance && b[n].origin == a[n].origin
  }

  /** Nodes of `b` beyond `a` are fresh: no information, no origin. */
  ghost predicate FreshUnknown(a: seq<Node>, b: seq<Node>)
  {
    forall n :: |a| <= n < |b| ==> b[n].acceptance == DONT_KNOW && b[n].origin == None
  }

  lemma GrowsFreshTrans(a: seq<Node>, b: seq<Node>, c: seq<Node>)
    requires GrowsFresh(a, b) && GrowsFresh(b, c)
    ensures GrowsFresh(a, c)
  {
    forall n, k | 0 <= n < |a| && GetChild(a[n], k).None? && GetChild(c[n], k).Some?
      ensures GetChild(c[n], k).value >= |a|
    {
      if GetChild(b[n], k).Some? {
        assert GetChild(c[n], k) == GetChild(b[n], k);
      }
    }
  }

  /** One step of the insertion walk: follow the child at `idx`, creating
      a fresh node there first when it is missing. */
  function Step(nodes: seq<Node>, curr: nat, idx: nat, alphabetSize: nat): (r: (seq<Node>, nat))
    requires WellFormed(nodes) && curr < |nodes| && idx < alphabetSize
    ensures WellFormed(r.0) && r.1 < |r.0|
    ensures GrowsFresh(nodes, r.0) && KeepsLabels(nodes, r.0) && FreshUnknown(nodes, r.0)
    ensures GetChild(r.0[curr], idx) == Some(r.1)
    ensures GetChild(nodes[curr], idx).Some? ==> r == (nodes, GetChild(nodes[curr], idx).value)
  {
    match GetChild(nodes[curr], idx)
    case Some(c) => (nodes, c)
    case None =>
      var newId := |nodes|;
      var t := nodes[curr := SetChild(nodes[curr], idx, alphabetSize, newId)] + [NewNode(DONT_KNOW)];
      StepWellFormed(nodes, curr, idx, alphabetSize, t);
      (t, newId)
  }

  /** Attaching a fresh node under `curr` at `idx` keeps the tree a tree,
      whether or not the slot held a child before. */
  lemma AttachWellFormed(nodes: seq<Node>, curr: nat, idx: nat, alphabetSize: nat, acc: Acceptance, t: seq<Node>)
    requires WellFormed(nodes) && curr < |nodes| && idx < alphabetSize
    requires t == nodes[curr := SetChild(nodes[curr], idx, alphabetSize, |nodes|)] + [NewNode(acc)]
    ensures WellFormed(t)
    ensures forall n, k :: 0 <= n < |nodes| && !(n == curr && k == idx) ==> GetChild(t[n], k) == GetChild(nodes[n], k)
  {
    var newId := |nodes|;
    assert forall n, k :: 0 <= n < |nodes| && n != curr ==> GetChild(t[n], k) == GetChild(nodes[n], k);
    assert forall k :: k != idx ==> GetChild(t[curr], k) == GetChild(nodes[curr], k);
    assert forall k :: GetChild(t[newId], k) == None;
    assert EdgesForward(t) by {
      forall n, k | 0 <= n < |t| && GetChild(t[n], k).Some?
        ensures n < GetChild(t[n], k).value < |t|
      {
        if n == newId {
        } else if n == curr && k == idx {
        } else {
          assert GetChild(t[n], k) == GetChild(nodes[n], k);
        }
      }
    }
    assert UniqueParents(t) by {
      forall n1, k1, n2, k2 | 0 <= n1 < |t| && 0 <= n2 < |t| && GetChild(t[n1], k1).Some? &&
        GetChild(t[n1], k1) == GetChild(t[n2], k2)
        ensures n1 == n2 && k1 == k2
      {
        var new1 := n1 == curr && k1 == idx;
        var new2 := n2 == curr && k2 == idx;
        assert n1 != newId && n2 != newId;
        if !new1 && !new2 {
          assert GetChild(t[n1], k1) == GetChild(nodes[n1], k1);
          assert GetChild(t[n2], k2) == GetChild(nodes[n2], k2);
        }
      }
    }
  }

  lemma StepWellFormed(nodes: seq<Node>, curr: nat, idx: nat, alphabetSize: nat, t: seq<Node>)
    requires WellFormed(nodes) && curr < |nodes| && idx < alphabetSize
    requires GetChild(nodes[curr], idx).None?
    requires t == nodes[curr := SetChild(nodes[curr], idx, alphabetSize, |nodes|)] + [NewNode(DONT_KNOW)]
    ensures WellFormed(t) && GrowsFresh(nodes, t) && KeepsLabels(nodes, t) && FreshUnknown(nodes, t)
  {
    AttachWellFormed(nodes, curr, idx, alphabetSize, DONT_KNOW, t);
  }

  /** The insertion walk: follow `w` from the root, creating a newId
      DONT_KNOW node for every missing step. Returns the new tree and the
      node reached. */
  function Extend<I(==)>(nodes: seq<Node>, symbols: seq<I>, w: seq<I>): (r: (seq<Node>, nat))
    requires WellFormed(nodes) && InAlphabet(symbols, w)
    ensures WellFormed(r.0) && r.1 < |r.0|
    ensures GrowsFresh(nodes, r.0) && KeepsLabels(nodes, r.0) && FreshUnknown(nodes, r.0)
    decreases |w|
  {
    if w == [] then (nodes, Root)
    else
      var p := Extend(nodes, symbols, w[..|w| - 1]);
      var r := Step(p.0, p.1, IndexOf(symbols, w[|w| - 1]), |symbols|);
      GrowsFreshTrans(nodes, p.0, r.0);
      r
  }

  /** Walks that exist survive growth unchanged. */
  lemma {:induction false} WalkGrows<I>(a: seq<Node>, b: seq<Node>, symbols: seq<I>, w: seq<I>)
    requires WellFormed(a) && WellFormed(b) && Grows(a, b) && InAlphabet(symbols, w)
    requires Walk(a, symbols, w).Some?
    ensures Walk(b, symbols, w) == Walk(a, symbols, w)
    decreases |w|
  {
    if w != [] {
      WalkGrows(a, b, symbols, w[..|w| - 1]);
    }
  }

  /** A walk that only exists after newId growth ends on a new node. */
  lemma {:induction false} WalkFresh<I>(a: seq<Node>, b: seq<Node>, symbols: seq<I>, w: seq<I>)
    requires WellFormed(a) && WellFormed(b) && GrowsFresh(a, b) && InAlphabet(symbols, w)
    requires Walk(b, symbols, w).Some? && Walk(a, symbols, w).None?
    ensures Walk(b, symbols, w).value >= |a|
    decreases |w|
  {
    var p := w[..|w| - 1];
    var k := IndexOf(symbols, w[|w| - 1]);
    var y := Walk(b, symbols, p).value;
    if Walk(a, symbols, p).None? {
      WalkFresh(a, b, symbols, p);
    } else {
      WalkGrows(a, b, symbols, p);
      assert GetChild(a[y], k).None?;
    }
  }

  /** The insertion walk ends at the node `w` leads to in the new tree, and
      changes nothing when that path already exists. */
  lemma {:induction false} ExtendReaches<I>(nodes: seq<Node>, symbols: seq<I>, w: seq<I>)
    requires WellFormed(nodes) && InAlphabet(symbols, w)
    ensures Walk(Extend(nodes, symbols, w).0, symbols, w) == Some(Extend(nodes, symbols, w).1)
    ensures Walk(nodes, symbols, w).Some? ==> Extend(nodes, symbols, w) == (nodes, Walk(nodes, symbols, w).value)
    decreases |w|
  {
    if w != [] {
      var p := w[..|w| - 1];
      ExtendReaches(nodes, symbols, p);
      var e := Extend(nodes, symbols, p);
      var r := Extend(nodes, symbols, w);
      var k := IndexOf(symbols, w[|w| - 1]);
      assert r == Step(e.0, e.1, k, |symbols|);
      WalkGrows(e.0, r.0, symbols, p);
    }
  }

  /** Distinct words reach distinct nodes. */
  lemma {:induction false} WalkInjective<I>(nodes: seq<Node>, symbols: seq<I>, u: seq<I>, v: seq<I>)
    requires WellFormed(nodes) && InAlphabet(symbols, u) && InAlphabet(symbols, v)
    requires Walk(nodes, symbols, u).Some? && Walk(nodes, symbols, u) == Walk(nodes, symbols, v)
    ensures u == v
    decreases |u| + |v|
  {
    if u != [] && v != [] {
      var pu, pv := u[..|u| - 1], v[..|v| - 1];
      var ku, kv := IndexOf(symbols, u[|u| - 1]), IndexOf(symbols, v[|v| - 1]);
      var nu, nv := Walk(nodes, symbols, pu).value, Walk(nodes, symbols, pv).value;
      assert GetChild(nodes[nu], ku) == GetChild(nodes[nv], kv);
      WalkInjective(nodes, symbols, pu, pv);
      assert u == pu + [u[|u| - 1]] && v == pv + [v[|v| - 1]];
    }
  }

  /** Changing only the acceptance and origin of the node reached by `w`,
      after a newId growth, leaves the lookup of every other word as it was. */
  lemma LookupsPreservedExcept<I>(a: seq<Node>, b: seq<Node>, symbols: seq<I>, w: seq<I>, t: nat, w': seq<I>)
    requires WellFormed(a) && WellFormed(b) && GrowsFresh(a, b)
    requires InAlphabet(symbols, w) && InAlphabet(symbols, w')
    requires Walk(b, symbols, w) == Some(t)
    requires forall n :: 0 <= n < |a| && n != t ==> b[n].acceptance == a[n].acceptance
    requires forall n :: |a| <= n < |b| && n != t ==> b[n].acceptance == DONT_KNOW
    requires w' != w
    ensures LookupSpec(b, symbols, w') == LookupSpec(a, symbols, w')
  {
    if Walk(b, symbols, w') == Some(t) {
      WalkInjective(b, symbols, w, w');
    }
    if Walk(a, symbols, w').Some? {
      WalkGrows(a, b, symbols, w');
    } else if Walk(b, symbols, w').Some? {
      WalkFresh(a, b, symbols, w');
    }
  }

  /** Trees with the same edges and labels, read through an alphabet that
      only grew at its end, give every word the same walk. */
  ghost predicate SameShape(a: seq<Node>, b: seq<Node>)
  {
    |a| == |b| &&
    forall n :: 0 <= n < |a| ==>
      a[n].acceptance == b[n].acceptance && a[n].origin == b[n].origin &&
      forall k :: GetChild(a[n], k) == GetChild(b[n], k)
  }

  lemma {:induction false} WalkSameShape<I>(a: seq<Node>, b: seq<Node>, symbols: seq<I>, more: seq<I>, w: seq<I>)
    requires WellFormed(a) && WellFormed(b) && SameShape(a, b) && InAlphabet(symbols, w)
    ensures InAlphabet(symbols + more, w)
    ensures Walk(b, symbols + more, w) == Walk(a, symbols, w)
    ensures LookupSpec(b, symbols + more, w) == LookupSpec(a, symbols, w)
    decreases |w|
  {
    InAlphabetGrows(symbols, more, w);
    if w != [] {
      WalkSameShape(a, b, symbols, more, w[..|w| - 1]);
      IndexOfStable(symbols, more, w[|w| - 1]);
    }
  }

  /** Reading one more symbol follows one more edge. */
  lemma WalkSnoc<I>(nodes: seq<Node>, symbols: seq<I>, w: seq<I>, a: I)
    requires WellFormed(nodes) && InAlphabet(symbols, w) && a in symbols
    ensures InAlphabet(symbols, w + [a])
    ensures Walk(nodes, symbols, w + [a]) ==
      match Walk(nodes, symbols, w)
      case None => None
      case Some(m) => GetChild(nodes[m], IndexOf(symbols, a))
  {
    assert (w + [a])[..|w|] == w;
  }

  /** A path that exists passes through every prefix of its word. */
  lemma {:induction false} WalkPrefix<I>(nodes: seq<Node>, symbols: seq<I>, w: seq<I>, k: nat)
    requires WellFormed(nodes) && InAlphabet(symbols, w) && k <= |w|
    requires Walk(nodes, symbols, w).Some?
    ensures InAlphabet(symbols, w[..k]) && Walk(nodes, symbols, w[..k]).Some?
    decreases |w|
  {
    if k < |w| {
      assert w[..|w| - 1][..k] == w[..k];
      WalkPrefix(nodes, symbols, w[..|w| - 1], k);
    } else {
      assert w[..k] == w;
    }
  }

  /** Walks that end at or before node `p` only use edges leaving nodes
      before `p`, so trees agreeing on those edges agree on such walks. */
  lemma {:induction false} WalkBelowUnchanged<I>(a: seq<Node>, b: seq<Node>, symbols: seq<I>, w: seq<I>, p: nat)
    requires WellFormed(a) && WellFormed(b) && InAlphabet(symbols, w) && p < |a| <= |b|
    requires forall n, k :: 0 <= n < p ==> GetChild(b[n], k) == GetChild(a[n], k)
    requires Walk(a, symbols, w).Some? && Walk(a, symbols, w).value <= p
    ensures Walk(b, symbols, w) == Walk(a, symbols, w)
    decreases |w|
  {
    if w != [] {
      var q := Walk(a, symbols, w[..|w| - 1]).value;
      assert GetChild(a[q], IndexOf(symbols, w[|w| - 1])).Some?;
      WalkBelowUnchanged(a, b, symbols, w[..|w| - 1], p);
    }
  }

  /** Same shape is an equivalence that keeps well-formedness. */
  lemma SameShapeWellFormed(a: seq<Node>, b: seq<Node>)
    requires WellFormed(a) && SameShape(a, b)
    ensures WellFormed(b) && SameShape(b, a)
  {
    assert forall n, k :: 0 <= n < |a| ==> GetChild(b[n], k) == GetChild(a[n], k);
  }

  lemma SameShapeTrans(a: seq<Node>, b: seq<Node>, c: seq<Node>)
    requires SameShape(a, b) && SameShape(b, c)
    ensures SameShape(a, c)
  {
  }

  /** A walk of the grown tree that ends on an old node already existed. */
  lemma {:induction false} WalkOld<I>(a: seq<Node>, b: seq<Node>, symbols: seq<I>, w: seq<I>)
    requires WellFormed(a) && WellFormed(b) && GrowsFresh(a, b) && InAlphabet(symbols, w)
    requires Walk(b, symbols, w).Some? && Walk(b, symbols, w).value < |a|
    ensures Walk(a, symbols, w) == Walk(b, symbols, w)
    decreases |w|
  {
    if w != [] {
      var y := Walk(b, symbols, w[..|w| - 1]).value;
      assert GetChild(b[y], IndexOf(symbols, w[|w| - 1])).Some?;
      WalkOld(a, b, symbols, w[..|w| - 1]);
    }
  }

  /** When the insertion walk ends on a committed node, that node existed
      and the walk created nothing. */
  lemma ExtendCommitted<I>(nodes: seq<Node>, symbols: seq<I>, w: seq<I>)
    requires WellFormed(nodes) && InAlphabet(symbols, w)
    requires Extend(nodes, symbols, w).0[Extend(nodes, symbols, w).1].acceptance != DONT_KNOW
    ensures Walk(nodes, symbols, w).Some?
    ensures Extend(nodes, symbols, w) == (nodes, Walk(nodes, symbols, w).value)
  {
    var e := Extend(nodes, symbols, w);
    ExtendReaches(nodes, symbols, w);
    WalkOld(nodes, e.0, symbols, w);
  }

  /** Relabels one node; the edges stay as they are. */
  function SetLabel(nodes: seq<Node>, n: nat, acceptance: Acceptance, origin: Option<CexOrigin>): (r: seq<Node>)
    requires WellFormed(nodes) && n < |nodes|
    ensures WellFormed(r) && |r| == |nodes|
    ensures r[n].acceptance == acceptance && r[n].origin == origin
    ensures forall m :: 0 <= m < |nodes| && m != n ==> r[m] == nodes[m]
    ensures forall m, k :: 0 <= m < |nodes| ==> GetChild(r[m], k) == GetChild(nodes[m], k)
  {
    var r := nodes[n := nodes[n].(acceptance := acceptance, origin := origin)];
    assert forall m, k :: 0 <= m < |nodes| ==> GetChild(r[m], k) == GetChild(nodes[m], k);
    r
  }

  /** Relabelling keeps every walk. */
  lemma WalkRelabel<I>(nodes: seq<Node>, n: nat, acceptance: Acceptance, origin: Option<CexOrigin>, symbols: seq<I>, w: seq<I>)
    requires WellFormed(nodes) && n < |nodes| && InAlphabet(symbols, w)
    ensures Walk(SetLabel(nodes, n, acceptance, origin), symbols, w) == Walk(nodes, symbols, w)
  {
    var r := SetLabel(nodes, n, acceptance, origin);
    if Walk(nodes, symbols, w).Some? {
      WalkGrows(nodes, r, symbols, w);
    } else if Walk(r, symbols, w).Some? {
      WalkGrows(r, nodes, symbols, w);
    }
  }
}
