/** The adaptive tree builder: a committed classification may be
    overwritten, except that a classification given by the user is only
    overwritten by the user. An insertion-ordered age map from terminal
    nodes to the word last inserted for them answers which stored input is
    the oldest. */
module Adaptive {
  import opened Values
  import opened Alphabets
  import opened Tree
  import opened Reachability
  import opened TreeBuilder

  /** The age map as its entries in iteration order: (node, word) pairs
      with no node twice. */
  type Ages<I> = seq<(nat, seq<I>)>

  ghost predicate DistinctKeys<I(!new)>(ages: Ages<I>)
  {
    forall i, j :: 0 <= i < j < |ages| ==> ages[i].0 != ages[j].0
  }

  /** The map's remove: drops the entry of node `n` and keeps the order of
      the others. */
  function Remove<I(!new)>(ages: Ages<I>, n: nat): (r: Ages<I>)
    ensures forall e :: e in r <==> e in ages && e.0 != n
    ensures DistinctKeys(ages) ==> DistinctKeys(r)
    ensures (forall e :: e in ages ==> e.0 != n) ==> r == ages
  {
    if ages == [] then []
    else
      var rest := Remove(ages[1..], n);
      TailEntries(ages);
      if ages[0].0 == n then rest
      else
        ConsDistinct(ages[0], rest);
        [ages[0]] + rest
  }

  /** The entries of the tail are entries of the map, and distinct keys
      stay distinct in the tail and away from the head's key. */
  lemma TailEntries<I(!new)>(ages: Ages<I>)
    requires ages != []
    ensures forall e :: e in ages[1..] ==> e in ages
    ensures DistinctKeys(ages) ==> DistinctKeys(ages[1..]) && forall e :: e in ages[1..] ==> e.0 != ages[0].0
  {
    if DistinctKeys(ages) {
      forall e | e in ages[1..]
        ensures e.0 != ages[0].0
      {
        var j :| 0 <= j < |ages| - 1 && ages[1..][j] == e;
        assert ages[j + 1] == e;
      }
    }
  }

  /** Putting an entry with a new key in front keeps the keys distinct. */
  lemma ConsDistinct<I(!new)>(x: (nat, seq<I>), rest: Ages<I>)
    ensures DistinctKeys(rest) && (forall e :: e in rest ==> e.0 != x.0) ==> DistinctKeys([x] + rest)
  {
    if DistinctKeys(rest) && (forall e :: e in rest ==> e.0 != x.0) {
      forall i, j | 0 <= i < j < |[x] + rest|
        ensures ([x] + rest)[i].0 != ([x] + rest)[j].0
      {
        if i == 0 {
          assert rest[j - 1] in rest;
        }
      }
    }
  }

  /** The map's put: replaces the word of a present node in place, and
      appends an absent one. */
  function Put<I(!new)>(ages: Ages<I>, n: nat, w: seq<I>): (r: Ages<I>)
    ensures (n, w) in r
    ensures (forall e :: e in ages ==> e.0 != n) ==> r == ages + [(n, w)]
    ensures DistinctKeys(ages) ==> forall e :: e in r ==> e == (n, w) || (e in ages && e.0 != n)
  {
    if ages == [] then [(n, w)]
    else if ages[0].0 == n then [(n, w)] + ages[1..]
    else [ages[0]] + Put(ages[1..], n, w)
  }

  /** Remove followed by put: the node's entry becomes the youngest. */
  function Refresh<I(!new)>(ages: Ages<I>, n: nat, w: seq<I>): (r: Ages<I>)
    ensures r == Remove(ages, n) + [(n, w)]
    ensures DistinctKeys(ages) ==> DistinctKeys(r)
  {
    Put(Remove(ages, n), n, w)
  }

  /** Drops the entries of every node in `s`, keeping the order of the others. */
  function RemoveAll<I(!new)>(ages: Ages<I>, s: set<nat>): (r: Ages<I>)
    ensures forall e :: e in r <==> e in ages && e.0 !in s
  {
    if ages == [] then []
    else if ages[0].0 in s then RemoveAll(ages[1..], s)
    else [ages[0]] + RemoveAll(ages[1..], s)
  }

  /** The word of the first entry in iteration order. */
  function Oldest<I(!new)>(ages: Ages<I>): (r: Option<seq<I>>)
    ensures r.None? <==> ages == []
    ensures r.Some? ==> (ages[0].0, r.value) in ages
  {
    if ages == [] then None else Some(ages[0].1)
  }

  /** Every entry's word leads to its node, and that node is committed. */
  ghost predicate AgesValid<I(!new)>(nodes: seq<Node>, symbols: seq<I>, ages: Ages<I>)
  {
    WellFormed(nodes) && DistinctKeys(ages) &&
    forall e :: e in ages ==>
      InAlphabet(symbols, e.1) && Walk(nodes, symbols, e.1) == Some(e.0) && nodes[e.0].acceptance != DONT_KNOW
  }

  /** The tree after an insertion, its terminal node and whether a
      committed value was overwritten. */
  datatype AdaptiveResult = AdaptiveResult(nodes: seq<Node>, terminal: nat, overwritten: bool)

  /** The origin stored at the node of `w`, None where there is none. */
  ghost function StoredOrigin<I(!new)>(nodes: seq<Node>, symbols: seq<I>, w: seq<I>): Option<CexOrigin>
    requires WellFormed(nodes) && InAlphabet(symbols, w)
  {
    match Walk(nodes, symbols, w)
    case None => None
    case Some(n) => nodes[n].origin
  }

  /** The effect of inserting `w` with classification `b` from `origin`:
      extend the path; commit an unknown terminal; overwrite a different
      value when the origins agree or the stored one is not the user's. */
  function AdaptiveInsert<I(==, !new)>(nodes: seq<Node>, symbols: seq<I>, w: seq<I>, b: bool, origin: CexOrigin): (r: AdaptiveResult)
    requires WellFormed(nodes) && InAlphabet(symbols, w)
    ensures WellFormed(r.nodes) && GrowsFresh(nodes, r.nodes) && r.terminal < |r.nodes|
    ensures Walk(r.nodes, symbols, w) == Some(r.terminal) && r.nodes[r.terminal].acceptance != DONT_KNOW
    ensures forall n :: 0 <= n < |nodes| && n != r.terminal ==>
      r.nodes[n].acceptance == nodes[n].acceptance && r.nodes[n].origin == nodes[n].origin
    ensures forall n :: |nodes| <= n < |r.nodes| && n != r.terminal ==> r.nodes[n].acceptance == DONT_KNOW
  {
    var e := Extend(nodes, symbols, w);
    ExtendReaches(nodes, symbols, w);
    var curr := e.0[e.1];
    var newWordAcc := Acceptance.FromBoolean(b);
    if curr.acceptance == DONT_KNOW || (curr.acceptance != newWordAcc && (Some(origin) == curr.origin || curr.origin != Some(USER))) then
      LabelTerminal(nodes, symbols, w, newWordAcc, Some(origin));
      AdaptiveResult(SetLabel(e.0, e.1, newWordAcc, Some(origin)), e.1, curr.acceptance != DONT_KNOW)
    else
      AdaptiveResult(e.0, e.1, false)
  }

  /** Committing the terminal node of the extended path: the tree only
      grows, the path still leads there, and no other label changes. */
  lemma LabelTerminal<I(!new)>(nodes: seq<Node>, symbols: seq<I>, w: seq<I>, acc: Acceptance, origin: Option<CexOrigin>)
    requires WellFormed(nodes) && InAlphabet(symbols, w)
    ensures var e := Extend(nodes, symbols, w);
      var t := SetLabel(e.0, e.1, acc, origin);
      GrowsFresh(nodes, t) && Walk(t, symbols, w) == Some(e.1) &&
      (forall n :: 0 <= n < |nodes| && n != e.1 ==> t[n].acceptance == nodes[n].acceptance && t[n].origin == nodes[n].origin) &&
      (forall n :: |nodes| <= n < |t| && n != e.1 ==> t[n].acceptance == DONT_KNOW)
  {
    var e := Extend(nodes, symbols, w);
    var t := SetLabel(e.0, e.1, acc, origin);
    ExtendReaches(nodes, symbols, w);
    WalkRelabel(e.0, e.1, acc, origin, symbols, w);
    assert GrowsFresh(e.0, t);
    GrowsFreshTrans(nodes, e.0, t);
  }

  /** The overwrite rule: an insertion reports an overwrite exactly when
      the word was committed to the other value and the stored origin is
      the incoming one or not the user. */
  lemma AdaptiveOverwriteIff<I(!new)>(nodes: seq<Node>, symbols: seq<I>, w: seq<I>, b: bool, origin: CexOrigin)
    requires WellFormed(nodes) && InAlphabet(symbols, w)
    ensures AdaptiveInsert(nodes, symbols, w, b, origin).overwritten <==>
      LookupSpec(nodes, symbols, w) == (true, Some(!b)) &&
      (StoredOrigin(nodes, symbols, w) == Some(origin) || StoredOrigin(nodes, symbols, w) != Some(USER))
  {
    var e := Extend(nodes, symbols, w);
    ExtendReaches(nodes, symbols, w);
    if e.0[e.1].acceptance != DONT_KNOW {
      ExtendCommitted(nodes, symbols, w);
    }
  }

  /** What the lookup of the inserted word gives afterwards: definitive
      always; the inserted value unless the overwrite was refused, in which
      case nothing changed; an unknown word takes the incoming origin; an
      equal value changes nothing. */
  lemma AdaptiveLookupAfter<I(!new)>(nodes: seq<Node>, symbols: seq<I>, w: seq<I>, b: bool, origin: CexOrigin)
    requires WellFormed(nodes) && InAlphabet(symbols, w)
    ensures var r := AdaptiveInsert(nodes, symbols, w, b, origin);
      LookupSpec(r.nodes, symbols, w).0 &&
      (LookupSpec(nodes, symbols, w) != (true, Some(!b)) || r.overwritten ==>
        LookupSpec(r.nodes, symbols, w) == (true, Some(b))) &&
      (LookupSpec(nodes, symbols, w) == (true, Some(!b)) && !r.overwritten ==> r.nodes == nodes) &&
      (!LookupSpec(nodes, symbols, w).0 ==> !r.overwritten && r.nodes[r.terminal].origin == Some(origin)) &&
      (r.overwritten ==> r.nodes[r.terminal].origin == Some(origin)) &&
      (LookupSpec(nodes, symbols, w) == (true, Some(b)) ==> r.nodes == nodes && !r.overwritten)
  {
    var e := Extend(nodes, symbols, w);
    ExtendReaches(nodes, symbols, w);
    AdaptiveOverwriteIff(nodes, symbols, w, b, origin);
    if e.0[e.1].acceptance != DONT_KNOW {
      ExtendCommitted(nodes, symbols, w);
    }
  }

  /** A user's classification survives every insertion from the system
      under learning: the tree stays as it was and no overwrite is
      reported. */
  lemma AdaptiveUserProtected<I(!new)>(nodes: seq<Node>, symbols: seq<I>, w: seq<I>, b: bool)
    requires WellFormed(nodes) && InAlphabet(symbols, w)
    requires LookupSpec(nodes, symbols, w).0 && StoredOrigin(nodes, symbols, w) == Some(USER)
    ensures AdaptiveInsert(nodes, symbols, w, b, SUL).nodes == nodes
    ensures !AdaptiveInsert(nodes, symbols, w, b, SUL).overwritten
  {
    AdaptiveLookupAfter(nodes, symbols, w, b, SUL);
    AdaptiveOverwriteIff(nodes, symbols, w, b, SUL);
  }

  /** An insertion leaves the lookup of every other word as it was. */
  lemma AdaptiveOthersUnchanged<I(!new)>(nodes: seq<Node>, symbols: seq<I>, w: seq<I>, b: bool, origin: CexOrigin, w': seq<I>)
    requires WellFormed(nodes) && InAlphabet(symbols, w) && InAlphabet(symbols, w') && w' != w
    ensures LookupSpec(AdaptiveInsert(nodes, symbols, w, b, origin).nodes, symbols, w') == LookupSpec(nodes, symbols, w')
  {
    var r := AdaptiveInsert(nodes, symbols, w, b, origin);
    LookupsPreservedExcept(nodes, r.nodes, symbols, w, r.terminal, w');
  }

  /** An insertion leaves the stored origin of every other existing path
      as it was. */
  lemma AdaptiveOriginsUnchanged<I(!new)>(nodes: seq<Node>, symbols: seq<I>, w: seq<I>, b: bool, origin: CexOrigin, w': seq<I>)
    requires WellFormed(nodes) && InAlphabet(symbols, w) && InAlphabet(symbols, w') && w' != w
    requires Walk(nodes, symbols, w').Some?
    ensures StoredOrigin(AdaptiveInsert(nodes, symbols, w, b, origin).nodes, symbols, w') == StoredOrigin(nodes, symbols, w')
  {
    var r := AdaptiveInsert(nodes, symbols, w, b, origin);
    WalkGrows(nodes, r.nodes, symbols, w');
    if Walk(nodes, symbols, w').value == r.terminal {
      WalkInjective(r.nodes, symbols, w', w);
    }
  }

  /** Repeating an insertion changes nothing and reports no overwrite. */
  lemma AdaptiveIdempotent<I(!new)>(nodes: seq<Node>, symbols: seq<I>, w: seq<I>, b: bool, origin: CexOrigin)
    requires WellFormed(nodes) && InAlphabet(symbols, w)
    ensures var r := AdaptiveInsert(nodes, symbols, w, b, origin);
      AdaptiveInsert(r.nodes, symbols, w, b, origin) == AdaptiveResult(r.nodes, r.terminal, false)
  {
    var r := AdaptiveInsert(nodes, symbols, w, b, origin);
    AdaptiveLookupAfter(nodes, symbols, w, b, origin);
    AdaptiveOverwriteIff(nodes, symbols, w, b, origin);
    ExtendReaches(r.nodes, symbols, w);
    if LookupSpec(nodes, symbols, w) == (true, Some(!b)) && !r.overwritten {
      AdaptiveOverwriteIff(r.nodes, symbols, w, b, origin);
    }
  }

  /** An insertion and its age refresh keep every entry's word leading to
      its committed node. */
  lemma AdaptiveKeepsAges<I(!new)>(nodes: seq<Node>, symbols: seq<I>, ages: Ages<I>, w: seq<I>, b: bool, origin: CexOrigin)
    requires AgesValid(nodes, symbols, ages) && InAlphabet(symbols, w)
    ensures var r := AdaptiveInsert(nodes, symbols, w, b, origin);
      AgesValid(r.nodes, symbols, Refresh(ages, r.terminal, w))
  {
    var r := AdaptiveInsert(nodes, symbols, w, b, origin);
    forall e | e in Remove(ages, r.terminal)
      ensures Walk(r.nodes, symbols, e.1) == Some(e.0) && r.nodes[e.0].acceptance != DONT_KNOW
    {
      WalkGrows(nodes, r.nodes, symbols, e.1);
    }
  }

  /** The refresh of an insertion drops exactly the entry holding the
      inserted word: nodes and stored words correspond one to one. */
  lemma AdaptiveRefreshesWord<I(!new)>(nodes: seq<Node>, symbols: seq<I>, ages: Ages<I>, w: seq<I>, b: bool, origin: CexOrigin)
    requires AgesValid(nodes, symbols, ages) && InAlphabet(symbols, w)
    ensures forall e :: e in ages ==> (e.0 == AdaptiveInsert(nodes, symbols, w, b, origin).terminal <==> e.1 == w)
  {
    var r := AdaptiveInsert(nodes, symbols, w, b, origin);
    forall e | e in ages
      ensures e.0 == r.terminal <==> e.1 == w
    {
      WalkGrows(nodes, r.nodes, symbols, e.1);
      if e.0 == r.terminal {
        WalkInjective(r.nodes, symbols, e.1, w);
      }
    }
  }
  /** Re-inserting a stored word moves its entry to the youngest end; the
      other entries keep their order. */
  lemma {:induction false} AdaptiveStoredWordMoves<I(!new)>(nodes: seq<Node>, symbols: seq<I>, ages: Ages<I>, i: nat, b: bool, origin: CexOrigin)
    requires AgesValid(nodes, symbols, ages) && i < |ages|
    ensures InAlphabet(symbols, ages[i].1)
    ensures var w := ages[i].1;
      var r := AdaptiveInsert(nodes, symbols, w, b, origin);
      r.terminal == ages[i].0 &&
      Refresh(ages, r.terminal, w) == ages[..i] + ages[i + 1..] + [(r.terminal, w)]
  {
    var w := ages[i].1;
    assert ages[i] in ages;
    AdaptiveRefreshesWord(nodes, symbols, ages, w, b, origin);
    SplitAtKey(ages, i);
    RefreshMoves(ages[..i], w, ages[i + 1..], ages[i].0, w);
  }

  /** With distinct keys, the entries before and after the i-th hold other
      nodes. */
  lemma SplitAtKey<I(!new)>(ages: Ages<I>, i: nat)
    requires DistinctKeys(ages) && i < |ages|
    ensures ages == ages[..i] + [ages[i]] + ages[i + 1..]
    ensures forall e :: e in ages[..i] ==> e.0 != ages[i].0
    ensures forall e :: e in ages[i + 1..] ==> e.0 != ages[i].0
  {
    forall e | e in ages[..i]
      ensures e.0 != ages[i].0
    {
      var j :| 0 <= j < i && ages[..i][j] == e;
      assert ages[j] == e;
    }
    forall e | e in ages[i + 1..]
      ensures e.0 != ages[i].0
    {
      var j :| 0 <= j < |ages| - i - 1 && ages[i + 1..][j] == e;
      assert ages[i + 1 + j] == e;
    }
  }

  /** A word not yet stored gets a new entry, the youngest, after all the
      others in their order. */
  lemma AdaptiveNewWordAppends<I(!new)>(nodes: seq<Node>, symbols: seq<I>, ages: Ages<I>, w: seq<I>, b: bool, origin: CexOrigin)
    requires AgesValid(nodes, symbols, ages) && InAlphabet(symbols, w)
    requires forall e :: e in ages ==> e.1 != w
    ensures var r := AdaptiveInsert(nodes, symbols, w, b, origin);
      Refresh(ages, r.terminal, w) == ages + [(r.terminal, w)]
  {
    AdaptiveRefreshesWord(nodes, symbols, ages, w, b, origin);
  }


  /** Removing node by node over a set is removing the set. */
  lemma {:induction false} RemoveAllStep<I(!new)>(ages: Ages<I>, s: set<nat>, m: nat)
    ensures Remove(RemoveAll(ages, s), m) == RemoveAll(ages, s + {m})
  {
    if ages != [] {
      RemoveAllStep(ages[1..], s, m);
    }
  }

  /** Removing a node splits over concatenation: each part loses its own
      entries of the node and the parts keep their order. */
  lemma {:induction false} RemoveConcat<I(!new)>(a: Ages<I>, b: Ages<I>, n: nat)
    ensures Remove(a + b, n) == Remove(a, n) + Remove(b, n)
  {
    if a == [] {
      assert a + b == b;
      assert Remove(a, n) == [];
      var rb := Remove(b, n);
      assert [] + rb == rb;
    } else {
      RemoveConcat(a[1..], b, n);
      RemoveUnfold(a, b, n);
    }
  }

  /** One step of RemoveConcat's induction: the head of `a` is the head of
      `a + b`, dropped or kept alike on both sides. */
  lemma {:induction false} RemoveUnfold<I(!new)>(a: Ages<I>, b: Ages<I>, n: nat)
    requires a != []
    requires Remove(a[1..] + b, n) == Remove(a[1..], n) + Remove(b, n)
    ensures Remove(a + b, n) == Remove(a, n) + Remove(b, n)
  {
    ConcatHead(a, b);
    if a[0].0 != n {
      ConsAssoc(a[0], Remove(a[1..], n), Remove(b, n));
    }
  }

  /** Splitting a concatenation at its first element; stated apart so that
      proofs about the map functions need no sequence extensionality. */
  lemma ConcatHead<T>(a: seq<T>, b: seq<T>)
    requires a != []
    ensures a + b != [] && (a + b)[0] == a[0] && (a + b)[1..] == a[1..] + b
  {
  }

  lemma ConsAssoc<T>(x: T, a: seq<T>, b: seq<T>)
    ensures [x] + (a + b) == ([x] + a) + b
  {
  }

  /** Removing a node takes out its one entry and leaves the entries before
      and after it in their order. */
  lemma {:induction false} RemoveMiddle<I(!new)>(a: Ages<I>, w: seq<I>, b: Ages<I>, n: nat)
    requires forall e :: e in a ==> e.0 != n
    requires forall e :: e in b ==> e.0 != n
    ensures Remove(a + [(n, w)] + b, n) == a + b
  {
    var single: Ages<I> := [(n, w)];
    assert Remove(single, n) == [] by {
      assert single[0].0 == n && single[1..] == [];
    }
    calc {
      Remove(a + single + b, n);
    == { RemoveConcat(a + single, b, n); }
      Remove(a + single, n) + Remove(b, n);
    == { RemoveConcat(a, single, n); }
      Remove(a, n) + [] + Remove(b, n);
    == { assert Remove(a, n) == a; assert Remove(b, n) == b; }
      a + [] + b;
    }
    assert a + [] + b == a + b;
  }

  /** Refreshing a stored node moves its entry to the newest end with the
      new word; the other entries keep their order. */
  lemma {:induction false} RefreshMoves<I(!new)>(a: Ages<I>, v: seq<I>, b: Ages<I>, n: nat, w: seq<I>)
    requires forall e :: e in a ==> e.0 != n
    requires forall e :: e in b ==> e.0 != n
    ensures Refresh(a + [(n, v)] + b, n, w) == a + b + [(n, w)]
  {
    RemoveMiddle(a, v, b, n);
  }

  /** Refreshing the node of the oldest entry makes the next entry the
      oldest. */
  lemma {:induction false} RefreshOldest<I(!new)>(ages: Ages<I>, w: seq<I>)
    requires DistinctKeys(ages) && |ages| >= 2
    ensures Oldest(Refresh(ages, ages[0].0, w)) == Some(ages[1].1)
  {
    var n := ages[0].0;
    var rest := ages[1..];
    forall e | e in rest
      ensures e.0 != n
    {
      var j :| 0 <= j < |rest| && rest[j] == e;
      assert ages[j + 1] == e;
    }
    assert ages == [] + [(n, ages[0].1)] + rest;
    RefreshMoves([], ages[0].1, rest, n, w);
    assert ([] + rest + [(n, w)])[0] == rest[0];
  }

  /** Removing a set of nodes splits over concatenation, so the surviving
      entries keep their relative order. */
  lemma {:induction false} RemoveAllConcat<I(!new)>(a: Ages<I>, b: Ages<I>, s: set<nat>)
    ensures RemoveAll(a + b, s) == RemoveAll(a, s) + RemoveAll(b, s)
  {
    if a != [] {
      assert (a + b)[1..] == a[1..] + b;
      RemoveAllConcat(a[1..], b, s);
    } else {
      assert a + b == b;
    }
  }

  /** Entries of nodes outside the set are all kept, in their order. */
  lemma {:induction false} RemoveAllUntouched<I(!new)>(ages: Ages<I>, s: set<nat>)
    requires forall e :: e in ages ==> e.0 !in s
    ensures RemoveAll(ages, s) == ages
  {
    if ages != [] {
      assert ages[0] in ages;
      assert forall e :: e in ages[1..] ==> e in ages;
      RemoveAllUntouched(ages[1..], s);
      assert ages == [ages[0]] + ages[1..];
    }
  }

  /** Refreshing three distinct nodes in turn makes the first the oldest;
      refreshing the first again makes the second the oldest. */
  lemma AgesScenario<I(!new)>(t1: nat, t2: nat, t3: nat, w1: seq<I>, w2: seq<I>, w3: seq<I>)
    requires t1 != t2 && t2 != t3 && t1 != t3
    ensures Oldest(Refresh(Refresh(Refresh([], t1, w1), t2, w2), t3, w3)) == Some(w1)
    ensures Oldest(Refresh(Refresh(Refresh(Refresh([], t1, w1), t2, w2), t3, w3), t1, w1)) == Some(w2)
  {
    var a3 := Refresh(Refresh(Refresh([], t1, w1), t2, w2), t3, w3);
    assert a3 == [(t1, w1), (t2, w2), (t3, w3)];
    assert Remove(a3, t1) == [(t2, w2), (t3, w3)];
  }

  /** The adaptive builder: the shared tree state plus the age map. */
  class AdaptiveDFATreeBuilder<I(==, !new)> {
    const tree: DFATreeBuilder<I>
    var nodeToQuery: Ages<I>

    ghost predicate Valid()
      reads this, tree, tree.inputAlphabet
    {
      tree.Valid() && AgesValid(tree.nodes, tree.inputAlphabet.symbols, nodeToQuery)
    }

    constructor (inputAlphabet: GrowingAlphabet<I>)
      requires inputAlphabet.Valid()
      ensures Valid() && fresh(tree)
      ensures tree.inputAlphabet == inputAlphabet
      ensures tree.nodes == [NewNode(DONT_KNOW)] && tree.alphabetSize == |inputAlphabet.symbols|
      ensures nodeToQuery == []
    {
      tree := new DFATreeBuilder(inputAlphabet);
      nodeToQuery := [];
    }

    /** Walks `word`, creating an unknown node for every missing step,
        applies the overwrite rule at the terminal node and makes the
        terminal's age entry the youngest, refused overwrite or not. */
    method InsertWithOrigin(word: seq<I>, acceptance: bool, origin: CexOrigin) returns (hasOverwritten: bool)
      requires Valid() && InAlphabet(tree.inputAlphabet.symbols, word)
      modifies tree`nodes, this`nodeToQuery
      ensures Valid()
      ensures var r := AdaptiveInsert(old(tree.nodes), tree.inputAlphabet.symbols, word, acceptance, origin);
        tree.nodes == r.nodes && hasOverwritten == r.overwritten &&
        nodeToQuery == Refresh(old(nodeToQuery), r.terminal, word)
    {
      ghost var symbols := tree.inputAlphabet.symbols;
      ghost var nodes0 := tree.nodes;
      ghost var ages0 := nodeToQuery;
      var curr := tree.WalkCreating(word);
      hasOverwritten := false;
      ghost var res := AdaptiveInsert(nodes0, symbols, word, acceptance, origin);
      assert curr == res.terminal;
      var acc := tree.nodes[curr].acceptance;
      var newWordAcc := Acceptance.FromBoolean(acceptance);
      if acc == DONT_KNOW || (acc != newWordAcc && (Some(origin) == tree.nodes[curr].origin || tree.nodes[curr].origin != Some(USER))) {
        hasOverwritten := acc != DONT_KNOW;
        ghost var relabelled := SetLabel(tree.nodes, curr, newWordAcc, Some(origin));
        tree.nodes := tree.nodes[curr := tree.nodes[curr].(acceptance := newWordAcc, origin := Some(origin))];
        assert tree.nodes == relabelled;
      }
      assert tree.nodes == res.nodes && hasOverwritten == res.overwritten;
      nodeToQuery := Remove(nodeToQuery, curr);
      nodeToQuery := Put(nodeToQuery, curr, word);
      assert nodeToQuery == Refresh(ages0, res.terminal, word);
      AdaptiveKeepsAges(nodes0, symbols, ages0, word, acceptance, origin);
      assert AgesValid(tree.nodes, symbols, nodeToQuery);
    }

    /** Inserts a classification from the system under learning. */
    method Insert(word: seq<I>, acceptance: bool) returns (hasOverwritten: bool)
      requires Valid() && InAlphabet(tree.inputAlphabet.symbols, word)
      modifies tree`nodes, this`nodeToQuery
      ensures Valid()
      ensures var r := AdaptiveInsert(old(tree.nodes), tree.inputAlphabet.symbols, word, acceptance, SUL);
        tree.nodes == r.nodes && hasOverwritten == r.overwritten &&
        nodeToQuery == Refresh(old(nodeToQuery), r.terminal, word)
    {
      hasOverwritten := InsertWithOrigin(word, acceptance, SUL);
    }

    /** Inserts a classification given by the user. */
    method InsertFromUser(word: seq<I>, acceptance: bool) returns (hasOverwritten: bool)
      requires Valid() && InAlphabet(tree.inputAlphabet.symbols, word)
      modifies tree`nodes, this`nodeToQuery
      ensures Valid()
      ensures var r := AdaptiveInsert(old(tree.nodes), tree.inputAlphabet.symbols, word, acceptance, USER);
        tree.nodes == r.nodes && hasOverwritten == r.overwritten &&
        nodeToQuery == Refresh(old(nodeToQuery), r.terminal, word)
    {
      hasOverwritten := InsertWithOrigin(word, acceptance, USER);
    }

    /** Drops the age entry of every node reachable from `node` through
        the alphabet, keeping the order of the other entries. */
    method RemoveQueries(node: nat)
      requires Valid() && node < |tree.nodes|
      modifies this`nodeToQuery
      ensures Valid()
      ensures nodeToQuery == RemoveAll(old(nodeToQuery), Reachable(tree.nodes, node, |tree.inputAlphabet.symbols|))
    {
      var reach := Reachable(tree.nodes, node, |tree.inputAlphabet.symbols|);
      var todo := reach;
      assert reach - todo == {};
      assert RemoveAll(nodeToQuery, {}) == nodeToQuery by {
        RemoveAllNone(nodeToQuery);
      }
      while todo != {}
        invariant todo <= reach
        invariant nodeToQuery == RemoveAll(old(nodeToQuery), reach - todo)
        invariant Valid()
        decreases |todo|
      {
        var m :| m in todo;
        RemoveAllStep(old(nodeToQuery), reach - todo, m);
        nodeToQuery := Remove(nodeToQuery, m);
        assert reach - todo + {m} == reach - (todo - {m});
        todo := todo - {m};
      }
      assert reach - todo == reach;
    }

    /** The word of the least recently refreshed entry, None when there is
        no entry. The word is one whose classification the tree holds. */
    method GetOldestInput() returns (r: Option<seq<I>>)
      requires Valid()
      ensures r == Oldest(nodeToQuery)
      ensures r.Some? ==>
        InAlphabet(tree.inputAlphabet.symbols, r.value) && LookupSpec(tree.nodes, tree.inputAlphabet.symbols, r.value).0
    {
      if nodeToQuery == [] {
        return None;
      }
      return Some(nodeToQuery[0].1);
    }

    /** Grows the alphabet as the shared builder does; the age entries
        keep their words and nodes. */
    method AddAlphabetSymbol(symbol: I)
      requires Valid()
      modifies tree`nodes, tree`alphabetSize, tree.inputAlphabet
      ensures Valid() && nodeToQuery == old(nodeToQuery)
      ensures tree.inputAlphabet.symbols ==
        if symbol in old(tree.inputAlphabet.symbols) then old(tree.inputAlphabet.symbols) else old(tree.inputAlphabet.symbols) + [symbol]
      ensures forall w :: InAlphabet(old(tree.inputAlphabet.symbols), w) ==>
        InAlphabet(tree.inputAlphabet.symbols, w) &&
        LookupSpec(tree.nodes, tree.inputAlphabet.symbols, w) == LookupSpec(old(tree.nodes), old(tree.inputAlphabet.symbols), w)
    {
      tree.AddAlphabetSymbol(symbol);
      forall e | e in nodeToQuery
        ensures InAlphabet(tree.inputAlphabet.symbols, e.1)
        ensures Walk(tree.nodes, tree.inputAlphabet.symbols, e.1) == Some(e.0)
        ensures tree.nodes[e.0].acceptance != DONT_KNOW
      {
        WalkSameShape(old(tree.nodes), tree.nodes, old(tree.inputAlphabet.symbols),
                      tree.inputAlphabet.symbols[|old(tree.inputAlphabet.symbols)|..], e.1);
        assert old(tree.inputAlphabet.symbols) + tree.inputAlphabet.symbols[|old(tree.inputAlphabet.symbols)|..]
            == tree.inputAlphabet.symbols;
      }
    }
  }

  lemma RemoveAllNone<I(!new)>(ages: Ages<I>)
    ensures RemoveAll(ages, {}) == ages
  {
    RemoveAllUntouched(ages, {});
  }
}
