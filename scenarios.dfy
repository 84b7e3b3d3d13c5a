/** The behaviour the builder's own tests pin down, restated over the
    two-letter alphabet a, b: divergence search against a small target,
    an empty builder, and the order of stored inputs. */
module Scenarios {
  import opened Values
  import opened Alphabets
  import opened Tree
  import opened Dfa
  import opened SeparatingWord
  import opened TreeBuilder
  import opened Adaptive

  const AB: seq<char> := ['a', 'b']

  /** The tree after classifying a as rejected, b as accepted and then a
      as accepted: an unknown root with two accepting leaves.
      LookupScenario proves that its builder ends with this tree. */
  const Leaves: seq<Node> := [
    Node([Some(1), Some(2)], DONT_KNOW, None),
    Node([], TRUE, Some(SUL)),
    Node([], TRUE, Some(SUL))
  ]

  /** The tree after classifying a as rejected. */
  const RejectedA: seq<Node> := [
    Node([Some(1), None], DONT_KNOW, None),
    Node([], FALSE, Some(SUL))
  ]

  /** The tree after then classifying b as accepted. */
  const AcceptedB: seq<Node> := [
    Node([Some(1), Some(2)], DONT_KNOW, None),
    Node([], FALSE, Some(SUL)),
    Node([], TRUE, Some(SUL))
  ]

  /** Classifying a as rejected in an empty tree widens the root to the
      alphabet, attaches node 1 under a and commits it. */
  lemma {:induction false} RejectedATree()
    ensures WellFormed([NewNode(DONT_KNOW)])
    ensures AdaptiveInsert([NewNode(DONT_KNOW)], AB, ['a'], false, SUL).nodes == RejectedA
  {
    var e := [Node([Some(1), None], DONT_KNOW, None), NewNode(DONT_KNOW)];
    ExtendEmptyByA();
    assert e[1 := e[1].(acceptance := FALSE, origin := Some(SUL))] == RejectedA;
  }

  /** The walk of a in an empty tree attaches node 1 under a. */
  lemma {:induction false} ExtendEmptyByA()
    ensures WellFormed([NewNode(DONT_KNOW)])
    ensures Extend([NewNode(DONT_KNOW)], AB, ['a']) == ([Node([Some(1), None], DONT_KNOW, None), NewNode(DONT_KNOW)], 1)
  {
    var n0 := [NewNode(DONT_KNOW)];
    assert WellFormed(n0) by {
      assert forall n, k :: 0 <= n < |n0| ==> GetChild(n0[n], k) == None;
    }
    assert ['a'][..0] == [];
    assert IndexOf(AB, 'a') == 0;
    var wide := EnsureInputCapacity(n0[0], 2);
    assert wide.children == [None, None];
    assert SetChild(n0[0], 0, 2, 1) == Node([Some(1), None], DONT_KNOW, None);
    assert Extend(n0, AB, []) == (n0, Root);
    assert GetChild(n0[Root], 0) == None;
    var t := n0[Root := SetChild(n0[Root], 0, 2, 1)] + [NewNode(DONT_KNOW)];
    assert t == [Node([Some(1), None], DONT_KNOW, None), NewNode(DONT_KNOW)];
    assert Step(n0, Root, 0, 2) == (t, 1);
  }

  /** Then classifying b as accepted attaches node 2 under b. */
  lemma {:induction false} AcceptedBTree()
    ensures WellFormed(RejectedA)
    ensures AdaptiveInsert(RejectedA, AB, ['b'], true, SUL).nodes == AcceptedB
  {
    assert WellFormed(RejectedA) by {
      assert forall n, k :: 0 <= n < |RejectedA| ==>
        GetChild(RejectedA[n], k) == if n == 0 && k == 0 then Some(1) else None;
    }
    assert ['b'][..0] == [];
    assert IndexOf(AB, 'b') == 1;
    assert SetChild(RejectedA[0], 1, 2, 2) == Node([Some(1), Some(2)], DONT_KNOW, None);
    assert Extend(RejectedA, AB, []) == (RejectedA, Root);
    assert GetChild(RejectedA[Root], 1) == None;
    var t := RejectedA[Root := SetChild(RejectedA[Root], 1, 2, 2)] + [NewNode(DONT_KNOW)];
    assert t == [Node([Some(1), Some(2)], DONT_KNOW, None), Node([], FALSE, Some(SUL)), NewNode(DONT_KNOW)];
    assert Step(RejectedA, Root, 1, 2) == ([Node([Some(1), Some(2)], DONT_KNOW, None), Node([], FALSE, Some(SUL)), NewNode(DONT_KNOW)], 2);
  }

  /** Then classifying a as accepted overwrites node 1 in place. */
  lemma {:induction false} LeavesTree()
    ensures WellFormed(AcceptedB)
    ensures AdaptiveInsert(AcceptedB, AB, ['a'], true, SUL).nodes == Leaves
  {
    assert WellFormed(AcceptedB) by {
      assert forall n, k :: 0 <= n < |AcceptedB| ==>
        GetChild(AcceptedB[n], k) == if n == 0 && k < 2 then Some(k + 1) else None;
    }
    assert ['a'][..0] == [];
    assert IndexOf(AB, 'a') == 0;
    assert Extend(AcceptedB, AB, ['a']) == (AcceptedB, 1);
  }

  /** A rejecting initial state 0 without transitions; state 1 accepts and
      leads to 3 on b and back to 0 on a. */
  function Partial(): DFA<nat, char>
  {
    DFA(Some(0), (s: nat, x: char) => if s == 1 && x == 'b' then Some(3) else if s == 1 && x == 'a' then Some(0) else None,
        (s: nat) => s == 1 || s == 3)
  }

  /** The same target with state 0 leading to 1 on both letters. */
  function Completed(): DFA<nat, char>
  {
    DFA(Some(0), (s: nat, x: char) => if s == 0 then Some(1) else if s == 1 && x == 'b' then Some(3) else if s == 1 && x == 'a' then Some(0) else None,
        (s: nat) => s == 1 || s == 3)
  }

  /** The only paths of the leaves tree are the empty word, a and b. */
  lemma LeavesPaths(w: seq<char>)
    requires InAlphabet(AB, w) && WellFormed(Leaves) && Walk(Leaves, AB, w).Some?
    ensures w == [] || w == ['a'] || w == ['b']
  {
    if |w| == 1 {
      assert w == [w[0]];
    }
  }

  lemma LeavesWellFormed()
    ensures WellFormed(Leaves)
  {
    forall n, k | 0 <= n < |Leaves|
      ensures GetChild(Leaves[n], k) == if n == 0 && k < 2 then Some(k + 1) else None
    {
    }
  }

  /** Against the partial target, omitting undefined transitions finds no
      difference; reading them as rejection exposes a leaf. */
  method SeparatingScenario() returns (omitted: Option<seq<char>>, sink: Option<seq<char>>)
    ensures omitted == None
    ensures sink == Some(['a']) || sink == Some(['b'])
  {
    LeavesWellFormed();
    omitted := DoFindSeparatingWord(Leaves, AB, Partial(), AB, true);
    if omitted.Some? {
      assert false;
    }
    sink := DoFindSeparatingWord(Leaves, AB, Partial(), AB, false);
    ghost var c := Search(Leaves, AB, Partial(), AB, false);
    assert ['a'][..0] == [];
    assert Walk(Leaves, AB, ['a']) == Some(1);
    assert Compared(c, ['a']) && Exposes(c, ['a']);
    LeavesPaths(sink.value);
  }

  /** Once state 0 leads to the accepting state on both letters, no
      difference remains under either reading. */
  method CompletedScenario() returns (omitted: Option<seq<char>>, sink: Option<seq<char>>)
    ensures omitted == None && sink == None
  {
    LeavesWellFormed();
    omitted := DoFindSeparatingWord(Leaves, AB, Completed(), AB, true);
    if omitted.Some? {
      assert false;
    }
    sink := DoFindSeparatingWord(Leaves, AB, Completed(), AB, false);
    if sink.Some? {
      assert false;
    }
  }

  /** A new builder after classifying a as rejected: a is definitive,
      the empty word and aa are not. */
  method RejectA() returns (builder: AdaptiveDFATreeBuilder<char>)
    ensures fresh(builder) && fresh(builder.tree) && builder.Valid() && builder.tree.inputAlphabet.symbols == AB
    ensures LookupSpec(builder.tree.nodes, AB, ['a']) == (true, Some(false))
    ensures StoredOrigin(builder.tree.nodes, AB, ['a']) == Some(SUL)
    ensures LookupSpec(builder.tree.nodes, AB, ['a', 'a']) == (false, None)
    ensures LookupSpec(builder.tree.nodes, AB, ['b']) == (false, None)
    ensures LookupSpec(builder.tree.nodes, AB, []) == (false, None)
    ensures builder.tree.nodes == RejectedA
  {
    var alphabet := new GrowingAlphabet(AB);
    builder := new AdaptiveDFATreeBuilder(alphabet);
    var _ := builder.Insert(['a'], false);
    RejectedATree();
    RejectAFacts();
  }

  /** Classifying a as rejected in an empty tree, which gives RejectedA:
      a becomes definitive with the system's origin, and aa, b and the
      empty word stay unknown. */
  lemma {:induction false} RejectAFacts()
    ensures WellFormed(RejectedA)
    ensures LookupSpec(RejectedA, AB, ['a']) == (true, Some(false))
    ensures StoredOrigin(RejectedA, AB, ['a']) == Some(SUL)
    ensures LookupSpec(RejectedA, AB, ['a', 'a']) == (false, None)
    ensures LookupSpec(RejectedA, AB, ['b']) == (false, None)
    ensures LookupSpec(RejectedA, AB, []) == (false, None)
  {
    assert WellFormed(RejectedA) by {
      assert forall n, k :: 0 <= n < |RejectedA| ==>
        GetChild(RejectedA[n], k) == if n == 0 && k == 0 then Some(1) else None;
    }
    assert ['a'][..0] == [] && ['b'][..0] == [] && ['a', 'a'][..1] == ['a'];
    assert IndexOf(AB, 'a') == 0 && IndexOf(AB, 'b') == 1;
    assert Walk(RejectedA, AB, ['a']) == Some(1);
  }

  /** Classifying b as accepted after a as rejected: a keeps its value and
      origin, b becomes definitive and the empty word stays unknown. */
  lemma AcceptBFacts(n1: seq<Node>)
    requires WellFormed(n1)
    requires LookupSpec(n1, AB, ['a']) == (true, Some(false))
    requires StoredOrigin(n1, AB, ['a']) == Some(SUL)
    requires LookupSpec(n1, AB, ['b']) == (false, None) && LookupSpec(n1, AB, []) == (false, None)
    ensures var r := AdaptiveInsert(n1, AB, ['b'], true, SUL);
      LookupSpec(r.nodes, AB, ['a']) == (true, Some(false)) &&
      StoredOrigin(r.nodes, AB, ['a']) == Some(SUL) &&
      LookupSpec(r.nodes, AB, ['b']) == (true, Some(true)) &&
      LookupSpec(r.nodes, AB, []) == (false, None)
  {
    AdaptiveLookupAfter(n1, AB, ['b'], true, SUL);
    AdaptiveOthersUnchanged(n1, AB, ['b'], true, SUL, ['a']);
    AdaptiveOthersUnchanged(n1, AB, ['b'], true, SUL, []);
    AdaptiveOriginsUnchanged(n1, AB, ['b'], true, SUL, ['a']);
  }

  /** Then classifying b as accepted: a keeps its value and origin. */
  method AcceptB() returns (builder: AdaptiveDFATreeBuilder<char>)
    ensures fresh(builder) && fresh(builder.tree) && builder.Valid() && builder.tree.inputAlphabet.symbols == AB
    ensures LookupSpec(builder.tree.nodes, AB, ['a']) == (true, Some(false))
    ensures StoredOrigin(builder.tree.nodes, AB, ['a']) == Some(SUL)
    ensures LookupSpec(builder.tree.nodes, AB, ['b']) == (true, Some(true))
    ensures LookupSpec(builder.tree.nodes, AB, []) == (false, None)
    ensures builder.tree.nodes == AcceptedB
  {
    builder := RejectA();
    AcceptBFacts(builder.tree.nodes);
    var _ := builder.Insert(['b'], true);
    AcceptedBTree();
  }

  /** Classifying a as rejected, b as accepted and then a as accepted:
      each classified word becomes definitive with its latest value, the
      empty word and a longer word stay unknown, and the second
      classification of a overwrites the first. The builder ends with the
      tree `Leaves`. */
  method LookupScenario() returns (first: (bool, Option<bool>), longer: bool, second: (bool, Option<bool>), empty: bool,
                                   overwritten: bool, third: (bool, Option<bool>), builder: AdaptiveDFATreeBuilder<char>)
    ensures first == (true, Some(false)) && !longer
    ensures second == (true, Some(true)) && !empty
    ensures overwritten && third == (true, Some(true))
    ensures builder.tree.nodes == Leaves
  {
    builder := RejectA();
    first := builder.tree.Lookup(['a']);
    longer := builder.tree.HasDefinitiveInformation(['a', 'a']);
    builder := AcceptB();
    second := builder.tree.Lookup(['b']);
    empty := builder.tree.HasDefinitiveInformation([]);
    ghost var n2 := builder.tree.nodes;
    AdaptiveLookupAfter(n2, AB, ['a'], true, SUL);
    AdaptiveOverwriteIff(n2, AB, ['a'], true, SUL);
    overwritten := builder.Insert(['a'], true);
    third := builder.tree.Lookup(['a']);
    LeavesTree();
  }

  /** A new builder knows nothing and stores no input. */
  method EmptyScenario() returns (value: Option<bool>, oldest: Option<seq<char>>)
    ensures value == None && oldest == None
  {
    var alphabet := new GrowingAlphabet(AB);
    var builder := new AdaptiveDFATreeBuilder(alphabet);
    assert ['a'][..0] == [];
    value := builder.tree.DirectLookup(['a']);
    oldest := builder.GetOldestInput();
  }

  /** Classifying a word other than aa as accepted keeps aa unknown. */
  method ConfluenceStep(builder: AdaptiveDFATreeBuilder<char>, w: seq<char>)
    requires builder.Valid() && builder.tree.inputAlphabet.symbols == AB && InAlphabet(AB, w) && w != ['a', 'a']
    requires LookupSpec(builder.tree.nodes, AB, ['a', 'a']) == (false, None)
    modifies builder, builder.tree
    ensures builder.Valid() && builder.tree.inputAlphabet.symbols == AB
    ensures LookupSpec(builder.tree.nodes, AB, ['a', 'a']) == (false, None)
  {
    AdaptiveOthersUnchanged(builder.tree.nodes, AB, w, true, SUL, ['a', 'a']);
    var _ := builder.Insert(w, true);
  }

  /** A new builder that classifies a, b and the empty word as accepted
      still has no definitive information on aa. */
  method ConfluenceScenario() returns (definitive: bool)
    ensures !definitive
  {
    var alphabet := new GrowingAlphabet(AB);
    var builder := new AdaptiveDFATreeBuilder(alphabet);
    assert ['a', 'a'][..1] == ['a'] && ['a'][..0] == [];
    assert LookupSpec(builder.tree.nodes, AB, ['a', 'a']) == (false, None);
    ConfluenceStep(builder, ['a']);
    ConfluenceStep(builder, ['b']);
    ConfluenceStep(builder, []);
    var r := builder.tree.Lookup(['a', 'a']);
    definitive := r.0;
  }

  /** Classifying b after a appends b's entry behind a's. */
  lemma {:induction false} SecondEntry(nodes: seq<Node>, ages: Ages<char>)
    requires AgesValid(nodes, AB, ages) && |ages| == 1 && ages[0].1 == ['a']
    ensures var a := Refresh(ages, AdaptiveInsert(nodes, AB, ['b'], false, SUL).terminal, ['b']);
      |a| == 2 && a[0].1 == ['a'] && a[1].1 == ['b']
  {
    assert forall e :: e in ages ==> e.1 != ['b'];
    AdaptiveNewWordAppends(nodes, AB, ages, ['b'], false, SUL);
  }

  /** Classifying the empty word after a and b appends its entry last. */
  lemma {:induction false} ThirdEntry(nodes: seq<Node>, ages: Ages<char>)
    requires AgesValid(nodes, AB, ages) && |ages| == 2 && ages[0].1 == ['a'] && ages[1].1 == ['b']
    ensures var a := Refresh(ages, AdaptiveInsert(nodes, AB, [], false, SUL).terminal, []);
      |a| == 3 && a[0].1 == ['a'] && a[1].1 == ['b'] && a[2].1 == []
  {
    assert ages == [ages[0], ages[1]];
    assert forall e :: e in ages ==> e.1 != [];
    AdaptiveNewWordAppends(nodes, AB, ages, [], false, SUL);
  }

  /** A fresh builder over the alphabet a, b after classifying a and then
      b: the entries follow that order. */
  method TwoInsertions() returns (builder: AdaptiveDFATreeBuilder<char>)
    ensures fresh(builder) && fresh(builder.tree) && builder.Valid() && builder.tree.inputAlphabet.symbols == AB
    ensures |builder.nodeToQuery| == 2
    ensures builder.nodeToQuery[0].1 == ['a'] && builder.nodeToQuery[1].1 == ['b']
  {
    var alphabet := new GrowingAlphabet(AB);
    builder := new AdaptiveDFATreeBuilder(alphabet);
    var _ := builder.Insert(['a'], true);
    SecondEntry(builder.tree.nodes, builder.nodeToQuery);
    var _ := builder.Insert(['b'], false);
  }

  /** Then classifying the empty word appends its entry. */
  method ThreeInsertions() returns (builder: AdaptiveDFATreeBuilder<char>)
    ensures fresh(builder) && fresh(builder.tree) && builder.Valid() && builder.tree.inputAlphabet.symbols == AB
    ensures |builder.nodeToQuery| == 3
    ensures builder.nodeToQuery[0].1 == ['a'] && builder.nodeToQuery[1].1 == ['b'] && builder.nodeToQuery[2].1 == []
  {
    builder := TwoInsertions();
    ThirdEntry(builder.tree.nodes, builder.nodeToQuery);
    var _ := builder.Insert([], false);
  }

  /** Reclassifying the first of three stored words leaves the second the
      oldest. */
  lemma {:induction false} OverwriteFirstFacts(nodes: seq<Node>, ages: Ages<char>)
    requires AgesValid(nodes, AB, ages)
    requires |ages| == 3 && ages[0].1 == ['a'] && ages[1].1 == ['b'] && ages[2].1 == []
    ensures Oldest(Refresh(ages, AdaptiveInsert(nodes, AB, ['a'], false, SUL).terminal, ['a'])) == Some(['b'])
  {
    AdaptiveStoredWordMoves(nodes, AB, ages, 0, false, SUL);
    RefreshOldest(ages, ['a']);
  }

  /** Reclassifying the first of three stored words moves it behind the
      others, so the second becomes the oldest input. */
  method OverwriteFirst(builder: AdaptiveDFATreeBuilder<char>) returns (second: Option<seq<char>>)
    requires builder.Valid() && builder.tree.inputAlphabet.symbols == AB
    requires |builder.nodeToQuery| == 3
    requires builder.nodeToQuery[0].1 == ['a'] && builder.nodeToQuery[1].1 == ['b'] && builder.nodeToQuery[2].1 == []
    modifies builder, builder.tree
    ensures second == Some(['b'])
  {
    OverwriteFirstFacts(builder.tree.nodes, builder.nodeToQuery);
    var _ := builder.Insert(['a'], false);
    second := builder.GetOldestInput();
  }

  /** Three classifications of distinct words make the first word the
      oldest input; overwriting the first moves the second to the front. */
  method AgesScenarioRun() returns (first: Option<seq<char>>, second: Option<seq<char>>)
    ensures first == Some(['a']) && second == Some(['b'])
  {
    var builder := ThreeInsertions();
    first := builder.GetOldestInput();
    second := OverwriteFirst(builder);
  }

}
