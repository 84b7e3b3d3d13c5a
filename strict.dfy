/** The strict tree builder: an insertion commits a word's classification
    once, re-inserting the same value is a no-op, and a contradicting
    insertion raises a conflict and leaves the tree as it was. */
module Incremental {
  import opened Values
  import opened Alphabets
  import opened Tree
  import opened TreeBuilder

  /** Raised when an insertion contradicts a committed classification. */
  datatype ConflictException<I> = ConflictException(word: seq<I>, existing: Acceptance, attempted: Acceptance)

  /** The effect of inserting `w` with classification `b` on the tree:
      extend the path, then commit an unknown terminal, keep an equal one
      or fail on a different one. */
  function StrictInsert<I(==)>(nodes: seq<Node>, symbols: seq<I>, w: seq<I>, b: bool): (r: Result<seq<Node>, ConflictException<I>>)
    requires WellFormed(nodes) && InAlphabet(symbols, w)
    ensures r.Success? ==> WellFormed(r.value) && GrowsFresh(nodes, r.value)
    ensures r.Failure? ==> r.error == ConflictException(w, Acceptance.FromBoolean(!b), Acceptance.FromBoolean(b))
  {
    var e := Extend(nodes, symbols, w);
    var acc := e.0[e.1].acceptance;
    var newWordAcc := Acceptance.FromBoolean(b);
    if acc == DONT_KNOW then
      var t := SetLabel(e.0, e.1, newWordAcc, e.0[e.1].origin);
      assert GrowsFresh(e.0, t);
      GrowsFreshTrans(nodes, e.0, t);
      Success(t)
    else if acc != newWordAcc then Failure(ConflictException(w, acc, newWordAcc))
    else Success(e.0)
  }

  /** After a successful insertion the word's path exists and its lookup
      is definitive with the inserted value. */
  lemma StrictInsertThenLookup<I>(nodes: seq<Node>, symbols: seq<I>, w: seq<I>, b: bool)
    requires WellFormed(nodes) && InAlphabet(symbols, w)
    requires StrictInsert(nodes, symbols, w, b).Success?
    ensures LookupSpec(StrictInsert(nodes, symbols, w, b).value, symbols, w) == (true, Some(b))
  {
    var e := Extend(nodes, symbols, w);
    ExtendReaches(nodes, symbols, w);
    WalkRelabel(e.0, e.1, Acceptance.FromBoolean(b), e.0[e.1].origin, symbols, w);
  }

  /** An insertion fails exactly when the word is already committed to the
      opposite value. */
  lemma StrictConflictIff<I>(nodes: seq<Node>, symbols: seq<I>, w: seq<I>, b: bool)
    requires WellFormed(nodes) && InAlphabet(symbols, w)
    ensures StrictInsert(nodes, symbols, w, b).Failure? <==> LookupSpec(nodes, symbols, w) == (true, Some(!b))
  {
    var e := Extend(nodes, symbols, w);
    ExtendReaches(nodes, symbols, w);
    if e.0[e.1].acceptance != DONT_KNOW {
      ExtendCommitted(nodes, symbols, w);
    }
  }

  /** A failed insertion finds the whole path in place, so the walk
      creates nothing and the tree is unchanged. */
  lemma StrictConflictUnchanged<I>(nodes: seq<Node>, symbols: seq<I>, w: seq<I>, b: bool)
    requires WellFormed(nodes) && InAlphabet(symbols, w)
    requires StrictInsert(nodes, symbols, w, b).Failure?
    ensures Extend(nodes, symbols, w).0 == nodes
  {
    ExtendCommitted(nodes, symbols, w);
  }

  /** Inserting the same classification twice is the same as once. */
  lemma StrictIdempotent<I>(nodes: seq<Node>, symbols: seq<I>, w: seq<I>, b: bool)
    requires WellFormed(nodes) && InAlphabet(symbols, w)
    requires StrictInsert(nodes, symbols, w, b).Success?
    ensures StrictInsert(StrictInsert(nodes, symbols, w, b).value, symbols, w, b) == StrictInsert(nodes, symbols, w, b)
  {
    var t := StrictInsert(nodes, symbols, w, b).value;
    StrictInsertThenLookup(nodes, symbols, w, b);
    ExtendReaches(t, symbols, w);
  }

  /** A successful insertion leaves the lookup of every other word as it
      was, and never changes a definitive lookup. */
  lemma StrictOthersUnchanged<I>(nodes: seq<Node>, symbols: seq<I>, w: seq<I>, b: bool, w': seq<I>)
    requires WellFormed(nodes) && InAlphabet(symbols, w) && InAlphabet(symbols, w')
    requires StrictInsert(nodes, symbols, w, b).Success?
    ensures w' != w ==> LookupSpec(StrictInsert(nodes, symbols, w, b).value, symbols, w') == LookupSpec(nodes, symbols, w')
    ensures LookupSpec(nodes, symbols, w').0 ==>
      LookupSpec(StrictInsert(nodes, symbols, w, b).value, symbols, w') == LookupSpec(nodes, symbols, w')
  {
    var e := Extend(nodes, symbols, w);
    var t := StrictInsert(nodes, symbols, w, b).value;
    ExtendReaches(nodes, symbols, w);
    WalkRelabel(e.0, e.1, Acceptance.FromBoolean(b), e.0[e.1].origin, symbols, w);
    if w' != w {
      LookupsPreservedExcept(nodes, t, symbols, w, e.1, w');
    } else if LookupSpec(nodes, symbols, w').0 {
      StrictInsertThenLookup(nodes, symbols, w, b);
      StrictConflictIff(nodes, symbols, w, b);
    }
  }

  /** The strict builder: the shared tree state plus commit-or-throw
      insertion. */
  class IncrementalDFATreeBuilder<I(==, !new)> {
    const tree: DFATreeBuilder<I>

    ghost predicate Valid()
      reads this, tree, tree.inputAlphabet
    {
      tree.Valid()
    }

    constructor (inputAlphabet: GrowingAlphabet<I>)
      requires inputAlphabet.Valid()
      ensures Valid() && fresh(tree)
      ensures tree.inputAlphabet == inputAlphabet
      ensures tree.nodes == [NewNode(DONT_KNOW)] && tree.alphabetSize == |inputAlphabet.symbols|
    {
      tree := new DFATreeBuilder(inputAlphabet);
    }

    /** Walks `word`, creating an unknown node for every missing step, then
        commits the terminal node, keeps it, or raises a conflict. */
    method Insert(word: seq<I>, acceptance: bool) returns (r: Outcome<ConflictException<I>>)
      requires Valid() && InAlphabet(tree.inputAlphabet.symbols, word)
      modifies tree`nodes
      ensures Valid()
      ensures r.Pass? ==> StrictInsert(old(tree.nodes), tree.inputAlphabet.symbols, word, acceptance) == Success(tree.nodes)
      ensures r.Fail? ==> StrictInsert(old(tree.nodes), tree.inputAlphabet.symbols, word, acceptance) == Failure(r.error)
      ensures r.Fail? ==> tree.nodes == old(tree.nodes)
    {
      ghost var symbols := tree.inputAlphabet.symbols;
      var curr := tree.WalkCreating(word);
      var acc := tree.nodes[curr].acceptance;
      var newWordAcc := Acceptance.FromBoolean(acceptance);
      if acc == DONT_KNOW {
        ghost var relabelled := SetLabel(tree.nodes, curr, newWordAcc, tree.nodes[curr].origin);
        tree.nodes := tree.nodes[curr := tree.nodes[curr].(acceptance := newWordAcc)];
        assert tree.nodes == relabelled;
      } else if acc != newWordAcc {
        ExtendCommitted(old(tree.nodes), symbols, word);
        return Fail(ConflictException(word, acc, newWordAcc));
      }
      return Pass;
    }

    /** Inserts `word` as accepted. */
    method InsertAccepting(word: seq<I>) returns (r: Outcome<ConflictException<I>>)
      requires Valid() && InAlphabet(tree.inputAlphabet.symbols, word)
      modifies tree`nodes
      ensures Valid()
      ensures r.Pass? ==> StrictInsert(old(tree.nodes), tree.inputAlphabet.symbols, word, true) == Success(tree.nodes)
      ensures r.Fail? ==> StrictInsert(old(tree.nodes), tree.inputAlphabet.symbols, word, true) == Failure(r.error)
      ensures r.Fail? ==> tree.nodes == old(tree.nodes)
    {
      r := Insert(word, true);
    }
  }
}
