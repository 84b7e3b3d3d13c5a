/** The state and the read-only operations shared by both tree builders:
    the node arena with its root, the input alphabet it is indexed by and
    the alphabet size every node's child storage is sized to; lookups, the
    transition-system view, the divergence search, alphabet growth and
    node insertion. */
module TreeBuilder {
  import opened Values
  import opened Alphabets
  import opened Tree
  import opened Reachability
  import opened Dfa
  import SeparatingWord

  class DFATreeBuilder<I(==, !new)> {
    /** Node arena; the root is `nodes[Root]`. */
    var nodes: seq<Node>
    /** The alphabet size child storage was last widened to. */
    var alphabetSize: nat
    const inputAlphabet: GrowingAlphabet<I>

    ghost predicate Valid()
      reads this, inputAlphabet
    {
      WellFormed(nodes) && inputAlphabet.Valid() && alphabetSize <= |inputAlphabet.symbols|
    }

    /** A builder holding only a fresh root, sized to the alphabet. */
    constructor (inputAlphabet: GrowingAlphabet<I>)
      requires inputAlphabet.Valid()
      ensures Valid()
      ensures this.inputAlphabet == inputAlphabet
      ensures nodes == [NewNode(DONT_KNOW)] && alphabetSize == |inputAlphabet.symbols|
    {
      this.inputAlphabet := inputAlphabet;
      nodes := [NewNode(DONT_KNOW)];
      alphabetSize := |inputAlphabet.symbols|;
    }

    /** Follows `inputWord` from the root without creating nodes: definitive
        exactly when the path exists and ends on a committed node. */
    method Lookup(inputWord: seq<I>) returns (r: (bool, Option<bool>))
      requires Valid() && InAlphabet(inputAlphabet.symbols, inputWord)
      ensures r == LookupSpec(nodes, inputAlphabet.symbols, inputWord)
    {
      var curr := Root;
      for i := 0 to |inputWord|
        invariant Walk(nodes, inputAlphabet.symbols, inputWord[..i]) == Some(curr)
      {
        var symIdx := inputAlphabet.GetSymbolIndex(inputWord[i]);
        var succ := GetChild(nodes[curr], symIdx);
        WalkSnoc(nodes, inputAlphabet.symbols, inputWord[..i], inputWord[i]);
        assert inputWord[..i + 1] == inputWord[..i] + [inputWord[i]];
        if succ.None? {
          if Walk(nodes, inputAlphabet.symbols, inputWord).Some? {
            WalkPrefix(nodes, inputAlphabet.symbols, inputWord, i + 1);
          }
          return (false, None);
        }
        curr := succ.value;
      }
      assert inputWord[..|inputWord|] == inputWord;
      var out: Option<bool> :=
        if nodes[curr].acceptance == DONT_KNOW then None else Some(nodes[curr].acceptance.ToBoolean());
      return (out.Some?, out);
    }

    /** The first component of the lookup. */
    method HasDefinitiveInformation(word: seq<I>) returns (r: bool)
      requires Valid() && InAlphabet(inputAlphabet.symbols, word)
      ensures r == LookupSpec(nodes, inputAlphabet.symbols, word).0
    {
      var p := Lookup(word);
      r := p.0;
    }

    /** The second component of the lookup. */
    method DirectLookup(word: seq<I>) returns (r: Option<bool>)
      requires Valid() && InAlphabet(inputAlphabet.symbols, word)
      ensures r == LookupSpec(nodes, inputAlphabet.symbols, word).1
    {
      var p := Lookup(word);
      r := p.1;
    }

    /** The view's initial state: the node of the empty word. */
    function GetInitialState(): (r: nat)
      reads this, inputAlphabet
      requires Valid()
      ensures r < |nodes| && Walk(nodes, inputAlphabet.symbols, []) == Some(r)
    {
      Root
    }

    /** The view's transition: from the node of any word `w`, reading
        `input` leads to the node of `w + [input]`, if it exists. */
    function GetTransition(state: nat, input: I): (r: Option<nat>)
      reads this, inputAlphabet
      requires Valid() && state < |nodes| && input in inputAlphabet.symbols
      ensures r.Some? ==> state < r.value < |nodes|
      ensures forall w :: InAlphabet(inputAlphabet.symbols, w) && Walk(nodes, inputAlphabet.symbols, w) == Some(state) ==>
        InAlphabet(inputAlphabet.symbols, w + [input]) && Walk(nodes, inputAlphabet.symbols, w + [input]) == r
    {
      ViewStep(nodes, inputAlphabet.symbols, state, input);
      GetChild(nodes[state], inputAlphabet.GetSymbolIndex(input))
    }

    /** Compares the tree with `target` over the probe symbols `inputs`. */
    method FindSeparatingWord<S>(target: DFA<S, I>, inputs: seq<I>, omitUndefined: bool) returns (r: Option<seq<I>>)
      requires Valid() && InAlphabet(inputAlphabet.symbols, inputs)
      ensures target.initialState.None? ==> r == if omitUndefined then None else Some([])
      ensures target.initialState.Some? && r.Some? ==>
        SeparatingWord.Compared(SeparatingWord.Search(nodes, inputAlphabet.symbols, target, inputs, omitUndefined), r.value) &&
        SeparatingWord.Exposes(SeparatingWord.Search(nodes, inputAlphabet.symbols, target, inputs, omitUndefined), r.value)
      ensures target.initialState.Some? && r.None? ==>
        forall w :: SeparatingWord.Compared(SeparatingWord.Search(nodes, inputAlphabet.symbols, target, inputs, omitUndefined), w) ==>
          !SeparatingWord.Exposes(SeparatingWord.Search(nodes, inputAlphabet.symbols, target, inputs, omitUndefined), w)
      ensures target.initialState.Some? &&
              SeparatingWord.Exposes(SeparatingWord.Search(nodes, inputAlphabet.symbols, target, inputs, omitUndefined), [])
              ==> r == Some([])
    {
      r := SeparatingWord.DoFindSeparatingWord(nodes, inputAlphabet.symbols, target, inputs, omitUndefined);
    }

    /** Registers `symbol` (if new) and widens the child storage of every
        node reachable through the old indices to the new alphabet size.
        A symbol already present with no growth elsewhere changes nothing. */
    method AddAlphabetSymbol(symbol: I)
      requires Valid()
      modifies this`nodes, this`alphabetSize, inputAlphabet
      ensures Valid()
      ensures inputAlphabet.symbols ==
        if symbol in old(inputAlphabet.symbols) then old(inputAlphabet.symbols) else old(inputAlphabet.symbols) + [symbol]
      ensures alphabetSize == |inputAlphabet.symbols| && old(alphabetSize) <= alphabetSize
      ensures SameShape(old(nodes), nodes)
      ensures old(alphabetSize) < alphabetSize ==>
        forall m :: m in Reachable(old(nodes), Root, old(alphabetSize)) ==> |nodes[m].children| >= alphabetSize
      ensures old(alphabetSize) == alphabetSize ==> nodes == old(nodes)
      ensures forall w :: InAlphabet(old(inputAlphabet.symbols), w) ==>
        InAlphabet(inputAlphabet.symbols, w) &&
        LookupSpec(nodes, inputAlphabet.symbols, w) == LookupSpec(old(nodes), old(inputAlphabet.symbols), w)
    {
      if !inputAlphabet.ContainsSymbol(symbol) {
        inputAlphabet.AddSymbol(symbol);
      }
      var newAlphabetSize := inputAlphabet.Size();
      if alphabetSize < newAlphabetSize {
        EnsureInputCapacity(Root, alphabetSize, newAlphabetSize);
        alphabetSize := newAlphabetSize;
      }
      ghost var more := inputAlphabet.symbols[|old(inputAlphabet.symbols)|..];
      assert inputAlphabet.symbols == old(inputAlphabet.symbols) + more;
      forall w | InAlphabet(old(inputAlphabet.symbols), w)
        ensures InAlphabet(inputAlphabet.symbols, w)
        ensures LookupSpec(nodes, inputAlphabet.symbols, w) == LookupSpec(old(nodes), old(inputAlphabet.symbols), w)
      {
        WalkSameShape(old(nodes), nodes, old(inputAlphabet.symbols), more, w);
      }
    }

    /** Widens `node` to `newAlphabetSize`, then recurses into each child
        at an index below `oldAlphabetSize`. Only nodes reachable that way
        change, and only in the size of their child storage. */
    method EnsureInputCapacity(node: nat, oldAlphabetSize: nat, newAlphabetSize: nat)
      requires WellFormed(nodes) && node < |nodes|
      modifies this`nodes
      ensures WellFormed(nodes) && SameShape(old(nodes), nodes)
      ensures forall m :: m in Reachable(old(nodes), node, oldAlphabetSize) ==> |nodes[m].children| >= newAlphabetSize
      ensures forall m :: 0 <= m < |nodes| && m !in Reachable(old(nodes), node, oldAlphabetSize) ==> nodes[m] == old(nodes)[m]
      decreases |nodes| - node
    {
      ghost var nodes0 := nodes;
      nodes := nodes[node := Tree.EnsureInputCapacity(nodes[node], newAlphabetSize)];
      SameShapeWellFormed(nodes0, nodes);
      for i := 0 to oldAlphabetSize
        invariant WellFormed(nodes) && SameShape(nodes0, nodes)
        invariant |nodes[node].children| >= newAlphabetSize
        invariant forall m :: m in ReachableVia(nodes0, node, i, oldAlphabetSize) ==> |nodes[m].children| >= newAlphabetSize
        invariant forall m :: 0 <= m < |nodes| && m != node && m !in ReachableVia(nodes0, node, i, oldAlphabetSize) ==>
          nodes[m] == nodes0[m]
      {
        var child := GetChild(nodes[node], i);
        assert child == GetChild(nodes0[node], i);
        if child.Some? {
          ghost var before := nodes;
          EnsureInputCapacity(child.value, oldAlphabetSize, newAlphabetSize);
          SameShapeTrans(nodes0, before, nodes);
          ReachableSameShape(nodes0, before, child.value, oldAlphabetSize);
        }
      }
    }

    /** Follows `word` from the root, creating an unknown node for every
        missing step, and returns the node reached. */
    method WalkCreating(word: seq<I>) returns (curr: nat)
      requires Valid() && InAlphabet(inputAlphabet.symbols, word)
      modifies this`nodes
      ensures Valid()
      ensures (nodes, curr) == Extend(old(nodes), inputAlphabet.symbols, word)
    {
      ghost var symbols := inputAlphabet.symbols;
      curr := Root;
      for i := 0 to |word|
        invariant WellFormed(nodes)
        invariant (nodes, curr) == Extend(old(nodes), symbols, word[..i])
      {
        assert word[..i + 1][..i] == word[..i];
        var inputIdx := inputAlphabet.GetSymbolIndex(word[i]);
        assert Extend(old(nodes), symbols, word[..i + 1]) == Step(nodes, curr, inputIdx, |symbols|);
        var succ := GetChild(nodes[curr], inputIdx);
        if succ.None? {
          var newId := |nodes|;
          nodes := nodes[curr := SetChild(nodes[curr], inputIdx, inputAlphabet.Size(), newId)] + [NewNode(DONT_KNOW)];
          succ := Some(newId);
        }
        curr := succ.value;
      }
      assert word[..|word|] == word;
    }

    /** Installs a fresh node committed to `accept` under `parent` at the
        index of `sym`, and returns it. */
    method InsertNode(parent: nat, sym: I, accept: bool) returns (succ: nat)
      requires Valid() && parent < |nodes| && sym in inputAlphabet.symbols
      requires IndexOf(inputAlphabet.symbols, sym) < alphabetSize
      modifies this`nodes
      ensures Valid() && succ == |old(nodes)|
      ensures nodes == old(nodes)[parent := SetChild(old(nodes)[parent], IndexOf(inputAlphabet.symbols, sym), alphabetSize, succ)]
                       + [NewNode(Acceptance.FromBoolean(accept))]
      ensures forall w :: InAlphabet(inputAlphabet.symbols, w) && Walk(old(nodes), inputAlphabet.symbols, w) == Some(parent) ==>
        InAlphabet(inputAlphabet.symbols, w + [sym]) &&
        Walk(nodes, inputAlphabet.symbols, w + [sym]) == Some(succ) &&
        LookupSpec(nodes, inputAlphabet.symbols, w + [sym]) == (true, Some(accept))
    {
      ghost var nodes0 := nodes;
      succ := |nodes|;
      var idx := inputAlphabet.GetSymbolIndex(sym);
      nodes := nodes[parent := SetChild(nodes[parent], idx, alphabetSize, succ)] + [NewNode(Acceptance.FromBoolean(accept))];
      AttachWellFormed(nodes0, parent, idx, alphabetSize, Acceptance.FromBoolean(accept), nodes);
      forall w | InAlphabet(inputAlphabet.symbols, w) && Walk(nodes0, inputAlphabet.symbols, w) == Some(parent)
        ensures InAlphabet(inputAlphabet.symbols, w + [sym])
        ensures Walk(nodes, inputAlphabet.symbols, w + [sym]) == Some(succ)
        ensures LookupSpec(nodes, inputAlphabet.symbols, w + [sym]) == (true, Some(accept))
      {
        WalkBelowUnchanged(nodes0, nodes, inputAlphabet.symbols, w, parent);
        WalkSnoc(nodes, inputAlphabet.symbols, w, sym);
      }
    }
  }

  /** One transition of the view is one more symbol of the walk. */
  lemma ViewStep<I>(nodes: seq<Node>, symbols: seq<I>, state: nat, input: I)
    requires WellFormed(nodes) && state < |nodes| && input in symbols
    ensures forall w :: InAlphabet(symbols, w) && Walk(nodes, symbols, w) == Some(state) ==>
      InAlphabet(symbols, w + [input]) && Walk(nodes, symbols, w + [input]) == GetChild(nodes[state], IndexOf(symbols, input))
  {
    forall w | InAlphabet(symbols, w) && Walk(nodes, symbols, w) == Some(state)
      ensures InAlphabet(symbols, w + [input])
      ensures Walk(nodes, symbols, w + [input]) == GetChild(nodes[state], IndexOf(symbols, input))
    {
      WalkSnoc(nodes, symbols, w, input);
    }
  }
}
