# Incremental DFA tree cache

A model of the tree-shaped query cache of automatalib's incremental DFA
constructions. The cache stores classified words (accepted, rejected) in a
rooted tree whose edges are labelled with alphabet symbols. Every node
carries a three-valued acceptance (`TRUE`, `FALSE`, `DONT_KNOW`). In the
adaptive variant, every node also carries the origin of its value: the
system under learning (`SUL`) or the user (`USER`).

The model covers:

- **Lookup and view.** Looking a word up walks the tree and creates no
  nodes. The transition-system view gives the root and the child for a
  symbol.
- **Divergence search.** A depth-first search with an explicit stack of
  frames compares the tree against a partial target DFA and returns a
  word exposing a difference, or nothing.
- **Alphabet growth.** Adding a symbol widens the child storage of every
  node reachable through the old indices. The widening is recursive, as in
  the code.
- **Strict insertion.** A word's value is committed once. Re-inserting the
  same value is a no-op. Inserting the other value raises a
  `ConflictException`.
- **Adaptive insertion.** A committed value may be overwritten, except that
  a `USER` value only yields to another `USER` insertion. An
  insertion-ordered age map from terminal nodes to their latest word
  answers which stored input is the oldest.
- **DFA semantics.** The target's `accepts`, `computeOutput` and
  `computeStateOutput`. An undefined transition means rejection.

How the model is built:

- **The tree.** It is a value: an arena `seq<Node>` addressed by node id,
  with the root at id 0. `WellFormed` says that every edge leads to a later
  node and that no node has two parents. So the construction is an acyclic
  tree, and every walk terminates.
- **Specification functions.** `Walk`, `LookupSpec`, `Extend`,
  `StrictInsert`, `AdaptiveInsert` and the age-map functions state what
  each operation computes.
- **Classes.** The imperative operations are methods of classes:
  - `DFATreeBuilder` holds the state shared by both builders: the tree, the
    `alphabetSize` field and the shared growing alphabet.
  - `IncrementalDFATreeBuilder` and `AdaptiveDFATreeBuilder` each hold one
    `DFATreeBuilder`.
  - Each method is proved equal to its specification function, or proved
    to produce the state that function describes.
- **Scenarios.** The module `Scenarios` restates the builder's own tests
  over the alphabet `a, b` and proves their expected outcomes.

Where the code is more specific than its documentation, the model follows
the code:

- `insertNode` sizes the parent's storage by the `alphabetSize` field.
- The insertion walks size it by the current alphabet size.
- A node created by `new Node()` has no origin. The adaptive override rule
  treats a missing origin like any origin that is not `USER`.
- Every adaptive insertion refreshes the terminal node's age entry,
  including one whose overwrite was refused.

## Model

| member | source | states |
|---|---|---|
| Values.Acceptance.FromBoolean | incremental/src/main/java/net/automatalib/incremental/dfa/tree/AdaptiveDFATreeBuilder.java:53 | a Boolean classification becomes a committed value that projects back to the same Boolean |
| Alphabets.IndexOf | incremental/src/main/java/net/automatalib/incremental/dfa/tree/AbstractAlphabetBasedDFATreeBuilder.java:93-95 | a symbol's index is a position holding it, and no earlier position holds it |
| Alphabets.IndexOfStable | incremental/src/main/java/net/automatalib/incremental/dfa/tree/AbstractAlphabetBasedDFATreeBuilder.java:50-52 | appending symbols to the alphabet keeps the index of every known symbol |
| Alphabets.GrowingAlphabet.GetSymbolIndex | incremental/src/main/java/net/automatalib/incremental/dfa/tree/AbstractAlphabetBasedDFATreeBuilder.java:93-95 | the index is in range and holds the symbol |
| Alphabets.GrowingAlphabet.AddSymbol | incremental/src/main/java/net/automatalib/incremental/dfa/tree/AbstractAlphabetBasedDFATreeBuilder.java:50-52 | a new symbol is appended and a known one changes nothing; the symbols stay distinct |
| Dfa.ComputeStateOutput | api/src/main/java/net/automatalib/automaton/fsa/DFA.java:42-46 | a state's output on a word is true only if the run from it is defined |
| Dfa.Accepts | api/src/main/java/net/automatalib/automaton/fsa/DFA.java:53-57 | acceptance needs an initial state, and then equals the state output of the initial state |
| Dfa.ComputeOutput | api/src/main/java/net/automatalib/automaton/fsa/DFA.java:48-51 | the output is true iff the state reached by the word is defined and accepting |
| Dfa.GetSuccessorFromNone | api/src/main/java/net/automatalib/automaton/fsa/DFA.java:43-45 | nothing is reached from an undefined state |
| Dfa.GetSuccessorAppend | api/src/main/java/net/automatalib/automaton/fsa/DFA.java:43-44 | reading u and then v is reading u + v |
| Dfa.UndefinedRejects | api/src/main/java/net/automatalib/automaton/fsa/DFA.java:43-46 | once the run on a prefix is undefined, the run on the whole word is undefined and rejects rather than failing |
| Dfa.NoInitialRejects | api/src/main/java/net/automatalib/automaton/fsa/DFA.java:53-57 | without an initial state every word is rejected |
| Tree.EnsureInputCapacity | incremental/src/main/java/net/automatalib/incremental/dfa/tree/AbstractAlphabetBasedDFATreeBuilder.java:63 | the storage reaches the capacity and never shrinks; children, acceptance and origin are kept |
| Tree.SetChild | incremental/src/main/java/net/automatalib/incremental/dfa/tree/AbstractAlphabetBasedDFATreeBuilder.java:80 | the storage covers the alphabet size, the child is installed at its index and every other index is unchanged |
| Tree.Walk | incremental/src/main/java/net/automatalib/incremental/dfa/tree/AbstractDFATreeBuilder.java:116-125 | a defined walk ends in a node of the tree, and never at the root for a non-empty word |
| Tree.LookupSpec | incremental/src/main/java/net/automatalib/incremental/dfa/tree/AbstractDFATreeBuilder.java:126-127 | a lookup is definitive iff the path exists and ends on a committed node, and then carries that node's value |
| Tree.Step | incremental/src/main/java/net/automatalib/incremental/dfa/tree/IncrementalDFATreeBuilder.java:52-58 | one step reuses an existing child, or else attaches one new DONT_KNOW node; the tree stays well-formed and keeps every edge and label |
| Tree.Extend | incremental/src/main/java/net/automatalib/incremental/dfa/tree/IncrementalDFATreeBuilder.java:49-59 | the insertion walk only adds nodes, keeps every edge and label, and the nodes it creates are DONT_KNOW |
| Tree.ExtendReaches | incremental/src/main/java/net/automatalib/incremental/dfa/tree/IncrementalDFATreeBuilder.java:49-59 | after the insertion walk, the word's full path exists; a path that already existed is reused and nothing changes |
| Tree.ExtendCommitted | incremental/src/main/java/net/automatalib/incremental/dfa/tree/IncrementalDFATreeBuilder.java:61-68 | if the insertion walk ends on a committed node, the path already existed and the walk created nothing |
| Tree.WalkGrows | incremental/src/main/java/net/automatalib/incremental/dfa/tree/IncrementalDFATreeBuilder.java:51-59 | a tree that only gains edges keeps every existing path |
| Tree.WalkInjective | incremental/src/main/java/net/automatalib/incremental/Construction.java:35-38 | distinct words never reach the same node: the construction is a tree |
| Tree.LookupsPreservedExcept | incremental/src/main/java/net/automatalib/incremental/dfa/tree/IncrementalDFATreeBuilder.java:48-69 | when the tree only grows by DONT_KNOW nodes and only the terminal node is relabelled, every other word's lookup is unchanged |
| Tree.SetLabel | incremental/src/main/java/net/automatalib/incremental/dfa/tree/IncrementalDFATreeBuilder.java:63-64 | relabelling sets one node's acceptance and origin and changes no edge and no other node |
| Tree.WalkRelabel | incremental/src/main/java/net/automatalib/incremental/dfa/tree/IncrementalDFATreeBuilder.java:63-64 | relabelling a node changes no walk |
| Tree.WalkSameShape | incremental/src/main/java/net/automatalib/incremental/dfa/tree/AbstractAlphabetBasedDFATreeBuilder.java:62-70 | widening the storage keeps every walk and every lookup, also read under the grown alphabet |
| Reachability.Reachable | incremental/src/main/java/net/automatalib/incremental/dfa/tree/AbstractAlphabetBasedDFATreeBuilder.java:62-70 | the nodes visited from a node include that node and lie at or after it |
| Reachability.ReachableSound | incremental/src/main/java/net/automatalib/incremental/dfa/tree/AbstractAlphabetBasedDFATreeBuilder.java:64-68 | every visited node is reached by a path of indices below the bound |
| Reachability.ReachableComplete | incremental/src/main/java/net/automatalib/incremental/dfa/tree/AbstractAlphabetBasedDFATreeBuilder.java:64-68 | every node reached by a path of indices below the bound is visited |
| SeparatingWord.Reverse | incremental/src/main/java/net/automatalib/incremental/dfa/tree/AbstractDFATreeBuilder.java:106 | position i of the reversal holds position length-1-i of the input |
| SeparatingWord.InitialFrame | incremental/src/main/java/net/automatalib/incremental/dfa/tree/AbstractDFATreeBuilder.java:69-72 | the root frame stands for the empty word, and every exposing compared word lies ahead of it |
| SeparatingWord.PopKeeps | incremental/src/main/java/net/automatalib/incremental/dfa/tree/AbstractDFATreeBuilder.java:77-79 | popping an exhausted frame keeps the stack invariant, loses no exposing word and lowers the remaining work |
| SeparatingWord.SkipKeeps | incremental/src/main/java/net/automatalib/incremental/dfa/tree/AbstractDFATreeBuilder.java:84-93 | skipping a symbol with no tree child, or with an omitted undefined transition, loses no exposing word |
| SeparatingWord.PushKeeps | incremental/src/main/java/net/automatalib/incremental/dfa/tree/AbstractDFATreeBuilder.java:109 | descending into an agreeing child loses no exposing word |
| SeparatingWord.ConflictExposes | incremental/src/main/java/net/automatalib/incremental/dfa/tree/AbstractDFATreeBuilder.java:95-97 | the symbol whose child disagrees completes a compared word that exposes the difference |
| SeparatingWord.RebuildWord | incremental/src/main/java/net/automatalib/incremental/dfa/tree/AbstractDFATreeBuilder.java:98-106 | popping the stack and reversing the collected symbols gives the top frame's path followed by the last symbol |
| SeparatingWord.DoFindSeparatingWord | incremental/src/main/java/net/automatalib/incremental/dfa/tree/AbstractDFATreeBuilder.java:54-113 | with no initial state the result is None if undefined transitions are omitted and the empty word otherwise; a returned word is compared and exposes a difference; None means no compared word exposes one; an exposing empty word is returned |
| TreeBuilder.DFATreeBuilder.constructor | incremental/src/main/java/net/automatalib/incremental/dfa/tree/AbstractAlphabetBasedDFATreeBuilder.java:42-46 | a new builder holds only a DONT_KNOW root, and alphabetSize is the alphabet's size |
| TreeBuilder.DFATreeBuilder.Lookup | incremental/src/main/java/net/automatalib/incremental/dfa/tree/AbstractDFATreeBuilder.java:115-128 | the loop returns the lookup contract's pair and changes nothing |
| TreeBuilder.DFATreeBuilder.HasDefinitiveInformation | incremental/src/main/java/net/automatalib/incremental/Construction.java:103-105 | the first component of the lookup |
| TreeBuilder.DFATreeBuilder.DirectLookup | incremental/src/main/java/net/automatalib/incremental/Construction.java:68-70 | the second component of the lookup |
| TreeBuilder.DFATreeBuilder.GetInitialState | incremental/src/main/java/net/automatalib/incremental/dfa/tree/AbstractDFATreeBuilder.java:169-171 | the view starts at the node of the empty word |
| TreeBuilder.DFATreeBuilder.GetTransition | incremental/src/main/java/net/automatalib/incremental/dfa/tree/AbstractDFATreeBuilder.java:163-166 | from the node of any word w, the transition on a symbol is the node of w followed by that symbol, and it lies later in the arena |
| TreeBuilder.ViewStep | incremental/src/main/java/net/automatalib/incremental/dfa/tree/AbstractDFATreeBuilder.java:163-166 | one transition of the view is one more symbol of the walk |
| TreeBuilder.DFATreeBuilder.FindSeparatingWord | incremental/src/main/java/net/automatalib/incremental/dfa/tree/AbstractDFATreeBuilder.java:47-52 | the search's contract for the builder's own tree and alphabet: None only when no compared word exposes a difference, otherwise an exposing compared word |
| TreeBuilder.DFATreeBuilder.AddAlphabetSymbol | incremental/src/main/java/net/automatalib/incremental/dfa/tree/AbstractAlphabetBasedDFATreeBuilder.java:48-60 | the symbol is in the alphabet; alphabetSize equals its size and never decreases; storage of every node reachable through the old indices covers the new size; no tree change without growth; every lookup unchanged |
| TreeBuilder.DFATreeBuilder.EnsureInputCapacity | incremental/src/main/java/net/automatalib/incremental/dfa/tree/AbstractAlphabetBasedDFATreeBuilder.java:62-70 | every node reachable through the old indices gets at least the new capacity; unreachable nodes are untouched; the tree's shape is unchanged |
| TreeBuilder.DFATreeBuilder.InsertNode | incremental/src/main/java/net/automatalib/incremental/dfa/tree/AbstractAlphabetBasedDFATreeBuilder.java:77-82 | a fresh node committed to the value is attached under the parent at the symbol's index and returned; every word of the parent extended by the symbol now looks up that value |
| TreeBuilder.DFATreeBuilder.WalkCreating | incremental/src/main/java/net/automatalib/incremental/dfa/tree/IncrementalDFATreeBuilder.java:49-59 | the walk shared by both insertions: the new tree and the node reached are exactly Extend's, creating an unknown node for each missing step |
| Incremental.StrictInsert | incremental/src/main/java/net/automatalib/incremental/dfa/tree/IncrementalDFATreeBuilder.java:47-69 | a successful insertion only grows the tree and keeps it well-formed; a failure reports the word, the stored value and the attempted value |
| Incremental.StrictInsertThenLookup | incremental/src/main/java/net/automatalib/incremental/dfa/tree/IncrementalDFATreeBuilder.java:61-64 | after a successful insertion of (w, b), the lookup of w is (true, b) |
| Incremental.StrictConflictIff | incremental/src/main/java/net/automatalib/incremental/dfa/tree/IncrementalDFATreeBuilder.java:65-68 | an insertion fails exactly when w is already committed to the opposite value |
| Incremental.StrictConflictUnchanged | incremental/src/main/java/net/automatalib/incremental/dfa/tree/IncrementalDFATreeBuilder.java:49-68 | on conflict the insertion walk created no node |
| Incremental.StrictIdempotent | incremental/src/main/java/net/automatalib/incremental/dfa/tree/IncrementalDFATreeBuilder.java:61-65 | inserting the same classification again gives the same tree |
| Incremental.StrictOthersUnchanged | incremental/src/main/java/net/automatalib/incremental/dfa/tree/IncrementalDFATreeBuilder.java:48-69 | every other word's lookup is unchanged, and a definitive lookup never changes |
| Incremental.IncrementalDFATreeBuilder.constructor | incremental/src/main/java/net/automatalib/incremental/dfa/tree/IncrementalDFATreeBuilder.java:43-45 | a new strict builder holds only a DONT_KNOW root |
| Incremental.IncrementalDFATreeBuilder.Insert | incremental/src/main/java/net/automatalib/incremental/dfa/tree/IncrementalDFATreeBuilder.java:47-69 | on success the new tree is StrictInsert's tree; on conflict the outcome is StrictInsert's exception and the tree is unchanged |
| Incremental.IncrementalDFATreeBuilder.InsertAccepting | incremental/src/main/java/net/automatalib/incremental/IncrementalConstruction.java:57-59 | inserting a word alone is inserting it as accepted |
| Adaptive.Remove | incremental/src/main/java/net/automatalib/incremental/dfa/tree/AdaptiveDFATreeBuilder.java:65 | the node's entry is dropped and every other entry is kept; an absent node changes nothing (the order of the kept entries is stated by RemoveConcat and RemoveMiddle) |
| Adaptive.RemoveConcat | incremental/src/main/java/net/automatalib/incremental/dfa/tree/AdaptiveDFATreeBuilder.java:65 | removing a node splits over concatenation, so the kept entries stay in their order |
| Adaptive.RemoveMiddle | incremental/src/main/java/net/automatalib/incremental/dfa/tree/AdaptiveDFATreeBuilder.java:65 | removing a stored node takes out its one entry and leaves the entries before and after it in order |
| Adaptive.Put | incremental/src/main/java/net/automatalib/incremental/dfa/tree/AdaptiveDFATreeBuilder.java:66 | the entry is present afterwards; an absent node is appended at the end |
| Adaptive.Refresh | incremental/src/main/java/net/automatalib/incremental/dfa/tree/AdaptiveDFATreeBuilder.java:64-66 | removing and then putting moves the node's entry to the newest end with the new word, keeping the keys distinct |
| Adaptive.RefreshMoves | incremental/src/main/java/net/automatalib/incremental/dfa/tree/AdaptiveDFATreeBuilder.java:64-66 | refreshing a stored node gives the entries before it, then those after it, then the node with its new word |
| Adaptive.RefreshOldest | incremental/src/main/java/net/automatalib/incremental/dfa/tree/AdaptiveDFATreeBuilder.java:64-66 | refreshing the node of the oldest entry makes the next entry the oldest |
| Adaptive.RemoveAll | incremental/src/main/java/net/automatalib/incremental/dfa/tree/AdaptiveDFATreeBuilder.java:85-88 | exactly the entries of nodes outside the set remain (their order is stated by RemoveAllConcat and RemoveAllUntouched) |
| Adaptive.RemoveAllConcat | incremental/src/main/java/net/automatalib/incremental/dfa/tree/AdaptiveDFATreeBuilder.java:85-88 | removing a set of nodes splits over concatenation, so the surviving entries keep their relative order |
| Adaptive.RemoveAllUntouched | incremental/src/main/java/net/automatalib/incremental/dfa/tree/AdaptiveDFATreeBuilder.java:85-88 | when no entry belongs to the set, the map is unchanged, order included |
| Adaptive.RemoveAllStep | incremental/src/main/java/net/automatalib/incremental/dfa/tree/AdaptiveDFATreeBuilder.java:86-87 | removing the visited nodes one at a time is removing the set of them |
| Adaptive.Oldest | incremental/src/main/java/net/automatalib/incremental/dfa/tree/AdaptiveDFATreeBuilder.java:91-94 | None iff the map is empty, otherwise the word of the first entry |
| Adaptive.AdaptiveInsert | incremental/src/main/java/net/automatalib/incremental/dfa/tree/AdaptiveDFATreeBuilder.java:36-69 | afterwards the word's path exists and ends on a committed node; only the terminal's acceptance and origin can change; the other new nodes are DONT_KNOW |
| Adaptive.AdaptiveOverwriteIff | incremental/src/main/java/net/automatalib/incremental/dfa/tree/AdaptiveDFATreeBuilder.java:58-62 | an overwrite is reported exactly when the word is committed to the other value and its stored origin is the incoming one or not USER |
| Adaptive.AdaptiveLookupAfter | incremental/src/main/java/net/automatalib/incremental/dfa/tree/AdaptiveDFATreeBuilder.java:52-62 | the word is definitive afterwards. It holds the inserted value unless the overwrite was refused, and a refusal changes nothing. An unknown word takes the incoming origin without an overwrite. An overwrite sets the incoming origin. An equal value changes nothing |
| Adaptive.AdaptiveUserProtected | incremental/src/main/java/net/automatalib/incremental/dfa/tree/AdaptiveDFATreeBuilder.java:58-75 | an insertion from the system under learning never changes a USER value and reports no overwrite |
| Adaptive.AdaptiveOthersUnchanged | incremental/src/main/java/net/automatalib/incremental/dfa/tree/AdaptiveDFATreeBuilder.java:40-62 | every other word's lookup is unchanged |
| Adaptive.AdaptiveOriginsUnchanged | incremental/src/main/java/net/automatalib/incremental/dfa/tree/AdaptiveDFATreeBuilder.java:54-62 | every other existing path keeps its stored origin |
| Adaptive.AdaptiveIdempotent | incremental/src/main/java/net/automatalib/incremental/dfa/tree/AdaptiveDFATreeBuilder.java:52-62 | repeating an insertion changes nothing and reports no overwrite |
| Adaptive.AdaptiveKeepsAges | incremental/src/main/java/net/automatalib/incremental/dfa/tree/AdaptiveDFATreeBuilder.java:64-66 | after an insertion and its refresh, every age entry's word still leads to its node, that node is committed, and keys stay distinct |
| Adaptive.AdaptiveRefreshesWord | incremental/src/main/java/net/automatalib/incremental/dfa/tree/AdaptiveDFATreeBuilder.java:64-66 | the refresh drops exactly the entry that holds the inserted word |
| Adaptive.AdaptiveStoredWordMoves | incremental/src/main/java/net/automatalib/incremental/dfa/tree/AdaptiveDFATreeBuilder.java:64-66 | re-inserting the word of the i-th entry keeps its node, moves that entry to the youngest end and leaves the others in order |
| Adaptive.AdaptiveNewWordAppends | incremental/src/main/java/net/automatalib/incremental/dfa/tree/AdaptiveDFATreeBuilder.java:64-66 | a word not yet stored gets an entry appended after all others, which keep their order |
| Adaptive.AgesScenario | incremental/src/test/java/net/automatalib/incremental/dfa/AdaptiveDFATreeBuilderTest.java:97-109 | after refreshing three distinct nodes the first is oldest; refreshing the first again makes the second oldest |
| Adaptive.AdaptiveDFATreeBuilder.constructor | incremental/src/main/java/net/automatalib/incremental/dfa/tree/AdaptiveDFATreeBuilder.java:31-34 | a new adaptive builder holds only a DONT_KNOW root and an empty age map |
| Adaptive.AdaptiveDFATreeBuilder.InsertWithOrigin | incremental/src/main/java/net/automatalib/incremental/dfa/tree/AdaptiveDFATreeBuilder.java:36-69 | the new tree and the overwrite flag are AdaptiveInsert's; the age map is refreshed at the terminal node with the word; the age invariant is kept |
| Adaptive.AdaptiveDFATreeBuilder.Insert | incremental/src/main/java/net/automatalib/incremental/dfa/tree/AdaptiveDFATreeBuilder.java:72-75 | the same, with origin SUL |
| Adaptive.AdaptiveDFATreeBuilder.InsertFromUser | incremental/src/main/java/net/automatalib/incremental/dfa/tree/AdaptiveDFATreeBuilder.java:77-80 | the same, with origin USER |
| Adaptive.AdaptiveDFATreeBuilder.RemoveQueries | incremental/src/main/java/net/automatalib/incremental/dfa/tree/AdaptiveDFATreeBuilder.java:85-88 | the entries of exactly the nodes reachable from the node are removed; the others keep their order |
| Adaptive.AdaptiveDFATreeBuilder.GetOldestInput | incremental/src/main/java/net/automatalib/incremental/dfa/tree/AdaptiveDFATreeBuilder.java:90-94 | None iff the age map is empty; otherwise the least recently refreshed word, whose lookup is definitive |
| Adaptive.AdaptiveDFATreeBuilder.AddAlphabetSymbol | incremental/src/main/java/net/automatalib/incremental/dfa/tree/AbstractAlphabetBasedDFATreeBuilder.java:48-60 | alphabet growth keeps the age map and its invariant, and every lookup |
| Scenarios.SeparatingScenario | incremental/src/test/java/net/automatalib/incremental/dfa/AdaptiveDFATreeBuilderTest.java:124-128 | against a target whose rejecting initial state has no transitions: omitting undefined transitions finds nothing; reading them as rejection returns a or b. An unknown root does not conflict with a rejecting initial state |
| Scenarios.CompletedScenario | incremental/src/test/java/net/automatalib/incremental/dfa/AdaptiveDFATreeBuilderTest.java:130-135 | once both letters lead to an accepting state, neither reading finds a difference |
| Scenarios.RejectA | incremental/src/test/java/net/automatalib/incremental/dfa/AdaptiveDFATreeBuilderTest.java:67-69 | after classifying a as rejected: a is definitive and rejected with origin SUL; aa, b and the empty word are not definitive |
| Scenarios.AcceptB | incremental/src/test/java/net/automatalib/incremental/dfa/AdaptiveDFATreeBuilderTest.java:74-80 | then classifying b as accepted: b is accepted, a keeps its value and origin, the empty word stays unknown |
| Scenarios.RejectAFacts | incremental/src/test/java/net/automatalib/incremental/dfa/AdaptiveDFATreeBuilderTest.java:67-69 | in the tree after classifying a as rejected, a is (true, false) with origin SUL, and aa, b and the empty word are unknown |
| Scenarios.RejectedATree | incremental/src/test/java/net/automatalib/incremental/dfa/AdaptiveDFATreeBuilderTest.java:67 | classifying a as rejected in a new tree gives the two-node tree RejectedA |
| Scenarios.AcceptedBTree | incremental/src/test/java/net/automatalib/incremental/dfa/AdaptiveDFATreeBuilderTest.java:74 | then classifying b as accepted gives the three-node tree AcceptedB |
| Scenarios.LeavesTree | incremental/src/test/java/net/automatalib/incremental/dfa/AdaptiveDFATreeBuilderTest.java:82 | then classifying a as accepted overwrites node 1 in place and gives the tree Leaves that the separating-word test searches |
| Scenarios.AcceptBFacts | incremental/src/test/java/net/automatalib/incremental/dfa/AdaptiveDFATreeBuilderTest.java:72-76 | classifying b as accepted after a as rejected: a keeps value and origin, b becomes accepted, the empty word stays unknown |
| Scenarios.LookupScenario | incremental/src/test/java/net/automatalib/incremental/dfa/AdaptiveDFATreeBuilderTest.java:62-89 | the test's lookups: a is (true, false), aa unknown, b is (true, true), the empty word unknown; re-classifying a as accepted overwrites it and a is (true, true); the builder ends with the tree Leaves |
| Scenarios.ConfluenceStep | incremental/src/test/java/net/automatalib/incremental/dfa/AdaptiveDFATreeBuilderTest.java:52-54 | classifying a word other than aa as accepted keeps aa unknown |
| Scenarios.ConfluenceScenario | incremental/src/test/java/net/automatalib/incremental/dfa/AdaptiveDFATreeBuilderTest.java:51-56 | after classifying a, b and the empty word as accepted, aa has no definitive information |
| Scenarios.EmptyScenario | incremental/src/test/java/net/automatalib/incremental/dfa/AdaptiveDFATreeBuilderTest.java:140-146 | a new builder has no value for a and no oldest input |
| Scenarios.TwoInsertions | incremental/src/test/java/net/automatalib/incremental/dfa/AdaptiveDFATreeBuilderTest.java:98-105 | after classifying a and then b, the age entries hold a and b in that order |
| Scenarios.ThreeInsertions | incremental/src/test/java/net/automatalib/incremental/dfa/AdaptiveDFATreeBuilderTest.java:98-105 | classifying the empty word next appends its entry |
| Scenarios.SecondEntry | incremental/src/test/java/net/automatalib/incremental/dfa/AdaptiveDFATreeBuilderTest.java:98-105 | classifying b after a appends b's entry behind a's |
| Scenarios.ThirdEntry | incremental/src/test/java/net/automatalib/incremental/dfa/AdaptiveDFATreeBuilderTest.java:98-105 | classifying the empty word after a and b appends its entry last |
| Scenarios.OverwriteFirstFacts | incremental/src/test/java/net/automatalib/incremental/dfa/AdaptiveDFATreeBuilderTest.java:107-108 | re-classifying a, the first of three stored words, leaves b the oldest |
| Scenarios.OverwriteFirst | incremental/src/test/java/net/automatalib/incremental/dfa/AdaptiveDFATreeBuilderTest.java:107-108 | on the builder holding a, b and the empty word, re-classifying a makes b the oldest input |
| Scenarios.AgesScenarioRun | incremental/src/test/java/net/automatalib/incremental/dfa/AdaptiveDFATreeBuilderTest.java:97-109 | the oldest input is a, and after re-classifying a it is b |

## Left out

- SeparatingWord.DoFindSeparatingWord: does not state which exposing word is returned when several exist. The source returns the first one in depth-first order over the probe symbols; the model proves only that the returned word is compared and exposes a difference.
- Scenarios.SeparatingScenario: states that the result is a or b. The source's test expects a, which depends on that depth-first order.
- Dfa.ComputeStateOutput: its contract states only that a true output needs a defined run. The full characterisation is stated for Dfa.ComputeOutput and Dfa.Accepts.
- Alphabet membership is a precondition. Every word passed to lookup, insertion or the search must be spelled with alphabet symbols. The source's behaviour on an unknown symbol depends on the alphabet implementation, which is not part of this model.
- Identity hashing of nodes is not modelled. The age map is keyed by arena node ids.
- The LinkedHashMap itself is not modelled. The age map is a sequence of (node, word) entries with distinct nodes.
- The search's explicit stack and its iterators are values. The stack is a sequence of frames, and each iterator is a position in the probe symbols.
- The `Word` and `WordBuilder` implementations are not modelled. Words are sequences.
- `asGraph`, `asTransitionSystem`, the views' `getStates`, `getStateProperty`, `getTransitionProperty`, `createStaticStateMapping` and the visualization helpers are left out. They are thin views over library code that is not part of this model.
- `removeQueries` traverses with `GraphTraversal.breadthFirstIterator`. The model removes the reachable nodes in an unspecified order. The result does not depend on the order, and the method's contract states it.
- The default `insertFromUser` of the adaptive interface throws `UnsupportedOperationException`. No variant in the modelled code relies on that default, so it is left out.
- Inheritance from the abstract builders is modelled by composition. Each concrete builder holds one shared-state builder object.
- Strict insertion stores no origin, and its new nodes keep the origin of `new Node()`.
- The `Node` class of the tree package is not part of this model. Tree.GetChild reads an index beyond a node's child storage as no child, and Tree.SetChild widens the storage to the alphabet size before writing. Both are choices about that class; the builders only read indices of the current alphabet and size the storage before they write.
