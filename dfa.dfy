/** Deterministic finite acceptors as the cache consumes them: a nullable
    initial state, a partial transition function and an acceptance
    predicate. A run that meets an undefined transition rejects. */
module Dfa {
  import opened Values

  datatype DFA<!S, !I> = DFA(initialState: Option<S>, transition: (S, I) -> Option<S>, isAccepting: S -> bool)

  /** The state reached from `state` by reading `w`, or None once a
      transition is undefined. */
  function GetSuccessor<S, I>(dfa: DFA<S, I>, state: Option<S>, w: seq<I>): Option<S>
    decreases |w|
  {
    if w == [] then state
    else match GetSuccessor(dfa, state, w[..|w| - 1])
      case None => None
      case Some(s) => dfa.transition(s, w[|w| - 1])
  }

  /** The state reached from the initial state by `w`. */
  function GetState<S, I>(dfa: DFA<S, I>, w: seq<I>): Option<S>
  {
    GetSuccessor(dfa, dfa.initialState, w)
  }

  /** Whether the successor of `state` under `w` is defined and accepting. */
  function ComputeStateOutput<S, I>(dfa: DFA<S, I>, state: S, w: seq<I>): (r: bool)
    ensures r ==> GetSuccessor(dfa, Some(state), w).Some?
  {
    var tgt := GetSuccessor(dfa, Some(state), w);
    tgt.Some? && dfa.isAccepting(tgt.value)
  }

  /** Whether the state reached by `w` is defined and accepting. */
  function Accepts<S, I>(dfa: DFA<S, I>, w: seq<I>): (r: bool)
    ensures r ==> dfa.initialState.Some?
    ensures dfa.initialState.Some? ==> r == ComputeStateOutput(dfa, dfa.initialState.value, w)
  {
    GetSuccessorFromNone(dfa, w);
    var tgt := GetState(dfa, w);
    tgt.Some? && dfa.isAccepting(tgt.value)
  }

  /** The output of a DFA on a word is its acceptance of the word. */
  function ComputeOutput<S, I>(dfa: DFA<S, I>, w: seq<I>): (r: bool)
    ensures r <==> GetState(dfa, w).Some? && dfa.isAccepting(GetState(dfa, w).value)
  {
    Accepts(dfa, w)
  }

  /** Nothing is reached from an undefined state. */
  lemma {:induction false} GetSuccessorFromNone<S, I>(dfa: DFA<S, I>, w: seq<I>)
    ensures GetSuccessor(dfa, None, w) == None
    decreases |w|
  {
    if w != [] {
      GetSuccessorFromNone(dfa, w[..|w| - 1]);
    }
  }

  /** Reading `u` then `v` is reading `u + v`. */
  lemma {:induction false} GetSuccessorAppend<S, I>(dfa: DFA<S, I>, state: Option<S>, u: seq<I>, v: seq<I>)
    ensures GetSuccessor(dfa, state, u + v) == GetSuccessor(dfa, GetSuccessor(dfa, state, u), v)
    decreases |v|
  {
    if v == [] {
      assert u + v == u;
    } else {
      var v' := v[..|v| - 1];
      assert (u + v)[..|u + v| - 1] == u + v';
      assert (u + v)[|u + v| - 1] == v[|v| - 1];
      GetSuccessorAppend(dfa, state, u, v');
    }
  }

  /** A run that hits an undefined transition on some prefix rejects the
      whole word instead of failing. */
  lemma {:induction false} UndefinedRejects<S, I>(dfa: DFA<S, I>, state: S, w: seq<I>, k: nat)
    requires k <= |w|
    requires GetSuccessor(dfa, Some(state), w[..k]) == None
    ensures GetSuccessor(dfa, Some(state), w) == None
    ensures !ComputeStateOutput(dfa, state, w)
  {
    GetSuccessorAppend(dfa, Some(state), w[..k], w[k..]);
    assert w[..k] + w[k..] == w;
    GetSuccessorFromNone(dfa, w[k..]);
  }

  /** Without an initial state every word is rejected. */
  lemma NoInitialRejects<S, I>(dfa: DFA<S, I>, w: seq<I>)
    requires dfa.initialState == None
    ensures GetState(dfa, w) == None && !Accepts(dfa, w)
  {
    GetSuccessorFromNone(dfa, w);
  }

  /** Reading one more symbol takes one more transition. */
  lemma GetStateSnoc<S, I>(dfa: DFA<S, I>, w: seq<I>, a: I)
    ensures GetState(dfa, w + [a]) ==
      match GetState(dfa, w)
      case None => None
      case Some(s) => dfa.transition(s, a)
  {
    assert (w + [a])[..|w|] == w;
  }

  /** A defined run is defined on every prefix. */
  lemma GetStatePrefix<S, I>(dfa: DFA<S, I>, w: seq<I>, k: nat)
    requires k <= |w| && GetState(dfa, w).Some?
    ensures GetState(dfa, w[..k]).Some?
  {
    if GetState(dfa, w[..k]).None? {
      GetSuccessorAppend(dfa, dfa.initialState, w[..k], w[k..]);
      assert w[..k] + w[k..] == w;
      GetSuccessorFromNone(dfa, w[k..]);
    }
  }
}
