/** The divergence search between the cache tree and a target DFA: a
    depth-first traversal with an explicit stack of frames, each frame
    pairing a target state with a tree node and an iterator over the probe
    symbols. It reports the first path whose committed classification the
    target contradicts, or None once every comparable path agrees. */
module SeparatingWord {
  import opened Values
  import opened Alphabets
  import opened Tree
  import opened Dfa

  /** A stack frame. The target state is None once the target's run has
      met an undefined transition; the incoming symbol is None only for the
      bottom frame; `inputIt` is the position of the frame's iterator in the
      probe symbols. */
  datatype Record<S, I> = Record(automatonState: Option<S>, treeNode: nat, incomingInput: Option<I>, inputIt: nat)

  /** What a search compares: the tree, its alphabet, the target, the probe
      symbols and whether undefined target transitions are omitted. */
  datatype Search<!S, !I> = Search(nodes: seq<Node>, symbols: seq<I>, target: DFA<S, I>, inputs: seq<I>, omitUndefined: bool)

  ghost predicate Setup<S, I>(c: Search<S, I>)
  {
    WellFormed(c.nodes) && InAlphabet(c.symbols, c.inputs)
  }

  /** The search compares `w`: it is spelled with probe symbols, its path
      exists in the tree and, when undefined transitions are omitted, the
      target's run on it is defined. */
  ghost predicate Compared<S, I>(c: Search<S, I>, w: seq<I>)
  {
    WellFormed(c.nodes) && InAlphabet(c.inputs, w) && InAlphabet(c.symbols, w) &&
    Walk(c.nodes, c.symbols, w).Some? &&
    (c.omitUndefined ==> GetState(c.target, w).Some?)
  }

  /** The tree's committed classification of `w` contradicts the target,
      which rejects where its run is undefined. */
  ghost predicate Exposes<S, I>(c: Search<S, I>, w: seq<I>)
  {
    WellFormed(c.nodes) && InAlphabet(c.symbols, w) && Walk(c.nodes, c.symbols, w).Some? &&
    c.nodes[Walk(c.nodes, c.symbols, w).value].acceptance.Conflicts(Accepts(c.target, w))
  }

  /** Frame `f` stands for the compared, agreeing path `p`. */
  ghost predicate FrameOk<S, I>(c: Search<S, I>, f: Record<S, I>, p: seq<I>)
  {
    Compared(c, p) && Walk(c.nodes, c.symbols, p) == Some(f.treeNode) &&
    f.automatonState == GetState(c.target, p) && f.inputIt <= |c.inputs| && !Exposes(c, p)
  }

  /** The stack is a chain of frames from the root, each one symbol deeper
      than the frame below it. */
  ghost predicate StackOk<S, I>(c: Search<S, I>, stack: seq<Record<S, I>>, paths: seq<seq<I>>)
  {
    |stack| == |paths| &&
    (forall i :: 0 <= i < |stack| ==> FrameOk(c, stack[i], paths[i])) &&
    Chained(stack, paths)
  }

  /** Each frame's path is the one below it extended by the frame's
      incoming symbol, starting from the empty word. */
  ghost predicate Chained<S, I>(stack: seq<Record<S, I>>, paths: seq<seq<I>>)
  {
    |stack| == |paths| &&
    (|stack| > 0 ==> paths[0] == []) &&
    (forall i :: 0 < i < |stack| ==>
      stack[i].incomingInput.Some? && paths[i] == paths[i - 1] + [stack[i].incomingInput.value])
  }

  ghost predicate InRange<S, I>(c: Search<S, I>, stack: seq<Record<S, I>>)
  {
    forall i :: 0 <= i < |stack| ==> stack[i].treeNode < |c.nodes| && stack[i].inputIt <= |c.inputs|
  }

  /** `w` extends the frame path `p` by a symbol its iterator has yet to yield. */
  ghost predicate Pending<I>(inputs: seq<I>, p: seq<I>, pos: nat, w: seq<I>)
  {
    |p| < |w| && w[..|p|] == p && pos <= |inputs| && w[|p|] in inputs[pos..]
  }

  /** Every exposing word the search compares lies ahead of some frame. */
  ghost predicate Complete<S, I(!new)>(c: Search<S, I>, stack: seq<Record<S, I>>, paths: seq<seq<I>>)
  {
    |stack| == |paths| &&
    forall w :: Compared(c, w) && Exposes(c, w) ==>
      exists i :: 0 <= i < |stack| && Pending(c.inputs, paths[i], stack[i].inputIt, w)
  }

  /** Iterations left for a frame at node `n` whose iterator is at `pos`. */
  ghost function Work<S, I>(c: Search<S, I>, n: nat, pos: nat): nat
    requires Setup(c) && n < |c.nodes| && pos <= |c.inputs|
    decreases |c.nodes| - n, |c.inputs| - pos
  {
    if pos == |c.inputs| then 1
    else
      1 + Work(c, n, pos + 1) +
      match GetChild(c.nodes[n], IndexOf(c.symbols, c.inputs[pos]))
      case None => 0
      case Some(m) => Work(c, m, 0)
  }

  ghost function StackWork<S, I>(c: Search<S, I>, stack: seq<Record<S, I>>): nat
    requires Setup(c) && InRange(c, stack)
    decreases |stack|
  {
    if stack == [] then 0
    else StackWork(c, stack[..|stack| - 1]) + Work(c, stack[|stack| - 1].treeNode, stack[|stack| - 1].inputIt)
  }

  /** The stack after the top frame's iterator yields its next symbol. */
  ghost function Advanced<S, I>(stack: seq<Record<S, I>>): seq<Record<S, I>>
    requires stack != []
  {
    var top := stack[|stack| - 1];
    stack[..|stack| - 1] + [top.(inputIt := top.inputIt + 1)]
  }

  /** The word builder's reversal. */
  function Reverse<T>(s: seq<T>): (r: seq<T>)
    ensures |r| == |s|
    ensures forall i :: 0 <= i < |s| ==> r[i] == s[|s| - 1 - i]
  {
    if s == [] then [] else [s[|s| - 1]] + Reverse(s[..|s| - 1])
  }

  /** The frame for the empty word. */
  lemma InitialFrame<S, I(!new)>(c: Search<S, I>)
    requires Setup(c) && c.target.initialState.Some?
    requires !Exposes(c, [])
    ensures StackOk(c, [Record(c.target.initialState, Root, None, 0)], [[]])
    ensures Complete(c, [Record(c.target.initialState, Root, None, 0)], [[]])
    ensures InRange(c, [Record(c.target.initialState, Root, None, 0)])
  {
    var stack: seq<Record<S, I>> := [Record(c.target.initialState, Root, None, 0)];
    forall w | Compared(c, w) && Exposes(c, w)
      ensures exists i :: 0 <= i < |stack| && Pending(c.inputs, [[]][i], stack[i].inputIt, w)
    {
      assert w != [];
      assert c.inputs[0..] == c.inputs;
      assert Pending(c.inputs, [[]][0], stack[0].inputIt, w);
    }
  }

  /** Popping an exhausted frame loses no pending word. */
  lemma PopKeeps<S, I(!new)>(c: Search<S, I>, stack: seq<Record<S, I>>, paths: seq<seq<I>>)
    requires Setup(c) && StackOk(c, stack, paths) && Complete(c, stack, paths) && InRange(c, stack)
    requires stack != [] && stack[|stack| - 1].inputIt == |c.inputs|
    ensures StackOk(c, stack[..|stack| - 1], paths[..|paths| - 1])
    ensures Complete(c, stack[..|stack| - 1], paths[..|paths| - 1])
    ensures InRange(c, stack[..|stack| - 1])
    ensures StackWork(c, stack[..|stack| - 1]) < StackWork(c, stack)
  {
    var k := |stack| - 1;
    forall w | Compared(c, w) && Exposes(c, w)
      ensures exists i :: 0 <= i < k && Pending(c.inputs, paths[..k][i], stack[..k][i].inputIt, w)
    {
      var i :| 0 <= i < |stack| && Pending(c.inputs, paths[i], stack[i].inputIt, w);
      assert i != k;
      assert Pending(c.inputs, paths[..k][i], stack[..k][i].inputIt, w);
    }
  }

  /** Advancing the top frame's iterator keeps the chain. */
  lemma AdvanceKeeps<S, I>(c: Search<S, I>, stack: seq<Record<S, I>>, paths: seq<seq<I>>)
    requires Setup(c) && StackOk(c, stack, paths) && InRange(c, stack)
    requires stack != [] && stack[|stack| - 1].inputIt < |c.inputs|
    ensures StackOk(c, Advanced(stack), paths) && InRange(c, Advanced(stack))
  {
    var k := |stack| - 1;
    var s1 := Advanced(stack);
    forall i | 0 <= i < k
      ensures s1[i] == stack[i]
    {
    }
  }

  /** The facts about one more symbol `a` read from the top frame. */
  lemma StepFacts<S, I>(c: Search<S, I>, f: Record<S, I>, p: seq<I>, a: I)
    requires Setup(c) && FrameOk(c, f, p) && a in c.inputs
    ensures InAlphabet(c.inputs, p + [a]) && InAlphabet(c.symbols, p + [a])
    ensures Walk(c.nodes, c.symbols, p + [a]) == GetChild(c.nodes[f.treeNode], IndexOf(c.symbols, a))
    ensures GetState(c.target, p + [a]) ==
      if f.automatonState.None? then None else c.target.transition(f.automatonState.value, a)
  {
    WalkSnoc(c.nodes, c.symbols, p, a);
    GetStateSnoc(c.target, p, a);
  }

  /** A pending word whose next symbol is skipped was never exposing
      through that symbol: it stays pending after the iterator advances. */
  lemma SkipPending<S, I>(c: Search<S, I>, f: Record<S, I>, p: seq<I>, w: seq<I>)
    requires Setup(c) && FrameOk(c, f, p) && f.inputIt < |c.inputs|
    requires Compared(c, w) && Pending(c.inputs, p, f.inputIt, w)
    requires
      var a := c.inputs[f.inputIt];
      GetChild(c.nodes[f.treeNode], IndexOf(c.symbols, a)).None? ||
      (c.omitUndefined && (f.automatonState.None? || c.target.transition(f.automatonState.value, a).None?))
    ensures Pending(c.inputs, p, f.inputIt + 1, w)
  {
    var a := c.inputs[f.inputIt];
    StepFacts(c, f, p, a);
    WalkPrefix(c.nodes, c.symbols, w, |p| + 1);
    if c.omitUndefined {
      GetStatePrefix(c.target, w, |p| + 1);
    }
    assert w[..|p| + 1] != p + [a];
    assert w[..|p| + 1] == p + [w[|p|]];
    assert c.inputs[f.inputIt..] == [a] + c.inputs[f.inputIt + 1..];
  }

  /** A pending word whose next symbol leads to an agreeing child is
      either still pending at the frame or pending at the child's frame. */
  lemma PushPending<S, I>(c: Search<S, I>, p: seq<I>, pos: nat, w: seq<I>)
    requires Setup(c) && pos < |c.inputs|
    requires Compared(c, w) && Exposes(c, w) && Pending(c.inputs, p, pos, w)
    requires !Exposes(c, p + [c.inputs[pos]])
    ensures Pending(c.inputs, p, pos + 1, w) || Pending(c.inputs, p + [c.inputs[pos]], 0, w)
  {
    var a := c.inputs[pos];
    if w[|p|] !in c.inputs[pos + 1..] {
      assert c.inputs[pos..] == [a] + c.inputs[pos + 1..];
      assert w[..|p| + 1] == p + [a];
      assert w != p + [a];
      assert |w| != |p| + 1;
      assert c.inputs[0..] == c.inputs;
      assert Pending(c.inputs, p + [a], 0, w);
    }
  }

  /** Advancing the top iterator costs less than the frame did. */
  lemma SkipShrinks<S, I>(c: Search<S, I>, stack: seq<Record<S, I>>)
    requires Setup(c) && InRange(c, stack) && stack != [] && stack[|stack| - 1].inputIt < |c.inputs|
    requires InRange(c, Advanced(stack))
    ensures StackWork(c, Advanced(stack)) < StackWork(c, stack)
  {
    var k := |stack| - 1;
    var f := stack[k];
    var g := f.(inputIt := f.inputIt + 1);
    assert stack == stack[..k] + [f];
    StackWorkSnoc(c, stack[..k], f);
    StackWorkSnoc(c, stack[..k], g);
    WorkShrinks(c, f.treeNode, f.inputIt);
  }

  /** The work of a stack is the work below its top plus the top's. */
  lemma StackWorkSnoc<S, I>(c: Search<S, I>, prefix: seq<Record<S, I>>, g: Record<S, I>)
    requires Setup(c) && InRange(c, prefix + [g])
    ensures InRange(c, prefix) && g.treeNode < |c.nodes| && g.inputIt <= |c.inputs|
    ensures StackWork(c, prefix + [g]) == StackWork(c, prefix) + Work(c, g.treeNode, g.inputIt)
  {
    var s := prefix + [g];
    assert s[..|prefix|] == prefix;
    assert s[|prefix|] == g;
    forall i | 0 <= i < |prefix|
      ensures prefix[i].treeNode < |c.nodes| && prefix[i].inputIt <= |c.inputs|
    {
      assert s[i] == prefix[i];
    }
  }

  /** Each step of a frame's iterator costs at least one unit of work. */
  lemma WorkShrinks<S, I>(c: Search<S, I>, n: nat, pos: nat)
    requires Setup(c) && n < |c.nodes| && pos < |c.inputs|
    ensures Work(c, n, pos + 1) < Work(c, n, pos)
  {
  }

  /** Advancing the top iterator and pushing the frame of the child it
      selected costs less than the frame did. */
  lemma PushShrinks<S, I>(c: Search<S, I>, stack: seq<Record<S, I>>, child: Record<S, I>)
    requires Setup(c) && InRange(c, stack) && stack != [] && stack[|stack| - 1].inputIt < |c.inputs|
    requires InRange(c, Advanced(stack))
    requires
      var f := stack[|stack| - 1];
      GetChild(c.nodes[f.treeNode], IndexOf(c.symbols, c.inputs[f.inputIt])) == Some(child.treeNode) &&
      child.inputIt == 0
    ensures InRange(c, Advanced(stack) + [child])
    ensures StackWork(c, Advanced(stack) + [child]) < StackWork(c, stack)
  {
    var k := |stack| - 1;
    var f := stack[k];
    var g := f.(inputIt := f.inputIt + 1);
    var s1 := Advanced(stack);
    var s2 := s1 + [child];
    assert child.treeNode < |c.nodes|;
    forall i | 0 <= i < |s2|
      ensures s2[i].treeNode < |c.nodes| && s2[i].inputIt <= |c.inputs|
    {
      if i < |s1| {
        assert s2[i] == s1[i];
      }
    }
    assert stack == stack[..k] + [f];
    StackWorkSnoc(c, stack[..k], f);
    StackWorkSnoc(c, stack[..k], g);
    StackWorkSnoc(c, s1, child);
  }

  /** A skipped symbol (no tree child, or an omitted undefined transition)
      hides no exposing word. */
  lemma SkipKeeps<S, I(!new)>(c: Search<S, I>, stack: seq<Record<S, I>>, paths: seq<seq<I>>)
    requires Setup(c) && Complete(c, stack, paths) && stack != []
    requires FrameOk(c, stack[|stack| - 1], paths[|paths| - 1]) && stack[|stack| - 1].inputIt < |c.inputs|
    requires
      var f := stack[|stack| - 1];
      var a := c.inputs[f.inputIt];
      GetChild(c.nodes[f.treeNode], IndexOf(c.symbols, a)).None? ||
      (c.omitUndefined && (f.automatonState.None? || c.target.transition(f.automatonState.value, a).None?))
    ensures Complete(c, Advanced(stack), paths)
  {
    var s1 := Advanced(stack);
    forall w | Compared(c, w) && Exposes(c, w)
      ensures exists i :: 0 <= i < |s1| && Pending(c.inputs, paths[i], s1[i].inputIt, w)
    {
      var i :| 0 <= i < |stack| && Pending(c.inputs, paths[i], stack[i].inputIt, w);
      SkipPendingAt(c, stack, paths, w, i);
    }
  }

  /** The frame a pending word lies ahead of keeps it after a skip. */
  lemma SkipPendingAt<S, I>(c: Search<S, I>, stack: seq<Record<S, I>>, paths: seq<seq<I>>, w: seq<I>, i: nat)
    requires Setup(c) && |stack| == |paths| && stack != []
    requires FrameOk(c, stack[|stack| - 1], paths[|paths| - 1]) && stack[|stack| - 1].inputIt < |c.inputs|
    requires
      var f := stack[|stack| - 1];
      var a := c.inputs[f.inputIt];
      GetChild(c.nodes[f.treeNode], IndexOf(c.symbols, a)).None? ||
      (c.omitUndefined && (f.automatonState.None? || c.target.transition(f.automatonState.value, a).None?))
    requires Compared(c, w) && i < |stack| && Pending(c.inputs, paths[i], stack[i].inputIt, w)
    ensures Pending(c.inputs, paths[i], Advanced(stack)[i].inputIt, w)
  {
    if i == |stack| - 1 {
      SkipPending(c, stack[i], paths[i], w);
    } else {
      assert Advanced(stack)[i] == stack[i];
    }
  }

  /** Descending into an agreeing child keeps the chain. */
  lemma PushChained<S, I>(c: Search<S, I>, stack: seq<Record<S, I>>, paths: seq<seq<I>>, next: Option<S>, succ: nat)
    requires Setup(c) && StackOk(c, stack, paths) && InRange(c, stack)
    requires stack != [] && stack[|stack| - 1].inputIt < |c.inputs|
    requires
      var f := stack[|stack| - 1];
      var a := c.inputs[f.inputIt];
      GetChild(c.nodes[f.treeNode], IndexOf(c.symbols, a)) == Some(succ) &&
      next == (if f.automatonState.None? then None else c.target.transition(f.automatonState.value, a)) &&
      !(c.omitUndefined && next.None?) &&
      !c.nodes[succ].acceptance.Conflicts(next.Some? && c.target.isAccepting(next.value))
    ensures
      var f := stack[|stack| - 1];
      var a := c.inputs[f.inputIt];
      StackOk(c, Advanced(stack) + [Record(next, succ, Some(a), 0)], paths + [paths[|paths| - 1] + [a]]) &&
      !Exposes(c, paths[|paths| - 1] + [a])
  {
    var k := |stack| - 1;
    var f := stack[k];
    var a := c.inputs[f.inputIt];
    AdvanceKeeps(c, stack, paths);
    StepFacts(c, f, paths[k], a);
    StackOkSnoc(c, Advanced(stack), paths, Record(next, succ, Some(a), 0), paths[k] + [a]);
  }

  /** Pushing a frame one symbol deeper than the top keeps the chain. */
  lemma StackOkSnoc<S, I>(c: Search<S, I>, stack: seq<Record<S, I>>, paths: seq<seq<I>>, g: Record<S, I>, p: seq<I>)
    requires StackOk(c, stack, paths) && stack != []
    requires FrameOk(c, g, p) && g.incomingInput.Some? && p == paths[|paths| - 1] + [g.incomingInput.value]
    ensures StackOk(c, stack + [g], paths + [p])
  {
    var s2, p2 := stack + [g], paths + [p];
    forall i | 0 <= i < |s2|
      ensures FrameOk(c, s2[i], p2[i])
    {
      if i < |stack| {
        assert s2[i] == stack[i] && p2[i] == paths[i];
      }
    }
    forall i | 0 < i < |s2|
      ensures s2[i].incomingInput.Some? && p2[i] == p2[i - 1] + [s2[i].incomingInput.value]
    {
      if i < |stack| {
        assert s2[i] == stack[i] && p2[i] == paths[i] && p2[i - 1] == paths[i - 1];
      }
    }
  }

  /** Descending into an agreeing child hides no exposing word. */
  lemma PushKeeps<S, I(!new)>(c: Search<S, I>, stack: seq<Record<S, I>>, paths: seq<seq<I>>, next: Option<S>, succ: nat)
    requires Setup(c) && Complete(c, stack, paths) && stack != [] && stack[|stack| - 1].inputIt < |c.inputs|
    requires !Exposes(c, paths[|paths| - 1] + [c.inputs[stack[|stack| - 1].inputIt]])
    ensures
      var f := stack[|stack| - 1];
      var a := c.inputs[f.inputIt];
      Complete(c, Advanced(stack) + [Record(next, succ, Some(a), 0)], paths + [paths[|paths| - 1] + [a]])
  {
    var k := |stack| - 1;
    var f := stack[k];
    var a := c.inputs[f.inputIt];
    var s2 := Advanced(stack) + [Record(next, succ, Some(a), 0)];
    var p2 := paths + [paths[k] + [a]];
    forall w | Compared(c, w) && Exposes(c, w)
      ensures exists i :: 0 <= i < |s2| && Pending(c.inputs, p2[i], s2[i].inputIt, w)
    {
      var i :| 0 <= i < |stack| && Pending(c.inputs, paths[i], stack[i].inputIt, w);
      var j := PushPendingAt(c, stack, paths, next, succ, w, i);
    }
  }

  /** The frame a pending word lies ahead of, or the pushed child's frame,
      keeps it after a descent; the result is that frame's index. */
  lemma PushPendingAt<S, I>(c: Search<S, I>, stack: seq<Record<S, I>>, paths: seq<seq<I>>, next: Option<S>, succ: nat,
                            w: seq<I>, i: nat) returns (j: nat)
    requires Setup(c) && |stack| == |paths| && stack != [] && stack[|stack| - 1].inputIt < |c.inputs|
    requires !Exposes(c, paths[|paths| - 1] + [c.inputs[stack[|stack| - 1].inputIt]])
    requires Compared(c, w) && Exposes(c, w) && i < |stack| && Pending(c.inputs, paths[i], stack[i].inputIt, w)
    ensures
      var a := c.inputs[stack[|stack| - 1].inputIt];
      var s2 := Advanced(stack) + [Record(next, succ, Some(a), 0)];
      var p2 := paths + [paths[|paths| - 1] + [a]];
      j < |s2| && Pending(c.inputs, p2[j], s2[j].inputIt, w)
  {
    var k := |stack| - 1;
    var f := stack[k];
    var a := c.inputs[f.inputIt];
    var s2 := Advanced(stack) + [Record(next, succ, Some(a), 0)];
    var p2 := paths + [paths[k] + [a]];
    if i < k {
      assert s2[i] == stack[i] && p2[i] == paths[i];
      j := i;
    } else {
      PushPending(c, paths[k], f.inputIt, w);
      if Pending(c.inputs, paths[k], f.inputIt + 1, w) {
        assert Pending(c.inputs, p2[k], s2[k].inputIt, w);
        j := k;
      } else {
        assert Pending(c.inputs, p2[k + 1], s2[k + 1].inputIt, w);
        j := k + 1;
      }
    }
  }

  /** The symbol whose child disagrees with the target completes an
      exposing word. */
  lemma ConflictExposes<S, I>(c: Search<S, I>, stack: seq<Record<S, I>>, paths: seq<seq<I>>, succ: nat)
    requires Setup(c) && StackOk(c, stack, paths) && InRange(c, stack)
    requires stack != [] && stack[|stack| - 1].inputIt < |c.inputs|
    requires
      var f := stack[|stack| - 1];
      var a := c.inputs[f.inputIt];
      var next := if f.automatonState.None? then None else c.target.transition(f.automatonState.value, a);
      GetChild(c.nodes[f.treeNode], IndexOf(c.symbols, a)) == Some(succ) &&
      !(c.omitUndefined && next.None?) &&
      c.nodes[succ].acceptance.Conflicts(next.Some? && c.target.isAccepting(next.value))
    ensures
      var w := paths[|paths| - 1] + [c.inputs[stack[|stack| - 1].inputIt]];
      Compared(c, w) && Exposes(c, w)
  {
    var k := |stack| - 1;
    StepFacts(c, stack[k], paths[k], c.inputs[stack[k].inputIt]);
  }

  /** One skipped symbol: the iterator advances and every invariant of
      the search holds of the shorter remaining work. */
  lemma SkipStep<S, I(!new)>(c: Search<S, I>, stack: seq<Record<S, I>>, paths: seq<seq<I>>)
    requires Setup(c) && StackOk(c, stack, paths) && Complete(c, stack, paths) && InRange(c, stack)
    requires stack != [] && stack[|stack| - 1].inputIt < |c.inputs|
    requires
      var f := stack[|stack| - 1];
      var a := c.inputs[f.inputIt];
      GetChild(c.nodes[f.treeNode], IndexOf(c.symbols, a)).None? ||
      (c.omitUndefined && (f.automatonState.None? || c.target.transition(f.automatonState.value, a).None?))
    ensures StackOk(c, Advanced(stack), paths) && Complete(c, Advanced(stack), paths) && InRange(c, Advanced(stack))
    ensures StackWork(c, Advanced(stack)) < StackWork(c, stack)
  {
    AdvanceKeeps(c, stack, paths);
    SkipKeeps(c, stack, paths);
    SkipShrinks(c, stack);
  }

  /** One descent into an agreeing child: the iterator advances, the
      child's frame is pushed, and every invariant of the search holds of
      the shorter remaining work. */
  lemma PushStep<S, I(!new)>(c: Search<S, I>, stack: seq<Record<S, I>>, paths: seq<seq<I>>, next: Option<S>, succ: nat)
    requires Setup(c) && StackOk(c, stack, paths) && Complete(c, stack, paths) && InRange(c, stack)
    requires stack != [] && stack[|stack| - 1].inputIt < |c.inputs|
    requires
      var f := stack[|stack| - 1];
      var a := c.inputs[f.inputIt];
      GetChild(c.nodes[f.treeNode], IndexOf(c.symbols, a)) == Some(succ) &&
      next == (if f.automatonState.None? then None else c.target.transition(f.automatonState.value, a)) &&
      !(c.omitUndefined && next.None?) &&
      !c.nodes[succ].acceptance.Conflicts(next.Some? && c.target.isAccepting(next.value))
    ensures
      var a := c.inputs[stack[|stack| - 1].inputIt];
      var s2 := Advanced(stack) + [Record(next, succ, Some(a), 0)];
      var p2 := paths + [paths[|paths| - 1] + [a]];
      StackOk(c, s2, p2) && Complete(c, s2, p2) && InRange(c, s2) && StackWork(c, s2) < StackWork(c, stack)
  {
    var f := stack[|stack| - 1];
    AdvanceKeeps(c, stack, paths);
    PushChained(c, stack, paths, next, succ);
    PushKeeps(c, stack, paths, next, succ);
    PushShrinks(c, stack, Record(next, succ, Some(c.inputs[f.inputIt]), 0));
  }

  /** Pops the whole stack, collecting the incoming symbols from the top
      frame down after `input`, and reverses them: the top frame's path
      followed by `input`. */
  method RebuildWord<S, I>(stack: seq<Record<S, I>>, input: I, ghost paths: seq<seq<I>>) returns (w: seq<I>)
    requires stack != [] && Chained(stack, paths)
    ensures w == paths[|paths| - 1] + [input]
  {
    var wb := [input];
    var rec := stack[|stack| - 1];
    var rest := stack[..|stack| - 1];
    while rest != []
      invariant |rest| < |stack| && rest == stack[..|rest|]
      invariant rec == stack[|rest|]
      invariant paths[|rest|] + Reverse(wb) == paths[|paths| - 1] + [input]
      decreases |rest|
    {
      ghost var j := |rest|;
      assert (wb + [rec.incomingInput.value])[..|wb|] == wb;
      wb := wb + [rec.incomingInput.value];
      assert paths[j] == paths[j - 1] + [rec.incomingInput.value];
      rec := rest[|rest| - 1];
      rest := rest[..|rest| - 1];
    }
    w := Reverse(wb);
  }

  /** Searches for a word on which the tree's committed classification and
      the target disagree, using only the probe symbols `inputs`. */
  method DoFindSeparatingWord<S, I(==, !new)>(nodes: seq<Node>, symbols: seq<I>, target: DFA<S, I>,
                                        inputs: seq<I>, omitUndefined: bool)
    returns (r: Option<seq<I>>)
    requires WellFormed(nodes) && InAlphabet(symbols, inputs)
    ensures target.initialState.None? ==> r == if omitUndefined then None else Some([])
    ensures target.initialState.Some? && r.Some? ==>
      Compared(Search(nodes, symbols, target, inputs, omitUndefined), r.value) &&
      Exposes(Search(nodes, symbols, target, inputs, omitUndefined), r.value)
    ensures target.initialState.Some? && r.None? ==>
      forall w :: Compared(Search(nodes, symbols, target, inputs, omitUndefined), w) ==>
        !Exposes(Search(nodes, symbols, target, inputs, omitUndefined), w)
    ensures target.initialState.Some? && Exposes(Search(nodes, symbols, target, inputs, omitUndefined), []) ==>
      r == Some([])
  {
    ghost var c := Search(nodes, symbols, target, inputs, omitUndefined);
    var automatonInit := target.initialState;
    if automatonInit.None? {
      return if omitUndefined then None else Some([]);
    }
    if nodes[Root].acceptance.Conflicts(target.isAccepting(automatonInit.value)) {
      return Some([]);
    }
    var stack: seq<Record<S, I>> := [Record(automatonInit, Root, None, 0)];
    ghost var paths: seq<seq<I>> := [[]];
    InitialFrame(c);
    while stack != []
      invariant StackOk(c, stack, paths) && Complete(c, stack, paths) && InRange(c, stack)
      decreases StackWork(c, stack)
    {
      var rec := stack[|stack| - 1];
      if rec.inputIt == |inputs| {
        PopKeeps(c, stack, paths);
        stack := stack[..|stack| - 1];
        paths := paths[..|paths| - 1];
        continue;
      }
      var input := inputs[rec.inputIt];
      ghost var before := stack;
      stack := stack[..|stack| - 1] + [rec.(inputIt := rec.inputIt + 1)];
      assert stack == Advanced(before);
      var inputIdx := IndexOf(symbols, input);
      var succ := GetChild(nodes[rec.treeNode], inputIdx);
      if succ.None? {
        SkipStep(c, before, paths);
        continue;
      }
      var state := rec.automatonState;
      var automatonSucc := if state.None? then None else target.transition(state.value, input);
      if automatonSucc.None? && omitUndefined {
        SkipStep(c, before, paths);
        continue;
      }
      var succAcc := automatonSucc.Some? && target.isAccepting(automatonSucc.value);
      if nodes[succ.value].acceptance.Conflicts(succAcc) {
        ConflictExposes(c, before, paths, succ.value);
        assert Chained(stack, paths) by {
          AdvanceKeeps(c, before, paths);
        }
        var w := RebuildWord(stack, input, paths);
        return Some(w);
      }
      PushStep(c, before, paths, automatonSucc, succ.value);
      stack := stack + [Record(automatonSucc, succ.value, Some(input), 0)];
      paths := paths + [paths[|paths| - 1] + [input]];
    }
    return None;
  }
}
