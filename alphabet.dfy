/** The input alphabet: a growable sequence of distinct symbols whose
    positions are the dense indices used by the tree's child storage. */
module Alphabets {

  ghost predicate Distinct<I>(symbols: seq<I>)
  {
    forall i, j :: 0 <= i < j < |symbols| ==> symbols[i] != symbols[j]
  }

  /** Every symbol of `w` belongs to the alphabet. */
  ghost predicate InAlphabet<I>(symbols: seq<I>, w: seq<I>)
  {
    forall i :: 0 <= i < |w| ==> w[i] in symbols
  }

  /** Index of a symbol in the alphabet (its first and, for a distinct
      alphabet, only position). */
  function IndexOf<I(==)>(symbols: seq<I>, s: I): (r: nat)
    requires s in symbols
    ensures r < |symbols| && symbols[r] == s
    ensures forall j :: 0 <= j < r ==> symbols[j] != s
  {
    if symbols[0] == s then 0 else 1 + IndexOf(symbols[1..], s)
  }

  /** Growing the alphabet at its end keeps every known symbol's index. */
  lemma {:induction false} IndexOfStable<I>(symbols: seq<I>, more: seq<I>, s: I)
    requires s in symbols
    ensures IndexOf(symbols + more, s) == IndexOf(symbols, s)
  {
    var i := IndexOf(symbols, s);
    var j := IndexOf(symbols + more, s);
    assert (symbols + more)[i] == s;
    assert j <= i;
    assert symbols[j] == (symbols + more)[j];
  }

  lemma InAlphabetGrows<I>(symbols: seq<I>, more: seq<I>, w: seq<I>)
    requires InAlphabet(symbols, w)
    ensures InAlphabet(symbols + more, w)
  {
  }

  /** A growing alphabet shared by a builder and its callers. */
  class GrowingAlphabet<I(==)> {
    var symbols: seq<I>

    ghost predicate Valid()
      reads this
    {
      Distinct(symbols)
    }

    constructor (symbols: seq<I>)
      requires Distinct(symbols)
      ensures Valid() && this.symbols == symbols
    {
      this.symbols := symbols;
    }

    function Size(): nat
      reads this
    {
      |symbols|
    }

    predicate ContainsSymbol(s: I)
      reads this
    {
      s in symbols
    }

    function GetSymbolIndex(s: I): (r: nat)
      reads this
      requires s in symbols
      ensures r < |symbols| && symbols[r] == s
    {
      IndexOf(symbols, s)
    }

    /** Registers a new symbol at the end of the alphabet; a known symbol
        changes nothing. */
    method AddSymbol(s: I)
      requires Valid()
      modifies this
      ensures Valid()
      ensures symbols == if s in old(symbols) then old(symbols) else old(symbols) + [s]
    {
      if s !in symbols {
        symbols := symbols + [s];
      }
    }
  }
}
