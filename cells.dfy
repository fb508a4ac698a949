/**
 * `UncertainCell` of src/overlappingmodel.rs: the two possibility masks of
 * one output cell, the discrete cases of its entropy, and its collapse to
 * a single state drawn by the masked weighted choice.
 *
 * The floating-point entropy formula is not modelled. Where the code
 * computes it (two or more possible states), its value enters as the
 * parameter `spread`.
 */
module Cells {
  import opened Wrappers
  import opened Utils

  /** The number of set bits, `iter().filter(|p| *p).count()`. */
  function CountTrue(mask: seq<bool>): nat {
    if |mask| == 0 then 0 else (if mask[0] then 1 else 0) + CountTrue(mask[1..])
  }

  lemma {:induction false} CountTrueZero(mask: seq<bool>)
    ensures CountTrue(mask) == 0 <==> true !in mask
  {
    if |mask| > 0 {
      CountTrueZero(mask[1..]);
      assert mask == [mask[0]] + mask[1..];
    }
  }

  /** The cell's entropy with the formula left abstract: `None` for a contradiction, `Some(0.)` once decided. */
  function StateEntropy(states: seq<bool>, spread: real): (e: Option<real>)
    ensures e.None? <==> CountTrue(states) == 0
    ensures CountTrue(states) == 1 ==> e == Some(0.0)
    ensures CountTrue(states) >= 2 ==> e == Some(spread)
  {
    CountTrueZero(states);
    if true !in states then None
    else if CountTrue(states) == 1 then Some(0.0)
    else Some(spread)
  }

  /**
   * With a nonzero value for the formula, a cell reads `Some(0.0)` exactly
   * when one state is left.
   */
  lemma DecidedExactlyWhenOneState(states: seq<bool>, spread: real)
    requires spread != 0.0
    ensures StateEntropy(states, spread) == Some(0.0) <==> CountTrue(states) == 1
  {
  }

  /** `possible_state_count`: the summed counts of the states the mask still permits (zip, filter, sum). */
  function PossibleStateCount(counts: seq<nat>, states: seq<bool>): (total: nat)
    ensures total == 0 <==> forall i :: 0 <= i < |counts| && i < |states| && states[i] ==> counts[i] == 0
  {
    if |counts| == 0 || |states| == 0 then 0
    else (if states[0] then counts[0] else 0) + PossibleStateCount(counts[1..], states[1..])
  }

  /** Entropy normalises by the same total the collapse draws from. */
  lemma {:induction false} PossibleStateCountIsTotal(counts: seq<nat>, states: seq<bool>)
    ensures PossibleStateCount(counts, states) == MaskedTotal(counts, states)
  {
    if |states| == 0 {
    } else if |counts| == 0 {
      MaskedEmptyItems<nat>(states);
    } else {
      PossibleStateCountIsTotal(counts[1..], states[1..]);
    }
  }

  /** The mask of `n` bits with only bit `c` set. */
  function OneHot(n: nat, c: nat): seq<bool> {
    seq(n, i requires 0 <= i < n => i == c)
  }

  lemma {:induction false} CountOneHot(n: nat, c: nat, from: nat)
    requires from <= n
    ensures CountTrue(OneHot(n, c)[from..]) == if from <= c < n then 1 else 0
    decreases n - from
  {
    if from < n {
      CountOneHot(n, c, from + 1);
      assert OneHot(n, c)[from..][1..] == OneHot(n, c)[from + 1..];
    }
  }

  lemma {:induction false} CountAllTrue(n: nat)
    ensures CountTrue(seq(n, i => true)) == n
  {
    if n > 0 {
      CountAllTrue(n - 1);
      assert seq(n, i => true)[1..] == seq(n - 1, i => true);
    }
  }

  /** A fresh cell is a contradiction with no states, decided with one, and spread otherwise. */
  lemma FreshCellEntropy(numStates: nat, spread: real)
    ensures StateEntropy(seq(numStates, i => true), spread)
      == if numStates == 0 then None else if numStates == 1 then Some(0.0) else Some(spread)
  {
    CountAllTrue(numStates);
  }

  /**
   * The mask a collapse leaves: as long as before, exactly one bit set, that
   * bit is the drawn state, it was set before (nothing excluded comes back),
   * and the cell now reads as decided.
   */
  lemma CollapsedMask(counts: seq<nat>, states: seq<bool>, r: nat, c: nat)
    requires IsChoice(counts, states, r, c)
    ensures var after := OneHot(|states|, c);
      |after| == |states| && after[c] && CountTrue(after) == 1
      && (forall i :: 0 <= i < |after| && after[i] ==> states[i])
      && forall spread :: StateEntropy(after, spread) == Some(0.0)
  {
    CountOneHot(|states|, c, 0);
    assert OneHot(|states|, c)[0..] == OneHot(|states|, c);
  }

  class UncertainCell {
    var possibleColors: seq<bool>
    var possibleStates: seq<bool>

    /** `UncertainCell::new`: nothing excluded yet. */
    constructor (numColors: nat, numStates: nat)
      ensures |possibleColors| == numColors && forall i :: 0 <= i < numColors ==> possibleColors[i]
      ensures |possibleStates| == numStates && forall i :: 0 <= i < numStates ==> possibleStates[i]
    {
      possibleColors := seq(numColors, i => true);
      possibleStates := seq(numStates, i => true);
    }

    /** Nothing excluded yet: `numColors` colours and `numStates` states, all still possible. */
    ghost predicate AllPossible(numColors: nat, numStates: nat)
      reads this
    {
      && |possibleColors| == numColors && (forall c :: 0 <= c < numColors ==> possibleColors[c])
      && |possibleStates| == numStates && (forall s :: 0 <= s < numStates ==> possibleStates[s])
    }

    /** `entropy`, with `spread` the formula's value where two or more states remain. */
    function Entropy(spread: real): (e: Option<real>)
      reads this
      ensures e.None? <==> true !in possibleStates
      ensures CountTrue(possibleStates) == 1 ==> e == Some(0.0)
      ensures CountTrue(possibleStates) >= 2 ==> e == Some(spread)
    {
      CountTrueZero(possibleStates);
      StateEntropy(possibleStates, spread)
    }

    /**
     * `collapse` with the random draw `r`: every state bit cleared except
     * the one the masked weighted choice selects (set_all, negate, set).
     */
    method Collapse(counts: seq<nat>, r: nat)
      requires r < MaskedTotal(counts, possibleStates)
      modifies this
      ensures exists c :: IsChoice(counts, old(possibleStates), r, c) && possibleStates == OneHot(|old(possibleStates)|, c)
      ensures possibleColors == old(possibleColors)
    {
      var chosen := MaskedWeightedChoice(counts, possibleStates, r);
      ghost var before := possibleStates;
      possibleStates := seq(|possibleStates|, i => true);
      var all := possibleStates;
      possibleStates := seq(|all|, i requires 0 <= i < |all| => !all[i]);
      possibleStates := possibleStates[chosen := true];
      assert forall i :: 0 <= i < |before| ==> possibleStates[i] == OneHot(|before|, chosen)[i];
    }
  }
}
