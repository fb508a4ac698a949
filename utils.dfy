/**
 * Generic helpers of src/utils.rs: the clockwise quarter turn of an array,
 * the `Masked` iterator adaptor, and the masked weighted choice that the
 * cell collapse draws its state from. The random draw is a parameter `r`
 * (the code samples it uniformly from `[0, total)`).
 */
module Utils {
  import opened Wrappers
  import opened Grids

  // ---------------------------------------------------------------------
  // rotate_90_clockwise: `t()` followed by `invert_axis(Axis(1))`.

  /** `Array2::t`: the `w`-by-`h` transpose of an `h`-by-`w` array. */
  function Transpose<T>(a: seq<seq<T>>, h: nat, w: nat): seq<seq<T>>
    requires IsGrid(a, h, w)
  {
    seq(w, i requires 0 <= i < w => seq(h, j requires 0 <= j < h => a[j][i]))
  }

  /** `invert_axis(Axis(1))`: every row read back to front. */
  function InvertColumns<T>(a: seq<seq<T>>): seq<seq<T>> {
    seq(|a|, i requires 0 <= i < |a| => seq(|a[i]|, j requires 0 <= j < |a[i]| => a[i][|a[i]| - 1 - j]))
  }

  function Rotate90Clockwise<T>(a: seq<seq<T>>, h: nat, w: nat): (r: seq<seq<T>>)
    requires IsGrid(a, h, w)
    ensures IsGrid(r, w, h)
    ensures forall i, j :: 0 <= i < w && 0 <= j < h ==> r[i][j] == a[h - 1 - j][i]
  {
    InvertColumns(Transpose(a, h, w))
  }

  /** Two quarter turns are a half turn. */
  lemma RotateTwice<T>(a: seq<seq<T>>, h: nat, w: nat)
    requires IsGrid(a, h, w)
    ensures var r := Rotate90Clockwise(Rotate90Clockwise(a, h, w), w, h);
      IsGrid(r, h, w) && forall i, j :: 0 <= i < h && 0 <= j < w ==> r[i][j] == a[h - 1 - i][w - 1 - j]
  {
  }

  /** Four quarter turns give back the original array. */
  lemma RotateFourTimes<T>(a: seq<seq<T>>, h: nat, w: nat)
    requires IsGrid(a, h, w)
    ensures Rotate90Clockwise(Rotate90Clockwise(Rotate90Clockwise(Rotate90Clockwise(a, h, w), w, h), h, w), w, h) == a
  {
    var half := Rotate90Clockwise(Rotate90Clockwise(a, h, w), w, h);
    RotateTwice(a, h, w);
    RotateTwice(half, h, w);
    var r := Rotate90Clockwise(Rotate90Clockwise(half, h, w), w, h);
    assert |r| == |a|;
    forall i | 0 <= i < h ensures r[i] == a[i] {
      assert |r[i]| == |a[i]|;
    }
  }

  // ---------------------------------------------------------------------
  // The Masked iterator adaptor.

  /**
   * What a `Masked` adaptor yields until its first `None`: one step of
   * `next` per mask element, the item kept when the mask says `true`,
   * skipped otherwise. It ends when either underlying iterator runs out.
   */
  function Masked<T>(items: seq<T>, mask: seq<bool>): (r: seq<T>)
    ensures |r| <= |items| && |r| <= |mask|
    ensures forall x :: x in r ==> x in items
    decreases |mask|
  {
    if |mask| == 0 then []
    else if mask[0] then (if |items| == 0 then [] else [items[0]] + Masked(items[1..], mask[1..]))
    else Masked(if |items| == 0 then [] else items[1..], mask[1..])
  }

  function Min(a: nat, b: nat): nat {
    if a <= b then a else b
  }

  /** The positions `i <= j < min(n, |mask|)` whose mask bit is set, ascending. */
  function Selected(mask: seq<bool>, n: nat, i: nat): seq<nat>
    decreases Min(n, |mask|) - i
  {
    if i >= Min(n, |mask|) then []
    else (if mask[i] then [i] else []) + Selected(mask, n, i + 1)
  }

  lemma {:induction false} SelectedMembers(mask: seq<bool>, n: nat, i: nat)
    ensures forall k :: 0 <= k < |Selected(mask, n, i)| ==> i <= Selected(mask, n, i)[k] < Min(n, |mask|)
    ensures forall k, l :: 0 <= k < l < |Selected(mask, n, i)| ==> Selected(mask, n, i)[k] < Selected(mask, n, i)[l]
    ensures forall j :: i <= j < Min(n, |mask|) ==> (mask[j] <==> j in Selected(mask, n, i))
    decreases Min(n, |mask|) - i
  {
    if i < Min(n, |mask|) {
      SelectedMembers(mask, n, i + 1);
    }
  }

  /** The items at the given positions, in that order. */
  function Pick<T>(items: seq<T>, positions: seq<nat>): seq<T>
    requires forall k :: 0 <= k < |positions| ==> positions[k] < |items|
  {
    seq(|positions|, k requires 0 <= k < |positions| => items[positions[k]])
  }

  /**
   * `Masked` yields exactly the items at the mask-true positions below
   * `min(|items|, |mask|)`, in ascending order of position.
   */
  lemma MaskedIsSelection<T>(items: seq<T>, mask: seq<bool>)
    ensures forall k :: 0 <= k < |Selected(mask, |items|, 0)| ==> Selected(mask, |items|, 0)[k] < |items|
    ensures Masked(items, mask) == Pick(items, Selected(mask, |items|, 0))
  {
    SelectedMembers(mask, |items|, 0);
    MaskedFrom(items, mask, 0);
  }

  lemma {:induction false} MaskedFrom<T>(items: seq<T>, mask: seq<bool>, i: nat)
    requires i <= |mask|
    ensures forall k :: 0 <= k < |Selected(mask, |items|, i)| ==> Selected(mask, |items|, i)[k] < |items|
    ensures Masked(if i <= |items| then items[i..] else [], mask[i..]) == Pick(items, Selected(mask, |items|, i))
    decreases |mask| - i
  {
    SelectedMembers(mask, |items|, i);
    var rest := if i <= |items| then items[i..] else [];
    if i == |mask| {
    } else if i >= |items| {
      MaskedEmptyItems<T>(mask[i..]);
    } else {
      MaskedFrom(items, mask, i + 1);
      assert rest[1..] == items[i + 1..];
      assert mask[i..][1..] == mask[i + 1..];
    }
  }

  lemma {:induction false} MaskedEmptyItems<T>(mask: seq<bool>)
    ensures Masked<T>([], mask) == []
  {
    if |mask| > 0 {
      MaskedEmptyItems<T>(mask[1..]);
    }
  }

  /** With an all-true mask as long as the items, nothing is dropped. */
  lemma {:induction false} MaskedAllTrue<T>(items: seq<T>, mask: seq<bool>)
    requires |mask| == |items| && forall i :: 0 <= i < |mask| ==> mask[i]
    ensures Masked(items, mask) == items
  {
    if |mask| > 0 {
      MaskedAllTrue(items[1..], mask[1..]);
    }
  }

  /** With an all-false mask, nothing is yielded. */
  lemma {:induction false} MaskedAllFalse<T>(items: seq<T>, mask: seq<bool>)
    requires forall i :: 0 <= i < |mask| ==> !mask[i]
    ensures Masked(items, mask) == []
  {
    if |mask| > 0 {
      MaskedAllFalse(if |items| == 0 then [] else items[1..], mask[1..]);
    }
  }

  /** The adaptor object: `next` advances the two underlying iterators it holds. */
  class MaskedIter<T> {
    var items: seq<T>
    var mask: seq<bool>

    /** `Maskable::masked`. */
    constructor (items: seq<T>, mask: seq<bool>)
      ensures this.items == items && this.mask == mask
    {
      this.items := items;
      this.mask := mask;
    }

    /** `Iterator::next`: the next element of what the adaptor yields, and the rest left behind. */
    method Next() returns (r: Option<T>)
      modifies this
      ensures r.None? ==> Masked(old(items), old(mask)) == [] && Masked(items, mask) == []
      ensures r.Some? ==> Masked(old(items), old(mask)) == [r.value] + Masked(items, mask)
      decreases |mask|
    {
      if |mask| == 0 {
        r := None;
      } else {
        var m := mask[0];
        mask := mask[1..];
        if m {
          if |items| == 0 {
            MaskedEmptyItems<T>(mask);
            r := None;
          } else {
            r := Some(items[0]);
            items := items[1..];
          }
        } else {
          if |items| > 0 {
            items := items[1..];
          }
          r := Next();
        }
      }
    }
  }

  // ---------------------------------------------------------------------
  // masked_weighted_choice

  function Sum(s: seq<nat>): nat {
    if |s| == 0 then 0 else s[0] + Sum(s[1..])
  }

  /** `total`: the sum of the weights the masked iterator yields. */
  function MaskedTotal(weights: seq<nat>, mask: seq<bool>): (total: nat)
    ensures total == Prefix(weights, mask, Min(|weights|, |mask|))
  {
    TotalIsPrefix(weights, mask);
    Sum(Masked(weights, mask))
  }

  /** The cumulative masked weight of the positions below `i`. */
  function Prefix(weights: seq<nat>, mask: seq<bool>, i: nat): nat
    requires i <= |weights| && i <= |mask|
  {
    if i == 0 then 0 else Prefix(weights, mask, i - 1) + (if mask[i - 1] then weights[i - 1] else 0)
  }

  lemma {:induction false} PrefixTail(weights: seq<nat>, mask: seq<bool>, i: nat)
    requires 0 < |weights| && 0 < |mask| && i < |weights| && i < |mask|
    ensures Prefix(weights, mask, i + 1)
      == (if mask[0] then weights[0] else 0) + Prefix(weights[1..], mask[1..], i)
  {
    if i > 0 {
      PrefixTail(weights, mask, i - 1);
    }
  }

  /** The total is the cumulative masked weight over all positions both sequences have. */
  lemma {:induction false} TotalIsPrefix(weights: seq<nat>, mask: seq<bool>)
    ensures Sum(Masked(weights, mask)) == Prefix(weights, mask, Min(|weights|, |mask|))
    decreases |mask|
  {
    if |mask| == 0 {
    } else if |weights| == 0 {
      MaskedEmptyItems<nat>(mask);
    } else {
      TotalIsPrefix(weights[1..], mask[1..]);
      PrefixTail(weights, mask, Min(|weights|, |mask|) - 1);
    }
  }

  lemma {:induction false} PrefixMonotone(weights: seq<nat>, mask: seq<bool>, i: nat, j: nat)
    requires i <= j <= |weights| && j <= |mask|
    ensures Prefix(weights, mask, i) <= Prefix(weights, mask, j)
    decreases j - i
  {
    if i < j {
      PrefixMonotone(weights, mask, i, j - 1);
    }
  }

  /**
   * Position `i` is what a draw of `r` selects: it is mask-true and the
   * first masked position whose cumulative weight exceeds `r`.
   */
  ghost predicate IsChoice(weights: seq<nat>, mask: seq<bool>, r: nat, i: nat) {
    i < |weights| && i < |mask| && mask[i]
    && Prefix(weights, mask, i) <= r < Prefix(weights, mask, i) + weights[i]
  }

  /**
   * The scan of `masked_weighted_choice` with the drawn value `r`, returning
   * the position of the chosen item. The loop stays inside the sequence,
   * so the trailing `unreachable!()` is never reached.
   */
  method MaskedWeightedChoice(weights: seq<nat>, mask: seq<bool>, r: nat) returns (index: nat)
    requires r < MaskedTotal(weights, mask)
    ensures IsChoice(weights, mask, r, index)
    ensures index < |weights| && index < |mask| && mask[index] && weights[index] > 0
  {
    TotalIsPrefix(weights, mask);
    var n := Min(|weights|, |mask|);
    index := 0;
    var choice := r;
    while !(mask[index] && choice < weights[index])
      invariant index < n
      invariant Prefix(weights, mask, index) <= r
      invariant choice == r - Prefix(weights, mask, index)
      decreases n - index
    {
      if mask[index] {
        choice := choice - weights[index];
      }
      index := index + 1;
    }
  }

  /** At most one position is selected by any draw. */
  lemma ChoiceUnique(weights: seq<nat>, mask: seq<bool>, r: nat, i: nat, j: nat)
    requires IsChoice(weights, mask, r, i) && IsChoice(weights, mask, r, j)
    ensures i == j
  {
    if i < j {
      PrefixMonotone(weights, mask, i + 1, j);
    } else if j < i {
      PrefixMonotone(weights, mask, j + 1, i);
    }
  }

  /** A larger draw never selects an earlier position. */
  lemma ChoiceMonotone(weights: seq<nat>, mask: seq<bool>, r1: nat, r2: nat, i1: nat, i2: nat)
    requires r1 <= r2 && IsChoice(weights, mask, r1, i1) && IsChoice(weights, mask, r2, i2)
    ensures i1 <= i2
  {
    if i2 < i1 {
      PrefixMonotone(weights, mask, i2 + 1, i1);
    }
  }

  predicate Between(lo: nat, r: nat, hi: nat) {
    lo <= r < hi
  }

  lemma {:induction false} IntervalSize(lo: nat, hi: nat)
    requires lo <= hi
    ensures |set r: nat | r < hi && Between(lo, r, hi)| == hi - lo
    decreases hi - lo
  {
    if lo < hi {
      var next := lo + 1;
      IntervalSize(next, hi);
      assert (set r: nat | r < hi && Between(lo, r, hi)) == {lo} + (set r: nat | r < hi && Between(next, r, hi));
    }
  }

  /**
   * Weight-proportional selection: among the `total` equally likely draws,
   * a masked position is selected by exactly `weight` of them.
   */
  lemma ChoiceCount(weights: seq<nat>, mask: seq<bool>, i: nat)
    requires i < |weights| && i < |mask| && mask[i]
    ensures |set r: nat | r < MaskedTotal(weights, mask) && IsChoice(weights, mask, r, i)| == weights[i]
  {
    TotalIsPrefix(weights, mask);
    PrefixMonotone(weights, mask, i + 1, Min(|weights|, |mask|));
    var lo := Prefix(weights, mask, i);
    var hi := lo + weights[i];
    assert (set r: nat | r < MaskedTotal(weights, mask) && IsChoice(weights, mask, r, i))
      == (set r: nat | r < hi && Between(lo, r, hi));
    IntervalSize(lo, hi);
  }

  /** Weights [3, 1, 1], nothing masked out: position 0 is chosen by 3 of the 5 draws. */
  lemma ThreeInFive()
    ensures MaskedTotal([3, 1, 1], [true, true, true]) == 5
    ensures |set r: nat | r < 5 && IsChoice([3, 1, 1], [true, true, true], r, 0)| == 3
  {
    MaskedAllTrue([3, 1, 1], [true, true, true]);
    assert Sum([3, 1, 1]) == 5 by {
      assert [3, 1, 1][1..] == [1, 1];
      assert [1, 1][1..] == [1];
    }
    ChoiceCount([3, 1, 1], [true, true, true], 0);
  }
}
