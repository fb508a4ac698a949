/**
 * `OverlappingModel` of src/overlappingmodel.rs: the grid of uncertain
 * cells built from a seed image, and the scan for the cell of lowest
 * nonzero entropy.
 *
 * The scan is stated generically over the entropy values, which are reals
 * here: the cell entropies in row-major order, `None` for a contradiction.
 */
module Model {
  import opened Wrappers
  import opened Grids
  import opened SourceImage
  import opened Cells
  import opened SeedStatistics

  datatype ModelError = NoValidStates(index: nat) | AllStatesDecided

  // ---------------------------------------------------------------------
  // The scan, as a function of the entropies it reads.

  /**
   * Where the scan stands after some cells: stopped at a contradiction, or
   * running with the best candidate so far (`None` plays the part of the
   * initial `f64::MAX`: no candidate yet).
   */
  datatype ScanState = Aborted(index: nat) | Running(best: Option<(nat, real)>)

  /** The scan state after the first `n` cells. */
  function ScanPrefix(es: seq<Option<real>>, n: nat): (s: ScanState)
    requires n <= |es|
    ensures s.Aborted? ==> s.index < n && es[s.index].None?
    ensures s.Running? && s.best.Some? ==>
      s.best.value.0 < n && es[s.best.value.0] == Some(s.best.value.1) && s.best.value.1 != 0.0
  {
    if n == 0 then Running(None)
    else match ScanPrefix(es, n - 1)
      case Aborted(i) => Aborted(i)
      case Running(best) =>
        match es[n - 1]
        case None => Aborted(n - 1)
        case Some(u) =>
          if u == 0.0 then Running(best)
          else if best.None? || u <= best.value.1 then Running(Some((n - 1, u)))
          else Running(best)
  }

  /** The flat index the scan settles on, or why it found none. */
  function LowestIndex(es: seq<Option<real>>): (r: Result<nat, ModelError>)
    ensures r.Ok? ==> r.value < |es| && es[r.value].Some? && es[r.value].value != 0.0
    ensures r.Err? && r.error.NoValidStates? ==> r.error.index < |es| && es[r.error.index].None?
  {
    match ScanPrefix(es, |es|)
    case Aborted(i) => Err(NoValidStates(i))
    case Running(None) => Err(AllStatesDecided)
    case Running(Some((k, _))) => Ok(k)
  }

  /** What holds of the scan state after `n` cells. */
  ghost predicate ScanInvariant(es: seq<Option<real>>, n: nat, s: ScanState)
    requires n <= |es|
  {
    match s
    case Aborted(i) => i < n && es[i].None? && forall j :: 0 <= j < i ==> es[j].Some?
    case Running(None) => forall j :: 0 <= j < n ==> es[j] == Some(0.0)
    case Running(Some((k, v))) =>
      && k < n && es[k] == Some(v) && v != 0.0
      && (forall j :: 0 <= j < n ==> es[j].Some?)
      && (forall j :: 0 <= j < n && es[j].value != 0.0 ==> v <= es[j].value)
      && (forall j :: k < j < n && es[j].value != 0.0 ==> v < es[j].value)
  }

  lemma {:induction false} ScanPrefixInvariant(es: seq<Option<real>>, n: nat)
    requires n <= |es|
    ensures ScanInvariant(es, n, ScanPrefix(es, n))
  {
    if n > 0 {
      ScanPrefixInvariant(es, n - 1);
    }
  }

  /** The scan reports the first contradiction, and only a real one. */
  lemma ScanContradiction(es: seq<Option<real>>, i: nat)
    ensures LowestIndex(es) == Err(NoValidStates(i))
      <==> i < |es| && es[i].None? && forall j :: 0 <= j < i ==> es[j].Some?
  {
    ScanPrefixInvariant(es, |es|);
  }

  /** Cells after the first contradiction do not influence the result. */
  lemma ScanIgnoresLaterCells(es: seq<Option<real>>, others: seq<Option<real>>, i: nat)
    requires i < |es| && i < |others| && es[..i + 1] == others[..i + 1]
    requires es[i].None? && forall j :: 0 <= j < i ==> es[j].Some?
    ensures LowestIndex(es) == LowestIndex(others) == Err(NoValidStates(i))
  {
    assert others[i] == others[..i + 1][i];
    assert forall j :: 0 <= j < i ==> others[j] == others[..i + 1][j] == es[..i + 1][j] == es[j];
    ScanContradiction(es, i);
    ScanContradiction(others, i);
  }

  /** The scan reports that all states are decided exactly when every entropy is 0. */
  lemma ScanAllDecided(es: seq<Option<real>>)
    ensures LowestIndex(es) == Err(AllStatesDecided) <==> forall j :: 0 <= j < |es| ==> es[j] == Some(0.0)
  {
    ScanPrefixInvariant(es, |es|);
  }

  /**
   * A reported cell has nonzero entropy no larger than that of any other
   * cell of nonzero entropy; among equals it is the last one scanned.
   */
  lemma ScanLowest(es: seq<Option<real>>, k: nat)
    requires LowestIndex(es) == Ok(k)
    ensures k < |es| && es[k].Some? && es[k].value != 0.0
    ensures forall j :: 0 <= j < |es| ==> es[j].Some?
    ensures forall j :: 0 <= j < |es| && es[j].value != 0.0 ==> es[k].value <= es[j].value
    ensures forall j :: k < j < |es| && es[j].value != 0.0 ==> es[k].value < es[j].value
  {
    ScanPrefixInvariant(es, |es|);
  }

  lemma {:induction false} ScanStaysAborted(es: seq<Option<real>>, i: nat, n: nat)
    requires i < n <= |es| && ScanPrefix(es, i + 1) == Aborted(i)
    ensures ScanPrefix(es, n) == Aborted(i)
    decreases n - i
  {
    if n > i + 1 {
      ScanStaysAborted(es, i, n - 1);
    }
  }

  // ---------------------------------------------------------------------
  // Coordinates.

  lemma ProductBounds(k: nat, rows: nat, cols: nat)
    requires k < rows * cols
    ensures rows > 0 && cols > 0
  {
  }

  /** `[index / self_y, index % self_x]`, as written: the division is by the row count. */
  function ScanCoordinate(index: nat, rows: nat, cols: nat): (c: (nat, nat))
    requires rows > 0 && cols > 0
    ensures c.0 * rows <= index < c.0 * rows + rows
    ensures c.1 < cols && exists q: nat :: q * cols + c.1 == index
  {
    assert (index / cols) * cols + index % cols == index;
    (index / rows, index % cols)
  }

  /** The (row, column) of a flat row-major index. */
  function RowMajorCoordinate(index: nat, rows: nat, cols: nat): (c: (nat, nat))
    requires index < rows * cols
    ensures c.0 < rows && c.1 < cols && c.0 * cols + c.1 == index
  {
    ProductBounds(index, rows, cols);
    var c := (index / cols, index % cols);
    assert c.0 * cols + c.1 == index;
    assert c.0 < rows;
    c
  }

  /** On a square grid the scan's coordinate is the row-major one. */
  lemma SquareCoordinate(index: nat, n: nat)
    requires index < n * n
    ensures n > 0 && ScanCoordinate(index, n, n) == RowMajorCoordinate(index, n, n)
  {
    ProductBounds(index, n, n);
  }

  /**
   * On a grid of 2 rows and 3 columns the cell at flat index 4 is (1, 1),
   * but the scan reports (2, 1), a row that does not exist.
   */
  lemma NonSquareCoordinate()
    ensures RowMajorCoordinate(4, 2, 3) == (1, 1)
    ensures ScanCoordinate(4, 2, 3) == (2, 1)
  {
  }

  /** `find_lowest_nonzero_entropy_coordinates` as a function of the row-major entropies. */
  function FindLowest(es: seq<Option<real>>, rows: nat, cols: nat): (r: Result<(nat, nat), ModelError>)
    requires |es| == rows * cols
    ensures r.Err? <==> LowestIndex(es).Err?
    ensures r.Err? ==> LowestIndex(es) == Err(r.error)
    ensures r.Ok? ==> rows > 0 && cols > 0 && r.value == ScanCoordinate(LowestIndex(es).value, rows, cols)
  {
    match LowestIndex(es)
    case Err(e) => Err(e)
    case Ok(k) =>
      ScanPrefixInvariant(es, |es|);
      ProductBounds(k, rows, cols);
      Ok(ScanCoordinate(k, rows, cols))
  }

  /** On a square grid a reported coordinate names the lowest cell, in row-major terms. */
  lemma FindLowestSquare(es: seq<Option<real>>, n: nat, row: nat, col: nat)
    requires |es| == n * n && FindLowest(es, n, n) == Ok((row, col))
    ensures row < n && col < n && LowestIndex(es) == Ok(row * n + col)
  {
    var k := LowestIndex(es).value;
    ScanPrefixInvariant(es, |es|);
    SquareCoordinate(k, n);
  }

  /** The scan with the coordinate computed row-major, as the grid is laid out. */
  function FindLowestRowMajor(es: seq<Option<real>>, rows: nat, cols: nat): (r: Result<(nat, nat), ModelError>)
    requires |es| == rows * cols
    ensures r.Ok? ==>
      (r.value.0 < rows && r.value.1 < cols && LowestIndex(es) == Ok(r.value.0 * cols + r.value.1))
    ensures r.Err? ==> LowestIndex(es) == Err(r.error)
  {
    match LowestIndex(es)
    case Err(e) => Err(e)
    case Ok(k) =>
      ScanPrefixInvariant(es, |es|);
      Ok(RowMajorCoordinate(k, rows, cols))
  }

  /** On a square grid the scan as written and the row-major scan agree. */
  lemma FindLowestAgreesWhenSquare(es: seq<Option<real>>, n: nat)
    requires |es| == n * n
    ensures FindLowest(es, n, n) == FindLowestRowMajor(es, n, n)
  {
    if LowestIndex(es).Ok? {
      ScanPrefixInvariant(es, |es|);
      SquareCoordinate(LowestIndex(es).value, n);
    }
  }

  /** Cells left with one state each are all decided, whatever the entropy formula says. */
  lemma OneStateEverywhere(masks: seq<seq<bool>>, spread: seq<real>)
    requires |spread| == |masks| && forall i :: 0 <= i < |masks| ==> masks[i] == [true]
    ensures LowestIndex(seq(|masks|, i requires 0 <= i < |masks| => StateEntropy(masks[i], spread[i])))
      == Err(AllStatesDecided)
  {
    var es := seq(|masks|, i requires 0 <= i < |masks| => StateEntropy(masks[i], spread[i]));
    forall i | 0 <= i < |masks| ensures es[i] == Some(0.0) {
      assert CountTrue(masks[i]) == 1 by {
        assert masks[i][1..] == [];
      }
    }
    ScanAllDecided(es);
  }

  /**
   * When the formula never yields exactly 0 for two or more states, the scan
   * reports that all states are decided exactly when every cell has one state left.
   */
  lemma AllDecidedExactlyWhenOneState(masks: seq<seq<bool>>, spread: seq<real>)
    requires |spread| == |masks| && forall i :: 0 <= i < |spread| ==> spread[i] != 0.0
    ensures (LowestIndex(seq(|masks|, i requires 0 <= i < |masks| => StateEntropy(masks[i], spread[i])))
      == Err(AllStatesDecided)) <==> (forall i :: 0 <= i < |masks| ==> CountTrue(masks[i]) == 1)
  {
    var es := seq(|masks|, i requires 0 <= i < |masks| => StateEntropy(masks[i], spread[i]));
    forall i | 0 <= i < |masks| ensures es[i] == Some(0.0) <==> CountTrue(masks[i]) == 1 {
      DecidedExactlyWhenOneState(masks[i], spread[i]);
    }
    ScanAllDecided(es);
  }

  // ---------------------------------------------------------------------
  // The model object.

  /** The allocation loop of `from_seed_image`: pushes `count` new, fully uncertain cells. */
  method NewCells(count: nat, numColors: nat, numStates: nat) returns (data: seq<UncertainCell>)
    ensures |data| == count
    ensures forall i :: 0 <= i < count ==> fresh(data[i])
    ensures forall i, j :: 0 <= i < j < count ==> data[i] != data[j]
    ensures forall i :: 0 <= i < count ==> data[i].AllPossible(numColors, numStates)
  {
    data := [];
    for n := 0 to count
      invariant |data| == n
      invariant forall i :: 0 <= i < n ==> fresh(data[i])
      invariant forall i, j :: 0 <= i < j < n ==> data[i] != data[j]
      invariant forall i :: 0 <= i < n ==> data[i].AllPossible(numColors, numStates)
    {
      var cell := new UncertainCell(numColors, numStates);
      data := data + [cell];
    }
  }

  class OverlappingModel {
    /** The `Array2<UncertainCell>` of `rows` by `cols` cells, in row-major order. */
    var cells: seq<UncertainCell>
    var rows: nat
    var cols: nat
    var palette: seq<RGB>
    var states: seq<(Block, nat)>
    var blockDims: (nat, nat)

    ghost predicate Valid()
      reads this, cells
    {
      && |cells| == rows * cols
      && (forall i :: 0 <= i < |cells| ==> |cells[i].possibleColors| == |palette| && |cells[i].possibleStates| == |states|)
      && (forall i, j :: 0 <= i < j < |cells| ==> cells[i] != cells[j])
    }

    /** The cells' entropies in row-major order, with `spread[i]` the formula's value at cell i. */
    ghost function Entropies(spread: seq<real>): (es: seq<Option<real>>)
      requires |spread| == |cells|
      reads this, cells
      ensures |es| == |cells|
    {
      var cs := cells;
      seq(|cs|, i requires 0 <= i < |cs| && i < |spread| reads cs => StateEntropy(cs[i].possibleStates, spread[i]))
    }

    /**
     * `from_seed_image` for an `h`-by-`w` seed and `output_dims == (x, y)`:
     * palette and state table from the seed, then `x * y` fully uncertain
     * cells shaped `(y, x)`.
     */
    constructor FromSeedImage(seed: seq<seq<RGB>>, h: nat, w: nat, outputDims: (nat, nat), blockDims: (nat, nat))
      requires IsGrid(seed, h, w)
      ensures Valid()
      ensures rows == outputDims.1 && cols == outputDims.0 && this.blockDims == blockDims
      ensures palette == BuildColorPalette(seed)
      ensures IsFrequencyTable(states, Windows(seed, h, w, blockDims.0, blockDims.1))
      ensures forall i :: 0 <= i < |cells| ==> fresh(cells[i])
      ensures forall i :: 0 <= i < |cells| ==> cells[i].AllPossible(|palette|, |states|)
    {
      var p := BuildColorPalette(seed);
      var table := BuildBlockFrequencyMap(seed, h, w, blockDims);
      var (x, y) := outputDims;
      var data := NewCells(x * y, |p|, |table|);
      assert |data| == y * x;
      cells := data;
      rows, cols := y, x;
      palette := p;
      states := table;
      this.blockDims := blockDims;
      new;
      assert Valid();
    }

    /**
     * `find_lowest_nonzero_entropy_coordinates`, with `spread[i]` the value
     * the entropy formula gives cell i when it has two or more states.
     */
    method FindLowestNonzeroEntropyCoordinates(spread: seq<real>) returns (r: Result<(nat, nat), ModelError>)
      requires Valid() && |spread| == |cells|
      ensures r == FindLowest(Entropies(spread), rows, cols)
    {
      ghost var es := Entropies(spread);
      var output: Option<(nat, nat)> := None;
      var entropy: Option<real> := None;
      ghost var best: Option<(nat, real)> := None;
      for index := 0 to |cells|
        invariant ScanPrefix(es, index) == Running(best)
        invariant ScanInvariant(es, index, Running(best))
        invariant best.None? ==> output.None? && entropy.None?
        invariant best.Some? ==>
          (rows > 0 && cols > 0 && output == Some(ScanCoordinate(best.value.0, rows, cols)) && entropy == Some(best.value.1))
      {
        ScanPrefixInvariant(es, index + 1);
        match cells[index].Entropy(spread[index])
        case None =>
          ScanStaysAborted(es, index, |es|);
          return Err(NoValidStates(index));
        case Some(u) =>
          if u == 0.0 {
          } else if entropy.None? || u <= entropy.value {
            ProductBounds(index, rows, cols);
            entropy := Some(u);
            output := Some(ScanCoordinate(index, rows, cols));
            best := Some((index, u));
          }
      }
      match output
      case None => r := Err(AllStatesDecided);
      case Some(u) => r := Ok(u);
    }
  }
}
