/**
 * The two-dimensional arrays (`ndarray::Array2`) the code passes around,
 * as sequences of rows. Only what the call sites rely on is modelled: the
 * shape, and the row-major element order of `iter()`.
 */
module Grids {

  /** `g` has `h` rows of `w` columns each. */
  ghost predicate IsGrid<T>(g: seq<seq<T>>, h: nat, w: nat) {
    |g| == h && forall i :: 0 <= i < h ==> |g[i]| == w
  }

  /** The row-major element order of `Array2::iter`. */
  function Flatten<T>(g: seq<seq<T>>): seq<T> {
    if |g| == 0 then [] else g[0] + Flatten(g[1..])
  }

  lemma {:induction false} FlattenAt<T>(g: seq<seq<T>>, h: nat, w: nat, i: nat, j: nat)
    requires IsGrid(g, h, w)
    requires i < h && j < w
    ensures |Flatten(g)| == h * w
    ensures i * w + j < h * w && Flatten(g)[i * w + j] == g[i][j]
  {
    FlattenLength(g, h, w);
    if i == 0 {
      assert Flatten(g) == g[0] + Flatten(g[1..]);
    } else {
      FlattenAt(g[1..], h - 1, w, i - 1, j);
      assert Flatten(g) == g[0] + Flatten(g[1..]);
      assert i * w + j == w + ((i - 1) * w + j);
    }
  }

  lemma {:induction false} FlattenLength<T>(g: seq<seq<T>>, h: nat, w: nat)
    requires IsGrid(g, h, w)
    ensures |Flatten(g)| == h * w
  {
    if h > 0 {
      FlattenLength(g[1..], h - 1, w);
      assert h * w == w + (h - 1) * w;
    }
  }


  /** An element occurs in the row-major order exactly when it sits at some (row, column) of the grid. */
  lemma {:induction false} FlattenContains<T>(g: seq<seq<T>>, h: nat, w: nat, x: T)
    requires IsGrid(g, h, w)
    ensures x in Flatten(g) <==> exists i, j :: 0 <= i < h && 0 <= j < w && g[i][j] == x
  {
    if h > 0 {
      FlattenContains(g[1..], h - 1, w, x);
      assert Flatten(g) == g[0] + Flatten(g[1..]);
      if x in g[0] {
        var j :| 0 <= j < w && g[0][j] == x;
        assert g[0][j] == x;
      }
      if exists i, j :: 0 <= i < h && 0 <= j < w && g[i][j] == x {
        var i, j :| 0 <= i < h && 0 <= j < w && g[i][j] == x;
        if i > 0 {
          assert g[1..][i - 1][j] == x;
        }
      }
    }
  }
}
