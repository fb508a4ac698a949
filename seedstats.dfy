/**
 * The seed statistics of src/overlappingmodel.rs: the colour palette
 * (`build_color_palette`: collect, sort, dedup) and the state table
 * (`build_block_frequency_map`: count every stride-1 sliding window).
 */
module SeedStatistics {
  import opened Grids
  import opened SourceImage

  // ---------------------------------------------------------------------
  // The palette.

  predicate Sorted(s: seq<RGB>) {
    forall i, j :: 0 <= i < j < |s| ==> LessOrEqual(s[i], s[j])
  }

  predicate StrictlyIncreasing(s: seq<RGB>) {
    forall i, j :: 0 <= i < j < |s| ==> Less(s[i], s[j])
  }

  function Insert(x: RGB, s: seq<RGB>): (r: seq<RGB>)
    requires Sorted(s)
    ensures Sorted(r) && multiset(r) == multiset(s) + multiset{x}
    ensures forall y :: y in r <==> y == x || y in s
  {
    if |s| == 0 then [x]
    else if LessOrEqual(x, s[0]) then [x] + s
    else
      assert s == [s[0]] + s[1..];
      var rest := Insert(x, s[1..]);
      assert forall y :: y in rest ==> LessOrEqual(s[0], y);
      [s[0]] + rest
  }

  /** `Vec::sort` on the derived order (any correct sort gives the same result on a total order). */
  function Sort(s: seq<RGB>): (r: seq<RGB>)
    ensures Sorted(r) && multiset(r) == multiset(s)
  {
    if |s| == 0 then []
    else
      assert s == [s[0]] + s[1..];
      Insert(s[0], Sort(s[1..]))
  }

  /** `Vec::dedup`: of each run of equal neighbours, one element is kept. */
  function Dedup(s: seq<RGB>): (r: seq<RGB>)
    ensures forall x :: x in r <==> x in s
    ensures |s| > 0 ==> |r| > 0 && r[0] == s[0]
    ensures Sorted(s) ==> StrictlyIncreasing(r)
  {
    if |s| <= 1 then s
    else if s[0] == s[1] then Dedup(s[1..])
    else
      var rest := Dedup(s[1..]);
      assert forall x :: x in s <==> x == s[0] || x in s[1..] by { assert s == [s[0]] + s[1..]; }
      if Sorted(s) then
        assert forall x :: x in rest ==> Less(s[0], x) by {
          forall x | x in rest ensures Less(s[0], x) {
            var k :| 1 <= k < |s| && s[k] == x;
            assert LessOrEqual(s[0], s[1]) && LessOrEqual(s[1], s[k]);
            LessIsStrictTotalOrder(s[0], s[1], s[k]);
          }
        }
        [s[0]] + rest
      else [s[0]] + rest
  }

  /** The palette of a sequence of pixels: sorted, then deduplicated. */
  function PaletteOf(pixels: seq<RGB>): (p: seq<RGB>)
    ensures StrictlyIncreasing(p)
    ensures forall c :: c in p <==> c in pixels
  {
    assert forall c :: c in Sort(pixels) <==> c in multiset(Sort(pixels));
    Dedup(Sort(pixels))
  }

  /** `build_color_palette` over `image_data.iter()`. */
  function BuildColorPalette(image: seq<seq<RGB>>): (palette: seq<RGB>)
    ensures StrictlyIncreasing(palette)
    ensures forall c :: c in palette <==> c in Flatten(image)
  {
    PaletteOf(Flatten(image))
  }

  /** The palette is strictly increasing and holds exactly the colours of the image. */
  lemma PaletteContents(image: seq<seq<RGB>>, h: nat, w: nat)
    requires IsGrid(image, h, w)
    ensures StrictlyIncreasing(BuildColorPalette(image))
    ensures forall c :: c in BuildColorPalette(image) <==> exists i, j :: 0 <= i < h && 0 <= j < w && image[i][j] == c
  {
    var pixels := Flatten(image);
    forall c ensures c in BuildColorPalette(image) <==> exists i, j :: 0 <= i < h && 0 <= j < w && image[i][j] == c {
      FlattenContains(image, h, w, c);
    }
  }

  /** Two strictly increasing sequences with the same elements are equal. */
  lemma {:induction false} StrictlyIncreasingUnique(a: seq<RGB>, b: seq<RGB>)
    requires StrictlyIncreasing(a) && StrictlyIncreasing(b)
    requires forall x :: x in a <==> x in b
    ensures a == b
  {
    if |a| > 0 {
      assert a[0] in b;
    }
    if |b| > 0 {
      assert b[0] in a;
    }
    if |a| > 0 {
      var k :| 0 <= k < |b| && b[k] == a[0];
      var m :| 0 <= m < |a| && a[m] == b[0];
      assert a[0] == b[0] by {
        if k > 0 && m > 0 {
          LessIsStrictTotalOrder(a[0], b[0], a[0]);
        }
      }
      forall x ensures x in a[1..] <==> x in b[1..] {
        if x in a[1..] {
          var i :| 1 <= i < |a| && a[i] == x;
          LessIsStrictTotalOrder(a[0], x, a[0]);
          assert x in b;
          var j :| 0 <= j < |b| && b[j] == x;
          assert j != 0;
          assert b[1..][j - 1] == x;
        }
        if x in b[1..] {
          var j :| 1 <= j < |b| && b[j] == x;
          LessIsStrictTotalOrder(b[0], x, b[0]);
          assert x in a;
          var i :| 0 <= i < |a| && a[i] == x;
          assert i != 0;
          assert a[1..][i - 1] == x;
        }
      }
      StrictlyIncreasingUnique(a[1..], b[1..]);
      assert a == [a[0]] + a[1..] && b == [b[0]] + b[1..];
    }
  }

  /** The palette depends only on the multiset of colours, not on where they occur. */
  lemma PaletteOrderIndependent(p: seq<RGB>, q: seq<RGB>)
    requires multiset(p) == multiset(q)
    ensures PaletteOf(p) == PaletteOf(q)
  {
    assert forall x :: x in p <==> x in multiset(p);
    assert forall x :: x in q <==> x in multiset(q);
    StrictlyIncreasingUnique(PaletteOf(p), PaletteOf(q));
  }

  /** Building a palette from a palette changes nothing. */
  lemma PaletteIdempotent(p: seq<RGB>)
    ensures PaletteOf(PaletteOf(p)) == PaletteOf(p)
  {
    var once := PaletteOf(p);
    StrictlyIncreasingUnique(PaletteOf(once), once);
  }

  // ---------------------------------------------------------------------
  // The state table.

  /** A `bh`-by-`bw` sub-grid of the seed image. */
  type Block = seq<seq<RGB>>

  /** The window whose top-left pixel is (i, j). */
  function Window(image: seq<seq<RGB>>, h: nat, w: nat, i: nat, j: nat, bh: nat, bw: nat): (b: Block)
    requires IsGrid(image, h, w) && i + bh <= h && j + bw <= w
    ensures IsGrid(b, bh, bw)
  {
    seq(bh, a requires 0 <= a < bh => image[i + a][j..j + bw])
  }

  ghost predicate IsWindowOf(image: seq<seq<RGB>>, h: nat, w: nat, bh: nat, bw: nat, b: Block)
    requires IsGrid(image, h, w)
  {
    exists i: nat, j: nat :: i + bh <= h && j + bw <= w && b == Window(image, h, w, i, j, bh, bw)
  }

  /** The windows of row `i`, from column `j` on. */
  function RowWindows(image: seq<seq<RGB>>, h: nat, w: nat, i: nat, j: nat, bh: nat, bw: nat): (ws: seq<Block>)
    requires IsGrid(image, h, w) && i + bh <= h && bw <= w
    ensures |ws| == if j <= w - bw then w - bw + 1 - j else 0
    ensures forall k :: 0 <= k < |ws| ==> IsWindowOf(image, h, w, bh, bw, ws[k])
    decreases w - j
  {
    if j > w - bw then []
    else [Window(image, h, w, i, j, bh, bw)] + RowWindows(image, h, w, i, j + 1, bh, bw)
  }

  /** The windows whose top row is `i` or later, in row-major order of their origin. */
  function WindowsFrom(image: seq<seq<RGB>>, h: nat, w: nat, i: nat, bh: nat, bw: nat): (ws: seq<Block>)
    requires IsGrid(image, h, w) && bh <= h && bw <= w
    ensures |ws| == if i <= h - bh then (h - bh + 1 - i) * (w - bw + 1) else 0
    ensures forall k :: 0 <= k < |ws| ==> IsWindowOf(image, h, w, bh, bw, ws[k])
    decreases h - i
  {
    if i > h - bh then []
    else
      var rest := WindowsFrom(image, h, w, i + 1, bh, bw);
      assert (h - bh + 1 - i) * (w - bw + 1) == (w - bw + 1) + (h - bh - i) * (w - bw + 1);
      RowWindows(image, h, w, i, 0, bh, bw) + rest
  }

  /**
   * `image_data.windows(block_dims)`: every `bh`-by-`bw` window with stride 1,
   * none when the block does not fit.
   */
  function Windows(image: seq<seq<RGB>>, h: nat, w: nat, bh: nat, bw: nat): (ws: seq<Block>)
    requires IsGrid(image, h, w)
    ensures |ws| == if bh <= h && bw <= w then (h - bh + 1) * (w - bw + 1) else 0
    ensures forall k :: 0 <= k < |ws| ==> IsWindowOf(image, h, w, bh, bw, ws[k])
  {
    if bh <= h && bw <= w then WindowsFrom(image, h, w, 0, bh, bw) else []
  }

  /** Row `i`'s windows from column `j` on: entry `k - j` has its origin at `(i, k)`. */
  lemma {:induction false} RowWindowsAt(image: seq<seq<RGB>>, h: nat, w: nat, i: nat, j: nat, bh: nat, bw: nat)
    requires IsGrid(image, h, w) && i + bh <= h && bw <= w
    ensures forall k: nat :: j <= k && k + bw <= w ==>
      RowWindows(image, h, w, i, j, bh, bw)[k - j] == Window(image, h, w, i, k, bh, bw)
    decreases w - j
  {
    if j <= w - bw {
      RowWindowsAt(image, h, w, i, j + 1, bh, bw);
    }
  }

  /** The windows from row `i` on: the entry `d * (w - bw + 1) + b` has its origin at `(i + d, b)`. */
  lemma {:induction false} WindowsFromAt(image: seq<seq<RGB>>, h: nat, w: nat, i: nat, bh: nat, bw: nat, d: nat, b: nat)
    requires IsGrid(image, h, w) && bh <= h && bw <= w
    requires i + d + bh <= h && b + bw <= w
    ensures Position(d, b, w, bw) < |WindowsFrom(image, h, w, i, bh, bw)|
    ensures WindowsFrom(image, h, w, i, bh, bw)[Position(d, b, w, bw)] == Window(image, h, w, i + d, b, bh, bw)
    decreases d
  {
    var n := w - bw + 1;
    var row := RowWindows(image, h, w, i, 0, bh, bw);
    var rest := WindowsFrom(image, h, w, i + 1, bh, bw);
    assert WindowsFrom(image, h, w, i, bh, bw) == row + rest;
    if d == 0 {
      RowWindowsAt(image, h, w, i, 0, bh, bw);
      assert Position(d, b, w, bw) == b;
    } else {
      WindowsFromAt(image, h, w, i + 1, bh, bw, d - 1, b);
      NextRowPosition(d, b, w, bw);
    }
  }

  /** The flat position of origin `(i, j)` when every row holds `w - bw + 1` windows. */
  function Position(i: nat, j: nat, w: nat, bw: nat): nat
    requires bw <= w
  {
    i * (w - bw + 1) + j
  }

  lemma NextRowPosition(d: nat, b: nat, w: nat, bw: nat)
    requires d > 0 && bw <= w
    ensures Position(d, b, w, bw) == (w - bw + 1) + Position(d - 1, b, w, bw)
  {
  }

  /**
   * The stride-1 scan in row-major order of origin: every origin `(i, j)`
   * has its own window, at position `i * (w - bw + 1) + j`.
   */
  lemma WindowsAt(image: seq<seq<RGB>>, h: nat, w: nat, bh: nat, bw: nat)
    requires IsGrid(image, h, w)
    ensures forall i: nat, j: nat :: i + bh <= h && j + bw <= w ==>
      Position(i, j, w, bw) < |Windows(image, h, w, bh, bw)|
    ensures forall i: nat, j: nat :: i + bh <= h && j + bw <= w ==>
      Windows(image, h, w, bh, bw)[Position(i, j, w, bw)] == Window(image, h, w, i, j, bh, bw)
  {
    forall i: nat, j: nat | i + bh <= h && j + bw <= w
      ensures Position(i, j, w, bw) < |Windows(image, h, w, bh, bw)|
      && Windows(image, h, w, bh, bw)[Position(i, j, w, bw)] == Window(image, h, w, i, j, bh, bw)
    {
      WindowsFromAt(image, h, w, 0, bh, bw, i, j);
    }
  }

  /** How many times `x` occurs in `s`. */
  ghost function Occurrences<T>(s: seq<T>, x: T): nat {
    if |s| == 0 then 0 else Occurrences(s[..|s| - 1], x) + (if s[|s| - 1] == x then 1 else 0)
  }

  lemma {:induction false} OccurrencesPositive<T>(s: seq<T>, x: T)
    ensures Occurrences(s, x) > 0 <==> x in s
  {
    if |s| > 0 {
      OccurrencesPositive(s[..|s| - 1], x);
      assert s == s[..|s| - 1] + [s[|s| - 1]];
    }
  }

  /**
   * What the state table must be for a list of windows: one entry per
   * distinct window, each with the number of times it occurs; in any order.
   */
  ghost predicate IsFrequencyTable(table: seq<(Block, nat)>, ws: seq<Block>) {
    && (forall i, j :: 0 <= i < j < |table| ==> table[i].0 != table[j].0)
    && (forall i :: 0 <= i < |table| ==> table[i].0 in ws && table[i].1 >= 1 && table[i].1 == Occurrences(ws, table[i].0))
    && (forall b :: b in ws ==> exists i :: 0 <= i < |table| && table[i].0 == b)
  }

  /**
   * `build_block_frequency_map`: count the windows in a map, then collect
   * the map's entries in whatever order its iteration yields them.
   */
  method BuildBlockFrequencyMap(image: seq<seq<RGB>>, h: nat, w: nat, blockDims: (nat, nat))
    returns (states: seq<(Block, nat)>)
    requires IsGrid(image, h, w)
    ensures IsFrequencyTable(states, Windows(image, h, w, blockDims.0, blockDims.1))
  {
    var ws := Windows(image, h, w, blockDims.0, blockDims.1);
    var counts := CountBlocks(ws);
    states := CollectCounts(counts);
    forall i | 0 <= i < |states| ensures states[i].1 >= 1 {
      OccurrencesPositive(ws, states[i].0);
    }
  }

  /** The counting loop: each window adds one to its block's count, starting from zero on first sight. */
  method CountBlocks(ws: seq<Block>) returns (counts: map<Block, nat>)
    ensures forall b :: b in counts <==> b in ws
    ensures forall b :: b in counts ==> counts[b] == Occurrences(ws, b)
  {
    counts := map[];
    for k := 0 to |ws|
      invariant forall b :: b in counts <==> b in ws[..k]
      invariant forall b :: b in counts ==> counts[b] == Occurrences(ws[..k], b)
    {
      var block := ws[k];
      var count := if block in counts then counts[block] else 0;
      assert ws[..k + 1][..k] == ws[..k];
      assert forall b :: b in ws[..k + 1] <==> b in ws[..k] || b == block by {
        assert ws[..k + 1] == ws[..k] + [block];
      }
      OccurrencesPositive(ws[..k], block);
      counts := counts[block := count + 1];
    }
    assert ws[..|ws|] == ws;
  }

  /** `block_counts.into_iter().collect()`: the entries, in no fixed order. */
  method CollectCounts(counts: map<Block, nat>) returns (entries: seq<(Block, nat)>)
    ensures forall i, j :: 0 <= i < j < |entries| ==> entries[i].0 != entries[j].0
    ensures forall i :: 0 <= i < |entries| ==> entries[i].0 in counts && entries[i].1 == counts[entries[i].0]
    ensures forall b :: b in counts ==> exists i :: 0 <= i < |entries| && entries[i].0 == b
  {
    entries := [];
    var rest := counts;
    while rest != map[]
      invariant rest.Keys <= counts.Keys && forall b :: b in rest ==> rest[b] == counts[b]
      invariant forall i, j :: 0 <= i < j < |entries| ==> entries[i].0 != entries[j].0
      invariant forall i :: 0 <= i < |entries| ==> entries[i].0 in counts && entries[i].0 !in rest && entries[i].1 == counts[entries[i].0]
      invariant forall b :: b in counts ==> b in rest || exists i :: 0 <= i < |entries| && entries[i].0 == b
      decreases |rest|
    {
      var b :| b in rest;
      ghost var before := entries;
      entries := entries + [(b, rest[b])];
      rest := rest - {b};
      assert entries[|before|].0 == b;
      forall c | c in counts && c !in rest ensures exists i :: 0 <= i < |entries| && entries[i].0 == c {
        if c == b {
          assert entries[|before|].0 == c;
        } else {
          var i :| 0 <= i < |before| && before[i].0 == c;
          assert entries[i].0 == c;
        }
      }
    }
  }

  function SumCounts(table: seq<(Block, nat)>): nat {
    if |table| == 0 then 0 else table[0].1 + SumCounts(table[1..])
  }

  /** The summed occurrences, in `s`, of each of `keys`. */
  ghost function SumOccurrences<T>(s: seq<T>, keys: seq<T>): nat {
    if |keys| == 0 then 0 else Occurrences(s, keys[0]) + SumOccurrences(s, keys[1..])
  }

  lemma {:induction false} SumOccurrencesSnoc<T>(s: seq<T>, x: T, keys: seq<T>)
    ensures SumOccurrences(s + [x], keys) == SumOccurrences(s, keys) + Occurrences(keys, x)
  {
    if |keys| > 0 {
      SumOccurrencesSnoc(s, x, keys[1..]);
      assert (s + [x])[..|s + [x]| - 1] == s;
      OccurrencesFront(keys, x);
    }
  }

  lemma {:induction false} OccurrencesFront<T>(s: seq<T>, x: T)
    requires |s| > 0
    ensures Occurrences(s, x) == (if s[0] == x then 1 else 0) + Occurrences(s[1..], x)
  {
    if |s| > 1 {
      OccurrencesFront(s[..|s| - 1], x);
      assert s[..|s| - 1][1..] == s[1..][..|s[1..]| - 1];
    }
  }

  /** A key listed once among distinct keys occurs once. */
  lemma {:induction false} OccurrencesDistinct<T>(keys: seq<T>, x: T)
    requires forall i, j :: 0 <= i < j < |keys| ==> keys[i] != keys[j]
    ensures Occurrences(keys, x) == if x in keys then 1 else 0
  {
    if |keys| > 0 {
      var init := keys[..|keys| - 1];
      OccurrencesDistinct(init, x);
      assert keys == init + [keys[|keys| - 1]];
    }
  }

  /** Every element of `s` is counted once when the distinct keys cover `s`. */
  lemma {:induction false} SumOccurrencesCover<T>(s: seq<T>, keys: seq<T>)
    requires forall i, j :: 0 <= i < j < |keys| ==> keys[i] != keys[j]
    requires forall x :: x in s ==> x in keys
    ensures SumOccurrences(s, keys) == |s|
  {
    if |s| == 0 {
      SumOccurrencesEmpty(s, keys);
    } else {
      var init := s[..|s| - 1];
      var last := s[|s| - 1];
      assert s == init + [last];
      SumOccurrencesCover(init, keys);
      SumOccurrencesSnoc(init, last, keys);
      OccurrencesDistinct(keys, last);
    }
  }

  lemma {:induction false} SumOccurrencesEmpty<T>(s: seq<T>, keys: seq<T>)
    requires |s| == 0
    ensures SumOccurrences(s, keys) == 0
  {
    if |keys| > 0 {
      SumOccurrencesEmpty(s, keys[1..]);
    }
  }

  function Keys(table: seq<(Block, nat)>): (keys: seq<Block>)
    ensures |keys| == |table| && forall i :: 0 <= i < |table| ==> keys[i] == table[i].0
  {
    seq(|table|, i requires 0 <= i < |table| => table[i].0)
  }

  lemma {:induction false} SumCountsIsOccurrences(table: seq<(Block, nat)>, ws: seq<Block>)
    requires forall i :: 0 <= i < |table| ==> table[i].1 == Occurrences(ws, table[i].0)
    ensures SumCounts(table) == SumOccurrences(ws, Keys(table))
  {
    if |table| > 0 {
      SumCountsIsOccurrences(table[1..], ws);
      assert Keys(table)[1..] == Keys(table[1..]);
    }
  }

  /** The counts of a frequency table add up to the number of windows. */
  lemma FrequencyTableTotal(table: seq<(Block, nat)>, ws: seq<Block>)
    requires IsFrequencyTable(table, ws)
    ensures SumCounts(table) == |ws|
  {
    SumCountsIsOccurrences(table, ws);
    var keys := Keys(table);
    forall x | x in ws ensures x in keys {
      var i :| 0 <= i < |table| && table[i].0 == x;
      assert keys[i] == x;
    }
    SumOccurrencesCover(ws, keys);
  }

  /**
   * The state table built from an `h`-by-`w` seed counts
   * `(h - bh + 1) * (w - bw + 1)` windows when the block fits, and is empty otherwise.
   */
  lemma StateTableTotal(image: seq<seq<RGB>>, h: nat, w: nat, bh: nat, bw: nat, table: seq<(Block, nat)>)
    requires IsGrid(image, h, w)
    requires IsFrequencyTable(table, Windows(image, h, w, bh, bw))
    ensures SumCounts(table) == if bh <= h && bw <= w then (h - bh + 1) * (w - bw + 1) else 0
    ensures !(bh <= h && bw <= w) ==> table == []
  {
    FrequencyTableTotal(table, Windows(image, h, w, bh, bw));
  }

  /** Every origin's window has an entry in the state table, counted at least once. */
  lemma EveryOriginCounted(image: seq<seq<RGB>>, h: nat, w: nat, bh: nat, bw: nat, table: seq<(Block, nat)>, i: nat, j: nat)
    requires IsGrid(image, h, w)
    requires IsFrequencyTable(table, Windows(image, h, w, bh, bw))
    requires i + bh <= h && j + bw <= w
    ensures exists k :: 0 <= k < |table| && table[k].0 == Window(image, h, w, i, j, bh, bw) && table[k].1 >= 1
  {
    WindowsAt(image, h, w, bh, bw);
    var ws := Windows(image, h, w, bh, bw);
    assert ws[Position(i, j, w, bw)] in ws;
  }

  /** A block as large as the seed has a single window: the table has one entry, counted once. */
  lemma WholeSeedBlock(image: seq<seq<RGB>>, h: nat, w: nat, table: seq<(Block, nat)>)
    requires IsGrid(image, h, w)
    requires IsFrequencyTable(table, Windows(image, h, w, h, w))
    ensures |table| == 1 && table[0].1 == 1
  {
    var ws := Windows(image, h, w, h, w);
    assert |ws| == 1;
    assert ws[0] in ws;
    var i :| 0 <= i < |table| && table[i].0 == ws[0];
    FrequencyTableTotal(table, ws);
    SumCountsAtLeastLength(table);
    assert table[0].1 + SumCounts(table[1..]) == 1;
  }

  lemma {:induction false} SumCountsAtLeastLength(table: seq<(Block, nat)>)
    requires forall i :: 0 <= i < |table| ==> table[i].1 >= 1
    ensures SumCounts(table) >= |table|
  {
    if |table| > 0 {
      SumCountsAtLeastLength(table[1..]);
    }
  }
}
