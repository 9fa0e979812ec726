/**
  The padded spin lattice shared by the four samplers.

  An image of `height` rows and `width` columns is stored as a flat array with a
  one-cell border around it: the padded grid has `height + 2` rows of
  `W = width + 2` cells, and the cell in padded row `i`, column `j` sits at linear
  index `i * W + j`. Interior sites are those with `1 <= i <= height` and
  `1 <= j <= width`; the samplers never write the border.
*/
module Lattice {

  /** Interior dimensions of the image (the border is not counted). */
  datatype Grid = Grid(height: nat, width: nat) {

    /** Row stride of the padded lattice. */
    function W(): nat { width + 2 }

    /** Number of cells of the padded lattice, border included. */
    function Size(): nat { (height + 2) * (width + 2) }

    /** Number of interior sites. */
    function Sites(): nat { height * width }

    /** `k` addresses a cell of the padded lattice that is not on the border. */
    predicate IsInterior(k: int) {
      0 <= k < Size() && 1 <= k / W() <= height && 1 <= k % W() <= width
    }

    /** Linear index of the interior cell in padded row `i`, column `j`. */
    function Cell(i: nat, j: nat): (k: nat)
      requires 1 <= i <= height && 1 <= j <= width
      ensures IsInterior(k)
      ensures k / W() == i && k % W() == j
    {
      DivMod(i * W() + j, W(), i, j);
      MulLe(i, height + 1, W());
      i * W() + j
    }
  }

  /** The cells an interior site reads as neighbours: left, right, up, down and the four diagonals. */
  function Offsets(W: int): seq<int> {
    [-1, 1, -W, W, -W - 1, W + 1, -W + 1, W - 1]
  }

  // ---------------------------------------------------------------- arithmetic helpers

  lemma MulLe(a: int, b: int, c: nat)
    requires a <= b
    ensures a * c <= b * c
  {
  }

  /** Quotient and remainder of `i * W + j` when `0 <= j < W`. */
  lemma DivMod(k: int, W: int, i: int, j: int)
    requires W > 0 && 0 <= j < W && k == i * W + j
    ensures k / W == i && k % W == j
  {
    var q, r := k / W, k % W;
    assert k == q * W + r;
    if q < i {
      MulLe(q + 1, i, W);
      assert false;
    } else if q > i {
      MulLe(i + 1, q, W);
      assert false;
    }
  }

  /** Every interior cell is `i * W + j` for its own row `i` and column `j`. */
  lemma InteriorIsCell(g: Grid, k: int)
    requires g.IsInterior(k)
    ensures k == g.Cell(k / g.W(), k % g.W())
  {
  }

  /**
    All eight neighbours of an interior site lie inside the padded lattice,
    so the samplers' neighbour reads never leave the array.
  */
  lemma NeighboursInBounds(g: Grid, k: int)
    requires g.IsInterior(k)
    ensures forall d :: d in Offsets(g.W()) ==> 0 <= k + d < g.Size()
    ensures 0 <= k - g.W() - 1 && k + g.W() + 1 < g.Size()
  {
    var W, i, j := g.W(), k / g.W(), k % g.W();
    assert k == i * W + j;
    MulLe(1, i, W);
    assert W + 1 <= k;
    MulLe(i + 1, g.height + 1, W);
    assert (i + 1) * W == i * W + W;
    assert (g.height + 1) * W + W == g.Size();
    assert k + W + 1 < g.Size();
    forall d | d in Offsets(W)
      ensures 0 <= k + d < g.Size()
    {
      assert -W - 1 <= d <= W + 1;
    }
  }

  // ---------------------------------------------------------------- the interior index list

  /** Padded row `i`, columns `1 .. width`, in increasing order. */
  function RowSites(g: Grid, i: nat): seq<int> {
    seq(g.width, j => i * g.W() + j + 1)
  }

  /** The interior sites of padded rows `1 .. n`, row by row. */
  function RowsUpTo(g: Grid, n: nat): seq<int>
    requires n <= g.height
  {
    if n == 0 then [] else RowsUpTo(g, n - 1) + RowSites(g, n)
  }

  predicate Distinct(s: seq<int>) {
    forall a, b :: 0 <= a < b < |s| ==> s[a] != s[b]
  }

  lemma RowSitesShape(g: Grid, i: nat)
    requires 1 <= i <= g.height
    ensures |RowSites(g, i)| == g.width
    ensures Distinct(RowSites(g, i))
    ensures forall x :: x in RowSites(g, i) <==> g.IsInterior(x) && x / g.W() == i
  {
    var r := RowSites(g, i);
    forall x | x in r ensures g.IsInterior(x) && x / g.W() == i {
      var j :| 0 <= j < g.width && r[j] == x;
      assert x == g.Cell(i, j + 1);
    }
    forall x | g.IsInterior(x) && x / g.W() == i ensures x in r {
      InteriorIsCell(g, x);
      assert r[x % g.W() - 1] == x;
    }
  }

  lemma {:induction false} RowsUpToShape(g: Grid, n: nat)
    requires n <= g.height
    ensures |RowsUpTo(g, n)| == n * g.width
    ensures Distinct(RowsUpTo(g, n))
    ensures forall x :: x in RowsUpTo(g, n) <==> g.IsInterior(x) && x / g.W() <= n
  {
    if n > 0 {
      RowsUpToShape(g, n - 1);
      RowSitesShape(g, n);
      var a, b := RowsUpTo(g, n - 1), RowSites(g, n);
      assert RowsUpTo(g, n) == a + b;
      forall p, q | 0 <= p < q < |a + b| ensures (a + b)[p] != (a + b)[q] {
        if q >= |a| && p < |a| {
          assert a[p] in a && b[q - |a|] in b;
        }
      }
    }
  }

  /**
    The interior sites in the order the source's nested loops produce them
    (rows top to bottom, columns left to right). It holds each interior site
    exactly once and nothing else.
  */
  function Interior(g: Grid): (r: seq<int>)
    ensures |r| == g.Sites()
    ensures forall x :: x in r <==> g.IsInterior(x)
  {
    RowsUpToShape(g, g.height);
    RowsUpTo(g, g.height)
  }

  /** No interior site appears twice in the list. */
  lemma InteriorDistinct(g: Grid)
    ensures Distinct(Interior(g))
  {
    RowsUpToShape(g, g.height);
  }

  /**
    Builds the list of interior linear indices with the source's nested loops:
    a running counter `t` over rows `1 .. H-2` and columns `1 .. W-2`.
  */
  method ComputeIndices(g: Grid) returns (indices: array<int>)
    ensures fresh(indices)
    ensures indices[..] == Interior(g)
  {
    indices := new int[g.Sites()];
    var W := g.W();
    var H := g.height + 2;
    var t := 0;
    var i := 1;
    while i < H - 1
      invariant 1 <= i <= H - 1
      invariant t == (i - 1) * g.width
      invariant indices[..t] == RowsUpTo(g, i - 1)
    {
      var base := i * W;
      var j := 1;
      MulLe(i, g.height, g.width);
      while j < W - 1
        invariant 1 <= j <= W - 1
        invariant t == (i - 1) * g.width + (j - 1)
        invariant indices[..t] == RowsUpTo(g, i - 1) + RowSites(g, i)[..j - 1]
      {
        indices[t] := base + j;
        assert RowSites(g, i)[..j] == RowSites(g, i)[..j - 1] + [base + j];
        t := t + 1;
        j := j + 1;
      }
      assert RowSites(g, i)[..g.width] == RowSites(g, i);
      i := i + 1;
    }
    assert indices[..] == indices[..t];
  }

  // ---------------------------------------------------------------- cropping the border

  /** The interior as a `height x width` image: `CropOf(s, g)[r][c]` is padded cell `(r+1, c+1)`. */
  function CropOf(s: seq<int>, g: Grid): seq<seq<int>>
    requires |s| == g.Size()
  {
    seq(g.height, r requires 0 <= r < g.height =>
      seq(g.width, c requires 0 <= c < g.width => s[g.Cell(r + 1, c + 1)]))
  }

  /** Output pixel `(r, c)` of the crop is the padded cell `(r+1) * W + (c+1)`. */
  lemma CropAt(s: seq<int>, g: Grid, r: nat, c: nat)
    requires |s| == g.Size() && r < g.height && c < g.width
    ensures |CropOf(s, g)| == g.height && |CropOf(s, g)[r]| == g.width
    ensures CropOf(s, g)[r][c] == s[(r + 1) * g.W() + (c + 1)]
  {
  }

  /**
    The crop is an exact re-indexing of the interior: two lattices have the same
    crop exactly when they agree on every interior cell (the border is ignored).
  */
  lemma CropDeterminesInterior(s: seq<int>, t: seq<int>, g: Grid)
    requires |s| == |t| == g.Size()
    ensures CropOf(s, g) == CropOf(t, g) <==> forall k :: g.IsInterior(k) ==> s[k] == t[k]
  {
    if CropOf(s, g) == CropOf(t, g) {
      forall k | g.IsInterior(k) ensures s[k] == t[k] {
        InteriorIsCell(g, k);
        var r, c := k / g.W() - 1, k % g.W() - 1;
        assert CropOf(s, g)[r][c] == CropOf(t, g)[r][c];
      }
    }
    if forall k :: g.IsInterior(k) ==> s[k] == t[k] {
      forall r | 0 <= r < g.height ensures CropOf(s, g)[r] == CropOf(t, g)[r] {
      }
    }
  }

  /**
    Copies the interior of `sample` into a zero-filled `H x W` array with the
    source's nested loops, then drops the border rows and columns.
  */
  method Crop(sample: array<int>, g: Grid) returns (out: seq<seq<int>>)
    requires sample.Length == g.Size()
    ensures out == CropOf(sample[..], g)
  {
    var H, W := g.height + 2, g.W();
    var full := new int[H, W]((_, _) => 0);
    var i := 1;
    while i < H - 1
      invariant 1 <= i <= H - 1
      invariant forall a, b :: 1 <= a < i && 1 <= b <= g.width ==> full[a, b] == sample[g.Cell(a, b)]
    {
      var base := i * W;
      var j := 1;
      while j < W - 1
        invariant 1 <= j <= W - 1
        invariant forall a, b :: 1 <= a < i && 1 <= b <= g.width ==> full[a, b] == sample[g.Cell(a, b)]
        invariant forall b :: 1 <= b < j ==> full[i, b] == sample[g.Cell(i, b)]
      {
        assert base + j == g.Cell(i, j);
        full[i, j] := sample[base + j];
        j := j + 1;
      }
      i := i + 1;
    }
    out := seq(g.height, r requires 0 <= r < g.height reads full =>
      seq(g.width, c requires 0 <= c < g.width reads full => full[r + 1, c + 1]));
    forall r | 0 <= r < g.height ensures out[r] == CropOf(sample[..], g)[r] {
      assert forall c :: 0 <= c < g.width ==> out[r][c] == full[r + 1, c + 1];
    }
  }
}
