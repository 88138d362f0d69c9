// Flat numbering of a W x H x D voxel grid.  The grid builders number cells
// with a running counter inside nested loops whose innermost loop runs over
// x, then y, then z, so cell (x, y, z) gets x + W * (y + H * z).  The same
// arithmetic, with the components read in the other order, numbers the cores
// and sub-cells of the two-level grids.  CalculationHelper.FlattenIndex and
// CalculationHelper.CheckIfIndexValid, which the com.tecmaid neighbour code
// calls, are not part of this model; the two below are reconstructed to
// agree with that numbering.

module CellIndex {
  import opened Vectors

  /** Flat index of a 3D cell index: x varies fastest, then y, then z. */
  function FlattenIndex(i: Int3, w: int, h: int): int
  {
    i.x + w * (i.y + h * i.z)
  }

  /** A 3D cell index lies inside a W x H x D grid. */
  predicate CheckIfIndexValid(i: Int3, w: int, h: int, d: int)
  {
    0 <= i.x < w && 0 <= i.y < h && 0 <= i.z < d
  }

  /** Flat index back to 3D: (i mod W, (i div W) mod H, i div (W * H)). */
  function Unflatten(index: int, w: int, h: int): Int3
    requires 0 <= index && 0 < w && 0 < h
  {
    Int3(index % w, (index / w) % h, index / (w * h))
  }

  /** Quotient and remainder are determined by any decomposition n == q * d + r with 0 <= r < d. */
  lemma DivModUnique(n: int, d: int, q: int, r: int)
    requires 0 < d && 0 <= r < d && n == q * d + r
    ensures n / d == q && n % d == r
  {
    var q0, r0 := n / d, n % d;
    assert n == q0 * d + r0;
    if q0 < q {
      assert (q - q0) * d >= d by { MulAtLeast(q - q0, d); }
      assert false;
    } else if q < q0 {
      assert (q0 - q) * d >= d by { MulAtLeast(q0 - q, d); }
      assert false;
    }
  }

  lemma MulAtLeast(a: int, d: int)
    requires 1 <= a && 0 < d
    ensures a * d >= d
  {
  }

  /** The product of three factors in reverse order. */
  lemma MulReverse(a: int, b: int, c: int)
    ensures a * b * c == c * b * a
  {
    assert a * b == b * a;
    assert (b * a) * c == c * (b * a);
    assert c * (b * a) == (c * b) * a;
  }

  lemma MulLeftMono(a: int, b: int, c: int)
    requires 0 <= a && b <= c
    ensures a * b <= a * c
  {
  }

  /** Every valid 3D index flattens into [0, W * H * D). */
  lemma FlattenInRange(i: Int3, w: int, h: int, d: int)
    requires CheckIfIndexValid(i, w, h, d)
    ensures 0 <= FlattenIndex(i, w, h) < w * h * d
  {
    var inner := i.y + h * i.z;
    MulLeftMono(h, i.z, d - 1);
    assert 0 <= inner <= h * d - 1;
    MulLeftMono(w, inner, h * d - 1);
    assert w * inner <= w * (h * d) - w;
    assert w * (h * d) == w * h * d;
  }

  /** Dividing by W and then by H is dividing by W * H. */
  lemma DivDiv(index: int, w: int, h: int)
    requires 0 <= index && 0 < w && 0 < h
    ensures (index / w) / h == index / (w * h)
    ensures (index / w) % h + h * (index / (w * h)) == index / w
  {
    var q1, r1 := index / w, index % w;
    var q2, r2 := q1 / h, q1 % h;
    assert index == q1 * w + r1;
    assert q1 == q2 * h + r2;
    MulLeftMono(w, r2, h - 1);
    assert index == q2 * (w * h) + (w * r2 + r1);
    assert 0 <= w * r2 + r1 < w * h;
    DivModUnique(index, w * h, q2, w * r2 + r1);
  }

  /** Flattening the decomposition gives the index back. */
  lemma FlattenUnflatten(index: int, w: int, h: int)
    requires 0 <= index && 0 < w && 0 < h
    ensures FlattenIndex(Unflatten(index, w, h), w, h) == index
  {
    DivDiv(index, w, h);
  }

  /** The decomposition of an index below W * H * D is a valid 3D index. */
  lemma UnflattenValid(index: int, w: int, h: int, d: int)
    requires 0 <= index < w * h * d && 0 < w && 0 < h
    ensures CheckIfIndexValid(Unflatten(index, w, h), w, h, d)
  {
    var q := index / (w * h);
    if q >= d {
      MulLeftMono(w * h, d, q);
      assert false;
    }
  }

  /** Decomposing the flat index of a valid 3D index gives it back. */
  lemma UnflattenFlatten(i: Int3, w: int, h: int, d: int)
    requires CheckIfIndexValid(i, w, h, d)
    ensures FlattenIndex(i, w, h) >= 0
    ensures Unflatten(FlattenIndex(i, w, h), w, h) == i
  {
    var n := FlattenIndex(i, w, h);
    FlattenInRange(i, w, h, d);
    DivModUnique(n, w, i.y + h * i.z, i.x);
    DivModUnique(i.y + h * i.z, h, i.z, i.y);
    DivDiv(n, w, h);
  }

  /** Distinct valid 3D indices have distinct flat indices. */
  lemma FlattenInjective(a: Int3, b: Int3, w: int, h: int, d: int)
    requires CheckIfIndexValid(a, w, h, d) && CheckIfIndexValid(b, w, h, d)
    requires FlattenIndex(a, w, h) == FlattenIndex(b, w, h)
    ensures a == b
  {
    UnflattenFlatten(a, w, h, d);
    UnflattenFlatten(b, w, h, d);
  }

  /** Distinct in-range flat indices have distinct decompositions. */
  lemma UnflattenInjective(i: int, j: int, w: int, h: int)
    requires 0 <= i && 0 <= j && 0 < w && 0 < h
    requires Unflatten(i, w, h) == Unflatten(j, w, h)
    ensures i == j
  {
    FlattenUnflatten(i, w, h);
    FlattenUnflatten(j, w, h);
  }

  /** The next row of a layer starts w cells further on. */
  lemma RowNext(y: int, z: int, w: int, h: int)
    ensures w * (y + h * z) + w == w * ((y + 1) + h * z)
  {
  }

  /** After the last row of layer z comes the first row of layer z + 1. */
  lemma LayerNext(z: int, w: int, h: int)
    ensures w * (h + h * z) == w * (h * (z + 1))
  {
    assert h + h * z == h * (z + 1);
  }

  /** After the last layer the counter equals the volume's size. */
  lemma VolumeEnd(w: int, h: int, d: int)
    ensures w * (h * d) == w * h * d
  {
  }

  /** A row of the grid fits below W * H * D. */
  lemma RowInRange(y: int, z: int, w: int, h: int, d: int)
    requires 0 <= w && 0 <= y < h && 0 <= z < d
    ensures 0 <= w * (y + h * z) && w * (y + h * z) + w <= w * h * d
  {
    MulLeftMono(h, z, d - 1);
    MulLeftMono(w, y + h * z, h * d - 1);
    MulLeftMono(w, 0, y + h * z);
    assert w * (h * d) == w * h * d;
  }
}
