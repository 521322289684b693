/** The mathematics every matrix-multiplication variant of the repository
    is proved against: square integer matrices as sequences of rows, the
    dot product summed in ascending k, the product, and the row-major
    flat layout used by caso3/mul_mat.c and caso1/procesos.c. */
module MatrixSpec {
  import opened Common

  /** An n-by-n matrix. */
  predicate IsSquare(m: seq<seq<int>>, n: nat)
  {
    |m| == n && forall i :: 0 <= i < n ==> |m[i]| == n
  }

  /** Every entry lies in [lo, hi]. */
  predicate InRange(m: seq<seq<int>>, n: nat, lo: int, hi: int)
    requires IsSquare(m, n)
  {
    forall i, j :: 0 <= i < n && 0 <= j < n ==> lo <= m[i][j] <= hi
  }

  /** The running sum of the C loops after k has taken the values
      0..upTo-1: A[i][0]*B[0][j] + ... + A[i][upTo-1]*B[upTo-1][j]. */
  function Dot(a: seq<seq<int>>, b: seq<seq<int>>, n: nat, i: nat, j: nat, upTo: nat): int
    requires IsSquare(a, n) && IsSquare(b, n) && i < n && j < n && upTo <= n
    decreases upTo
  {
    if upTo == 0 then 0 else Dot(a, b, n, i, j, upTo - 1) + a[i][upTo - 1] * b[upTo - 1][j]
  }

  /** Entry (i, j) of A*B. */
  function Entry(a: seq<seq<int>>, b: seq<seq<int>>, n: nat, i: nat, j: nat): int
    requires IsSquare(a, n) && IsSquare(b, n) && i < n && j < n
  {
    Dot(a, b, n, i, j, n)
  }

  function ProductRow(a: seq<seq<int>>, b: seq<seq<int>>, n: nat, i: nat): (row: seq<int>)
    requires IsSquare(a, n) && IsSquare(b, n) && i < n
    ensures |row| == n
  {
    seq(n, j requires 0 <= j < n => Entry(a, b, n, i, j))
  }

  /** The product A*B. */
  function Product(a: seq<seq<int>>, b: seq<seq<int>>, n: nat): (c: seq<seq<int>>)
    requires IsSquare(a, n) && IsSquare(b, n)
    ensures IsSquare(c, n)
    ensures forall i, j :: 0 <= i < n && 0 <= j < n ==> c[i][j] == Entry(a, b, n, i, j)
  {
    seq(n, i requires 0 <= i < n => ProductRow(a, b, n, i))
  }

  /** The n-by-n zero matrix. */
  function Zero(n: nat): (z: seq<seq<int>>)
    ensures IsSquare(z, n) && InRange(z, n, 0, 0)
  {
    seq(n, _ => seq(n, _ => 0))
  }

  /** The identity matrix. */
  function Identity(n: nat): (e: seq<seq<int>>)
    ensures IsSquare(e, n)
    ensures forall i, j :: 0 <= i < n && 0 <= j < n ==> e[i][j] == (if i == j then 1 else 0)
  {
    seq(n, i => seq(n, j => if i == j then 1 else 0))
  }

  /** A partial dot product against a column of the identity keeps the
      entries of the row up to the diagonal. */
  lemma {:induction false} DotIdentity(a: seq<seq<int>>, n: nat, i: nat, j: nat, upTo: nat)
    requires IsSquare(a, n) && i < n && j < n && upTo <= n
    ensures Dot(a, Identity(n), n, i, j, upTo) == (if j < upTo then a[i][j] else 0)
    decreases upTo
  {
    if upTo > 0 {
      DotIdentity(a, n, i, j, upTo - 1);
      assert Identity(n)[upTo - 1][j] == (if upTo - 1 == j then 1 else 0);
    }
  }

  /** Multiplying by the identity gives the matrix back: a sanity check that
      Entry sums the right products. */
  lemma ProductIdentity(a: seq<seq<int>>, n: nat)
    requires IsSquare(a, n)
    ensures Product(a, Identity(n), n) == a
  {
    var p := Product(a, Identity(n), n);
    forall i | 0 <= i < n
      ensures p[i] == a[i]
    {
      forall j | 0 <= j < n
        ensures p[i][j] == a[i][j]
      {
        DotIdentity(a, n, i, j, n);
      }
    }
  }

  /** A product of two factors of absolute value at most m has absolute
      value at most m*m. */
  lemma MulBound(x: int, y: int, m: int)
    requires 0 <= m && -m <= x <= m && -m <= y <= m
    ensures -(m * m) <= x * y <= m * m
  {
    var ax: nat := if x < 0 then -x else x;
    var ay: nat := if y < 0 then -y else y;
    MulLeRight(ax, m, ay);
    MulLeRight(ay, m, m);
    assert ax * ay == ay * ax;
    assert m * ay == ay * m;
    assert x * y == ax * ay || x * y == -(ax * ay);
  }

  /** Every running sum of the k loop is bounded by upTo*m*m when all
      entries are bounded by m. */
  lemma {:induction false} DotBound(a: seq<seq<int>>, b: seq<seq<int>>, n: nat, m: int, i: nat, j: nat, upTo: nat)
    requires IsSquare(a, n) && IsSquare(b, n) && i < n && j < n && upTo <= n
    requires 0 <= m && InRange(a, n, -m, m) && InRange(b, n, -m, m)
    ensures -(upTo * (m * m)) <= Dot(a, b, n, i, j, upTo) <= upTo * (m * m)
    decreases upTo
  {
    if upTo > 0 {
      DotBound(a, b, n, m, i, j, upTo - 1);
      MulBound(a[i][upTo - 1], b[upTo - 1][j], m);
      var mm := m * m;
      assert upTo * mm == (upTo - 1) * mm + mm;
    }
  }

  const Int32Min: int := -0x8000_0000
  const Int32Max: int := 0x7FFF_FFFF

  /** When n*m*m fits in a 32-bit int, no running sum of any variant
      overflows, so unbounded integers model the C `int` arithmetic exactly.
      Entries in [-50, 50] allow n up to 858993; entries in [1, 100] up to
      214748. */
  lemma RunningSumsFitInt32(a: seq<seq<int>>, b: seq<seq<int>>, n: nat, m: int)
    requires IsSquare(a, n) && IsSquare(b, n)
    requires 0 <= m && InRange(a, n, -m, m) && InRange(b, n, -m, m)
    requires n * (m * m) <= Int32Max
    ensures forall i, j, k :: 0 <= i < n && 0 <= j < n && 0 <= k <= n ==>
      Int32Min <= Dot(a, b, n, i, j, k) <= Int32Max
  {
    forall i, j, k | 0 <= i < n && 0 <= j < n && 0 <= k <= n
      ensures Int32Min <= Dot(a, b, n, i, j, k) <= Int32Max
    {
      DotBound(a, b, n, m, i, j, k);
      MulLeRight(k, n, m * m);
    }
  }

  // ---------------------------------------------------------------------
  // Row-major flat layout
  // ---------------------------------------------------------------------

  /** The flat index of entry (row, col): `row * size + col`, as in
      `get_element` and `flat[i*n + j]`. */
  function Idx(row: nat, col: nat, size: nat): nat
  {
    row * size + col
  }

  /** Row `row` occupies [row*size, row*size + size), inside the first
      `rows` rows when row < rows. */
  lemma RowInside(row: nat, rows: nat, size: nat)
    requires row < rows
    ensures row * size + size <= rows * size
  {
    MulLeRight(row + 1, rows, size);
  }

  /** Entry (i, j) of a row-major buffer holding `rows` rows of n:
      `get_element(matrix, i, j, size)`, `flat[i*n + j]`. */
  function At(x: seq<int>, n: nat, rows: nat, i: nat, j: nat): int
    requires |x| == rows * n && i < rows && j < n
  {
    RowInside(i, rows, n);
    x[Idx(i, j, n)]
  }

  /** Every entry of a k-row buffer has its flat index inside the buffer. */
  lemma IdxBelow(n: nat, k: nat)
    ensures forall i, j :: 0 <= i < k && 0 <= j < n ==> Idx(i, j, n) < k * n
  {
    forall i, j | 0 <= i < k && 0 <= j < n
      ensures Idx(i, j, n) < k * n
    {
      RowInside(i, k, n);
    }
  }

  /** Two entries never share a flat index. */
  lemma IdxInjective(r1: nat, c1: nat, r2: nat, c2: nat, size: nat)
    requires c1 < size && c2 < size
    requires Idx(r1, c1, size) == Idx(r2, c2, size)
    ensures r1 == r2 && c1 == c2
  {
    if r1 < r2 {
      RowInside(r1, r2, size);
    } else if r2 < r1 {
      RowInside(r2, r1, size);
    }
  }

  /** The first `rows` rows of m laid out one after the other. */
  function FlatRows(m: seq<seq<int>>, n: nat, rows: nat): (f: seq<int>)
    requires IsSquare(m, n) && rows <= n
    ensures |f| == rows * n
    decreases rows
  {
    if rows == 0 then [] else FlatRows(m, n, rows - 1) + m[rows - 1]
  }

  /** flattenMatrix: all n rows laid out row-major, entry (i, j) at
      i*n + j. */
  function Flatten(m: seq<seq<int>>, n: nat): (f: seq<int>)
    requires IsSquare(m, n)
    ensures |f| == n * n
  {
    FlatRows(m, n, n)
  }

  function UnflatRow(f: seq<int>, n: nat, i: nat): (row: seq<int>)
    requires |f| == n * n && i < n
    ensures |row| == n
  {
    RowInside(i, n, n);
    f[i * n..i * n + n]
  }

  /** unflattenMatrix: row i is f[i*n .. i*n + n). */
  function Unflatten(f: seq<int>, n: nat): (m: seq<seq<int>>)
    requires |f| == n * n
    ensures IsSquare(m, n)
  {
    seq(n, i requires 0 <= i < n => UnflatRow(f, n, i))
  }

  /** Row i sits at [i*n, i*n + n) of the layout of any rows > i. */
  lemma {:induction false} FlatRowsRow(m: seq<seq<int>>, n: nat, rows: nat, i: nat)
    requires IsSquare(m, n) && rows <= n && i < rows
    ensures i * n + n <= rows * n && FlatRows(m, n, rows)[i * n..i * n + n] == m[i]
    decreases rows
  {
    RowInside(i, rows, n);
    if i < rows - 1 {
      FlatRowsRow(m, n, rows - 1, i);
      RowInside(i, rows - 1, n);
      assert FlatRows(m, n, rows)[..(rows - 1) * n] == FlatRows(m, n, rows - 1);
    } else {
      assert FlatRows(m, n, rows)[(rows - 1) * n..] == m[rows - 1];
    }
  }

  /** The flat buffer holds entry (i, j) at Idx(i, j, n). */
  lemma FlattenAt(m: seq<seq<int>>, n: nat, i: nat, j: nat)
    requires IsSquare(m, n) && i < n && j < n
    ensures Idx(i, j, n) < n * n && Flatten(m, n)[Idx(i, j, n)] == m[i][j]
  {
    FlatRowsRow(m, n, n, i);
    assert Flatten(m, n)[i * n..i * n + n][j] == m[i][j];
  }

  /** Entry (i, j) of the unflattened matrix is f[Idx(i, j, n)]. */
  lemma UnflattenAt(f: seq<int>, n: nat, i: nat, j: nat)
    requires |f| == n * n && i < n && j < n
    ensures Idx(i, j, n) < n * n && Unflatten(f, n)[i][j] == f[Idx(i, j, n)]
  {
    RowInside(i, n, n);
  }

  /** unflattenMatrix(flattenMatrix(m)) == m. */
  lemma UnflattenFlatten(m: seq<seq<int>>, n: nat)
    requires IsSquare(m, n)
    ensures Unflatten(Flatten(m, n), n) == m
  {
    forall i | 0 <= i < n
      ensures Unflatten(Flatten(m, n), n)[i] == m[i]
    {
      FlatRowsRow(m, n, n, i);
    }
  }

  /** The layout of the first `rows` rows of Unflatten(f) is f's prefix. */
  lemma {:induction false} FlatRowsUnflatten(f: seq<int>, n: nat, rows: nat)
    requires |f| == n * n && rows <= n
    ensures rows * n <= n * n && FlatRows(Unflatten(f, n), n, rows) == f[..rows * n]
    decreases rows
  {
    MulLeRight(rows, n, n);
    if rows > 0 {
      FlatRowsUnflatten(f, n, rows - 1);
      RowInside(rows - 1, n, n);
      assert f[..rows * n] == f[..(rows - 1) * n] + f[(rows - 1) * n..(rows - 1) * n + n];
    }
  }

  /** flattenMatrix(unflattenMatrix(f)) == f. */
  lemma FlattenUnflatten(f: seq<int>, n: nat)
    requires |f| == n * n
    ensures Flatten(Unflatten(f, n), n) == f
  {
    FlatRowsUnflatten(f, n, n);
  }

  /** A row other than row i lies wholly before or wholly after row i's
      slots [i*n, i*n + n). */
  lemma OtherRowApart(i: nat, i2: nat, j2: nat, n: nat)
    requires i2 != i && j2 < n
    ensures Idx(i2, j2, n) < i * n || i * n + n <= Idx(i2, j2, n)
  {
    if i2 < i {
      RowInside(i2, i, n);
    } else {
      MulLeRight(i + 1, i2, n);
    }
  }

  /** The dot product read from row-major buffers, as `local_A[i*n + k] *
      B[k*n + j]` and `get_element(A, i, k, size) * get_element(B, k, j,
      size)` read it; `a` holds `rows` rows of n. */
  function FlatDot(a: seq<int>, b: seq<int>, n: nat, rows: nat, i: nat, j: nat, upTo: nat): int
    requires |a| == rows * n && |b| == n * n && i < rows && j < n && upTo <= n
    decreases upTo
  {
    if upTo == 0 then 0
    else
      RowInside(i, rows, n);
      RowInside(upTo - 1, n, n);
      FlatDot(a, b, n, rows, i, j, upTo - 1) + a[i * n + (upTo - 1)] * b[(upTo - 1) * n + j]
  }

  /** On full buffers the flat dot product is the dot product of the
      unflattened matrices. */
  lemma {:induction false} FlatDotIsDot(a: seq<int>, b: seq<int>, n: nat, i: nat, j: nat, upTo: nat)
    requires |a| == n * n && |b| == n * n && i < n && j < n && upTo <= n
    ensures FlatDot(a, b, n, n, i, j, upTo) == Dot(Unflatten(a, n), Unflatten(b, n), n, i, j, upTo)
    decreases upTo
  {
    if upTo > 0 {
      FlatDotIsDot(a, b, n, i, j, upTo - 1);
      UnflattenAt(a, n, i, upTo - 1);
      UnflattenAt(b, n, upTo - 1, j);
    }
  }

  /** Two row-major buffers of k rows of n that agree at every (i, j) are
      equal. */
  lemma {:induction false} RowMajorExt(x: seq<int>, y: seq<int>, n: nat, k: nat)
    requires |x| == k * n && |y| == k * n
    requires forall i, j :: 0 <= i < k && 0 <= j < n && Idx(i, j, n) < k * n ==>
      x[Idx(i, j, n)] == y[Idx(i, j, n)]
    ensures x == y
    decreases k
  {
    if k > 0 {
      var m := (k - 1) * n;
      assert m + n == k * n;
      IdxBelow(n, k - 1);
      RowMajorExt(x[..m], y[..m], n, k - 1);
      forall q | m <= q < k * n
        ensures x[q] == y[q]
      {
        assert q == Idx(k - 1, q - m, n);
      }
      assert x == x[..m] + x[m..];
      assert y == y[..m] + y[m..];
    }
  }

  /** Reading row i of a slice that starts at row s is reading row s + i of
      the whole buffer. */
  lemma {:induction false} FlatDotShift(whole: seq<int>, part: seq<int>, b: seq<int>, n: nat,
                                        rows: nat, s: nat, k: nat, i: nat, j: nat, upTo: nat)
    requires |whole| == rows * n && s + k <= rows
    requires s * n + k * n <= |whole| && part == whole[s * n..s * n + k * n]
    requires |b| == n * n && i < k && j < n && upTo <= n
    ensures |part| == k * n
    ensures FlatDot(part, b, n, k, i, j, upTo) == FlatDot(whole, b, n, rows, s + i, j, upTo)
    decreases upTo
  {
    RowInside(i, k, n);
    assert (s + i) * n == s * n + i * n;
    if upTo > 0 {
      FlatDotShift(whole, part, b, n, rows, s, k, i, j, upTo - 1);
    }
  }

  /** Entry (i, j) of a block of k rows of A starting at row s, multiplied
      by B, is entry (s + i, j) of the flattened A*B. */
  lemma ProductRowsEntry(aFlat: seq<int>, b: seq<int>, n: nat, s: nat, k: nat,
                         localA: seq<int>, i: nat, j: nat)
    requires |aFlat| == n * n && |b| == n * n && s + k <= n
    requires s * n + k * n <= n * n && localA == aFlat[s * n..s * n + k * n]
    requires i < k && j < n
    ensures Idx(i, j, n) < k * n && s * n + Idx(i, j, n) < n * n
    ensures Flatten(Product(Unflatten(aFlat, n), Unflatten(b, n), n), n)[s * n + Idx(i, j, n)]
      == FlatDot(localA, b, n, k, i, j, n)
  {
    RowInside(i, k, n);
    assert Idx(s + i, j, n) == s * n + Idx(i, j, n);
    FlattenAt(Product(Unflatten(aFlat, n), Unflatten(b, n), n), n, s + i, j);
    FlatDotIsDot(aFlat, b, n, s + i, j, n);
    FlatDotShift(aFlat, localA, b, n, n, s, k, i, j, n);
  }

  /** A block of k rows of A starting at row s, multiplied by B, is the
      slice of the flattened A*B that those rows occupy (with s = 0 and
      k = n: the whole flattened product). */
  lemma ProductRowsSlice(aFlat: seq<int>, b: seq<int>, n: nat, s: nat, k: nat,
                         localA: seq<int>, localC: seq<int>)
    requires |aFlat| == n * n && |b| == n * n && s + k <= n
    requires s * n + k * n <= n * n && localA == aFlat[s * n..s * n + k * n]
    requires |localC| == k * n
    requires forall i, j :: 0 <= i < k && 0 <= j < n ==>
      At(localC, n, k, i, j) == FlatDot(localA, b, n, k, i, j, n)
    ensures localC == Flatten(Product(Unflatten(aFlat, n), Unflatten(b, n), n), n)[s * n..s * n + k * n]
  {
    var whole := Flatten(Product(Unflatten(aFlat, n), Unflatten(b, n), n), n);
    var slice := whole[s * n..s * n + k * n];
    forall i, j | 0 <= i < k && 0 <= j < n && Idx(i, j, n) < k * n
      ensures localC[Idx(i, j, n)] == slice[Idx(i, j, n)]
    {
      ProductRowsEntry(aFlat, b, n, s, k, localA, i, j);
      assert At(localC, n, k, i, j) == localC[Idx(i, j, n)];
    }
    RowMajorExt(localC, slice, n, k);
  }
}
