/** caso3/mul_mat.c: rank 0 builds A and B, flattens them row-major, scatters
    contiguous blocks of A's rows (the remainder going to the first ranks),
    broadcasts B, every rank multiplies its block i-k-j into a zeroed
    `local_C`, and rank 0 gathers the blocks back in rank order. The ranks
    share nothing but the disjoint regions of `C_flat` they are gathered
    into, so they are run one after the other, in rank order. */
module MatrixMpi {
  import opened Common
  import opened MatrixSpec
  import opened Partition
  import opened MatrixDense

  // ---------------------------------------------------------------------
  // Flat layout
  // ---------------------------------------------------------------------

  /** The `j` loop of a flattening copy: row i of m goes to
      flat[base .. base + n), and nothing else in flat changes. */
  method CopyRow(m: array2<int>, n: nat, i: nat, flat: array<int>, base: nat)
    requires m.Length0 == n && m.Length1 == n && i < n && base + n <= flat.Length
    modifies flat
    ensures forall t :: 0 <= t < flat.Length ==>
      flat[t] == (if base <= t < base + n then m[i, t - base] else old(flat[t]))
  {
    for j := 0 to n
      invariant forall t :: 0 <= t < flat.Length ==>
        flat[t] == (if base <= t < base + j then m[i, t - base] else old(flat[t]))
    {
      flat[base + j] := m[i, j];
    }
  }

  /** The copy loop of `flattenMatrix`, and the loop that copies `B_mat`
      into the broadcast buffer `B`: `flat[i*n + j] = mat[i][j]`. The buffer
      ends as the row-major layout of m. */
  method FlattenInto(m: array2<int>, n: nat, flat: array<int>)
    requires m.Length0 == n && m.Length1 == n && flat.Length == n * n
    modifies flat
    ensures flat[..] == Flatten(Contents(m), n)
  {
    ghost var rows := Contents(m);
    ghost var f := Flatten(rows, n);
    var base := 0;
    for i := 0 to n
      invariant base == i * n && base <= n * n
      invariant forall t :: 0 <= t < base ==> flat[t] == f[t]
    {
      RowInside(i, n, n);
      CopyRow(m, n, i, flat, base);
      forall t | base <= t < base + n
        ensures flat[t] == f[t]
      {
        FlattenAt(rows, n, i, t - base);
        assert rows[i][t - base] == m[i, t - base];
      }
      assert base + n == (i + 1) * n;
      base := base + n;
    }
    assert flat[..] == f;
  }

  /** `flattenMatrix`: a new row-major buffer holding m. */
  method FlattenMatrix(m: array2<int>, n: nat) returns (flat: array<int>)
    requires m.Length0 == n && m.Length1 == n
    ensures fresh(flat)
    ensures flat[..] == Flatten(Contents(m), n)
  {
    flat := new int[n * n];
    FlattenInto(m, n, flat);
  }

  /** `unflattenMatrix`: a new matrix whose row i is flat[i*n .. i*n + n). */
  method UnflattenMatrix(flat: seq<int>, n: nat) returns (m: array2<int>)
    requires |flat| == n * n
    ensures fresh(m) && m.Length0 == n && m.Length1 == n
    ensures Contents(m) == Unflatten(flat, n)
  {
    m := new int[n, n];
    for i := 0 to n
      invariant forall p, q :: 0 <= p < i && 0 <= q < n ==> m[p, q] == Unflatten(flat, n)[p][q]
    {
      RowInside(i, n, n);
      for j := 0 to n
        invariant forall p, q :: 0 <= p < i && 0 <= q < n ==> m[p, q] == Unflatten(flat, n)[p][q]
        invariant forall q :: 0 <= q < j ==> m[i, q] == Unflatten(flat, n)[i][q]
      {
        UnflattenAt(flat, n, i, j);
        m[i, j] := flat[i * n + j];
      }
    }
    ContentsIs(m, n, Unflatten(flat, n));
  }

  // ---------------------------------------------------------------------
  // Scatter and gather tables
  // ---------------------------------------------------------------------

  /** Rank r's region of a flat buffer, [start_row*n, (start_row +
      local_rows)*n), ends where rank r + 1's begins, inside the n*n cells. */
  lemma RankRegion(n: nat, size: nat, r: nat)
    requires size > 0 && r < size
    ensures BlockStart(n, size, r) + BlockRows(n, size, r) <= n
    ensures BlockStart(n, size, r) * n + BlockRows(n, size, r) * n == BlockStart(n, size, r + 1) * n
    ensures BlockStart(n, size, r + 1) * n <= n * n
  {
    BlockContiguous(n, size, r);
    BlockStartMonotone(n, size, r + 1, size);
    BlockCoversAll(n, size);
    MulLeRight(BlockStart(n, size, r + 1), n, n);
  }

  /** The `sendcounts`/`displs` loop: rank i is sent the `local_rows * n`
      cells of its block, starting at `start_row * n` -- the same block each
      rank computes for itself. The regions lie end to end and cover the
      n*n cells of A exactly. */
  method ScatterTables(n: nat, size: nat) returns (sendcounts: seq<nat>, displs: seq<nat>)
    requires size > 0
    ensures |sendcounts| == size && |displs| == size
    ensures forall i :: 0 <= i < size ==>
      sendcounts[i] == BlockRows(n, size, i) * n && displs[i] == BlockStart(n, size, i) * n
    ensures displs[0] == 0
    ensures forall i :: 0 <= i < size ==> displs[i] + sendcounts[i] == BlockStart(n, size, i + 1) * n
    ensures displs[size - 1] + sendcounts[size - 1] == n * n
  {
    sendcounts, displs := [], [];
    for i := 0 to size
      invariant |sendcounts| == i && |displs| == i
      invariant forall u :: 0 <= u < i ==>
        sendcounts[u] == BlockRows(n, size, u) * n && displs[u] == BlockStart(n, size, u) * n
    {
      sendcounts := sendcounts + [BlockRows(n, size, i) * n];
      displs := displs + [BlockStart(n, size, i) * n];
    }
    forall i | 0 <= i < size
      ensures displs[i] + sendcounts[i] == BlockStart(n, size, i + 1) * n
    {
      RankRegion(n, size, i);
    }
    BlockContiguous(n, size, 0);
    BlockCoversAll(n, size);
  }

  // ---------------------------------------------------------------------
  // The local multiplication
  // ---------------------------------------------------------------------

  /** The `j` loop: `local_C[i*n + j] += local_A[i*n + k] * B[k*n + j]`,
      with the row of C at `base`, the row of B at `kBase` and the factor
      `aik`. Exactly the n cells of the row change. */
  method AddScaledFlatRow(b: seq<int>, n: nat, c: array<int>, base: nat, kBase: nat, aik: int)
    requires base + n <= c.Length && kBase + n <= |b|
    modifies c
    ensures forall t :: 0 <= t < c.Length ==>
      c[t] == old(c[t]) + (if base <= t < base + n then aik * b[kBase + (t - base)] else 0)
  {
    for j := 0 to n
      invariant forall t :: 0 <= t < c.Length ==>
        c[t] == old(c[t]) + (if base <= t < base + j then aik * b[kBase + (t - base)] else 0)
    {
      c[base + j] := c[base + j] + aik * b[kBase + j];
    }
  }

  /** The `k` loop of row i, whose cells start at `base`: each cell of the
      row gains its dot product, and nothing outside the row changes. */
  method AccumulateAt(localA: seq<int>, b: seq<int>, n: nat, rows: nat, c: array<int>, i: nat, base: nat)
    requires |localA| == rows * n && |b| == n * n && c.Length == rows * n && i < rows
    requires base == i * n && base + n <= c.Length
    modifies c
    ensures forall j :: 0 <= j < n ==>
      c[base + j] == old(c[base + j]) + FlatDot(localA, b, n, rows, i, j, n)
    ensures forall t :: 0 <= t < c.Length && (t < base || base + n <= t) ==> c[t] == old(c[t])
  {
    for k := 0 to n
      invariant forall j :: 0 <= j < n ==>
        c[base + j] == old(c[base + j]) + FlatDot(localA, b, n, rows, i, j, k)
      invariant forall t :: 0 <= t < c.Length && (t < base || base + n <= t) ==> c[t] == old(c[t])
    {
      RowInside(k, n, n);
      AddScaledFlatRow(b, n, c, base, k * n, localA[base + k]);
    }
  }

  /** One pass of the `i` loop. Row i gains its dot products; every other
      row is untouched. */
  method AccumulateFlatRow(localA: seq<int>, b: seq<int>, n: nat, rows: nat, c: array<int>, i: nat)
    requires |localA| == rows * n && |b| == n * n && c.Length == rows * n && i < rows
    modifies c
    ensures forall j :: 0 <= j < n ==>
      At(c[..], n, rows, i, j) == old(At(c[..], n, rows, i, j)) + FlatDot(localA, b, n, rows, i, j, n)
    ensures forall p, q :: 0 <= p < rows && p != i && 0 <= q < n ==>
      At(c[..], n, rows, p, q) == old(At(c[..], n, rows, p, q))
  {
    RowInside(i, rows, n);
    ghost var before := c[..];
    AccumulateAt(localA, b, n, rows, c, i, i * n);
    forall j | 0 <= j < n
      ensures At(c[..], n, rows, i, j) == At(before, n, rows, i, j) + FlatDot(localA, b, n, rows, i, j, n)
    {
      assert Idx(i, j, n) == i * n + j;
    }
    forall p, q | 0 <= p < rows && p != i && 0 <= q < n
      ensures At(c[..], n, rows, p, q) == At(before, n, rows, p, q)
    {
      OtherRowApart(i, p, q, n);
      RowInside(p, rows, n);
    }
  }

  /** The triple loop over `local_rows` rows: every entry of the block gains
      the dot product of its row of `local_A` with its column of B. */
  method LocalMultiply(localA: seq<int>, b: seq<int>, n: nat, rows: nat, c: array<int>)
    requires |localA| == rows * n && |b| == n * n && c.Length == rows * n
    modifies c
    ensures forall i, j :: 0 <= i < rows && 0 <= j < n ==>
      At(c[..], n, rows, i, j) == old(At(c[..], n, rows, i, j)) + FlatDot(localA, b, n, rows, i, j, n)
  {
    for i := 0 to rows
      invariant forall p, q :: 0 <= p < rows && 0 <= q < n ==>
        At(c[..], n, rows, p, q) == old(At(c[..], n, rows, p, q))
          + (if p < i then FlatDot(localA, b, n, rows, p, q, n) else 0)
    {
      AccumulateFlatRow(localA, b, n, rows, c, i);
    }
  }

  /** What one rank computes: `local_C` from `calloc`, then the local
      multiplication; it holds exactly the block's rows of the product. */
  method RankMultiply(localA: seq<int>, b: seq<int>, n: nat, rows: nat) returns (localC: array<int>)
    requires |localA| == rows * n && |b| == n * n
    ensures fresh(localC) && localC.Length == rows * n
    ensures forall i, j :: 0 <= i < rows && 0 <= j < n ==>
      At(localC[..], n, rows, i, j) == FlatDot(localA, b, n, rows, i, j, n)
  {
    localC := new int[rows * n](_ => 0);
    ghost var zero := localC[..];
    LocalMultiply(localA, b, n, rows, localC);
    forall i, j | 0 <= i < rows && 0 <= j < n
      ensures At(localC[..], n, rows, i, j) == FlatDot(localA, b, n, rows, i, j, n)
    {
      RowInside(i, rows, n);
      assert At(zero, n, rows, i, j) == 0;
    }
  }

  /** One rank's part of `MPI_Gatherv`: its `local_C` lands at `displ` in
      `C_flat`, and nothing else in `C_flat` changes. */
  method GatherBlock(cFlat: array<int>, localC: seq<int>, displ: nat)
    requires displ + |localC| <= cFlat.Length
    modifies cFlat
    ensures forall t :: 0 <= t < cFlat.Length ==>
      cFlat[t] == (if displ <= t < displ + |localC| then localC[t - displ] else old(cFlat[t]))
  {
    for q := 0 to |localC|
      invariant forall t :: 0 <= t < cFlat.Length ==>
        cFlat[t] == (if displ <= t < displ + q then localC[t - displ] else old(cFlat[t]))
    {
      cFlat[displ + q] := localC[q];
    }
  }

  // ---------------------------------------------------------------------
  // The whole run
  // ---------------------------------------------------------------------

  /** What rank `rank` contributes: its block of A, taken at `displ`
      (`MPI_Scatterv`), multiplied by B (`MPI_Bcast`), and gathered back at
      `displ` (`MPI_Gatherv`). The rank's region of `C_flat` ends as that
      region of the flattened A*B; the rest of `C_flat` is untouched. */
  method RunRank(aFlat: seq<int>, b: seq<int>, n: nat, size: nat, rank: nat,
                 displ: nat, count: nat, cFlat: array<int>)
    requires |aFlat| == n * n && |b| == n * n && size > 0 && rank < size
    requires displ == BlockStart(n, size, rank) * n && count == BlockRows(n, size, rank) * n
    requires cFlat.Length == n * n
    modifies cFlat
    ensures displ + count <= n * n
    ensures forall t :: 0 <= t < n * n ==>
      cFlat[t] == (if displ <= t < displ + count
                   then Flatten(Product(Unflatten(aFlat, n), Unflatten(b, n), n), n)[t]
                   else old(cFlat[t]))
  {
    var startRow := BlockStart(n, size, rank);
    var localRows := BlockRows(n, size, rank);
    RankRegion(n, size, rank);
    var localA := aFlat[displ..displ + count];
    var localC := RankMultiply(localA, b, n, localRows);
    ProductRowsSlice(aFlat, b, n, startRow, localRows, localA, localC[..]);
    GatherBlock(cFlat, localC[..], displ);
  }

  /** From the scatter to the gather, with `size` ranks run in rank order.
      `C_flat` ends as the flattened A*B. */
  method DistributedMultiply(aFlat: seq<int>, b: seq<int>, n: nat, size: nat) returns (cFlat: array<int>)
    requires |aFlat| == n * n && |b| == n * n && size > 0
    ensures fresh(cFlat)
    ensures cFlat[..] == Flatten(Product(Unflatten(aFlat, n), Unflatten(b, n), n), n)
  {
    ghost var expected := Flatten(Product(Unflatten(aFlat, n), Unflatten(b, n), n), n);
    var sendcounts, displs := ScatterTables(n, size);
    cFlat := new int[n * n];
    for rank := 0 to size
      invariant forall t :: 0 <= t < n * n && (rank > 0 && t < displs[rank - 1] + sendcounts[rank - 1]) ==>
        cFlat[t] == expected[t]
    {
      RunRank(aFlat, b, n, size, rank, displs[rank], sendcounts[rank], cFlat);
    }
    assert cFlat[..] == expected;
  }

  /** `main` of caso3/mul_mat.c: a size of 0 or less ends the program before
      MPI starts; otherwise rank 0 creates A and B (`rand() % 100 + 1`),
      flattens them, and the distributed product leaves A*B in `C_flat`. */
  method MpiMain(n: int, size: nat, drawsA: seq<seq<int>>, drawsB: seq<seq<int>>)
    returns (cFlat: Option<seq<int>>)
    requires size > 0
    requires n > 0 ==> ValidDraws(drawsA, n) && ValidDraws(drawsB, n)
    ensures n <= 0 <==> cFlat == None
    ensures n > 0 ==> (cFlat.Some? && |cFlat.value| == n * n
      && Unflatten(cFlat.value, n) == Product(Drawn(drawsA, n, 100, 1), Drawn(drawsB, n, 100, 1), n))
  {
    if n <= 0 {
      return None;
    }
    var a := CreateOneToHundred(n, drawsA);
    var bMat := CreateOneToHundred(n, drawsB);
    var aFlat := FlattenMatrix(a, n);
    var b := new int[n * n];
    FlattenInto(bMat, n, b);
    var c := DistributedMultiply(aFlat[..], b[..], n, size);
    UnflattenFlatten(Contents(a), n);
    UnflattenFlatten(Contents(bMat), n);
    UnflattenFlatten(Product(Contents(a), Contents(bMat), n), n);
    cFlat := Some(c[..]);
  }
}
