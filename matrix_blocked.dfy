/** caso1/procesos.c: A, B and C are row-major `int *` buffers in shared
    memory. `fillMatrix` draws A and B, `initResultMatrix` zeroes C, and
    each of `num_processes` forked processes runs the tiled
    `multiplyMatricesProcessOptimized` over the column tiles it owns (tile
    t, columns [t*block_size, (t+1)*block_size), belongs to process
    t % num_processes). Processes write disjoint columns of C, so they are
    run one after the other, in an arbitrary order. */
module MatrixBlocked {
  import opened Common
  import opened MatrixSpec
  import opened Partition
  import opened MatrixDense

  // ---------------------------------------------------------------------
  // Buffers
  // ---------------------------------------------------------------------

  /** `add_to_element(C, r, col, size, value)`: the one slot of entry
      (r, col), which lies inside the buffer, gains value. */
  method AddToElement(c: array<int>, r: nat, col: nat, size: nat, value: int)
    requires c.Length == size * size && r < size && col < size
    modifies c
    ensures Idx(r, col, size) < c.Length
    ensures forall t :: 0 <= t < c.Length ==>
      c[t] == old(c[t]) + (if t == Idx(r, col, size) then value else 0)
  {
    RowInside(r, size, size);
    c[r * size + col] := c[r * size + col] + value;
  }

  /** The `j` loop of `fillMatrix` for the row whose cells start at `base`. */
  method FillRow(m: array<int>, n: nat, row: seq<int>, base: nat)
    requires |row| == n && base + n <= m.Length
    modifies m
    ensures forall t :: 0 <= t < m.Length ==>
      m[t] == (if base <= t < base + n then row[t - base] % 100 + 1 else old(m[t]))
  {
    for j := 0 to n
      invariant forall t :: 0 <= t < m.Length ==>
        m[t] == (if base <= t < base + j then row[t - base] % 100 + 1 else old(m[t]))
    {
      m[base + j] := row[j] % 100 + 1;
    }
  }

  /** `fillMatrix`: entry (i, j) becomes `rand() % 100 + 1`, so the buffer
      is the row-major layout of the drawn matrix, every cell in [1, 100]. */
  method FillFlat(m: array<int>, n: nat, draws: seq<seq<int>>)
    requires m.Length == n * n && ValidDraws(draws, n)
    modifies m
    ensures m[..] == Flatten(Drawn(draws, n, 100, 1), n)
    ensures forall t :: 0 <= t < m.Length ==> 1 <= m[t] <= 100
  {
    ghost var d := Drawn(draws, n, 100, 1);
    ghost var f := Flatten(d, n);
    var base := 0;
    for i := 0 to n
      invariant base == i * n && base <= n * n
      invariant forall t :: 0 <= t < base ==> m[t] == f[t] && 1 <= m[t] <= 100
    {
      RowInside(i, n, n);
      FillRow(m, n, draws[i], base);
      forall t | base <= t < base + n
        ensures m[t] == f[t]
      {
        FlattenAt(d, n, i, t - base);
      }
      assert base + n == (i + 1) * n;
      base := base + n;
    }
    assert m[..] == f;
  }

  /** `initResultMatrix`: `memset` clears every cell. */
  method InitResult(c: array<int>)
    modifies c
    ensures forall t :: 0 <= t < c.Length ==> c[t] == 0
  {
    forall t | 0 <= t < c.Length {
      c[t] := 0;
    }
  }

  // ---------------------------------------------------------------------
  // Tiles
  // ---------------------------------------------------------------------

  /** The `block_size` choice of `multiplyMatricesWithProcesses`: 128 above
      2000, 64 above 1000, else 32. */
  function BlockSizeFor(size: int): (bs: nat)
    ensures bs == 32 || bs == 64 || bs == 128
    ensures bs == 128 <==> size > 2000
    ensures bs == 32 <==> size <= 1000
  {
    if size > 2000 then 128 else if size > 1000 then 64 else 32
  }

  /** The end of a tile that starts at `start`: `imax`, `jmax` and `kmax`,
      `start + block_size` cut back to `size`. It never passes `size`, and a
      tile that starts inside [0, size) is not empty. */
  function TileEnd(start: nat, bs: nat, size: nat): (r: nat)
    ensures r <= size && r <= start + bs
    ensures r == size || r == start + bs
    ensures start < size && bs > 0 ==> start < r
  {
    if start + bs < size then start + bs else size
  }

  /** The `j` loop: `add_to_element(C, i, j, size, aik * get_element(B, k,
      j, size))` for j in [j0, jmax). Exactly those cells of row i change. */
  method AddScaledSegment(b: seq<int>, n: nat, c: array<int>, i: nat, k: nat, j0: nat, jmax: nat, aik: int)
    requires |b| == n * n && c.Length == n * n && i < n && k < n && j0 <= jmax <= n
    modifies c
    ensures forall t :: 0 <= t < c.Length ==>
      c[t] == old(c[t]) + (if i * n + j0 <= t < i * n + jmax then aik * At(b, n, n, k, t - i * n) else 0)
  {
    for j := j0 to jmax
      invariant forall t :: 0 <= t < c.Length ==>
        c[t] == old(c[t]) + (if i * n + j0 <= t < i * n + j then aik * At(b, n, n, k, t - i * n) else 0)
    {
      AddToElement(c, i, j, n, aik * At(b, n, n, k, j));
    }
  }

  /** The `k` loop for one row i of a tile: each cell (i, j) with j in
      [j0, jmax) gains the terms k0 .. kmax-1 of its dot product. */
  method TileRow(a: seq<int>, b: seq<int>, n: nat, c: array<int>, i: nat,
                 k0: nat, kmax: nat, j0: nat, jmax: nat)
    requires |a| == n * n && |b| == n * n && c.Length == n * n && i < n
    requires k0 <= kmax <= n && j0 <= jmax <= n
    modifies c
    ensures forall t :: 0 <= t < c.Length ==>
      c[t] == old(c[t]) + (if i * n + j0 <= t < i * n + jmax
                           then FlatDot(a, b, n, n, i, t - i * n, kmax) - FlatDot(a, b, n, n, i, t - i * n, k0)
                           else 0)
  {
    for k := k0 to kmax
      invariant forall t :: 0 <= t < c.Length ==>
        c[t] == old(c[t]) + (if i * n + j0 <= t < i * n + jmax
                             then FlatDot(a, b, n, n, i, t - i * n, k) - FlatDot(a, b, n, n, i, t - i * n, k0)
                             else 0)
    {
      var aik := At(a, n, n, i, k);
      AddScaledSegment(b, n, c, i, k, j0, jmax, aik);
    }
  }

  /** `TileRow` read entry by entry: only entries (i, j) with j in
      [j0, jmax) change. */
  method TileRowEntries(a: seq<int>, b: seq<int>, n: nat, c: array<int>, i: nat,
                        k0: nat, kmax: nat, j0: nat, jmax: nat)
    requires |a| == n * n && |b| == n * n && c.Length == n * n && i < n
    requires k0 <= kmax <= n && j0 <= jmax <= n
    modifies c
    ensures forall p, q :: 0 <= p < n && 0 <= q < n ==>
      At(c[..], n, n, p, q) == old(At(c[..], n, n, p, q))
        + (if p == i && j0 <= q < jmax
           then FlatDot(a, b, n, n, p, q, kmax) - FlatDot(a, b, n, n, p, q, k0) else 0)
  {
    ghost var before := c[..];
    TileRow(a, b, n, c, i, k0, kmax, j0, jmax);
    forall p, q | 0 <= p < n && 0 <= q < n
      ensures At(c[..], n, n, p, q) == At(before, n, n, p, q)
        + (if p == i && j0 <= q < jmax
           then FlatDot(a, b, n, n, p, q, kmax) - FlatDot(a, b, n, n, p, q, k0) else 0)
    {
      RowInside(p, n, n);
      if p != i {
        OtherRowApart(i, p, q, n);
      }
    }
  }

  /** The `i` loop of a tile: rows [i0, imax) by columns [j0, jmax), terms
      k0 .. kmax-1. */
  method TileRows(a: seq<int>, b: seq<int>, n: nat, c: array<int>,
                  i0: nat, imax: nat, k0: nat, kmax: nat, j0: nat, jmax: nat)
    requires |a| == n * n && |b| == n * n && c.Length == n * n
    requires i0 <= imax <= n && k0 <= kmax <= n && j0 <= jmax <= n
    modifies c
    ensures forall p, q :: 0 <= p < n && 0 <= q < n ==>
      At(c[..], n, n, p, q) == old(At(c[..], n, n, p, q))
        + (if i0 <= p < imax && j0 <= q < jmax
           then FlatDot(a, b, n, n, p, q, kmax) - FlatDot(a, b, n, n, p, q, k0) else 0)
  {
    for i := i0 to imax
      invariant forall p, q :: 0 <= p < n && 0 <= q < n ==>
        At(c[..], n, n, p, q) == old(At(c[..], n, n, p, q))
          + (if i0 <= p < i && j0 <= q < jmax
             then FlatDot(a, b, n, n, p, q, kmax) - FlatDot(a, b, n, n, p, q, k0) else 0)
    {
      TileRowEntries(a, b, n, c, i, k0, kmax, j0, jmax);
    }
  }

  /** The `k0` loop: the k-tiles [k0, kmax) cover [0, size) once each, so
      every entry of the (i, j) tile gains its whole dot product. */
  method TileColumn(a: seq<int>, b: seq<int>, n: nat, c: array<int>, bs: nat,
                    i0: nat, imax: nat, j0: nat, jmax: nat)
    requires |a| == n * n && |b| == n * n && c.Length == n * n && bs > 0
    requires i0 <= imax <= n && j0 <= jmax <= n
    modifies c
    ensures forall p, q :: 0 <= p < n && 0 <= q < n ==>
      At(c[..], n, n, p, q) == old(At(c[..], n, n, p, q))
        + (if i0 <= p < imax && j0 <= q < jmax then FlatDot(a, b, n, n, p, q, n) else 0)
  {
    var k0 := 0;
    ghost var done := 0;
    while k0 < n
      invariant done == (if k0 < n then k0 else n)
      invariant forall p, q :: 0 <= p < n && 0 <= q < n ==>
        At(c[..], n, n, p, q) == old(At(c[..], n, n, p, q))
          + (if i0 <= p < imax && j0 <= q < jmax then FlatDot(a, b, n, n, p, q, done) else 0)
      decreases n - k0
    {
      var kmax := TileEnd(k0, bs, n);
      TileRows(a, b, n, c, i0, imax, k0, kmax, j0, jmax);
      k0 := k0 + bs;
      done := kmax;
    }
  }

  /** Past the tile t = j0 / bs that process p just handled, up to its
      next tile t + procs, p owns exactly the columns of tile t. */
  lemma TileStep(procs: nat, bs: nat, p: nat, t: nat, jmax: nat, n: nat)
    requires procs > 0 && bs > 0 && t % procs == p
    requires jmax == TileEnd(t * bs, bs, n)
    ensures (t + procs) * bs == t * bs + procs * bs && (t + procs) % procs == p
    ensures forall q :: t * bs <= q < n && q < t * bs + procs * bs ==>
      (OwnsColumn(procs, bs, p, q) <==> q < jmax)
  {
    assert (t + procs) * bs == t * bs + procs * bs;
    forall q | t * bs <= q < n && q < t * bs + procs * bs
      ensures OwnsColumn(procs, bs, p, q) <==> q < jmax
    {
      if q < t * bs + bs {
        TileOwned(procs, bs, p, t, q);
      } else {
        GapNotOwned(procs, bs, p, t, q);
      }
    }
    ModStep(t, procs);
  }

  /** The `j0` loop of process p: the column tiles p, p + procs, p +
      2*procs, ... In the rows [i0, imax), exactly the columns p owns gain
      their dot products. */
  method OwnedTiles(a: seq<int>, b: seq<int>, n: nat, c: array<int>, bs: nat, procs: nat, p: nat,
                    i0: nat, imax: nat)
    requires |a| == n * n && |b| == n * n && c.Length == n * n
    requires bs > 0 && procs > 0 && p < procs && i0 <= imax <= n
    modifies c
    ensures forall r, q :: 0 <= r < n && 0 <= q < n ==>
      At(c[..], n, n, r, q) == old(At(c[..], n, n, r, q))
        + (if i0 <= r < imax && OwnsColumn(procs, bs, p, q) then FlatDot(a, b, n, n, r, q, n) else 0)
  {
    var j0 := p * bs;
    var stride := procs * bs;
    MulLeRight(1, procs, bs);
    ghost var t := p;
    forall q | 0 <= q < j0
      ensures !OwnsColumn(procs, bs, p, q)
    {
      LeadNotOwned(procs, bs, p, q);
    }
    while j0 < n
      invariant j0 == t * bs && t % procs == p
      invariant forall r, q :: 0 <= r < n && 0 <= q < n ==>
        At(c[..], n, n, r, q) == old(At(c[..], n, n, r, q))
          + (if i0 <= r < imax && q < j0 && OwnsColumn(procs, bs, p, q) then FlatDot(a, b, n, n, r, q, n) else 0)
      decreases n - j0
    {
      var jmax := TileEnd(j0, bs, n);
      TileColumn(a, b, n, c, bs, i0, imax, j0, jmax);
      TileStep(procs, bs, p, t, jmax, n);
      j0 := j0 + stride;
      t := t + procs;
    }
  }

  /** `multiplyMatricesProcessOptimized` for process p: the `i0` loop over
      row tiles. Every entry in a column p owns gains its dot product;
      every other entry of C is untouched. */
  method MultiplyProcess(a: seq<int>, b: seq<int>, n: nat, c: array<int>, bs: nat, procs: nat, p: nat)
    requires |a| == n * n && |b| == n * n && c.Length == n * n
    requires bs > 0 && procs > 0 && p < procs
    modifies c
    ensures forall i, j :: 0 <= i < n && 0 <= j < n ==>
      At(c[..], n, n, i, j) == old(At(c[..], n, n, i, j))
        + (if OwnsColumn(procs, bs, p, j) then FlatDot(a, b, n, n, i, j, n) else 0)
  {
    var i0 := 0;
    ghost var done := 0;
    while i0 < n
      invariant done == (if i0 < n then i0 else n)
      invariant forall r, q :: 0 <= r < n && 0 <= q < n ==>
        At(c[..], n, n, r, q) == old(At(c[..], n, n, r, q))
          + (if r < done && OwnsColumn(procs, bs, p, q) then FlatDot(a, b, n, n, r, q, n) else 0)
      decreases n - i0
    {
      var imax := TileEnd(i0, bs, n);
      OwnedTiles(a, b, n, c, bs, procs, p, i0, imax);
      i0 := i0 + bs;
      done := imax;
    }
  }

  /** `multiplyMatricesWithProcesses`: the block size for `size`, then one
      process per id, in the order `order`. Each column has exactly one
      owner, so every entry of C gains its dot product exactly once. */
  method MultiplyWithProcesses(a: seq<int>, b: seq<int>, c: array<int>, n: nat, procs: nat, order: seq<nat>)
    requires |a| == n * n && |b| == n * n && c.Length == n * n
    requires procs > 0 && Schedule(order, procs)
    modifies c
    ensures forall i, j :: 0 <= i < n && 0 <= j < n ==>
      At(c[..], n, n, i, j) == old(At(c[..], n, n, i, j)) + FlatDot(a, b, n, n, i, j, n)
  {
    var bs := BlockSizeFor(n);
    for s := 0 to |order|
      invariant forall i, j :: 0 <= i < n && 0 <= j < n ==>
        At(c[..], n, n, i, j) == old(At(c[..], n, n, i, j))
          + (if (j / bs) % procs in order[..s] then FlatDot(a, b, n, n, i, j, n) else 0)
    {
      assert order[s] !in order[..s];
      MultiplyProcess(a, b, n, c, bs, procs, order[s]);
      assert order[..s + 1] == order[..s] + [order[s]];
    }
    assert order[..|order|] == order;
    forall j | 0 <= j < n
      ensures (j / bs) % procs in order
    {
      ColumnOwnerUnique(procs, bs, j);
    }
  }

  // ---------------------------------------------------------------------
  // Validation and the program
  // ---------------------------------------------------------------------

  /** The `k` loop of the validation: `expected += get_element(A, i, k,
      size) * get_element(B, k, j, size)`, entry (i, j) of A*B. */
  method ExpectedEntry(a: seq<int>, b: seq<int>, n: nat, i: nat, j: nat) returns (expected: int)
    requires |a| == n * n && |b| == n * n && i < n && j < n
    ensures expected == Entry(Unflatten(a, n), Unflatten(b, n), n, i, j)
  {
    expected := 0;
    for k := 0 to n
      invariant expected == FlatDot(a, b, n, n, i, j, k)
    {
      expected := expected + At(a, n, n, i, k) * At(b, n, n, k, j);
    }
    FlatDotIsDot(a, b, n, i, j, n);
  }

  /** Every entry before (i, j) in row-major order holds its entry of A*B. */
  ghost predicate FlatCorrectBefore(a: seq<int>, b: seq<int>, n: nat, c: seq<int>, i: nat, j: nat)
    requires |a| == n * n && |b| == n * n && |c| == n * n
  {
    forall p, q :: 0 <= p < n && 0 <= q < n && (p < i || (p == i && q < j)) ==>
      At(c, n, n, p, q) == Entry(Unflatten(a, n), Unflatten(b, n), n, p, q)
  }

  /** The validation loop of `main`: walks C in row-major order while
      `correct` holds. "Validación correcta" is printed exactly when C is
      the flattened A*B; otherwise `mismatch` is the first wrong entry, the
      one whose error line is printed. */
  method ValidateFlat(a: seq<int>, b: seq<int>, n: nat, c: seq<int>)
    returns (correct: bool, mismatch: Option<(nat, nat)>)
    requires |a| == n * n && |b| == n * n && |c| == n * n
    ensures correct <==> c == Flatten(Product(Unflatten(a, n), Unflatten(b, n), n), n)
    ensures correct <==> mismatch == None
    ensures mismatch.Some? ==> var (i, j) := mismatch.value;
      i < n && j < n && At(c, n, n, i, j) != Entry(Unflatten(a, n), Unflatten(b, n), n, i, j)
      && FlatCorrectBefore(a, b, n, c, i, j)
  {
    correct := true;
    mismatch := None;
    var i := 0;
    while i < n && correct
      invariant 0 <= i <= n
      invariant correct ==> mismatch == None && FlatCorrectBefore(a, b, n, c, i, 0)
      invariant !correct ==> mismatch.Some? && var (mi, mj) := mismatch.value;
        mi < n && mj < n && At(c, n, n, mi, mj) != Entry(Unflatten(a, n), Unflatten(b, n), n, mi, mj)
        && FlatCorrectBefore(a, b, n, c, mi, mj)
    {
      var j := 0;
      while j < n && correct
        invariant 0 <= j <= n
        invariant correct ==> mismatch == None && FlatCorrectBefore(a, b, n, c, i, j)
        invariant !correct ==> mismatch.Some? && var (mi, mj) := mismatch.value;
          mi < n && mj < n && At(c, n, n, mi, mj) != Entry(Unflatten(a, n), Unflatten(b, n), n, mi, mj)
          && FlatCorrectBefore(a, b, n, c, mi, mj)
      {
        var expected := ExpectedEntry(a, b, n, i, j);
        if expected != At(c, n, n, i, j) {
          mismatch := Some((i, j));
          correct := false;
        }
        j := j + 1;
      }
      i := i + 1;
    }
    var product := Product(Unflatten(a, n), Unflatten(b, n), n);
    if correct {
      forall p, q | 0 <= p < n && 0 <= q < n
        ensures At(c, n, n, p, q) == FlatDot(a, b, n, n, p, q, n)
      {
        FlatDotIsDot(a, b, n, p, q, n);
      }
      assert a[0 * n..0 * n + n * n] == a;
      ProductRowsSlice(a, b, n, 0, n, a, c);
    } else {
      var (mi, mj) := mismatch.value;
      FlattenAt(product, n, mi, mj);
    }
  }

  /** `main` of caso1/procesos.c: a size or process count of 0 or less
      ends the program; otherwise A and B are drawn, C is zeroed, the
      processes leave the flattened A*B in C, and for sizes up to 500 the
      validation then reports success. */
  method ProcessesMain(size: int, procs: int, drawsA: seq<seq<int>>, drawsB: seq<seq<int>>, order: seq<nat>)
    returns (c: Option<seq<int>>, validated: Option<bool>)
    requires size > 0 ==> ValidDraws(drawsA, size) && ValidDraws(drawsB, size)
    requires procs > 0 ==> Schedule(order, procs)
    ensures (size <= 0 || procs <= 0) <==> c == None
    ensures c.Some? ==>
      c.value == Flatten(Product(Drawn(drawsA, size, 100, 1), Drawn(drawsB, size, 100, 1), size), size)
    ensures validated == (if c.Some? && size <= 500 then Some(true) else None)
  {
    if size <= 0 || procs <= 0 {
      return None, None;
    }
    var n: nat := size;
    var a := new int[n * n];
    var b := new int[n * n];
    var cBuf := new int[n * n];
    FillFlat(a, n, drawsA);
    FillFlat(b, n, drawsB);
    InitResult(cBuf);
    ghost var zero := cBuf[..];
    MultiplyWithProcesses(a[..], b[..], cBuf, n, procs, order);
    forall i, j | 0 <= i < n && 0 <= j < n
      ensures At(cBuf[..], n, n, i, j) == FlatDot(a[..], b[..], n, n, i, j, n)
    {
      RowInside(i, n, n);
      assert At(zero, n, n, i, j) == 0;
    }
    assert a[..][0 * n..0 * n + n * n] == a[..];
    ProductRowsSlice(a[..], b[..], n, 0, n, a[..], cBuf[..]);
    UnflattenFlatten(Drawn(drawsA, n, 100, 1), n);
    UnflattenFlatten(Drawn(drawsB, n, 100, 1), n);
    c := Some(cBuf[..]);
    if n <= 500 {
      var correct, _ := ValidateFlat(a[..], b[..], n, cBuf[..]);
      validated := Some(correct);
    } else {
      validated := None;
    }
  }
}
