/** The ways the programs split n rows (or cells, or columns) among workers:
    contiguous blocks with the remainder spread over the first workers,
    contiguous blocks with the remainder given to the last worker, cyclic
    rows, and cyclic column tiles. */
module Partition {
  import opened Common

  // ---------------------------------------------------------------------
  // Contiguous blocks, remainder to the first workers
  // (caso3/mul_mat.c, hilos.c)
  // ---------------------------------------------------------------------

  /** Rows of block r: `n / parts + (r < n % parts ? 1 : 0)`. */
  function BlockRows(n: nat, parts: nat, r: nat): (rows: nat)
    requires parts > 0
    ensures n / parts <= rows <= n / parts + 1
  {
    n / parts + (if r < n % parts then 1 else 0)
  }

  /** First row of block r: `r * (n / parts) + min(r, n % parts)`. */
  function BlockStart(n: nat, parts: nat, r: nat): (start: nat)
    requires parts > 0
    ensures r <= parts ==> start <= n
  {
    var q := n / parts;
    var s := r * q + (if r < n % parts then r else n % parts);
    assert r <= parts ==> s <= n by {
      if r <= parts { MulLeRight(r, parts, q); }
    }
    s
  }

  lemma MulSucc(r: nat, q: nat)
    ensures (r + 1) * q == r * q + q
  {
  }

  /** Blocks are laid end to end, starting at row 0. */
  lemma BlockContiguous(n: nat, parts: nat, r: nat)
    requires parts > 0
    ensures BlockStart(n, parts, 0) == 0
    ensures BlockStart(n, parts, r + 1) == BlockStart(n, parts, r) + BlockRows(n, parts, r)
  {
    MulSucc(r, n / parts);
  }

  /** The last block ends at row n. */
  lemma BlockCoversAll(n: nat, parts: nat)
    requires parts > 0
    ensures BlockStart(n, parts, parts) == n
  {
    assert n == parts * (n / parts) + n % parts;
  }

  /** Block sizes never grow with the rank, and two blocks differ by at most one row. */
  lemma BlockSizesBalanced(n: nat, parts: nat, r1: nat, r2: nat)
    requires parts > 0 && r1 <= r2
    ensures BlockRows(n, parts, r2) <= BlockRows(n, parts, r1) <= BlockRows(n, parts, r2) + 1
  {
  }

  /** Starts never decrease with the rank. */
  lemma {:induction false} BlockStartMonotone(n: nat, parts: nat, r1: nat, r2: nat)
    requires parts > 0 && r1 <= r2
    ensures BlockStart(n, parts, r1) <= BlockStart(n, parts, r2)
    decreases r2 - r1
  {
    if r1 < r2 {
      BlockContiguous(n, parts, r1);
      BlockStartMonotone(n, parts, r1 + 1, r2);
    }
  }

  predicate InBlock(n: nat, parts: nat, r: nat, row: nat)
    requires parts > 0
  {
    BlockStart(n, parts, r) <= row < BlockStart(n, parts, r) + BlockRows(n, parts, r)
  }

  /** No row lies in two blocks. */
  lemma BlockDisjoint(n: nat, parts: nat, r1: nat, r2: nat, row: nat)
    requires parts > 0
    requires InBlock(n, parts, r1, row) && InBlock(n, parts, r2, row)
    ensures r1 == r2
  {
    if r1 < r2 {
      BlockContiguous(n, parts, r1);
      BlockStartMonotone(n, parts, r1 + 1, r2);
    } else if r2 < r1 {
      BlockContiguous(n, parts, r2);
      BlockStartMonotone(n, parts, r2 + 1, r1);
    }
  }

  /** Every row below n lies in the block of some worker. */
  lemma BlockOwner(n: nat, parts: nat, row: nat) returns (r: nat)
    requires parts > 0 && row < n
    ensures r < parts && InBlock(n, parts, r, row)
  {
    BlockCoversAll(n, parts);
    r := 0;
    BlockContiguous(n, parts, 0);
    while r + 1 < parts && BlockStart(n, parts, r + 1) <= row
      invariant r < parts && BlockStart(n, parts, r) <= row
      decreases parts - r
    {
      r := r + 1;
    }
    BlockContiguous(n, parts, r);
  }

  /** The sizes of the first m blocks. */
  function BlockSizes(n: nat, parts: nat, m: nat): (s: seq<int>)
    requires parts > 0
    ensures |s| == m
  {
    seq(m, k requires 0 <= k => BlockRows(n, parts, k))
  }

  /** The start of block r is the sum of the sizes of the blocks before it;
      in particular all block sizes add up to n. */
  lemma {:induction false} BlockStartIsPrefixSum(n: nat, parts: nat, r: nat)
    requires parts > 0
    ensures Sum(BlockSizes(n, parts, r)) == BlockStart(n, parts, r)
  {
    if r == 0 {
      BlockContiguous(n, parts, 0);
    } else {
      BlockStartIsPrefixSum(n, parts, r - 1);
      BlockContiguous(n, parts, r - 1);
      var sizes := BlockSizes(n, parts, r);
      assert sizes == BlockSizes(n, parts, r - 1) + [BlockRows(n, parts, r - 1)];
      SumSnoc(BlockSizes(n, parts, r - 1), BlockRows(n, parts, r - 1));
    }
  }

  lemma BlockRowsSum(n: nat, parts: nat)
    requires parts > 0
    ensures Sum(BlockSizes(n, parts, parts)) == n
  {
    BlockStartIsPrefixSum(n, parts, parts);
    BlockCoversAll(n, parts);
  }

  /** The row ranges the `fila_actual` loop of multiplicarMatrixHilos hands
      to its threads (hilos.c:48-60): each range starts where the previous
      one ended, and holds n / numHilos rows plus one for the first
      n % numHilos threads. */
  method RowRanges(n: nat, numHilos: nat) returns (inicio: seq<nat>, fin: seq<nat>)
    requires numHilos > 0
    ensures |inicio| == |fin| == numHilos
    ensures forall i :: 0 <= i < numHilos ==>
      inicio[i] == BlockStart(n, numHilos, i) && fin[i] == BlockStart(n, numHilos, i + 1)
    ensures forall i :: 0 <= i < numHilos ==> fin[i] == inicio[i] + BlockRows(n, numHilos, i)
    ensures inicio[0] == 0 && fin[numHilos - 1] == n
  {
    var filasPorHilo := n / numHilos;
    var resto := n % numHilos;
    var filaActual := 0;
    inicio, fin := [], [];
    var i := 0;
    while i < numHilos
      invariant 0 <= i <= numHilos && |inicio| == |fin| == i
      invariant filaActual == BlockStart(n, numHilos, i)
      invariant forall t :: 0 <= t < i ==>
        inicio[t] == BlockStart(n, numHilos, t) && fin[t] == BlockStart(n, numHilos, t + 1)
    {
      var filasExtra := if i < resto then 1 else 0;
      BlockContiguous(n, numHilos, i);
      inicio := inicio + [filaActual];
      fin := fin + [filaActual + filasPorHilo + filasExtra];
      filaActual := filaActual + filasPorHilo + filasExtra;
      i := i + 1;
    }
    forall t | 0 <= t < numHilos
      ensures fin[t] == inicio[t] + BlockRows(n, numHilos, t)
    {
      BlockContiguous(n, numHilos, t);
    }
    BlockContiguous(n, numHilos, 0);
    BlockCoversAll(n, numHilos);
  }

  // ---------------------------------------------------------------------
  // Contiguous blocks, remainder to the last worker
  // (pruebas/hilos.c, reto3/src/traffic_mpi.c)
  // ---------------------------------------------------------------------

  /** First row of worker t: `t * (n / parts)`. */
  function TailStart(n: nat, parts: nat, t: nat): nat
    requires parts > 0
  {
    t * (n / parts)
  }

  /** End of worker t's rows: n for the last worker, `(t + 1) * (n / parts)` otherwise. */
  function TailEnd(n: nat, parts: nat, t: nat): nat
    requires parts > 0
  {
    if t == parts - 1 then n else (t + 1) * (n / parts)
  }

  /** Number of items of worker t: `n / parts`, plus `n % parts` for the last. */
  function TailCount(n: nat, parts: nat, t: nat): (count: nat)
    requires parts > 0
    ensures t != parts - 1 ==> count == n / parts
    ensures t == parts - 1 ==> count == n - (parts - 1) * (n / parts)
  {
    n / parts + (if t == parts - 1 then n % parts else 0)
  }

  /** The ranges tile [0, n): each one ends where the next starts, the first
      starts at 0, the last ends at n, and each holds TailCount items, so the
      last one absorbs the n % parts leftover. */
  lemma TailTiles(n: nat, parts: nat, t: nat)
    requires parts > 0 && t < parts
    ensures TailStart(n, parts, 0) == 0
    ensures t < parts - 1 ==> TailEnd(n, parts, t) == TailStart(n, parts, t + 1)
    ensures TailEnd(n, parts, parts - 1) == n
    ensures TailEnd(n, parts, t) - TailStart(n, parts, t) == TailCount(n, parts, t)
    ensures TailStart(n, parts, t) <= TailEnd(n, parts, t)
  {
    MulSucc(t, n / parts);
    assert n == parts * (n / parts) + n % parts;
    MulSucc(parts - 1, n / parts);
  }

  /** The counts of the first m workers. */
  function TailCounts(n: nat, parts: nat, m: nat): (s: seq<int>)
    requires parts > 0
    ensures |s| == m
  {
    seq(m, k requires 0 <= k => TailCount(n, parts, k))
  }

  /** The start of worker t is the sum of the counts before it; all counts
      add up to n. */
  lemma {:induction false} TailStartIsPrefixSum(n: nat, parts: nat, t: nat)
    requires parts > 0 && t < parts
    ensures Sum(TailCounts(n, parts, t)) == TailStart(n, parts, t)
  {
    if t > 0 {
      TailStartIsPrefixSum(n, parts, t - 1);
      TailTiles(n, parts, t - 1);
      MulSucc(t - 1, n / parts);
      assert TailCounts(n, parts, t)
        == TailCounts(n, parts, t - 1) + [TailCount(n, parts, t - 1)];
      SumSnoc(TailCounts(n, parts, t - 1), TailCount(n, parts, t - 1));
    }
  }

  lemma TailCountSum(n: nat, parts: nat)
    ensures parts > 0 ==> Sum(TailCounts(n, parts, parts)) == n
  {
    if parts > 0 {
      TailStartIsPrefixSum(n, parts, parts - 1);
      TailTiles(n, parts, parts - 1);
      var counts := TailCounts(n, parts, parts);
      assert counts == TailCounts(n, parts, parts - 1) + [TailCount(n, parts, parts - 1)];
      SumSnoc(TailCounts(n, parts, parts - 1), TailCount(n, parts, parts - 1));
    }
  }

  // ---------------------------------------------------------------------
  // Cyclic rows (caso1/hilos.c) and cyclic column tiles (caso1/procesos.c)
  // ---------------------------------------------------------------------

  /** Thread t of `threads` handles row i: `i % threads == t`. */
  predicate OwnsRow(threads: nat, t: nat, i: nat)
    requires threads > 0
    ensures OwnsRow(threads, t, i) ==> t < threads
  {
    i % threads == t
  }

  /** Every row has exactly one owning thread. */
  lemma RowOwnerUnique(threads: nat, i: nat)
    requires threads > 0
    ensures i % threads < threads && OwnsRow(threads, i % threads, i)
    ensures forall t :: OwnsRow(threads, t, i) ==> t == i % threads
  {
  }

  /** Process p of `procs` handles column j: its tile number j / bs is p modulo procs. */
  predicate OwnsColumn(procs: nat, bs: nat, p: nat, j: nat)
    requires procs > 0 && bs > 0
    ensures OwnsColumn(procs, bs, p, j) ==> p < procs
  {
    (j / bs) % procs == p
  }

  /** Every column has exactly one owning process. */
  lemma ColumnOwnerUnique(procs: nat, bs: nat, j: nat)
    requires procs > 0 && bs > 0
    ensures (j / bs) % procs < procs && OwnsColumn(procs, bs, (j / bs) % procs, j)
    ensures forall p :: OwnsColumn(procs, bs, p, j) ==> p == (j / bs) % procs
  {
  }

  /** Two values with the same residue less than one period apart are equal:
      a strided loop `i += step` visits every value of its residue class. */
  lemma SameResidueClose(a: nat, b: nat, step: nat)
    requires step > 0 && a <= b < a + step && a % step == b % step
    ensures a == b
  {
    var qa, qb := a / step, b / step;
    assert a == step * qa + a % step;
    assert b == step * qb + b % step;
    MulSub(step, qb, qa);
    ZeroMultiple(step, qb - qa);
  }

  lemma MulSub(k: int, x: int, y: int)
    ensures k * x - k * y == k * (x - y)
  {
  }

  /** The only multiple of a positive number below that number is 0. */
  lemma ZeroMultiple(step: nat, x: int)
    requires step > 0 && 0 <= step * x < step
    ensures x == 0
  {
  }

  /** Bounds on a quotient from bounds on the dividend. */
  lemma DivBounds(j: nat, lo: nat, hi: nat, bs: nat)
    requires bs > 0 && lo * bs <= j < hi * bs
    ensures lo <= j / bs < hi
  {
    var q := j / bs;
    assert j == q * bs + j % bs;
    if q < lo {
      MulLeRight(q + 1, lo, bs);
    } else if q >= hi {
      MulLeRight(hi, q, bs);
    }
  }

  /** Quotient and remainder are determined by y == q * d + r, 0 <= r < d. */
  lemma DivModUnique(y: nat, q: nat, r: nat, d: nat)
    requires d > 0 && r < d && y == q * d + r
    ensures y / d == q && y % d == r
  {
    assert (q + 1) * d == q * d + d;
    DivBounds(y, q, q + 1, d);
    assert y == (y / d) * d + y % d;
  }

  /** Stepping by `step` keeps the residue, and nothing strictly between
      has it. */
  lemma StrideGap(i: nat, step: nat)
    requires step > 0
    ensures (i + step) % step == i % step
    ensures forall p :: i < p < i + step ==> p % step != i % step
  {
    ModStep(i, step);
    forall p | i < p < i + step
      ensures p % step != i % step
    {
      if p % step == i % step {
        SameResidueClose(i, p, step);
      }
    }
  }

  lemma ModStep(x: nat, procs: nat)
    requires procs > 0
    ensures (x + procs) % procs == x % procs
  {
    var q := x / procs;
    assert x == q * procs + x % procs;
    assert (q + 1) * procs == q * procs + procs;
    DivModUnique(x + procs, q + 1, x % procs, procs);
  }

  /** Every column of tile t (columns [t*bs, t*bs + bs)) belongs to the
      process that owns the tile. */
  lemma TileOwned(procs: nat, bs: nat, p: nat, t: nat, j: nat)
    requires procs > 0 && bs > 0 && t % procs == p
    requires t * bs <= j < t * bs + bs
    ensures OwnsColumn(procs, bs, p, j)
  {
    assert (t + 1) * bs == t * bs + bs;
    DivBounds(j, t, t + 1, bs);
  }

  /** The columns between one of p's tiles and its next one, procs tiles
      later, belong to other processes. */
  lemma GapNotOwned(procs: nat, bs: nat, p: nat, t: nat, j: nat)
    requires procs > 0 && bs > 0 && t % procs == p
    requires t * bs + bs <= j < (t + procs) * bs
    ensures !OwnsColumn(procs, bs, p, j)
  {
    assert (t + 1) * bs == t * bs + bs;
    DivBounds(j, t + 1, t + procs, bs);
    if (j / bs) % procs == p {
      SameResidueClose(t, j / bs, procs);
    }
  }

  /** The columns before p's first tile belong to lower-numbered processes. */
  lemma LeadNotOwned(procs: nat, bs: nat, p: nat, j: nat)
    requires bs > 0 && p < procs && j < p * bs
    ensures !OwnsColumn(procs, bs, p, j)
  {
    DivBounds(j, 0, p, bs);
  }

  // ---------------------------------------------------------------------
  // Ranges handed to workers, and the order the workers run in
  // ---------------------------------------------------------------------

  /** Worker w gets rows [starts[w], ends[w]); the ranges are laid end to
      end from 0 to n. */
  predicate Tiling(starts: seq<nat>, ends: seq<nat>, n: nat)
  {
    && |starts| == |ends| && |starts| > 0
    && starts[0] == 0 && ends[|ends| - 1] == n
    && (forall w :: 0 <= w < |starts| ==> starts[w] <= ends[w])
    && (forall w :: 0 <= w < |starts| - 1 ==> ends[w] == starts[w + 1])
  }

  /** A later range starts no earlier than an earlier one ends. */
  lemma {:induction false} TilingOrdered(starts: seq<nat>, ends: seq<nat>, n: nat, w1: nat, w2: nat)
    requires Tiling(starts, ends, n) && w1 < w2 < |starts|
    ensures ends[w1] <= starts[w2]
    decreases w2 - w1
  {
    if w1 + 1 < w2 {
      TilingOrdered(starts, ends, n, w1 + 1, w2);
    }
  }

  /** Every range lies inside [0, n). */
  lemma TilingInside(starts: seq<nat>, ends: seq<nat>, n: nat, w: nat)
    requires Tiling(starts, ends, n) && w < |starts|
    ensures ends[w] <= n
  {
    if w < |starts| - 1 {
      TilingOrdered(starts, ends, n, w, |starts| - 1);
    }
  }

  /** No row lies in two ranges. */
  lemma TilingDisjoint(starts: seq<nat>, ends: seq<nat>, n: nat, w1: nat, w2: nat, row: nat)
    requires Tiling(starts, ends, n) && w1 < |starts| && w2 < |starts|
    requires starts[w1] <= row < ends[w1] && starts[w2] <= row < ends[w2]
    ensures w1 == w2
  {
    if w1 < w2 {
      TilingOrdered(starts, ends, n, w1, w2);
    } else if w2 < w1 {
      TilingOrdered(starts, ends, n, w2, w1);
    }
  }

  /** Every row below n lies in some range. */
  lemma TilingOwner(starts: seq<nat>, ends: seq<nat>, n: nat, row: nat) returns (w: nat)
    requires Tiling(starts, ends, n) && row < n
    ensures w < |starts| && starts[w] <= row < ends[w]
  {
    w := 0;
    while ends[w] <= row
      invariant w < |starts| && starts[w] <= row
      decreases |starts| - w
    {
      w := w + 1;
    }
  }

  /** The row ranges of hilos.c tile [0, n). */
  lemma BlocksTile(n: nat, parts: nat, inicio: seq<nat>, fin: seq<nat>)
    requires parts > 0 && |inicio| == |fin| == parts
    requires forall i :: 0 <= i < parts ==>
      inicio[i] == BlockStart(n, parts, i) && fin[i] == BlockStart(n, parts, i + 1)
    ensures Tiling(inicio, fin, n)
  {
    BlockContiguous(n, parts, 0);
    BlockCoversAll(n, parts);
    forall w | 0 <= w < parts
      ensures inicio[w] <= fin[w]
    {
      BlockContiguous(n, parts, w);
    }
  }

  /** The row ranges that give the leftover to the last worker tile [0, n). */
  lemma TailsTile(n: nat, parts: nat, starts: seq<nat>, ends: seq<nat>)
    requires parts > 0 && |starts| == |ends| == parts
    requires forall t :: 0 <= t < parts ==>
      starts[t] == TailStart(n, parts, t) && ends[t] == TailEnd(n, parts, t)
    ensures Tiling(starts, ends, n)
  {
    forall t | 0 <= t < parts
      ensures starts[t] <= ends[t] && (t < parts - 1 ==> ends[t] == starts[t + 1])
    {
      TailTiles(n, parts, t);
    }
    TailTiles(n, parts, 0);
  }

  /** The workers 0 .. workers-1 each started once, in the order `order`
      (the operating system's choice). */
  predicate Schedule(order: seq<nat>, workers: nat)
  {
    && |order| == workers
    && (forall s :: 0 <= s < |order| ==> order[s] < workers)
    && (forall s1, s2 :: 0 <= s1 < s2 < |order| ==> order[s1] != order[s2])
    && (forall w :: 0 <= w < workers ==> w in order)
  }
}
