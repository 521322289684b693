/** The programs that hand rows of the product to threads and then join
    them: hilos.c (contiguous blocks, remainder to the first threads),
    pruebas/hilos.c (two threads, remainder to the last), caso1/hilos.c
    (cyclic rows), and the single-threaded drivers of
    caso2/src/secuencial/secuencial.c and example.c. Threads write
    disjoint rows of C, so they are run one after the other, in an
    arbitrary order chosen by a `Schedule`. */
module MatrixThreads {
  import opened MatrixSpec
  import opened Partition
  import opened MatrixDense

  /** `NUM_THREADS` of pruebas/hilos.c. */
  const NumThreads: nat := 2

  /** The rows lo, ..., hi - 1 as a set. */
  ghost function Span(lo: nat, hi: nat): (r: set<nat>)
    ensures forall p :: p in r <==> lo <= p < hi
    decreases hi - lo
  {
    if lo >= hi then {} else {lo} + Span(lo + 1, hi)
  }

  /** The row workers of hilos.c and pruebas/hilos.c, started in the order
      `order` and joined: worker w runs `multiplicarParte` on rows
      [starts[w], ends[w]). Whatever the order and whatever C held, C ends
      as A*B. */
  method RunRowWorkers(a: seq<seq<int>>, b: seq<seq<int>>, n: nat, c: array2<int>,
                       starts: seq<nat>, ends: seq<nat>, order: seq<nat>)
    requires IsSquare(a, n) && IsSquare(b, n) && c.Length0 == n && c.Length1 == n
    requires Tiling(starts, ends, n) && Schedule(order, |starts|)
    modifies c
    ensures Contents(c) == Product(a, b, n)
  {
    ghost var done: set<nat> := {};
    for s := 0 to |order|
      invariant forall p, q :: 0 <= p < n && 0 <= q < n ==>
        c[p, q] == (if p in done then Entry(a, b, n, p, q) else old(c[p, q]))
      invariant forall w, p :: w in order[..s] && w < |starts| && starts[w] <= p < ends[w] ==> p in done
    {
      var w := order[s];
      TilingInside(starts, ends, n, w);
      MultiplyRows(a, b, n, c, starts[w], ends[w]);
      done := done + Span(starts[w], ends[w]);
      assert order[..s + 1] == order[..s] + [w];
    }
    assert order[..|order|] == order;
    forall p, q | 0 <= p < n && 0 <= q < n
      ensures c[p, q] == Entry(a, b, n, p, q)
    {
      var w := TilingOwner(starts, ends, n, p);
      assert w in order;
    }
    ContentsIs(c, n, Product(a, b, n));
  }

  /** hilos.c `multiplicarMatrixHilos`: the range loop of `fila_actual`,
      then one `multiplicarParte` per thread. `num_hilos` must be positive
      (`n / num_hilos`). */
  method MultiplyWithThreads(a: seq<seq<int>>, b: seq<seq<int>>, c: array2<int>, n: nat,
                             numHilos: nat, order: seq<nat>)
    requires IsSquare(a, n) && IsSquare(b, n) && c.Length0 == n && c.Length1 == n
    requires numHilos > 0 && Schedule(order, numHilos)
    modifies c
    ensures Contents(c) == Product(a, b, n)
  {
    var inicio, fin := RowRanges(n, numHilos);
    BlocksTile(n, numHilos, inicio, fin);
    RunRowWorkers(a, b, n, c, inicio, fin, order);
  }

  /** The range loop of pruebas/hilos.c: thread t starts at
      `t * filas_por_hilo` and ends there plus `filas_por_hilo`, except the
      last thread, which ends at n. */
  method TwoThreadRanges(n: nat) returns (starts: seq<nat>, ends: seq<nat>)
    ensures |starts| == |ends| == NumThreads
    ensures forall t :: 0 <= t < NumThreads ==>
      starts[t] == TailStart(n, NumThreads, t) && ends[t] == TailEnd(n, NumThreads, t)
    ensures Tiling(starts, ends, n)
  {
    var filasPorHilo := n / NumThreads;
    starts, ends := [], [];
    for t := 0 to NumThreads
      invariant |starts| == |ends| == t
      invariant forall u :: 0 <= u < t ==>
        starts[u] == TailStart(n, NumThreads, u) && ends[u] == TailEnd(n, NumThreads, u)
    {
      starts := starts + [t * filasPorHilo];
      ends := ends + [if t == NumThreads - 1 then n else (t + 1) * filasPorHilo];
    }
    TailsTile(n, NumThreads, starts, ends);
  }

  /** The multiplication in pruebas/hilos.c `main`: C comes from `malloc`,
      and the two `multiplicar_parcial` threads still leave exactly A*B. */
  method MultiplyTwoThreads(a: seq<seq<int>>, b: seq<seq<int>>, c: array2<int>, n: nat, order: seq<nat>)
    requires IsSquare(a, n) && IsSquare(b, n) && c.Length0 == n && c.Length1 == n
    requires Schedule(order, NumThreads)
    modifies c
    ensures Contents(c) == Product(a, b, n)
  {
    var starts, ends := TwoThreadRanges(n);
    RunRowWorkers(a, b, n, c, starts, ends, order);
  }

  /** caso1/hilos.c `multiplyMatrices`: one `multiplyThread` per thread id,
      in the order `order`. The residue classes modulo `num_threads`
      partition the rows, so C ends as A*B. `num_threads` comes from `atoi`
      unchecked: when it is 0 or negative both `t < num_threads` loops are
      empty, no thread is started and C keeps its contents. */
  method MultiplyCyclic(a: seq<seq<int>>, b: seq<seq<int>>, c: array2<int>, n: nat,
                        threads: int, order: seq<nat>)
    requires IsSquare(a, n) && IsSquare(b, n) && c.Length0 == n && c.Length1 == n
    requires threads > 0 ==> Schedule(order, threads)
    requires threads <= 0 ==> order == []
    modifies c
    ensures threads > 0 ==> Contents(c) == Product(a, b, n)
    ensures threads <= 0 ==> Contents(c) == old(Contents(c))
  {
    for s := 0 to |order|
      invariant forall p, q :: 0 <= p < n && 0 <= q < n ==>
        c[p, q] == (if threads > 0 && p % threads in order[..s] then Entry(a, b, n, p, q) else old(c[p, q]))
    {
      MultiplyStrided(a, b, n, c, order[s], threads as nat);
      assert order[..s + 1] == order[..s] + [order[s]];
    }
    assert order[..|order|] == order;
    if threads > 0 {
      ContentsIs(c, n, Product(a, b, n));
    } else {
      assert forall p, q :: 0 <= p < n && 0 <= q < n ==> c[p, q] == old(c[p, q]);
      assert forall p :: 0 <= p < n ==> Contents(c)[p] == old(Contents(c))[p];
    }
  }

  /** The multiplication in caso2/src/secuencial/secuencial.c `main` (and
      in both linealPrueba.c files): `createResultMatrix`, then the i-k-j
      `multiplyMatrices`, which starts from zero and so gives exactly A*B --
      the same result as example.c's i-j-k `multiplicarMatrix`. */
  method SequentialProduct(a: seq<seq<int>>, b: seq<seq<int>>, n: nat) returns (c: array2<int>)
    requires IsSquare(a, n) && IsSquare(b, n)
    ensures fresh(c) && c.Length0 == n && c.Length1 == n
    ensures Contents(c) == Product(a, b, n)
  {
    c := CreateZero(n);
    assert forall p, q :: 0 <= p < n && 0 <= q < n ==> c[p, q] == 0 by {
      forall p, q | 0 <= p < n && 0 <= q < n
        ensures c[p, q] == 0
      {
        assert Contents(c)[p][q] == Zero(n)[p][q];
      }
    }
    MultiplyAccumulate(a, b, n, c);
    ContentsIs(c, n, Product(a, b, n));
  }
}
