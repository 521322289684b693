/** The kernels that work on `int **` matrices (an array of row pointers),
    here an `array2<int>`: the random fills, the zeroed result, the three
    loop orders of the product (i-j-k with a reset, i-j-k into a local sum,
    i-k-j accumulating), the full validation and the sampled check.
    A and B are only read by every kernel, so they are passed as their
    contents, `seq<seq<int>>` values. */
module MatrixDense {
  import opened Common
  import opened MatrixSpec
  import opened Partition

  /** Row i of a two-dimensional array. */
  function RowOf(m: array2<int>, i: nat): (row: seq<int>)
    requires i < m.Length0
    reads m
    ensures |row| == m.Length1
    ensures forall j :: 0 <= j < m.Length1 ==> row[j] == m[i, j]
  {
    seq(m.Length1, j requires 0 <= j < m.Length1 reads m => m[i, j])
  }

  /** The contents of a two-dimensional array as a sequence of rows. */
  function Contents(m: array2<int>): (s: seq<seq<int>>)
    reads m
    ensures |s| == m.Length0
    ensures forall i :: 0 <= i < m.Length0 ==> s[i] == RowOf(m, i)
  {
    seq(m.Length0, i requires 0 <= i < m.Length0 reads m => RowOf(m, i))
  }

  /** An n-by-n array holds exactly the matrix s. */
  lemma ContentsIs(m: array2<int>, n: nat, s: seq<seq<int>>)
    requires m.Length0 == n && m.Length1 == n && IsSquare(s, n)
    requires forall i, j :: 0 <= i < n && 0 <= j < n ==> m[i, j] == s[i][j]
    ensures Contents(m) == s
  {
    forall i | 0 <= i < n
      ensures Contents(m)[i] == s[i]
    {
    }
  }

  // ---------------------------------------------------------------------
  // Creation
  // ---------------------------------------------------------------------

  /** The values `rand()` returned, one per entry in row-major order: any
      non-negative ints. */
  predicate ValidDraws(draws: seq<seq<int>>, n: nat)
  {
    IsSquare(draws, n) && forall i, j :: 0 <= i < n && 0 <= j < n ==> 0 <= draws[i][j]
  }

  /** The matrix a fill produces from `draws`: entry (i, j) is
      `draws[i][j] % modulus + offset`. */
  function Drawn(draws: seq<seq<int>>, n: nat, modulus: nat, offset: int): (m: seq<seq<int>>)
    requires ValidDraws(draws, n) && modulus > 0
    ensures IsSquare(m, n)
  {
    seq(n, i requires 0 <= i < n => DrawnRow(draws[i], n, modulus, offset))
  }

  function DrawnRow(row: seq<int>, n: nat, modulus: nat, offset: int): (r: seq<int>)
    requires |row| == n && modulus > 0
    ensures |r| == n
  {
    seq(n, j requires 0 <= j < n => row[j] % modulus + offset)
  }

  /** The fill loop shared by every `createMatrix` and `llenarMatrix`:
      entry (i, j) becomes `rand() % modulus + offset`. On a non-negative
      draw C's `%` agrees with Dafny's. */
  method FillMatrix(m: array2<int>, n: nat, draws: seq<seq<int>>, modulus: nat, offset: int)
    requires m.Length0 == n && m.Length1 == n && ValidDraws(draws, n) && modulus > 0
    modifies m
    ensures forall i, j :: 0 <= i < n && 0 <= j < n ==> m[i, j] == draws[i][j] % modulus + offset
    ensures Contents(m) == Drawn(draws, n, modulus, offset)
    ensures IsSquare(Contents(m), n) && InRange(Contents(m), n, offset, offset + modulus - 1)
  {
    for i := 0 to n
      invariant forall p, q :: 0 <= p < i && 0 <= q < n ==> m[p, q] == draws[p][q] % modulus + offset
    {
      for j := 0 to n
        invariant forall p, q :: 0 <= p < i && 0 <= q < n ==> m[p, q] == draws[p][q] % modulus + offset
        invariant forall q :: 0 <= q < j ==> m[i, q] == draws[i][q] % modulus + offset
      {
        m[i, j] := draws[i][j] % modulus + offset;
      }
    }
    ContentsIs(m, n, Drawn(draws, n, modulus, offset));
  }

  /** `llenarMatrix` of hilos.c, pruebas/hilos.c and example.c:
      `(rand() % 101) - 50`, every entry in [-50, 50]. */
  method FillCentered(m: array2<int>, n: nat, draws: seq<seq<int>>)
    requires m.Length0 == n && m.Length1 == n && ValidDraws(draws, n)
    modifies m
    ensures forall i, j :: 0 <= i < n && 0 <= j < n ==> m[i, j] == draws[i][j] % 101 - 50
    ensures IsSquare(Contents(m), n) && InRange(Contents(m), n, -50, 50)
  {
    FillMatrix(m, n, draws, 101, -50);
  }

  /** `createMatrix` of caso1/hilos.c: a new matrix of `rand() % 100`,
      every entry in [0, 99]. */
  method CreatePercent(n: nat, draws: seq<seq<int>>) returns (m: array2<int>)
    requires ValidDraws(draws, n)
    ensures fresh(m) && m.Length0 == n && m.Length1 == n
    ensures forall i, j :: 0 <= i < n && 0 <= j < n ==> m[i, j] == draws[i][j] % 100
    ensures IsSquare(Contents(m), n) && InRange(Contents(m), n, 0, 99)
  {
    m := new int[n, n];
    FillMatrix(m, n, draws, 100, 0);
  }

  /** `createMatrix` of caso2/src/secuencial/secuencial.c and both
      linealPrueba.c files (and of caso3/mul_mat.c): a new matrix of
      `rand() % 100 + 1`, every entry in [1, 100]. */
  method CreateOneToHundred(n: nat, draws: seq<seq<int>>) returns (m: array2<int>)
    requires ValidDraws(draws, n)
    ensures fresh(m) && m.Length0 == n && m.Length1 == n
    ensures forall i, j :: 0 <= i < n && 0 <= j < n ==> m[i, j] == draws[i][j] % 100 + 1
    ensures Contents(m) == Drawn(draws, n, 100, 1)
    ensures IsSquare(Contents(m), n) && InRange(Contents(m), n, 1, 100)
  {
    m := new int[n, n];
    FillMatrix(m, n, draws, 100, 1);
  }

  /** `createResultMatrix`: every row from `calloc`, so all zero. */
  method CreateZero(n: nat) returns (c: array2<int>)
    ensures fresh(c) && c.Length0 == n && c.Length1 == n
    ensures Contents(c) == Zero(n)
  {
    c := new int[n, n]((_, _) => 0);
    ContentsIs(c, n, Zero(n));
  }

  // ---------------------------------------------------------------------
  // i-j-k with a reset: hilos.c multiplicarParte, pruebas/hilos.c
  // multiplicar_parcial, example.c multiplicarMatrix
  // ---------------------------------------------------------------------

  /** `C[i][j] = 0;` then the k loop `C[i][j] += A[i][k] * B[k][j]`. */
  method ResetAndAccumulate(a: seq<seq<int>>, b: seq<seq<int>>, n: nat, c: array2<int>, i: nat, j: nat)
    requires IsSquare(a, n) && IsSquare(b, n) && c.Length0 == n && c.Length1 == n && i < n && j < n
    modifies c
    ensures c[i, j] == Entry(a, b, n, i, j)
    ensures forall p, q :: 0 <= p < n && 0 <= q < n && (p != i || q != j) ==> c[p, q] == old(c[p, q])
  {
    c[i, j] := 0;
    for k := 0 to n
      invariant c[i, j] == Dot(a, b, n, i, j, k)
      invariant forall p, q :: 0 <= p < n && 0 <= q < n && (p != i || q != j) ==> c[p, q] == old(c[p, q])
    {
      c[i, j] := c[i, j] + a[i][k] * b[k][j];
    }
  }

  /** The j loop of one row: row i becomes row i of A*B whatever C held. */
  method ResetRow(a: seq<seq<int>>, b: seq<seq<int>>, n: nat, c: array2<int>, i: nat)
    requires IsSquare(a, n) && IsSquare(b, n) && c.Length0 == n && c.Length1 == n && i < n
    modifies c
    ensures forall q :: 0 <= q < n ==> c[i, q] == Entry(a, b, n, i, q)
    ensures forall p, q :: 0 <= p < n && 0 <= q < n && p != i ==> c[p, q] == old(c[p, q])
  {
    for j := 0 to n
      invariant forall q :: 0 <= q < j ==> c[i, q] == Entry(a, b, n, i, q)
      invariant forall p, q :: 0 <= p < n && 0 <= q < n && p != i ==> c[p, q] == old(c[p, q])
    {
      ResetAndAccumulate(a, b, n, c, i, j);
    }
  }

  /** `multiplicarParte` / `multiplicar_parcial` on rows [lo, hi): those
      rows become rows of A*B whatever C held (C comes from `malloc` in
      pruebas/hilos.c), every other row is left alone. */
  method MultiplyRows(a: seq<seq<int>>, b: seq<seq<int>>, n: nat, c: array2<int>, lo: nat, hi: nat)
    requires IsSquare(a, n) && IsSquare(b, n) && c.Length0 == n && c.Length1 == n && lo <= hi <= n
    modifies c
    ensures forall p, q :: 0 <= p < n && 0 <= q < n ==>
      c[p, q] == (if lo <= p < hi then Entry(a, b, n, p, q) else old(c[p, q]))
  {
    for i := lo to hi
      invariant forall p, q :: 0 <= p < n && 0 <= q < n ==>
        c[p, q] == (if lo <= p < i then Entry(a, b, n, p, q) else old(c[p, q]))
    {
      ResetRow(a, b, n, c, i);
    }
  }

  /** example.c `multiplicarMatrix`: the same loops over every row, so C
      becomes A*B whatever it held before. */
  method Multiply(a: seq<seq<int>>, b: seq<seq<int>>, n: nat, c: array2<int>)
    requires IsSquare(a, n) && IsSquare(b, n) && c.Length0 == n && c.Length1 == n
    modifies c
    ensures Contents(c) == Product(a, b, n)
  {
    MultiplyRows(a, b, n, c, 0, n);
    ContentsIs(c, n, Product(a, b, n));
  }

  // ---------------------------------------------------------------------
  // i-j-k into a local sum: caso1/hilos.c multiplyThread
  // ---------------------------------------------------------------------

  /** `int sum = 0; for k: sum += A[i][k] * B[k][j];` -- also the
      `expected` loop of every validation. */
  method DotProduct(a: seq<seq<int>>, b: seq<seq<int>>, n: nat, i: nat, j: nat) returns (sum: int)
    requires IsSquare(a, n) && IsSquare(b, n) && i < n && j < n
    ensures sum == Entry(a, b, n, i, j)
  {
    sum := 0;
    for k := 0 to n
      invariant sum == Dot(a, b, n, i, j, k)
    {
      sum := sum + a[i][k] * b[k][j];
    }
  }

  /** The j loop of one row: `C[i][j] = sum`. */
  method AssignRow(a: seq<seq<int>>, b: seq<seq<int>>, n: nat, c: array2<int>, i: nat)
    requires IsSquare(a, n) && IsSquare(b, n) && c.Length0 == n && c.Length1 == n && i < n
    modifies c
    ensures forall q :: 0 <= q < n ==> c[i, q] == Entry(a, b, n, i, q)
    ensures forall p, q :: 0 <= p < n && 0 <= q < n && p != i ==> c[p, q] == old(c[p, q])
  {
    for j := 0 to n
      invariant forall q :: 0 <= q < j ==> c[i, q] == Entry(a, b, n, i, q)
      invariant forall p, q :: 0 <= p < n && 0 <= q < n && p != i ==> c[p, q] == old(c[p, q])
    {
      var sum := DotProduct(a, b, n, i, j);
      c[i, j] := sum;
    }
  }

  /** Before the first step no row below tid is in tid's residue class. */
  lemma ResidueStart(done: set<nat>, threads: nat, tid: nat)
    requires tid < threads && done == {}
    ensures tid % threads == tid
    ensures forall p: nat :: p in done <==> p < tid && p % threads == tid
  {
    DivModUnique(tid, 0, tid, threads);
    forall p: nat | p < tid
      ensures p % threads != tid
    {
      DivModUnique(p, 0, p, threads);
    }
  }

  /** One step of `i += num_threads`: the rows below the new i in the
      residue class of tid are the old ones and i. */
  lemma ResidueStep(done: set<nat>, i: nat, threads: nat, tid: nat)
    requires tid < threads && i % threads == tid
    requires forall p: nat :: p in done <==> p < i && p % threads == tid
    ensures (i + threads) % threads == tid
    ensures forall p: nat :: p in done + {i} <==> p < i + threads && p % threads == tid
  {
    StrideGap(i, threads);
  }

  /** `multiplyThread`: thread `tid` of `threads` walks rows tid,
      tid + threads, ... and assigns each one its row of A*B; rows of the
      other residue classes are left alone. */
  method MultiplyStrided(a: seq<seq<int>>, b: seq<seq<int>>, n: nat, c: array2<int>, tid: nat, threads: nat)
    requires IsSquare(a, n) && IsSquare(b, n) && c.Length0 == n && c.Length1 == n
    requires tid < threads
    modifies c
    ensures forall p, q :: 0 <= p < n && 0 <= q < n ==>
      c[p, q] == (if p % threads == tid then Entry(a, b, n, p, q) else old(c[p, q]))
  {
    var i := tid;
    ghost var done: set<nat> := {};
    ResidueStart(done, threads, tid);
    while i < n
      invariant i % threads == tid
      invariant forall p: nat :: p in done <==> p < i && p % threads == tid
      invariant forall p, q :: 0 <= p < n && 0 <= q < n ==>
        c[p, q] == (if p in done then Entry(a, b, n, p, q) else old(c[p, q]))
      decreases n - i
    {
      AssignRow(a, b, n, c, i);
      ResidueStep(done, i, threads, tid);
      done := done + {i};
      i := i + threads;
    }
  }

  // ---------------------------------------------------------------------
  // i-k-j accumulating: caso2/src/secuencial/secuencial.c and both
  // linealPrueba.c files
  // ---------------------------------------------------------------------

  /** The j loop `C[i][j] += temp * B[k][j]`. */
  method AddScaledRow(b: seq<seq<int>>, n: nat, c: array2<int>, i: nat, k: nat, temp: int)
    requires IsSquare(b, n) && c.Length0 == n && c.Length1 == n && i < n && k < n
    modifies c
    ensures forall q :: 0 <= q < n ==> c[i, q] == old(c[i, q]) + temp * b[k][q]
    ensures forall p, q :: 0 <= p < n && 0 <= q < n && p != i ==> c[p, q] == old(c[p, q])
  {
    for j := 0 to n
      invariant forall q :: 0 <= q < n ==> c[i, q] == old(c[i, q]) + (if q < j then temp * b[k][q] else 0)
      invariant forall p, q :: 0 <= p < n && 0 <= q < n && p != i ==> c[p, q] == old(c[p, q])
    {
      c[i, j] := c[i, j] + temp * b[k][j];
    }
  }

  /** The k loop of row i: `int temp = A[i][k];` then the j loop. */
  method AccumulateRow(a: seq<seq<int>>, b: seq<seq<int>>, n: nat, c: array2<int>, i: nat)
    requires IsSquare(a, n) && IsSquare(b, n) && c.Length0 == n && c.Length1 == n && i < n
    modifies c
    ensures forall q :: 0 <= q < n ==> c[i, q] == old(c[i, q]) + Entry(a, b, n, i, q)
    ensures forall p, q :: 0 <= p < n && 0 <= q < n && p != i ==> c[p, q] == old(c[p, q])
  {
    for k := 0 to n
      invariant forall q :: 0 <= q < n ==> c[i, q] == old(c[i, q]) + Dot(a, b, n, i, q, k)
      invariant forall p, q :: 0 <= p < n && 0 <= q < n && p != i ==> c[p, q] == old(c[p, q])
    {
      var temp := a[i][k];
      AddScaledRow(b, n, c, i, k, temp);
    }
  }

  /** `multiplyMatrices` (i-k-j): C becomes C + A*B entry by entry; the
      rows before i are final and the rows after i untouched. */
  method MultiplyAccumulate(a: seq<seq<int>>, b: seq<seq<int>>, n: nat, c: array2<int>)
    requires IsSquare(a, n) && IsSquare(b, n) && c.Length0 == n && c.Length1 == n
    modifies c
    ensures forall p, q :: 0 <= p < n && 0 <= q < n ==> c[p, q] == old(c[p, q]) + Entry(a, b, n, p, q)
  {
    for i := 0 to n
      invariant forall p, q :: 0 <= p < n && 0 <= q < n ==>
        c[p, q] == old(c[p, q]) + (if p < i then Entry(a, b, n, p, q) else 0)
    {
      AccumulateRow(a, b, n, c, i);
    }
  }

  // ---------------------------------------------------------------------
  // Checking a result
  // ---------------------------------------------------------------------

  /** Every entry before (i, j) in row-major order equals the product's. */
  ghost predicate CorrectBefore(a: seq<seq<int>>, b: seq<seq<int>>, n: nat, c: array2<int>, i: nat, j: nat)
    requires IsSquare(a, n) && IsSquare(b, n) && c.Length0 == n && c.Length1 == n
    reads c
  {
    forall p, q :: 0 <= p < n && 0 <= q < n && (p < i || (p == i && q < j)) ==> c[p, q] == Entry(a, b, n, p, q)
  }

  /** `validateResult`: walks C in row-major order while `correct` holds,
      recomputing each expected entry. `mismatch` is the entry whose error
      line is printed; "Correcta" is printed exactly when C == A*B. */
  method ValidateResult(a: seq<seq<int>>, b: seq<seq<int>>, n: nat, c: array2<int>)
    returns (correct: bool, mismatch: Option<(nat, nat)>)
    requires IsSquare(a, n) && IsSquare(b, n) && c.Length0 == n && c.Length1 == n
    ensures correct <==> Contents(c) == Product(a, b, n)
    ensures correct <==> mismatch == None
    ensures mismatch.Some? ==> var (i, j) := mismatch.value;
      i < n && j < n && c[i, j] != Entry(a, b, n, i, j) && CorrectBefore(a, b, n, c, i, j)
  {
    correct := true;
    mismatch := None;
    var i := 0;
    while i < n && correct
      invariant 0 <= i <= n
      invariant correct ==> mismatch == None && CorrectBefore(a, b, n, c, i, 0)
      invariant !correct ==> mismatch.Some? && var (mi, mj) := mismatch.value;
        mi < n && mj < n && c[mi, mj] != Entry(a, b, n, mi, mj) && CorrectBefore(a, b, n, c, mi, mj)
    {
      var j := 0;
      while j < n && correct
        invariant 0 <= j <= n
        invariant correct ==> mismatch == None && CorrectBefore(a, b, n, c, i, j)
        invariant !correct ==> mismatch.Some? && var (mi, mj) := mismatch.value;
          mi < n && mj < n && c[mi, mj] != Entry(a, b, n, mi, mj) && CorrectBefore(a, b, n, c, mi, mj)
      {
        var expected := DotProduct(a, b, n, i, j);
        var actual := c[i, j];
        if expected != actual {
          mismatch := Some((i, j));
          correct := false;
        }
        j := j + 1;
      }
      i := i + 1;
    }
    if correct {
      ContentsIs(c, n, Product(a, b, n));
    } else {
      var (mi, mj) := mismatch.value;
      assert Contents(c)[mi][mj] != Product(a, b, n)[mi][mj];
    }
  }

  /** C's `!expected`: 1 when expected is 0, else 0 -- `Common.Not`,
      named here for the `=!` of `verificarMultiplicacion`. */
  function LogicalNot(expected: int): (r: int)
    ensures r == 1 <==> expected == 0
    ensures r == 0 || r == 1
  {
    Not(expected)
  }

  /** `verificarMultiplicacion` as written: `if (C[i][j] =! esperado)`
      parses as `C[i][j] = !esperado`, so each sampled entry is overwritten
      with !expected and the error line is printed exactly when the
      expected value is 0, whatever C held. */
  method SampleCheckAsWritten(a: seq<seq<int>>, b: seq<seq<int>>, n: nat, c: array2<int>, samples: seq<(nat, nat)>)
    returns (reported: seq<bool>)
    requires IsSquare(a, n) && IsSquare(b, n) && c.Length0 == n && c.Length1 == n
    requires forall s :: 0 <= s < |samples| ==> samples[s].0 < n && samples[s].1 < n
    modifies c
    ensures |reported| == |samples|
    ensures forall s :: 0 <= s < |samples| ==>
      reported[s] == (Entry(a, b, n, samples[s].0, samples[s].1) == 0)
    ensures forall p, q :: 0 <= p < n && 0 <= q < n ==>
      c[p, q] == (if (p, q) in samples then LogicalNot(Entry(a, b, n, p, q)) else old(c[p, q]))
  {
    reported := [];
    for s := 0 to |samples|
      invariant |reported| == s
      invariant forall t :: 0 <= t < s ==> reported[t] == (Entry(a, b, n, samples[t].0, samples[t].1) == 0)
      invariant forall p, q :: 0 <= p < n && 0 <= q < n ==>
        c[p, q] == (if (p, q) in samples[..s] then LogicalNot(Entry(a, b, n, p, q)) else old(c[p, q]))
    {
      var (i, j) := samples[s];
      var esperado := DotProduct(a, b, n, i, j);
      c[i, j] := LogicalNot(esperado);
      reported := reported + [c[i, j] != 0];
      assert samples[..s + 1] == samples[..s] + [(i, j)];
    }
    assert samples[..|samples|] == samples;
  }

  /** The check as evidently intended, `C[i][j] != esperado`: C is left
      alone and a sample is reported exactly when its entry is wrong. */
  method SampleCheck(a: seq<seq<int>>, b: seq<seq<int>>, n: nat, c: array2<int>, samples: seq<(nat, nat)>)
    returns (reported: seq<bool>)
    requires IsSquare(a, n) && IsSquare(b, n) && c.Length0 == n && c.Length1 == n
    requires forall s :: 0 <= s < |samples| ==> samples[s].0 < n && samples[s].1 < n
    ensures |reported| == |samples|
    ensures forall s :: 0 <= s < |samples| ==>
      reported[s] == (c[samples[s].0, samples[s].1] != Entry(a, b, n, samples[s].0, samples[s].1))
  {
    reported := [];
    for s := 0 to |samples|
      invariant |reported| == s
      invariant forall t :: 0 <= t < s ==>
        reported[t] == (c[samples[t].0, samples[t].1] != Entry(a, b, n, samples[t].0, samples[t].1))
    {
      var (i, j) := samples[s];
      var esperado := DotProduct(a, b, n, i, j);
      reported := reported + [c[i, j] != esperado];
    }
  }

  /** The as-written check misses a wrong product and flags a right one:
      with A = B = [[1]] the entry 5 is wrong, but !1 == 0 so nothing is
      printed; with A = B = [[0]] the entry 0 is right, but !0 == 1 so an
      error is printed. */
  lemma SampleCheckAsWrittenIsWrong()
    ensures Entry([[1]], [[1]], 1, 0, 0) != 5 && LogicalNot(Entry([[1]], [[1]], 1, 0, 0)) == 0
    ensures Entry([[0]], [[0]], 1, 0, 0) == 0 && LogicalNot(Entry([[0]], [[0]], 1, 0, 0)) == 1
  {
    assert Dot([[1]], [[1]], 1, 0, 0, 1) == 1;
    assert Dot([[0]], [[0]], 1, 0, 0, 1) == 0;
  }
}
