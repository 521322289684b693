# HPC course kernels: rule-184 traffic and square matrix products

This project is a Dafny model of the computational core of the stivcs/HPC
repository. It covers two families of kernels.

**Traffic.** A ring road of `N` cells holds at most one car per cell. A car
moves one cell to the right when that cell is empty and stays otherwise.
This is elementary cellular automaton rule 184.
- `reto3/src/traffic_serial.c` runs the rule on one buffer.
- `reto3/src/traffic_mpi.c` splits the ring among MPI ranks. Each rank
  holds `local_N` real cells plus two ghost cells. Before each step it
  swaps ghosts with its ring neighbours (two `MPI_Sendrecv` calls), then
  applies the rule locally.

**Matrices.** `size x size` integer matrices are filled from `rand()` and
multiplied in several ways:
- sequentially, with the i-j-k loop (`example.c`) or the i-k-j loop
  (`caso2/.../secuencial.c`, `caso1/linealPrueba.c`,
  `pruebas/linealPrueba.c`);
- with pthreads over contiguous row blocks (`hilos.c`, `pruebas/hilos.c`)
  or over rows cyclically, `i = tid, tid + T, ...` (`caso1/hilos.c`);
- with forked processes over shared memory, as cache tiles whose column
  tiles are dealt cyclically to processes (`caso1/procesos.c`);
- with MPI, as a row-block `Scatterv` / `Bcast` / local product /
  `Gatherv` on flattened buffers (`caso3/mul_mat.c`).

Modules:
- `TrafficRule`: rule 184 as a pure function on a ring, with the
  stay/move/arrive split and car conservation.
- `TrafficSerial`: the serial program, imperative, on `array<int>`.
- `TrafficMpi`: the distributed world as a value, meaning one buffer per
  rank. It covers the halo exchange, the local step as the source writes
  it, the seam defect and a corrected local rule that agrees with the
  serial one.
- `TrafficMpiRank`: a `Rank` class per process, with buffers swapped in
  place. The whole run is proved to follow `TrafficMpi`.
- `Partition`: the two row-partition schemes used by the programs. These
  are balanced blocks (`caso3`, `hilos.c`) and "remainder to the last
  part" (`traffic_mpi.c`, `pruebas/hilos.c`). The module also covers cyclic
  row and column ownership and thread schedules.
- `MatrixSpec`: the reference product `Product`, the `int` range
  argument, and row-major flattening with its inverse.
- `MatrixDense`, `MatrixThreads`, `MatrixMpi`, `MatrixBlocked`: the
  variants above, each proved to leave `Product(A, B)` in `C`.
- `Report`: the directory walk of `createDirectoryIfNotExists`, the
  result file names and the derived statistics.

The model replaces the program's inputs and outside effects:
- Calls to `rand()` become explicit draw sequences, with `draws[i][j]`
  standing for the value `rand()` returns for entry (i, j).
- Thread and process interleavings become an explicit `order`, which is
  any permutation of the workers. The workers write disjoint cells, so
  every order gives the same result.
- MPI ranks are run one after another.

`traffic_mpi.c:37-38` gives each rank `N / size` cells and the whole
remainder to the last rank; `Partition.TailCount` follows it.

## Model

| member | source | states |
|---|---|---|
| TrafficRule.Cell184 | reto3/src/traffic_serial.c:54-57 | one cell's next value from its old left, own and right values: 1 when its car is blocked or a car arrives from the left, else 0; always a bit |
| TrafficRule.Rule184 | reto3/src/traffic_serial.c:50-58 | one synchronous step of the whole ring, each cell from `Cell184` of its ring neighbours; same length, only bits |
| TrafficRule.Iterate | reto3/src/traffic_serial.c:48-63 | `t` successive steps of `Rule184`; the road keeps its length |
| TrafficRule.Occupancy | reto3/src/traffic_serial.c:14-15 | a cell is occupied exactly when its draw scaled by RAND_MAX is below the density; the result is a bit |
| TrafficRule.InitialRoad | reto3/src/traffic_serial.c:11-18 | the initial road has one cell per draw and only 0/1 cells |
| TrafficRule.SuccIsModulo | reto3/src/traffic_serial.c:53 | the right neighbour on the ring is `(i + 1) % N` |
| TrafficRule.RingNeighbours | reto3/src/traffic_mpi.c:68-69 | left and right neighbour on the ring are inverse to each other |
| TrafficRule.WritersExclusive | reto3/src/traffic_serial.c:56-57 | a cell is never written 1 both by a staying car and by an arriving car, so `|=` never merges two cars |
| TrafficRule.CarsStayOrMove | reto3/src/traffic_serial.c:54-56 | every car either stays or moves; the cars equal stayers plus movers |
| TrafficRule.ArrivalsRotateMoves | reto3/src/traffic_serial.c:57 | the arrivals are the moves rotated one cell right, so there are as many arrivals as moves |
| TrafficRule.StayPlusArrive | reto3/src/traffic_serial.c:52-58 | each new cell is its stay bit plus its arrival bit |
| TrafficRule.Rule184Conserves | reto3/src/traffic_serial.c:48-63 | one step keeps the number of cars |
| TrafficRule.IterateConserves | reto3/src/traffic_serial.c:48-63 | any number of steps keeps the number of cars and the 0/1 property |
| TrafficRule.WrapAround | reto3/src/traffic_serial.c:53-57 | a car in the last cell moves across the wrap to cell 0 exactly when cell 0 is empty |
| TrafficRule.Example | reto3/src/traffic_serial.c:52-58 | a concrete ten-cell road: the next road, three moves, four cars before and after |
| TrafficSerial.CreateRoad | reto3/src/traffic_serial.c:11-18 | `create_road` builds the initial road from the draws |
| TrafficSerial.TotalCars | reto3/src/traffic_serial.c:38-40 | the counted total is the sum of the road |
| TrafficSerial.WrittenNone | reto3/src/traffic_serial.c:50 | after the `memset` nothing has been written |
| TrafficSerial.HandleCell | reto3/src/traffic_serial.c:53-57 | one pass of the inner loop ORs the stay bit into cell i and the move bit into its right neighbour |
| TrafficSerial.WrittenAll | reto3/src/traffic_serial.c:52-58 | after all N passes the written buffer is the rule-184 successor |
| TrafficSerial.Step | reto3/src/traffic_serial.c:50-58 | the step loop leaves `Rule184(road)` in `next` and does not touch `road` |
| TrafficSerial.Simulate | reto3/src/traffic_serial.c:35-63 | after `steps` swaps the road is the `steps`-fold iterate (none for negative steps), and it still holds `total_cars` cars |
| Partition.TailCount | reto3/src/traffic_mpi.c:37-38 | `local_N`: `N / size` for every rank but the last, which gets `N - (size - 1) * (N / size)` |
| Partition.TailTiles | reto3/src/traffic_mpi.c:37-38 | parts are contiguous, start at 0, end at n, and each part's length is its `local_N` |
| Partition.TailStartIsPrefixSum | reto3/src/traffic_mpi.c:37-38 | each part starts at the sum of the earlier parts' lengths |
| Partition.TailCountSum | reto3/src/traffic_mpi.c:37-38 | the parts' lengths add up to n |
| TrafficMpi.NoEmptyRankIff | reto3/src/traffic_mpi.c:37-38 | every rank has a real cell exactly when `N >= size` |
| TrafficMpi.InitialBuffer | reto3/src/traffic_mpi.c:40-48 | a rank's buffer has `local_N + 2` bits with zero ghosts and the drawn cells in between |
| TrafficMpi.InitialWorld | reto3/src/traffic_mpi.c:37-48 | one buffer per rank, shaped by the partition and holding only bits |
| TrafficMpi.SendLeft | reto3/src/traffic_mpi.c:71-73 | the first `MPI_Sendrecv`: each rank's right ghost receives its right neighbour's `road[1]`; every buffer keeps its length |
| TrafficMpi.SendRight | reto3/src/traffic_mpi.c:75-77 | the second `MPI_Sendrecv`: each rank's left ghost receives its left neighbour's `road[local_N]`; every buffer keeps its length |
| TrafficMpi.Exchange | reto3/src/traffic_mpi.c:71-77 | the halo exchange on every rank; every buffer keeps its length (its content is stated by the four rows below) |
| TrafficMpi.ExchangeKeepsCells | reto3/src/traffic_mpi.c:71-77 | the halo exchange changes no real cell |
| TrafficMpi.ExchangeFillsGhosts | reto3/src/traffic_mpi.c:71-77 | when no rank is empty, after the exchange the left ghost is the left neighbour's last real cell and the right ghost the right neighbour's first |
| TrafficMpi.ExchangeIsTwoPhases | reto3/src/traffic_mpi.c:71-77 | the exchange is the two `Sendrecv` phases in order |
| TrafficMpi.ExchangeBitWorld | reto3/src/traffic_mpi.c:71-77 | the exchange keeps the shape and the 0/1 property |
| TrafficMpi.LocalCell | reto3/src/traffic_mpi.c:81-91 | cell j of `next` after the `memset` and the loop as written: the left ghost stays 0, a real cell gets its stay bit ORed with the move from the cell before it (only from cell 2 on), the right ghost gets the move out of the last real cell; always a bit |
| TrafficMpi.LocalNext | reto3/src/traffic_mpi.c:81-91 | the whole `next` buffer of a rank: same length as `road`, only bits |
| TrafficMpi.LocalNextInterior | reto3/src/traffic_mpi.c:83-90 | away from the seam the local step is rule 184 |
| TrafficMpi.LocalNextFirstCell | reto3/src/traffic_mpi.c:81-90 | the step leaves the left ghost 0 and gives cell 1 only its stay bit, so cell 1 differs from rule 184 exactly when a car waits in the left ghost before an empty cell 1 |
| TrafficMpi.LocalCarsLost | reto3/src/traffic_mpi.c:83-91 | the cars in the real cells after a local step, plus the car written into the right ghost, are the cars before |
| TrafficMpi.GenerationIsLocalNext | reto3/src/traffic_mpi.c:71-91 | one generation is the exchange followed by the local step on every rank |
| TrafficMpi.GenerationLosesSeamCars | reto3/src/traffic_mpi.c:83-91 | as written, a generation loses exactly the cars that crossed a rank seam |
| TrafficMpi.OffsetIsTailStart | reto3/src/traffic_mpi.c:37-38 | the rank's offset in the flattened ring is its partition start |
| TrafficMpi.FlatHoldsN | reto3/src/traffic_mpi.c:37-38 | the real cells of all ranks, concatenated, are exactly N cells |
| TrafficMpi.FixedNextAgrees | reto3/src/traffic_mpi.c:83-90 | the corrected local step agrees with the written one away from the left seam |
| TrafficMpi.FixedGenerationMatchesSerial | reto3/src/traffic_mpi.c:71-91 | when every rank owns a cell (N >= size), with the corrected local step one distributed generation equals one serial rule-184 step of the whole ring |
| TrafficMpi.RealCarsIsFlatSum | reto3/src/traffic_mpi.c:50-54 | the sum of the ranks' local counts is the number of cars in the flattened ring |
| TrafficMpi.FixedGenerationConserves | reto3/src/traffic_mpi.c:83-91 | when every rank owns a cell (N >= size), the corrected generation keeps the number of cars |
| TrafficMpi.SeamLossExample | reto3/src/traffic_mpi.c:83-91 | two ranks with one real cell each, buffers `[0,1,0]` and `[0,0,0]`: the serial ring moves its car, the distributed one loses it (1 car to 0) |
| TrafficMpiRank.LocalWrittenNone | reto3/src/traffic_mpi.c:81 | after the `memset` the rank's `next` is all zero |
| TrafficMpiRank.LocalHandleCell | reto3/src/traffic_mpi.c:84-90 | one pass ORs the stay bit into cell i and the move bit into `right`, clamped to the ghost |
| TrafficMpiRank.LocalWrittenAll | reto3/src/traffic_mpi.c:83-91 | after the loop the rank's `next` is the local step of its road |
| TrafficMpiRank.Rank.constructor | reto3/src/traffic_mpi.c:37-48 | a rank's `local_N` is its partition count and its road is the initial buffer |
| TrafficMpiRank.Rank.LocalCars | reto3/src/traffic_mpi.c:50-51 | the local count is the sum of the real cells |
| TrafficMpiRank.Rank.ReceiveRight | reto3/src/traffic_mpi.c:72 | only the right ghost changes |
| TrafficMpiRank.Rank.ReceiveLeft | reto3/src/traffic_mpi.c:76 | only the left ghost changes |
| TrafficMpiRank.Rank.Step | reto3/src/traffic_mpi.c:81-95 | the buffers are swapped and the road becomes the local step of the old road |
| TrafficMpiRank.StartRanks | reto3/src/traffic_mpi.c:37-48 | the fresh, separate ranks hold the initial world |
| TrafficMpiRank.TotalCars | reto3/src/traffic_mpi.c:50-54 | the reduced count is the world's real car count |
| TrafficMpiRank.FirstCells | reto3/src/traffic_mpi.c:71 | collects every rank's `road[1]` |
| TrafficMpiRank.LastCells | reto3/src/traffic_mpi.c:75 | collects every rank's `road[local_N]` |
| TrafficMpiRank.PhaseSendLeft | reto3/src/traffic_mpi.c:71-73 | the ranks then hold the world after the first phase |
| TrafficMpiRank.PhaseSendRight | reto3/src/traffic_mpi.c:75-77 | the ranks then hold the world after the second phase |
| TrafficMpiRank.ExchangeHalos | reto3/src/traffic_mpi.c:71-77 | the ranks then hold the exchanged world |
| TrafficMpiRank.StepAll | reto3/src/traffic_mpi.c:81-95 | every rank's road becomes the local step of its exchanged buffer |
| TrafficMpiRank.OneGeneration | reto3/src/traffic_mpi.c:66-95 | one iteration of the time loop moves the ranks to the next generation |
| TrafficMpiRank.Run | reto3/src/traffic_mpi.c:64-96 | `steps` iterations leave the ranks at the `steps`-th generation |
| TrafficMpiRank.Simulate | reto3/src/traffic_mpi.c:37-96 | the final world is the generations of the initial world, and the reported total is its initial car count |
| Partition.BlockRows | caso3/mul_mat.c:63 | `local_rows`: `N / size`, plus one for the first `N % size` ranks, so between `N / size` and `N / size + 1` |
| Partition.BlockStart | caso3/mul_mat.c:62 | `start_row`: `rank * (N / size)` plus the extra rows of the earlier ranks; never past N for `rank <= size` |
| Partition.BlockContiguous | caso3/mul_mat.c:62-63 | each block ends where the next starts and holds its `local_rows` rows |
| Partition.BlockCoversAll | caso3/mul_mat.c:60-63 | the first block starts at row 0 and the last ends at row N |
| Partition.BlockSizesBalanced | caso3/mul_mat.c:63 | block sizes never grow with the rank and differ by at most one |
| Partition.BlockStartMonotone | caso3/mul_mat.c:62 | block starts never decrease |
| Partition.BlockDisjoint | caso3/mul_mat.c:62-63 | distinct blocks share no row |
| Partition.BlockOwner | caso3/mul_mat.c:62-63 | every row lies in exactly one block |
| Partition.BlockStartIsPrefixSum | caso3/mul_mat.c:62-63 | a block starts at the sum of the earlier block sizes |
| Partition.BlockRowsSum | caso3/mul_mat.c:60-63 | the block sizes add up to N |
| Partition.RowRanges | hilos.c:48-60 | the `inicio`/`fin` arrays are the balanced blocks: the first starts at 0, the last ends at N |
| Partition.BlocksTile | hilos.c:48-60 | the balanced blocks tile the rows |
| Partition.TailsTile | pruebas/hilos.c:100-112 | "remainder to the last" ranges tile the rows |
| Partition.TilingDisjoint | hilos.c:48-60 | in a tiling no row belongs to two workers |
| Partition.TilingOwner | hilos.c:48-60 | in a tiling every row belongs to some worker |
| Partition.OwnsRow | caso1/hilos.c:78 | thread t visits row i exactly when `i % T == t`, so only threads `t < T` own rows |
| Partition.OwnsColumn | caso1/procesos.c:83 | process p owns column j exactly when j's tile index `j / block_size` is p modulo the process count, so only `p < num_processes` owns columns |
| Partition.RowOwnerUnique | caso1/hilos.c:78 | each row has exactly one cyclic owner thread |
| Partition.ColumnOwnerUnique | caso1/procesos.c:83 | each column has exactly one owning process under the cyclic tile deal |
| Partition.TileOwned | caso1/procesos.c:83-84 | every column of a tile dealt to process p is owned by p |
| Partition.GapNotOwned | caso1/procesos.c:83 | the columns between two of p's tiles belong to other processes |
| Partition.LeadNotOwned | caso1/procesos.c:83 | the columns before p's first tile belong to other processes |
| MatrixSpec.DotBound | hilos.c:35 | a dot product of entries bounded by m has magnitude at most `n*m*m` |
| MatrixSpec.RunningSumsFitInt32 | caso3/mul_mat.c:104-107 | when entries are bounded by m in magnitude and `N*m*m` fits in a 32-bit `int`, every partial sum of every entry fits too |
| MatrixSpec.IdxInjective | caso3/mul_mat.c:23 | `i*n + j` is a bijection between cells and buffer slots |
| MatrixSpec.FlattenAt | caso3/mul_mat.c:19-25 | the flat buffer holds entry (i, j) at `i*n + j` |
| MatrixSpec.UnflattenAt | caso3/mul_mat.c:27-35 | entry (i, j) of the rebuilt matrix is slot `i*n + j` |
| MatrixSpec.UnflattenFlatten | caso3/mul_mat.c:19-35 | unflattening a flattened matrix gives the matrix back |
| MatrixSpec.FlattenUnflatten | caso3/mul_mat.c:19-35 | flattening an unflattened buffer gives the buffer back |
| MatrixSpec.FlatDotIsDot | caso3/mul_mat.c:106-107 | the flat dot product of row i and column j is the matrix dot product |
| MatrixSpec.FlatDotShift | caso3/mul_mat.c:95-96 | the dot products of a rank's local rows are those of the global rows at its offset |
| MatrixSpec.ProductRowsSlice | caso3/mul_mat.c:95-117 | a block whose cells are the local dot products is exactly the slice `[start_row*N, (start_row + local_rows)*N)` of the flat product |
| MatrixDense.FillMatrix | caso3/mul_mat.c:11-15 | each entry is `draw % modulus + offset`, so entries lie in `[offset, offset + modulus)` |
| MatrixDense.FillCentered | hilos.c:18-24 | `llenarMatrix` entries are `rand() % 101 - 50`, in [-50, 50] |
| MatrixDense.CreatePercent | caso1/hilos.c:47-58 | a fresh matrix with entries `rand() % 100`, in [0, 99] |
| MatrixDense.CreateOneToHundred | caso2/src/secuencial/secuencial.c:129-137 | a fresh matrix with entries `rand() % 100 + 1`, in [1, 100] |
| MatrixDense.CreateZero | caso2/src/secuencial/secuencial.c:139-144 | a fresh all-zero matrix, as `calloc` gives |
| MatrixDense.ResetAndAccumulate | example.c:19-22 | entry (i, j) becomes the dot product of row i and column j; no other entry changes |
| MatrixDense.ResetRow | hilos.c:32-37 | row i becomes row i of the product; other rows are unchanged |
| MatrixDense.MultiplyRows | hilos.c:27-41 | rows `[inicio, fin)` become the product's rows; all others are unchanged |
| MatrixDense.Multiply | example.c:16-25 | C ends as A*B whatever it held before |
| MatrixDense.DotProduct | caso1/hilos.c:80-84 | the local `sum` is entry (i, j) of A*B |
| MatrixDense.AssignRow | caso1/hilos.c:79-85 | row i becomes row i of the product; other rows are unchanged |
| MatrixDense.MultiplyStrided | caso1/hilos.c:76-88 | rows `tid, tid+T, ...` become the product's rows; all other rows are unchanged |
| MatrixDense.AddScaledRow | caso2/src/secuencial/secuencial.c:159-160 | row i gains `temp * B[k]`; other rows are unchanged |
| MatrixDense.AccumulateRow | caso2/src/secuencial/secuencial.c:157-161 | row i gains row i of A*B |
| MatrixDense.MultiplyAccumulate | caso2/src/secuencial/secuencial.c:155-162 | C gains A*B, so a zeroed C becomes the product |
| MatrixDense.ValidateResult | caso1/linealPrueba.c:91-113 | reports correct exactly when C equals A*B; otherwise it reports the first mismatch in row-major order |
| MatrixDense.LogicalNot | pruebas/hilos.c:59 | `=!expected` stores 1 exactly when the expected value is 0 |
| MatrixDense.SampleCheckAsWritten | pruebas/hilos.c:49-63 | as written, each sampled entry is overwritten with `!expected`, and a sample is reported exactly when its expected value is 0, whatever C held |
| MatrixDense.SampleCheck | pruebas/hilos.c:49-63 | corrected: a sample is reported exactly when its entry differs from A*B |
| MatrixDense.SampleCheckAsWrittenIsWrong | pruebas/hilos.c:59 | for a 1x1 product of 1 with a wrong entry of 5 nothing is reported; a correct zero product is flagged |
| MatrixThreads.RunRowWorkers | hilos.c:62-68 | workers over a tiling of the rows, in any order, leave A*B in C |
| MatrixThreads.MultiplyWithThreads | hilos.c:44-69 | `multiplicarMatrixHilos` leaves A*B in C for any positive thread count and any join order |
| MatrixThreads.TwoThreadRanges | pruebas/hilos.c:100-112 | the ranges of the two threads are "remainder to the last" and tile the rows |
| MatrixThreads.MultiplyTwoThreads | pruebas/hilos.c:99-117 | the two-thread product leaves A*B in C |
| MatrixThreads.MultiplyCyclic | caso1/hilos.c:91-115 | with at least one thread C becomes A*B; with a zero or negative `num_threads` (`caso1/hilos.c:143`, unchecked) no thread runs and C is unchanged |
| MatrixThreads.SequentialProduct | caso2/src/secuencial/secuencial.c:139-162 | a fresh zero matrix accumulated with A*B is A*B |
| MatrixMpi.CopyRow | caso3/mul_mat.c:22-23 | row i is copied to `[base, base + n)`; other slots are unchanged |
| MatrixMpi.FlattenInto | caso3/mul_mat.c:77-79 | the buffer becomes the row-major flattening of the matrix |
| MatrixMpi.FlattenMatrix | caso3/mul_mat.c:19-25 | a fresh row-major buffer of the matrix |
| MatrixMpi.UnflattenMatrix | caso3/mul_mat.c:27-35 | a fresh matrix that is the inverse of flattening the buffer |
| MatrixMpi.RankRegion | caso3/mul_mat.c:86-92 | a rank's region ends where the next begins and stays inside the buffer |
| MatrixMpi.ScatterTables | caso3/mul_mat.c:86-92 | `sendcounts` and `displs` are `local_rows*N` and `start_row*N`; the regions are contiguous and end at N*N |
| MatrixMpi.AccumulateAt | caso3/mul_mat.c:105-107 | the k and j loops for local row i: each slot of the row at `i*N` gains its flat dot product over all k; every other slot is unchanged |
| MatrixMpi.AddScaledFlatRow | caso3/mul_mat.c:106-107 | the local row gains `aik` times row k of B; other slots are unchanged |
| MatrixMpi.AccumulateFlatRow | caso3/mul_mat.c:104-107 | local row i gains its dot products; other rows are unchanged |
| MatrixMpi.LocalMultiply | caso3/mul_mat.c:104-107 | every local cell gains its dot product of the local A rows with B |
| MatrixMpi.RankMultiply | caso3/mul_mat.c:104-107 | the zeroed `local_C` ends as the rank's rows of A times B |
| MatrixMpi.GatherBlock | caso3/mul_mat.c:115-117 | the rank's block lands at `displ`; the rest of C is unchanged |
| MatrixMpi.RunRank | caso3/mul_mat.c:95-117 | after a rank's turn its region of C holds those rows of A*B; other slots are unchanged |
| MatrixMpi.DistributedMultiply | caso3/mul_mat.c:86-117 | the gathered buffer is the flattened product A*B for any rank count |
| MatrixMpi.MpiMain | caso3/mul_mat.c:51-117 | `N <= 0` stops the program; otherwise C is A*B for drawn matrices in [1,100] |
| MatrixBlocked.AddToElement | caso1/procesos.c:35 | only slot `row*size + col` gains `value` |
| MatrixBlocked.FillFlat | caso1/procesos.c:60-64 | the flat buffer is the drawn matrix with entries in [1,100] |
| MatrixBlocked.FillRow | caso1/procesos.c:62-63 | row `i` of the flat buffer, slots `[base, base + n)`, becomes `draw % 100 + 1`; every other slot is unchanged |
| MatrixBlocked.InitResult | caso1/procesos.c:67-69 | every slot is zero |
| MatrixBlocked.BlockSizeFor | caso1/procesos.c:105 | the tile size is 128 above 2000, 64 above 1000 and 32 otherwise |
| MatrixBlocked.TileEnd | caso1/procesos.c:82-86 | a tile end is the tile start plus the block size, clamped to size |
| MatrixBlocked.AddScaledSegment | caso1/procesos.c:90-92 | columns `[j0, jmax)` of row i gain `aik * B[k][j]`; nothing else changes |
| MatrixBlocked.TileRow | caso1/procesos.c:88-93 | the k and j loops of one tile row: each cell `(i, j)` with `j0 <= j < jmax` gains the partial dot over `[k0, kmax)`; every other slot is unchanged |
| MatrixBlocked.TileRowEntries | caso1/procesos.c:88-93 | row i's tile cells gain the partial dot over `[k0, kmax)`; nothing else changes |
| MatrixBlocked.TileRows | caso1/procesos.c:87-94 | every cell of the tile gains its partial dot over `[k0, kmax)` |
| MatrixBlocked.TileColumn | caso1/procesos.c:85-95 | over all k-tiles every tile cell gains its full dot product |
| MatrixBlocked.OwnedTiles | caso1/procesos.c:83-96 | the columns process p owns, in rows `[i0, imax)`, gain their dot products; nothing else changes |
| MatrixBlocked.MultiplyProcess | caso1/procesos.c:72-98 | process p adds A*B exactly into the columns it owns |
| MatrixBlocked.MultiplyWithProcesses | caso1/procesos.c:101-126 | all processes, in any order, add A*B into C |
| MatrixBlocked.ExpectedEntry | caso1/procesos.c:211-212 | the validation's `expected` is entry (i, j) of A*B |
| MatrixBlocked.ValidateFlat | caso1/procesos.c:206-220 | correct exactly when C is the flattened product; otherwise the first mismatch |
| MatrixBlocked.ProcessesMain | caso1/procesos.c:156-220 | non-positive size or count stops the program; otherwise C is A*B, and validation runs and succeeds exactly when size <= 500 |
| Report.Trimmed | caso2/src/secuencial/secuencial.c:45 | one trailing `/` is dropped, and only then |
| Report.CopyPath | caso2/src/secuencial/secuencial.c:44 | `strcpy` copies the path and its terminator |
| Report.WalkSlashes | caso2/src/secuencial/secuencial.c:47-53 | the loop targets the prefix before each `/` after the first character, in order, and restores the buffer |
| Report.CreateDirectoryTargets | caso2/src/secuencial/secuencial.c:34-55 | null or empty paths do nothing; paths of 1024 bytes or more fail; otherwise every parent prefix and then the path are created |
| Report.SlashPrefixes | caso2/src/secuencial/secuencial.c:47-53 | the `mkdir` targets of the slash loop over the first p characters, in order; fewer targets than characters |
| Report.DirTargets | caso2/src/secuencial/secuencial.c:47-54 | all directories created for a trimmed path: the slash targets, then the path itself, which is always last |
| Report.SlashPrefixesSound | caso2/src/secuencial/secuencial.c:47-53 | every target is a proper prefix ending before a `/`, and the targets grow strictly |
| Report.SlashPrefixesComplete | caso2/src/secuencial/secuencial.c:47-53 | every `/` after the first character yields a target |
| Report.DirTargetsAreParents | caso2/src/secuencial/secuencial.c:47-54 | the last directory created is the path itself, and every ancestor is created before it |
| Report.SequentialResultsFile | caso2/src/secuencial/secuencial.c:57-61 | the file name is the directory, `/`, then `Secuencial_Results.csv` |
| Report.LinealResultsFile | caso1/linealPrueba.c:134-142 | the file name is the directory, `/`, then `Lineal_Results.csv` |
| Report.ResultsFilesDistinct | caso2/src/secuencial/secuencial.c:57-61 | the two programs never name the same file, and each name determines its directory |
| Report.TotalOperations | caso2/src/secuencial/secuencial.c:205 | `size*size*(2*size - 1)` is the count of multiplications (`size^3`) plus additions (`size^2*(size - 1)`); it is negative exactly when `size` is |
| Report.MemoryUsedMb | caso1/linealPrueba.c:258 | the reported megabytes are `12*size*size / 2^20`, rounded down |

## Left out

- Monte Carlo (needles, dartboard) and the OpenMP program are outside the modelled core.
- `rand()`, `srand` and `time` are not modelled. Their values enter as draw sequences, and `RAND_MAX` is fixed at 2147483647.
- Thread, process and MPI runtimes (`pthread_create`/`join`, `fork`/`waitpid`, shared memory, `MPI_*`) are not modelled. Workers run one after another in a given `order`. Each variant is proved correct for every order, but true interleaving is not modelled.
- Timing, `getrusage`, CSV headers and rows and `printf` output are I/O and left out. The traffic programs parse `print_freq` (`traffic_serial.c:30`, `traffic_mpi.c:29`) but never use it.
- `mkdir` is not performed: `Report.CreateDirectoryTargets` returns the directories it would create. Permission and existence errors of `mkdir` are not modelled.
- The single `stat`/`mkdir` of `createDirectoryIfNotExists` in `caso1/hilos.c`, `caso1/linealPrueba.c`, `pruebas/linealPrueba.c:117-132` and `caso1/procesos.c:38-47` is I/O and left out.
- MatrixBlocked.ProcessesMain: a failing `mkdir` in `caso1/procesos.c:38-47` makes `main` return `EXIT_FAILURE` at line 168; the model has no file system, so this exit is not modelled.
- `generateUniqueFilename` in `pruebas/linealPrueba.c:135-156` names files by the clock and is left out.
- The 256-byte file name buffers are not modelled, so long directory names are not truncated.
- Matrix entries are unbounded integers. `int` overflow is not modelled: `MatrixSpec.RunningSumsFitInt32` states when no sum leaves 32 bits. `long long` counters are unbounded too.
- Report.MemoryUsedMb: the source computes `3 * size * size` in `int`, which overflows for large sizes; the model computes it unbounded.
- Floating-point statistics (GFLOPS, elements per second, times) are left out. `density` is a `real`.
- The `int**` matrices are `array2<int>`. A and B are passed as sequence values because no variant writes to them.
- The `int*` buffers of `caso1/procesos.c` and `caso3/mul_mat.c` are `array<int>`.
- `getNumCPUs` (`caso1/procesos.c:129-132`) becomes the process count parameter. Its fallback to 1 is not modelled.
- The sampled positions of `verificarMultiplicacion` (`rand() % n`) are a parameter.
- MatrixMpi.MpiMain: the size check on `argc` and the printing and freeing after the gather are not modelled. The gathered product is returned instead.
- TrafficSerial.Simulate and TrafficMpiRank.Simulate: `main`'s argument checks, the `system("mkdir -p results")` call and the final report are I/O and left out.
- TrafficSerial.Simulate, TrafficSerial.CreateRoad, TrafficMpiRank.Simulate, TrafficMpiRank.StartRanks: both programs take `N` from `atoi` unchecked (`traffic_serial.c:27`, `traffic_mpi.c:26`). A negative N is undefined behaviour once steps > 0: the serial `malloc`/`calloc` return NULL and `memset` writes through it, and the MPI `local_N + 2` buffers are too small for the `MPI_Sendrecv` slots. The model takes `n: nat`.
- `caso2/src/secuencial/secuencial.c` `main` never checks `size`. For a non-positive size the loops are empty, which the model covers as `n = 0`, but line 205 then computes a non-positive `total_operations` (-63 for size -3); `Report.TotalOperations` takes an `int` and states when it is negative.
- MatrixDense.CreatePercent: a negative `size` at `caso1/hilos.c:142` makes `malloc` fail, and `createMatrix` then calls `exit(1)` at lines 48-49; the model takes `n: nat` and does not model that exit.
- MatrixThreads.MultiplyWithThreads, Partition.RowRanges: `hilos.c:83` takes `num_hilos` from `atoi` unchecked; 0 divides by zero at line 48 and a negative value declares negative-length arrays at lines 45-46. Both are undefined behaviour in C, so the model requires a positive thread count.
- TrafficMpi.SendLeft, TrafficMpi.SendRight: when N < size some ranks have `local_N = 0`, and their `MPI_Sendrecv` calls send from and receive into the same slot (`&road[1] == &road[local_N + 1]` at `traffic_mpi.c:71-72`, `&road[local_N] == &road[0]` at lines 75-76). The model assumes every rank sends its value from before the call, which MPI does not promise for overlapping buffers; `FixedGenerationMatchesSerial` and `FixedGenerationConserves` are stated only for N >= size.
- Other identical copies are covered by the same members and are not cited again:
  - the `createMatrix`, `createResultMatrix` and `validateResult` of `caso1/linealPrueba.c` and `pruebas/linealPrueba.c`;
  - the i-k-j loop of `multiplyMatrices` there, which equals `MatrixDense.MultiplyAccumulate`;
  - the statistics lines of `pruebas/linealPrueba.c:296` and `pruebas/linealPrueba.c:307`.

## Findings

| source | as written | input that shows it | evidently intended | confidence | as-written member | corrected member |
|---|---|---|---|---|---|---|
| reto3/src/traffic_mpi.c:83-91 | the local step writes a car crossing into the right ghost, where the next exchange overwrites it; nothing ever writes a car into cell 1 from the left ghost | 2 ranks, N = 2, buffers `[0,1,0]` and `[0,0,0]`: the car leaving rank 0 disappears, so the ring goes from 1 car to 0 | each rank also places the car arriving from its left ghost, so that, when every rank owns a cell (N >= size), the distributed step equals serial rule 184 (`FixedGenerationMatchesSerial`) and conserves cars (`FixedGenerationConserves`) | not executed | TrafficMpi.GenerationLosesSeamCars | TrafficMpi.FixedGenerationMatchesSerial |
| pruebas/hilos.c:59 | `C[i][j] =! esperado` parses as `C[i][j] = !esperado`: it overwrites the sampled entry and reports exactly when the expected value is 0 | 1x1 matrices A = B = [[1]] with C = [[5]]: the wrong entry is not reported; with A = B = [[0]] and a correct C = [[0]] an error is reported | report an entry when `C[i][j] != expected` | not executed | MatrixDense.SampleCheckAsWritten | MatrixDense.SampleCheck |
