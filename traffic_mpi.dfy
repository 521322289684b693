/** reto3/src/traffic_mpi.c as a whole-world model. Rank r of `size` keeps
    a buffer of local_N + 2 cells: a left ghost at index 0, its own cells at
    1..local_N and a right ghost at local_N + 1. A generation is a halo
    exchange (two MPI_Sendrecv phases) followed by the local update of every
    rank. The world is the sequence of all buffers, indexed by rank. */
module TrafficMpi {
  import opened Common
  import opened TrafficRule
  import opened Partition

  // ---------------------------------------------------------------------
  // Ranks and buffers
  // ---------------------------------------------------------------------

  // The neighbours of rank r on the ring of ranks are Pred(r, size)
  // (`left_rank`) and Succ(r, size) (`right_rank`), as for cells.

  /** Number of own cells of a buffer (local_N). */
  function Width(b: seq<int>): nat
  {
    if |b| < 2 then 0 else |b| - 2
  }

  /** The own cells of a buffer, without its two ghosts. */
  function Cells(b: seq<int>): (c: seq<int>)
    requires |b| >= 2
    ensures |c| == Width(b)
  {
    b[1..|b| - 1]
  }

  /** Every rank holds a buffer with its two ghost cells. */
  predicate Shaped(w: seq<seq<int>>)
  {
    forall r :: 0 <= r < |w| ==> |w[r]| >= 2
  }

  predicate BitWorld(w: seq<seq<int>>)
  {
    Shaped(w) && forall r :: 0 <= r < |w| ==> AllBits(w[r])
  }

  /** Every rank owns at least one cell. */
  predicate NoEmptyRank(w: seq<seq<int>>)
  {
    forall r :: 0 <= r < |w| ==> |w[r]| >= 3
  }

  predicate SameShape(v: seq<seq<int>>, w: seq<seq<int>>)
  {
    |v| == |w| && forall r :: 0 <= r < |w| ==> |v[r]| == |w[r]|
  }

  /** Enough ranks have no cell of their own exactly when N < size. */
  lemma NoEmptyRankIff(n: nat, size: nat)
    requires size > 0
    ensures (forall r :: 0 <= r < size ==> TailCount(n, size, r) >= 1) <==> n >= size
  {
    if n < size {
      assert TailCount(n, size, 0) == 0;
    } else {
      DivAtLeastOne(n, size);
    }
  }

  lemma DivAtLeastOne(n: nat, size: nat)
    requires 0 < size <= n
    ensures n / size >= 1
  {
  }

  // ---------------------------------------------------------------------
  // Initialisation (lines 37-51)
  // ---------------------------------------------------------------------

  /** The buffer of one rank: calloc'ed ghosts and one cell per rand() draw
      of that rank (seeded with srand(rank + 1); the draws are a parameter). */
  function InitialBuffer(draws: seq<int>, density: real): (b: seq<int>)
    ensures |b| == |draws| + 2 && AllBits(b)
    ensures Cells(b) == InitialRoad(draws, density)
    ensures b[0] == 0 && b[|b| - 1] == 0
  {
    [0] + InitialRoad(draws, density) + [0]
  }

  /** All ranks' buffers; rank r draws TailCount(n, size, r) values. */
  function InitialWorld(n: nat, size: nat, draws: seq<seq<int>>, density: real): (w: seq<seq<int>>)
    requires size > 0 && |draws| == size
    requires forall r :: 0 <= r < size ==> |draws[r]| == TailCount(n, size, r)
    ensures |w| == size && BitWorld(w)
    ensures forall r :: 0 <= r < size ==> Width(w[r]) == TailCount(n, size, r)
  {
    seq(size, r requires 0 <= r < size => InitialBuffer(draws[r], density))
  }

  /** `local_cars` of every rank, added up as MPI_Reduce with MPI_SUM does. */
  function RealCars(w: seq<seq<int>>): int
    requires Shaped(w)
  {
    Sum(CarsPerRank(w))
  }

  function CarsPerRank(w: seq<seq<int>>): (c: seq<int>)
    requires Shaped(w)
    ensures |c| == |w|
  {
    seq(|w|, r requires 0 <= r < |w| => Sum(Cells(w[r])))
  }

  // ---------------------------------------------------------------------
  // Halo exchange (lines 68-77)
  // ---------------------------------------------------------------------

  /** What rank r holds after the first MPI_Sendrecv: every rank sends
      road[1] to its left neighbour and receives road[local_N + 1] from its
      right neighbour. */
  function AfterSendLeft(w: seq<seq<int>>, r: nat): (b: seq<int>)
    requires Shaped(w) && r < |w|
    ensures |b| == |w[r]|
  {
    w[r][|w[r]| - 1 := w[Succ(r, |w|)][1]]
  }

  function SendLeft(w: seq<seq<int>>): (v: seq<seq<int>>)
    requires |w| > 0 && Shaped(w)
    ensures SameShape(v, w) && Shaped(v)
  {
    seq(|w|, r requires 0 <= r < |w| => AfterSendLeft(w, r))
  }

  /** What rank r holds after the second MPI_Sendrecv: every rank sends
      road[local_N] to its right neighbour and receives road[0] from its left
      neighbour. */
  function AfterSendRight(w: seq<seq<int>>, r: nat): (b: seq<int>)
    requires Shaped(w) && r < |w|
    ensures |b| == |w[r]|
  {
    var l := Pred(r, |w|);
    w[r][0 := w[l][|w[l]| - 2]]
  }

  function SendRight(w: seq<seq<int>>): (v: seq<seq<int>>)
    requires |w| > 0 && Shaped(w)
    ensures SameShape(v, w) && Shaped(v)
  {
    seq(|w|, r requires 0 <= r < |w| => AfterSendRight(w, r))
  }

  /** What rank r holds after both phases, the second one after the first. */
  function Exchanged(w: seq<seq<int>>, r: nat): (b: seq<int>)
    requires |w| > 0 && Shaped(w) && r < |w|
    ensures |b| == |w[r]|
  {
    AfterSendRight(SendLeft(w), r)
  }

  /** The exchange writes only ghosts: every rank keeps its own cells. */
  lemma ExchangeKeepsCells(w: seq<seq<int>>, r: nat)
    requires |w| > 0 && Shaped(w) && r < |w|
    ensures Cells(Exchanged(w, r)) == Cells(w[r])
  {
    assert Cells(SendLeft(w)[r]) == Cells(w[r]);
  }

  /** Ghosts receive cells of other ranks, so bits stay bits. */
  lemma ExchangeKeepsBits(w: seq<seq<int>>, r: nat)
    requires |w| > 0 && BitWorld(w) && r < |w|
    ensures AllBits(Exchanged(w, r))
  {
    var v := SendLeft(w);
    assert AllBits(v[r]);
    assert AllBits(v[Pred(r, |w|)]);
  }

  /** When every rank owns a cell, the left ghost receives the last cell of
      the left neighbour and the right ghost the first cell of the right
      neighbour. */
  lemma ExchangeFillsGhosts(w: seq<seq<int>>, r: nat)
    requires |w| > 0 && Shaped(w) && NoEmptyRank(w) && r < |w|
    ensures Exchanged(w, r)[0] == w[Pred(r, |w|)][|w[Pred(r, |w|)]| - 2]
    ensures Exchanged(w, r)[|w[r]| - 1] == w[Succ(r, |w|)][1]
  {
  }

  /** The world after the halo exchange. */
  function Exchange(w: seq<seq<int>>): (v: seq<seq<int>>)
    requires |w| > 0 && Shaped(w)
    ensures SameShape(v, w) && Shaped(v)
  {
    seq(|w|, r requires 0 <= r < |w| => Exchanged(w, r))
  }

  /** The exchange is the first phase followed by the second. */
  lemma ExchangeIsTwoPhases(w: seq<seq<int>>)
    requires |w| > 0 && Shaped(w)
    ensures Exchange(w) == SendRight(SendLeft(w))
  {
  }

  /** The exchange keeps a world of bits a world of bits. */
  lemma ExchangeBitWorld(w: seq<seq<int>>)
    requires |w| > 0 && BitWorld(w)
    ensures BitWorld(Exchange(w))
  {
    forall r | 0 <= r < |w|
      ensures AllBits(Exchange(w)[r])
    {
      ExchangeKeepsBits(w, r);
    }
  }

  // ---------------------------------------------------------------------
  // Local update (lines 81-91), as written
  // ---------------------------------------------------------------------

  /** Cell j of the buffer `next` after memset and the loop over
      i = 1..local_N: cell i gets the staying car of cell i, cell i + 1 the
      moving car of cell i. No iteration looks at the left ghost, so a car
      arriving from the left neighbour is never written into cell 1, and the
      car written into the right ghost is dropped by the swap. */
  function LocalCell(b: seq<int>, j: nat): (c: int)
    requires |b| >= 2 && AllBits(b) && j < |b|
    ensures IsBit(c)
  {
    var m := |b| - 2;
    if j == 0 then 0
    else if j <= m then BitOr(Stays(b[j], b[j + 1]), if j >= 2 then Moves(b[j - 1], b[j]) else 0)
    else if m >= 1 then Moves(b[m], b[m + 1]) else 0
  }

  /** The whole buffer `next` after the loop. */
  function LocalNext(b: seq<int>): (next: seq<int>)
    requires |b| >= 2 && AllBits(b)
    ensures |next| == |b| && AllBits(next)
  {
    seq(|b|, j requires 0 <= j < |b| => LocalCell(b, j))
  }

  /** Inside a rank, away from its left edge, the local update is the
      rule-184 update of the buffer. */
  lemma LocalNextInterior(b: seq<int>, j: nat)
    requires |b| >= 2 && AllBits(b) && 2 <= j <= |b| - 2
    ensures LocalNext(b)[j] == Cell184(b[j - 1], b[j], b[j + 1])
  {
    WritersExclusive(b[j - 1], b[j], b[j + 1]);
  }

  /** The left ghost of `next` is never written, and at cell 1 the car of
      the left ghost is ignored: the cell is occupied next only if its own
      car stays. */
  lemma LocalNextFirstCell(b: seq<int>)
    requires |b| >= 3 && AllBits(b)
    ensures LocalNext(b)[0] == 0
    ensures LocalNext(b)[1] == Stays(b[1], b[2])
    ensures LocalNext(b)[1] != Cell184(b[0], b[1], b[2]) <==> b[0] == 1 && b[1] == 0
  {
  }

  /** Per rank, the cars of the new own cells plus the car written into the
      right ghost are the cars of the old own cells: the only car a rank can
      lose is the one leaving its last cell. */
  lemma LocalCarsLost(b: seq<int>)
    requires |b| >= 2 && AllBits(b)
    ensures Sum(Cells(LocalNext(b))) + LocalNext(b)[|b| - 1] == Sum(Cells(b))
  {
    var m := |b| - 2;
    if m > 0 {
      var moves := MoveRow(b);
      NewCellsSplit(b);
      OldCellsSplit(b);
      assert Sum([0] + moves[..m - 1]) + moves[m - 1] == Sum(moves) by {
        SumAppend([0], moves[..m - 1]);
        SumSingleton(0);
        SumLast(moves);
      }
    }
  }

  /** The staying car of each own cell, as a row. */
  function StayRow(b: seq<int>): (s: seq<int>)
    requires |b| >= 2 && AllBits(b)
    ensures |s| == |b| - 2
  {
    seq(|b| - 2, k requires 0 <= k < |b| - 2 => Stays(b[k + 1], b[k + 2]))
  }

  /** The moving car of each own cell, as a row. */
  function MoveRow(b: seq<int>): (s: seq<int>)
    requires |b| >= 2
    ensures |s| == |b| - 2
  {
    seq(|b| - 2, k requires 0 <= k < |b| - 2 => Moves(b[k + 1], b[k + 2]))
  }

  lemma OldCellsSplit(b: seq<int>)
    requires |b| >= 2 && AllBits(b)
    ensures Sum(Cells(b)) == Sum(StayRow(b)) + Sum(MoveRow(b))
  {
    SumPointwise(StayRow(b), MoveRow(b), Cells(b));
  }

  /** The new own cells hold the staying cars plus the moves of all own
      cells but the last, shifted one cell to the right. */
  lemma NewCellsSplit(b: seq<int>)
    requires |b| >= 3 && AllBits(b)
    ensures Sum(Cells(LocalNext(b))) == Sum(StayRow(b)) + Sum([0] + MoveRow(b)[..|b| - 3])
    ensures LocalNext(b)[|b| - 1] == MoveRow(b)[|b| - 3]
  {
    var m := |b| - 2;
    var arrivals := [0] + MoveRow(b)[..m - 1];
    forall k | 0 <= k < m
      ensures Cells(LocalNext(b))[k] == StayRow(b)[k] + arrivals[k]
    {
      LocalCellSplit(b, k);
    }
    SumPointwise(StayRow(b), arrivals, Cells(LocalNext(b)));
  }

  /** Own cell k + 1 after the local update: its staying car plus, except
      for the first cell, the car arriving from cell k. */
  lemma LocalCellSplit(b: seq<int>, k: nat)
    requires |b| >= 3 && AllBits(b) && k < |b| - 2
    ensures LocalNext(b)[k + 1] == Stays(b[k + 1], b[k + 2]) + (if k >= 1 then Moves(b[k], b[k + 1]) else 0)
  {
    if k >= 1 {
      WritersExclusive(b[k], b[k + 1], b[k + 2]);
    }
  }

  /** The buffer of rank r after one generation: halo exchange, then the
      local update. */
  function RankNext(w: seq<seq<int>>, r: nat): (b: seq<int>)
    requires |w| > 0 && BitWorld(w) && r < |w|
    ensures |b| == |w[r]| && AllBits(b)
  {
    ExchangeKeepsBits(w, r);
    LocalNext(Exchanged(w, r))
  }

  /** One generation of the whole world. */
  function Generation(w: seq<seq<int>>): (v: seq<seq<int>>)
    requires |w| > 0 && BitWorld(w)
    ensures SameShape(v, w) && BitWorld(v)
  {
    seq(|w|, r requires 0 <= r < |w| => RankNext(w, r))
  }

  /** A generation is the exchange followed by every rank's local update. */
  lemma GenerationIsLocalNext(w: seq<seq<int>>)
    requires |w| > 0 && BitWorld(w)
    ensures BitWorld(Exchange(w))
    ensures forall r :: 0 <= r < |w| ==> Generation(w)[r] == LocalNext(Exchange(w)[r])
  {
    ExchangeBitWorld(w);
  }

  /** The world after t generations. */
  function Generations(w: seq<seq<int>>, t: nat): (v: seq<seq<int>>)
    requires |w| > 0 && BitWorld(w)
    ensures SameShape(v, w) && BitWorld(v)
    decreases t
  {
    if t == 0 then w else Generation(Generations(w, t - 1))
  }

  /** The cars each rank writes into its right ghost in one generation. */
  function SeamExits(w: seq<seq<int>>): (e: seq<int>)
    requires |w| > 0 && BitWorld(w)
    ensures |e| == |w|
  {
    seq(|w|, r requires 0 <= r < |w| => RankNext(w, r)[|w[r]| - 1])
  }

  /** The number of cars after a generation is the number before it minus
      the cars that crossed a seam between ranks: those cars disappear. */
  lemma {:induction false} GenerationLosesSeamCars(w: seq<seq<int>>)
    requires |w| > 0 && BitWorld(w)
    ensures RealCars(Generation(w)) + Sum(SeamExits(w)) == RealCars(w)
  {
    var v := Generation(w);
    forall r | 0 <= r < |w|
      ensures CarsPerRank(w)[r] == CarsPerRank(v)[r] + SeamExits(w)[r]
    {
      ExchangeKeepsBits(w, r);
      LocalCarsLost(Exchanged(w, r));
      ExchangeKeepsCells(w, r);
    }
    SumPointwise(CarsPerRank(v), SeamExits(w), CarsPerRank(w));
  }

  // ---------------------------------------------------------------------
  // The world as one road
  // ---------------------------------------------------------------------

  /** The own cells of ranks 0..r-1, in rank order. */
  function Prefix(w: seq<seq<int>>, r: nat): seq<int>
    requires Shaped(w) && r <= |w|
    decreases r
  {
    if r == 0 then [] else Prefix(w, r - 1) + Cells(w[r - 1])
  }

  /** The own cells of all ranks: the road the ranks share out. */
  function Flat(w: seq<seq<int>>): seq<int>
    requires Shaped(w)
  {
    Prefix(w, |w|)
  }

  /** Global index of the first own cell of rank r. */
  function Offset(w: seq<seq<int>>, r: nat): nat
    requires Shaped(w) && r <= |w|
  {
    |Prefix(w, r)|
  }

  lemma OffsetStep(w: seq<seq<int>>, r: nat)
    requires Shaped(w) && r < |w|
    ensures Offset(w, r + 1) == Offset(w, r) + Width(w[r])
  {
  }

  /** Cell k of rank r is cell Offset(w, r) + k of every longer prefix. */
  lemma {:induction false} PrefixIndex(w: seq<seq<int>>, r: nat, k: nat, upTo: nat)
    requires Shaped(w) && r < upTo <= |w| && k < Width(w[r])
    ensures Offset(w, r) + k < |Prefix(w, upTo)|
    ensures Prefix(w, upTo)[Offset(w, r) + k] == w[r][k + 1]
    decreases upTo
  {
    if upTo > r + 1 {
      PrefixIndex(w, r, k, upTo - 1);
      PrefixGrows(w, r + 1, upTo - 1);
    } else {
      assert Cells(w[r])[k] == w[r][k + 1];
    }
  }

  lemma {:induction false} PrefixGrows(w: seq<seq<int>>, r: nat, upTo: nat)
    requires Shaped(w) && r <= upTo <= |w|
    ensures |Prefix(w, r)| <= |Prefix(w, upTo)|
    decreases upTo
  {
    if upTo > r {
      PrefixGrows(w, r, upTo - 1);
    }
  }

  /** Cell k of rank r is cell Offset(w, r) + k of the whole road. */
  lemma FlatIndex(w: seq<seq<int>>, r: nat, k: nat)
    requires Shaped(w) && r < |w| && k < Width(w[r])
    ensures Offset(w, r) + k < |Flat(w)|
    ensures Flat(w)[Offset(w, r) + k] == w[r][k + 1]
  {
    PrefixIndex(w, r, k, |w|);
  }

  /** Every cell of the first upTo ranks belongs to one of them. */
  lemma {:induction false} PrefixOwner(w: seq<seq<int>>, g: nat, upTo: nat) returns (r: nat, k: nat)
    requires Shaped(w) && upTo <= |w| && g < |Prefix(w, upTo)|
    ensures r < upTo && k < Width(w[r]) && g == Offset(w, r) + k
    decreases upTo
  {
    if g >= |Prefix(w, upTo - 1)| {
      r, k := upTo - 1, g - |Prefix(w, upTo - 1)|;
    } else {
      r, k := PrefixOwner(w, g, upTo - 1);
    }
  }

  /** Every cell of the whole road belongs to some rank. */
  lemma FlatOwner(w: seq<seq<int>>, g: nat) returns (r: nat, k: nat)
    requires Shaped(w) && g < |Flat(w)|
    ensures r < |w| && k < Width(w[r]) && g == Offset(w, r) + k
  {
    r, k := PrefixOwner(w, g, |w|);
  }

  /** Offsets only depend on the widths of the buffers. */
  lemma {:induction false} OffsetSameShape(v: seq<seq<int>>, w: seq<seq<int>>, r: nat)
    requires Shaped(v) && Shaped(w) && SameShape(v, w) && r <= |w|
    ensures Offset(v, r) == Offset(w, r)
    decreases r
  {
    if r > 0 {
      OffsetSameShape(v, w, r - 1);
    }
  }

  /** With the widths of traffic_mpi.c, rank r's first cell is global cell
      r * (N / size), and the ranks hold N cells together. */
  lemma {:induction false} OffsetIsTailStart(w: seq<seq<int>>, n: nat, r: nat)
    requires |w| > 0 && Shaped(w) && r < |w|
    requires forall q :: 0 <= q < |w| ==> Width(w[q]) == TailCount(n, |w|, q)
    ensures Offset(w, r) == TailStart(n, |w|, r)
    decreases r
  {
    if r > 0 {
      OffsetIsTailStart(w, n, r - 1);
      TailTiles(n, |w|, r - 1);
    }
  }

  lemma FlatHoldsN(w: seq<seq<int>>, n: nat)
    requires |w| > 0 && Shaped(w)
    requires forall q :: 0 <= q < |w| ==> Width(w[q]) == TailCount(n, |w|, q)
    ensures |Flat(w)| == n
  {
    OffsetIsTailStart(w, n, |w| - 1);
    OffsetStep(w, |w| - 1);
    TailTiles(n, |w|, |w| - 1);
  }

  // ---------------------------------------------------------------------
  // Corrected local update
  // ---------------------------------------------------------------------

  /** The local update with the arrival from the left ghost taken into
      account: every own cell follows the rule from its two neighbours, the
      ghosts are left at 0. */
  function FixedCell(b: seq<int>, j: nat): (c: int)
    requires |b| >= 2 && AllBits(b) && j < |b|
    ensures IsBit(c)
  {
    if 1 <= j <= |b| - 2 then Cell184(b[j - 1], b[j], b[j + 1]) else 0
  }

  function FixedNext(b: seq<int>): (next: seq<int>)
    requires |b| >= 2 && AllBits(b)
    ensures |next| == |b| && AllBits(next)
  {
    seq(|b|, j requires 0 <= j < |b| => FixedCell(b, j))
  }

  /** The corrected update differs from the written one only in cell 1 and
      in the right ghost. */
  lemma FixedNextAgrees(b: seq<int>)
    requires |b| >= 2 && AllBits(b)
    ensures forall j :: 2 <= j <= |b| - 2 ==> FixedNext(b)[j] == LocalNext(b)[j]
  {
    forall j | 2 <= j <= |b| - 2
      ensures FixedNext(b)[j] == LocalNext(b)[j]
    {
      LocalNextInterior(b, j);
    }
  }

  function FixedRankNext(w: seq<seq<int>>, r: nat): (b: seq<int>)
    requires |w| > 0 && BitWorld(w) && r < |w|
    ensures |b| == |w[r]| && AllBits(b)
  {
    ExchangeKeepsBits(w, r);
    FixedNext(Exchanged(w, r))
  }

  function FixedGeneration(w: seq<seq<int>>): (v: seq<seq<int>>)
    requires |w| > 0 && BitWorld(w)
    ensures SameShape(v, w) && BitWorld(v)
  {
    seq(|w|, r requires 0 <= r < |w| => FixedRankNext(w, r))
  }

  /** The right neighbour of the last cell of rank r on the whole ring is the
      first cell of the right rank. */
  lemma FlatRightSeam(w: seq<seq<int>>, r: nat)
    requires |w| > 0 && Shaped(w) && NoEmptyRank(w) && r < |w|
    ensures Offset(w, r) + Width(w[r]) - 1 < |Flat(w)|
    ensures Flat(w)[Succ(Offset(w, r) + Width(w[r]) - 1, |Flat(w)|)] == w[Succ(r, |w|)][1]
  {
    var g := Offset(w, r) + Width(w[r]) - 1;
    FlatIndex(w, r, Width(w[r]) - 1);
    OffsetStep(w, r);
    if r + 1 < |w| {
      FlatIndex(w, r + 1, 0);
    } else {
      FlatIndex(w, 0, 0);
    }
  }

  /** The left neighbour of the first cell of rank r on the whole ring is
      the last cell of the left rank. */
  lemma FlatLeftSeam(w: seq<seq<int>>, r: nat)
    requires |w| > 0 && Shaped(w) && NoEmptyRank(w) && r < |w|
    ensures Offset(w, r) < |Flat(w)|
    ensures Flat(w)[Pred(Offset(w, r), |Flat(w)|)]
      == w[Pred(r, |w|)][|w[Pred(r, |w|)]| - 2]
  {
    FlatIndex(w, r, 0);
    var l := Pred(r, |w|);
    FlatIndex(w, l, Width(w[l]) - 1);
    OffsetStep(w, l);
  }

  /** The neighbours of own cell k + 1 of rank r after the exchange are the
      neighbours of its global cell on the whole road. */
  lemma ExchangedNeighbours(w: seq<seq<int>>, r: nat, k: nat)
    requires |w| > 0 && Shaped(w) && NoEmptyRank(w) && r < |w| && k < Width(w[r])
    ensures Offset(w, r) + k < |Flat(w)|
    ensures var f, g := Flat(w), Offset(w, r) + k;
      f[Pred(g, |f|)] == Exchanged(w, r)[k] &&
      f[g] == Exchanged(w, r)[k + 1] &&
      f[Succ(g, |f|)] == Exchanged(w, r)[k + 2]
  {
    FlatIndex(w, r, k);
    ExchangedCell(w, r, k);
    ExchangedRight(w, r, k);
    ExchangedLeft(w, r, k);
  }

  lemma ExchangedCell(w: seq<seq<int>>, r: nat, k: nat)
    requires |w| > 0 && Shaped(w) && r < |w| && k < Width(w[r])
    ensures Exchanged(w, r)[k + 1] == w[r][k + 1]
  {
    ExchangeKeepsCells(w, r);
    assert Cells(Exchanged(w, r))[k] == Cells(w[r])[k];
  }

  lemma ExchangedRight(w: seq<seq<int>>, r: nat, k: nat)
    requires |w| > 0 && Shaped(w) && NoEmptyRank(w) && r < |w| && k < Width(w[r])
    ensures Offset(w, r) + k < |Flat(w)|
    ensures Flat(w)[Succ(Offset(w, r) + k, |Flat(w)|)] == Exchanged(w, r)[k + 2]
  {
    FlatIndex(w, r, k);
    if k + 1 < Width(w[r]) {
      FlatIndex(w, r, k + 1);
      ExchangedCell(w, r, k + 1);
    } else {
      FlatRightSeam(w, r);
      ExchangeFillsGhosts(w, r);
    }
  }

  lemma ExchangedLeft(w: seq<seq<int>>, r: nat, k: nat)
    requires |w| > 0 && Shaped(w) && NoEmptyRank(w) && r < |w| && k < Width(w[r])
    ensures Offset(w, r) + k < |Flat(w)|
    ensures Flat(w)[Pred(Offset(w, r) + k, |Flat(w)|)] == Exchanged(w, r)[k]
  {
    FlatIndex(w, r, k);
    if k > 0 {
      FlatIndex(w, r, k - 1);
      ExchangedCell(w, r, k - 1);
    } else {
      FlatLeftSeam(w, r);
      ExchangeFillsGhosts(w, r);
    }
  }

  /** One own cell of the corrected generation is the serial rule at the
      matching cell of the whole road. */
  lemma FixedCellMatchesSerial(w: seq<seq<int>>, r: nat, k: nat)
    requires |w| > 0 && BitWorld(w) && NoEmptyRank(w) && r < |w| && k < Width(w[r])
    ensures Offset(w, r) + k < |Flat(w)|
    ensures FixedRankNext(w, r)[k + 1] == Rule184(Flat(w))[Offset(w, r) + k]
  {
    ExchangeKeepsBits(w, r);
    ExchangedNeighbours(w, r, k);
    CellMatches(Flat(w), Offset(w, r) + k, Exchanged(w, r), k);
  }

  /** An own cell whose buffer neighbours are its road neighbours gets the
      value the serial rule gives its road cell. */
  lemma CellMatches(f: seq<int>, g: nat, x: seq<int>, k: nat)
    requires g < |f| && |x| >= 3 && AllBits(x) && k < |x| - 2
    requires f[Pred(g, |f|)] == x[k] && f[g] == x[k + 1] && f[Succ(g, |f|)] == x[k + 2]
    ensures FixedNext(x)[k + 1] == Rule184(f)[g]
  {
  }

  /** Cell g of the whole road after the corrected generation. */
  lemma FixedGenerationAt(w: seq<seq<int>>, g: nat)
    requires |w| > 0 && BitWorld(w) && NoEmptyRank(w) && g < |Flat(w)|
    ensures g < |Flat(FixedGeneration(w))|
    ensures Flat(FixedGeneration(w))[g] == Rule184(Flat(w))[g]
  {
    var r, k := FlatOwner(w, g);
    FixedCellMatchesSerial(w, r, k);
    FixedGenerationIndex(w, r, k);
  }

  /** Own cell k of rank r after the corrected generation sits at the same
      place of the whole road as before it. */
  lemma FixedGenerationIndex(w: seq<seq<int>>, r: nat, k: nat)
    requires |w| > 0 && BitWorld(w) && r < |w| && k < Width(w[r])
    ensures Offset(w, r) + k < |Flat(FixedGeneration(w))|
    ensures Flat(FixedGeneration(w))[Offset(w, r) + k] == FixedRankNext(w, r)[k + 1]
  {
    var v := FixedGeneration(w);
    FlatIndexSameShape(v, w, r, k);
    assert v[r] == FixedRankNext(w, r);
  }

  /** FlatIndex for a world of the same shape as w, at w's offsets. */
  lemma FlatIndexSameShape(v: seq<seq<int>>, w: seq<seq<int>>, r: nat, k: nat)
    requires Shaped(v) && Shaped(w) && SameShape(v, w) && r < |w| && k < Width(w[r])
    ensures Offset(w, r) + k < |Flat(v)|
    ensures Flat(v)[Offset(w, r) + k] == v[r][k + 1]
  {
    OffsetSameShape(v, w, r);
    FlatIndex(v, r, k);
  }

  /** With every rank owning at least one cell, the corrected distributed
      generation is exactly the serial generation of the whole road. */
  lemma FixedGenerationMatchesSerial(w: seq<seq<int>>)
    requires |w| > 0 && BitWorld(w) && NoEmptyRank(w)
    ensures Flat(FixedGeneration(w)) == Rule184(Flat(w))
  {
    var v := FixedGeneration(w);
    OffsetSameShape(v, w, |w|);
    forall g | 0 <= g < |Flat(w)|
      ensures Flat(v)[g] == Rule184(Flat(w))[g]
    {
      FixedGenerationAt(w, g);
    }
  }

  /** The cars counted by ranks 0..r-1 are the cars of their share of the road. */
  lemma {:induction false} PrefixCars(w: seq<seq<int>>, r: nat)
    requires Shaped(w) && r <= |w|
    ensures Sum(Prefix(w, r)) == Sum(CarsPerRank(w)[..r])
    decreases r
  {
    if r > 0 {
      PrefixCars(w, r - 1);
      SumAppend(Prefix(w, r - 1), Cells(w[r - 1]));
      assert CarsPerRank(w)[..r] == CarsPerRank(w)[..r - 1] + [CarsPerRank(w)[r - 1]];
      SumSnoc(CarsPerRank(w)[..r - 1], CarsPerRank(w)[r - 1]);
    }
  }

  /** The reduced `total_cars` is the number of cars on the shared road. */
  lemma RealCarsIsFlatSum(w: seq<seq<int>>)
    requires Shaped(w)
    ensures RealCars(w) == Sum(Flat(w))
  {
    PrefixCars(w, |w|);
    assert CarsPerRank(w)[..|w|] == CarsPerRank(w);
  }

  /** A world of bits shares out a road of bits. */
  lemma FlatBits(w: seq<seq<int>>)
    requires BitWorld(w)
    ensures AllBits(Flat(w))
  {
    forall g | 0 <= g < |Flat(w)|
      ensures IsBit(Flat(w)[g])
    {
      var r, k := FlatOwner(w, g);
      FlatIndex(w, r, k);
    }
  }

  /** With every rank owning at least one cell, the corrected generation
      keeps every car, as the serial rule does. */
  lemma FixedGenerationConserves(w: seq<seq<int>>)
    requires |w| > 0 && BitWorld(w) && NoEmptyRank(w)
    ensures RealCars(FixedGeneration(w)) == RealCars(w)
  {
    FixedGenerationMatchesSerial(w);
    FlatBits(w);
    Rule184Conserves(Flat(w));
    RealCarsIsFlatSum(w);
    RealCarsIsFlatSum(FixedGeneration(w));
  }

  // ---------------------------------------------------------------------
  // The seam loss on a concrete world
  // ---------------------------------------------------------------------

  /** N = 2 on two ranks, one car in rank 0's only cell and an empty cell in
      rank 1. The serial rule moves the car to cell 1; the distributed
      generation loses it. */
  lemma SeamLossExample()
    ensures Rule184(Flat([[0, 1, 0], [0, 0, 0]])) == [0, 1]
    ensures Flat(Generation([[0, 1, 0], [0, 0, 0]])) == [0, 0]
    ensures RealCars([[0, 1, 0], [0, 0, 0]]) == 1
    ensures RealCars(Generation([[0, 1, 0], [0, 0, 0]])) == 0
  {
    var w := [[0, 1, 0], [0, 0, 0]];
    ExampleFlat(w, 1, 0);
    ExampleRule184();
    ExampleGeneration(w);
    ExampleFlat(Generation(w), 0, 0);
    ExampleCars(w, 1, 0);
    ExampleCars(Generation(w), 0, 0);
  }

  lemma ExampleFlat(w: seq<seq<int>>, a: int, b: int)
    requires w == [[0, a, 0], [0, b, 0]] || w == [[0, a, 1], [0, b, 0]]
    ensures Flat(w) == [a, b]
  {
    assert Cells(w[0]) == [a];
    assert Cells(w[1]) == [b];
    assert w[1..][1..] == [];
    assert Flat(w[1..]) == [b] + Flat(w[1..][1..]);
  }

  lemma ExampleCars(w: seq<seq<int>>, a: int, b: int)
    requires w == [[0, a, 0], [0, b, 0]] || w == [[0, a, 1], [0, b, 0]]
    ensures RealCars(w) == a + b
  {
    assert Cells(w[0]) == [a];
    assert Cells(w[1]) == [b];
    SumSingleton(a);
    SumSingleton(b);
    assert CarsPerRank(w) == [a, b];
    assert [a, b][1..] == [b];
    SumSingleton(b);
  }

  lemma ExampleRule184()
    ensures Rule184([1, 0]) == [0, 1]
  {
  }

  lemma ExampleGeneration(w: seq<seq<int>>)
    requires w == [[0, 1, 0], [0, 0, 0]]
    ensures Generation(w) == [[0, 0, 1], [0, 0, 0]]
  {
    assert SendLeft(w)[0] == [0, 1, 0];
    assert SendLeft(w)[1] == [0, 0, 1];
    assert Exchanged(w, 0) == [0, 1, 0];
    assert Exchanged(w, 1) == [1, 0, 1];
    assert LocalNext([0, 1, 0]) == [0, 0, 1] by {
      assert LocalCell([0, 1, 0], 1) == 0;
      assert LocalCell([0, 1, 0], 2) == 1;
    }
    assert LocalNext([1, 0, 1]) == [0, 0, 0] by {
      assert LocalCell([1, 0, 1], 1) == 0;
      assert LocalCell([1, 0, 1], 2) == 0;
    }
    assert RankNext(w, 0) == [0, 0, 1];
    assert RankNext(w, 1) == [0, 0, 0];
  }
}
