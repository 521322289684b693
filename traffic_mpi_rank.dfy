/** The imperative side of reto3/src/traffic_mpi.c: what one MPI process
    keeps (its `road` and `next` buffers) and does, and main's loop over
    generations with the processes' messages delivered in program order.
    The world model these methods are proved against is in TrafficMpi. */
module TrafficMpiRank {
  import opened Common
  import opened TrafficRule
  import opened Partition
  import opened TrafficMpi

  /** The value of next[j] once the loop has handled own cells 1..i: the
      staying car of cell j if j was handled, OR the car moving in from cell
      j - 1 if that cell was handled. */
  ghost function LocalWritten(b: seq<int>, i: nat, j: nat): (v: int)
    requires |b| >= 2 && AllBits(b) && i <= |b| - 2 && j < |b|
    ensures IsBit(v)
  {
    BitOr(if 1 <= j <= i then Stays(b[j], b[j + 1]) else 0,
          if 2 <= j <= i + 1 then Moves(b[j - 1], b[j]) else 0)
  }

  /** The whole of `next` once the loop has handled own cells 1..i. */
  ghost function LocalWrittenRow(b: seq<int>, i: nat): (w: seq<int>)
    requires |b| >= 2 && AllBits(b) && i <= |b| - 2
    ensures |w| == |b|
  {
    seq(|b|, j requires 0 <= j < |b| => LocalWritten(b, i, j))
  }

  /** Before the loop, `next` is the zeroed buffer. */
  lemma LocalWrittenNone(b: seq<int>)
    requires |b| >= 2 && AllBits(b)
    ensures LocalWrittenRow(b, 0) == seq(|b|, _ => 0)
  {
  }

  /** Handling own cell i ORs its staying car into next[i], then its moving
      car into next[i + 1]. */
  lemma LocalHandleCell(b: seq<int>, i: nat)
    requires |b| >= 2 && AllBits(b) && 1 <= i <= |b| - 2
    ensures var w := LocalWrittenRow(b, i - 1);
      var w1 := w[i := BitOr(w[i], Stays(b[i], b[i + 1]))];
      LocalWrittenRow(b, i) == w1[i + 1 := BitOr(w1[i + 1], Moves(b[i], b[i + 1]))]
  {
  }

  /** After the last own cell, `next` is the local update. */
  lemma LocalWrittenAll(b: seq<int>)
    requires |b| >= 2 && AllBits(b)
    ensures LocalWrittenRow(b, |b| - 2) == LocalNext(b)
  {
  }

  /** One MPI process: local_N own cells and the two buffers of
      local_N + 2 cells that it swaps after every generation. */
  class Rank {
    const localN: nat
    var road: array<int>
    var next: array<int>
    /** The two buffers, whichever of them is `road` at the moment. */
    ghost const Repr: set<array<int>>

    ghost predicate Valid()
      reads this
    {
      Repr == {road, next} && road != next &&
      road.Length == localN + 2 && next.Length == localN + 2
    }

    /** Lines 37-48: local_N = N / size, plus N % size on the last rank; two
        zeroed buffers; own cell i occupied iff the i-th rand() draw of this
        rank falls below the density. */
    constructor (n: nat, size: nat, rank: nat, draws: seq<int>, density: real)
      requires size > 0 && rank < size && |draws| == TailCount(n, size, rank)
      ensures Valid() && fresh(Repr)
      ensures localN == TailCount(n, size, rank)
      ensures road[..] == InitialBuffer(draws, density)
    {
      var ln := n / size;
      if rank == size - 1 {
        ln := ln + n % size;
      }
      localN := ln;
      var r := new int[ln + 2](_ => 0);
      var nx := new int[ln + 2](_ => 0);
      next := nx;
      Repr := {r, nx};
      var i := 1;
      while i <= ln
        invariant 1 <= i <= ln + 1
        invariant r[0] == 0 && r[ln + 1] == 0
        invariant forall j :: 1 <= j < i ==> r[j] == Occupancy(draws[j - 1], density)
      {
        r[i] := Occupancy(draws[i - 1], density);
        i := i + 1;
      }
      assert ln == |draws|;
      ghost var init := InitialBuffer(draws, density);
      assert forall j :: 1 <= j <= ln ==> init[j] == Occupancy(draws[j - 1], density);
      assert r[..] == init;
      road := r;
    }

    /** Lines 50-51: `local_cars`, the number of occupied own cells. */
    method LocalCars() returns (cars: int)
      requires Valid()
      ensures cars == Sum(Cells(road[..]))
    {
      cars := 0;
      var i := 1;
      while i <= localN
        invariant 1 <= i <= localN + 1
        invariant cars == Sum(road[1..i])
      {
        assert road[1..i + 1] == road[1..i] + [road[i]];
        SumSnoc(road[1..i], road[i]);
        cars := cars + road[i];
        i := i + 1;
      }
      assert road[1..localN + 1] == Cells(road[..]);
    }

    /** Receive half of the first MPI_Sendrecv: the value from the right
        neighbour lands in road[local_N + 1]. */
    method ReceiveRight(v: int)
      requires Valid()
      modifies road
      ensures road[..] == old(road[..])[localN + 1 := v]
    {
      road[localN + 1] := v;
    }

    /** Receive half of the second MPI_Sendrecv: the value from the left
        neighbour lands in road[0]. */
    method ReceiveLeft(v: int)
      requires Valid()
      modifies road
      ensures road[..] == old(road[..])[0 := v]
    {
      road[0] := v;
    }

    /** Lines 81-95: zero `next`, run the loop over own cells 1..local_N,
        then swap the buffers. The new `road` is the local update of the old
        one. */
    method Step()
      requires Valid() && AllBits(road[..])
      modifies this, road, next
      ensures Valid() && road == old(next) && next == old(road)
      ensures road[..] == LocalNext(old(road[..]))
    {
      ghost var cells := road[..];
      // memset(next, 0, (local_N + 2) * sizeof(int))
      forall j | 0 <= j < next.Length {
        next[j] := 0;
      }
      assert road[..] == cells;
      LocalWrittenNone(cells);
      var i := 1;
      while i <= localN
        modifies next
        invariant 1 <= i <= localN + 1
        invariant road[..] == cells
        invariant next[..] == LocalWrittenRow(cells, i - 1)
      {
        var right := i + 1;
        if right > localN {
          right := localN + 1;
        }
        LocalHandleCell(cells, i);
        var move := if road[i] == 1 && road[right] == 0 then 1 else 0;
        assert move == Moves(cells[i], cells[i + 1]);
        assert BitAnd(road[i], Not(move)) == Stays(cells[i], cells[i + 1]);
        ghost var w := next[..];
        next[i] := BitOr(next[i], BitAnd(road[i], Not(move)));
        assert next[..] == w[i := BitOr(w[i], Stays(cells[i], cells[i + 1]))];
        ghost var w1 := next[..];
        next[right] := BitOr(next[right], move);
        assert next[..] == w1[right := BitOr(w1[right], move)];
        i := i + 1;
      }
      LocalWrittenAll(cells);
      road, next := next, road;
    }
  }

  /** Every process is valid and no two share an object or a buffer. */
  ghost predicate Separate(ranks: seq<Rank>)
    reads ranks
  {
    (forall i :: 0 <= i < |ranks| ==> ranks[i].Valid()) &&
    (forall i, j :: 0 <= i < |ranks| && 0 <= j < |ranks| && i != j ==>
      ranks[i] != ranks[j] && ranks[i].Repr !! ranks[j].Repr)
  }

  /** A new process whose buffers no earlier process shares keeps the
      processes separate. */
  lemma SeparateSnoc(ranks: seq<Rank>, k: Rank)
    requires Separate(ranks) && k.Valid()
    requires forall i :: 0 <= i < |ranks| ==> ranks[i] != k && ranks[i].Repr !! k.Repr
    ensures Separate(ranks + [k])
  {
  }

  /** Separate processes never share a `road` buffer. */
  lemma OtherRoads(ranks: seq<Rank>, r: nat)
    requires Separate(ranks) && r < |ranks|
    ensures forall q :: 0 <= q < |ranks| && q != r ==> ranks[q].road != ranks[r].road
  {
  }

  /** The buffers of all processes, which a generation may change. */
  ghost function Buffers(ranks: seq<Rank>): set<array<int>>
  {
    set i, a | 0 <= i < |ranks| && a in ranks[i].Repr :: a
  }

  /** The world the processes hold: the `road` buffer of every rank. */
  ghost predicate Holds(ranks: seq<Rank>, w: seq<seq<int>>)
    reads ranks, set i | 0 <= i < |ranks| :: ranks[i].road
  {
    |ranks| == |w| && forall i :: 0 <= i < |ranks| ==> ranks[i].road[..] == w[i]
  }

  /** Lines 37-48 on every rank: start the processes, each with its own
      draws. */
  method StartRanks(n: nat, size: nat, draws: seq<seq<int>>, density: real)
    returns (ranks: seq<Rank>)
    requires size > 0 && |draws| == size
    requires forall r :: 0 <= r < size ==> |draws[r]| == TailCount(n, size, r)
    ensures Separate(ranks) && Holds(ranks, InitialWorld(n, size, draws, density))
    ensures forall r :: 0 <= r < |ranks| ==> fresh(ranks[r]) && fresh(ranks[r].Repr)
  {
    ranks := [];
    var r := 0;
    while r < size
      invariant 0 <= r <= size && |ranks| == r
      invariant Separate(ranks)
      invariant forall q :: 0 <= q < r ==> fresh(ranks[q]) && fresh(ranks[q].Repr)
      invariant forall q :: 0 <= q < r ==> ranks[q].road[..] == InitialBuffer(draws[q], density)
    {
      var rank := new Rank(n, size, r, draws[r], density);
      forall q | 0 <= q < r
        ensures ranks[q] != rank && ranks[q].Repr !! rank.Repr
      {
      }
      SeparateSnoc(ranks, rank);
      ghost var before := ranks;
      ranks := ranks + [rank];
      forall q | 0 <= q <= r
        ensures fresh(ranks[q]) && fresh(ranks[q].Repr)
        ensures ranks[q].road[..] == InitialBuffer(draws[q], density)
      {
        if q < r {
          assert ranks[q] == before[q];
        }
      }
      r := r + 1;
    }
    ghost var w := InitialWorld(n, size, draws, density);
    assert forall q :: 0 <= q < size ==> w[q] == InitialBuffer(draws[q], density);
  }

  /** Lines 50-54: every rank counts its own cars and MPI_Reduce with
      MPI_SUM adds the counts up on rank 0. */
  method TotalCars(ranks: seq<Rank>, ghost w: seq<seq<int>>) returns (totalCars: int)
    requires Separate(ranks) && Holds(ranks, w)
    ensures totalCars == RealCars(w)
  {
    totalCars := 0;
    var r := 0;
    while r < |ranks|
      invariant 0 <= r <= |ranks|
      invariant totalCars == Sum(CarsPerRank(w)[..r])
    {
      var cars := ranks[r].LocalCars();
      assert CarsPerRank(w)[..r + 1] == CarsPerRank(w)[..r] + [cars];
      SumSnoc(CarsPerRank(w)[..r], cars);
      totalCars := totalCars + cars;
      r := r + 1;
    }
    assert CarsPerRank(w)[..|ranks|] == CarsPerRank(w);
  }

  /** The send buffers of the first MPI_Sendrecv: road[1] of every rank. */
  method FirstCells(ranks: seq<Rank>) returns (sent: seq<int>)
    requires Separate(ranks)
    ensures |sent| == |ranks|
    ensures forall q :: 0 <= q < |ranks| ==> sent[q] == ranks[q].road[1]
  {
    sent := [];
    var r := 0;
    while r < |ranks|
      invariant 0 <= r <= |ranks| && |sent| == r
      invariant forall q :: 0 <= q < r ==> sent[q] == ranks[q].road[1]
    {
      sent := sent + [ranks[r].road[1]];
      r := r + 1;
    }
  }

  /** The send buffers of the second MPI_Sendrecv: road[local_N] of every
      rank. */
  method LastCells(ranks: seq<Rank>) returns (sent: seq<int>)
    requires Separate(ranks)
    ensures |sent| == |ranks|
    ensures forall q :: 0 <= q < |ranks| ==> sent[q] == ranks[q].road[ranks[q].localN]
  {
    sent := [];
    var r := 0;
    while r < |ranks|
      invariant 0 <= r <= |ranks| && |sent| == r
      invariant forall q :: 0 <= q < r ==> sent[q] == ranks[q].road[ranks[q].localN]
    {
      sent := sent + [ranks[r].road[ranks[r].localN]];
      r := r + 1;
    }
  }

  /** Lines 71-73, the first MPI_Sendrecv: every rank sends road[1] to its
      left neighbour and receives into road[local_N + 1] from its right one.
      Every process sends before any receives, so the values sent are
      collected first and delivered after. */
  method PhaseSendLeft(ranks: seq<Rank>, ghost w: seq<seq<int>>)
    requires |ranks| > 0 && Separate(ranks) && Holds(ranks, w) && Shaped(w)
    modifies set i | 0 <= i < |ranks| :: ranks[i].road
    ensures Holds(ranks, SendLeft(w))
    ensures forall r :: 0 <= r < |ranks| ==> unchanged(ranks[r])
  {
    var size := |ranks|;
    var sent := FirstCells(ranks);
    var r := 0;
    while r < size
      invariant 0 <= r <= size
      invariant forall q :: 0 <= q < r ==> ranks[q].road[..] == AfterSendLeft(w, q)
      invariant forall q :: r <= q < size ==> ranks[q].road[..] == w[q]
    {
      OtherRoads(ranks, r);
      ranks[r].ReceiveRight(sent[Succ(r, size)]);
      r := r + 1;
    }
  }

  /** Lines 75-77, the second MPI_Sendrecv: every rank sends road[local_N]
      to its right neighbour and receives into road[0] from its left one. */
  method PhaseSendRight(ranks: seq<Rank>, ghost w: seq<seq<int>>)
    requires |ranks| > 0 && Separate(ranks) && Holds(ranks, w) && Shaped(w)
    modifies set i | 0 <= i < |ranks| :: ranks[i].road
    ensures Holds(ranks, SendRight(w))
    ensures forall r :: 0 <= r < |ranks| ==> unchanged(ranks[r])
  {
    var size := |ranks|;
    var sent := LastCells(ranks);
    var r := 0;
    while r < size
      invariant 0 <= r <= size
      invariant forall q :: 0 <= q < r ==> ranks[q].road[..] == AfterSendRight(w, q)
      invariant forall q :: r <= q < size ==> ranks[q].road[..] == w[q]
    {
      OtherRoads(ranks, r);
      ranks[r].ReceiveLeft(sent[Pred(r, size)]);
      r := r + 1;
    }
  }

  /** Lines 68-77: both phases, the second after the first. */
  method ExchangeHalos(ranks: seq<Rank>, ghost w: seq<seq<int>>)
    requires |ranks| > 0 && Separate(ranks) && Holds(ranks, w) && Shaped(w)
    modifies set i | 0 <= i < |ranks| :: ranks[i].road
    ensures Holds(ranks, Exchange(w))
    ensures forall r :: 0 <= r < |ranks| ==> unchanged(ranks[r])
  {
    PhaseSendLeft(ranks, w);
    PhaseSendRight(ranks, SendLeft(w));
    ExchangeIsTwoPhases(w);
  }

  /** Lines 81-95 on every process. Each process only swaps its own two
      buffers, so the processes stay separate. */
  method StepAll(ranks: seq<Rank>, ghost x: seq<seq<int>>)
    requires Separate(ranks) && Holds(ranks, x) && BitWorld(x)
    modifies ranks, Buffers(ranks)
    ensures Separate(ranks)
    ensures forall r :: 0 <= r < |ranks| ==> ranks[r].road[..] == LocalNext(x[r])
  {
    var r := 0;
    while r < |ranks|
      invariant 0 <= r <= |ranks|
      invariant forall q :: 0 <= q < |ranks| ==> ranks[q].Valid()
      invariant forall q :: 0 <= q < r ==> ranks[q].road[..] == LocalNext(x[q])
      invariant forall q :: r <= q < |ranks| ==> ranks[q].road[..] == x[q]
    {
      ranks[r].Step();
      r := r + 1;
    }
  }

  /** Lines 68-95: one pass of main's loop on every process; the processes
      then hold the next generation of the world. */
  method OneGeneration(ranks: seq<Rank>, ghost w: seq<seq<int>>)
    requires |ranks| > 0 && Separate(ranks) && Holds(ranks, w) && BitWorld(w)
    modifies ranks, Buffers(ranks)
    ensures Separate(ranks) && Holds(ranks, Generation(w))
  {
    ExchangeHalos(ranks, w);
    ghost var x := Exchange(w);
    ExchangeBitWorld(w);
    StepAll(ranks, x);
    GenerationIsLocalNext(w);
  }

  /** Lines 64-96: main's loop, `steps` generations on every process. */
  method Run(ranks: seq<Rank>, ghost w: seq<seq<int>>, steps: nat)
    requires |ranks| > 0 && Separate(ranks) && Holds(ranks, w) && BitWorld(w)
    modifies ranks, Buffers(ranks)
    ensures Separate(ranks) && Holds(ranks, Generations(w, steps))
  {
    var t := 0;
    while t < steps
      invariant t <= steps
      invariant Separate(ranks) && Holds(ranks, Generations(w, t))
    {
      OneGeneration(ranks, Generations(w, t));
      t := t + 1;
    }
  }

  /** main without its timing and printing: start the processes, add up
      their cars, then run `steps` generations. The final world is the
      steps-fold generation of the initial one, and total_cars counts the
      cars of the initial world. */
  method Simulate(n: nat, size: nat, draws: seq<seq<int>>, density: real, steps: int)
    returns (final: seq<seq<int>>, totalCars: int)
    requires size > 0 && |draws| == size
    requires forall r :: 0 <= r < size ==> |draws[r]| == TailCount(n, size, r)
    ensures final == Generations(InitialWorld(n, size, draws, density), if steps < 0 then 0 else steps)
    ensures totalCars == RealCars(InitialWorld(n, size, draws, density))
  {
    ghost var init := InitialWorld(n, size, draws, density);
    var ranks := StartRanks(n, size, draws, density);
    totalCars := TotalCars(ranks, init);
    var count := if steps < 0 then 0 else steps;
    Run(ranks, init, count);
    final := Collect(ranks, Generations(init, count));
  }

  /** The `road` buffers of all processes, gathered into one world. */
  method Collect(ranks: seq<Rank>, ghost w: seq<seq<int>>) returns (world: seq<seq<int>>)
    requires Holds(ranks, w)
    ensures world == w
  {
    world := [];
    var r := 0;
    while r < |ranks|
      invariant 0 <= r <= |ranks| && |world| == r
      invariant forall q :: 0 <= q < r ==> world[q] == w[q]
    {
      world := world + [ranks[r].road[..]];
      r := r + 1;
    }
  }
}
