/** The traffic rule shared by reto3/src/traffic_serial.c and
    reto3/src/traffic_mpi.c: a rule-184 cellular automaton on a circular road
    of 0/1 cells. A car moves one cell to the right exactly when that cell is
    empty; all cells update at once from the old road. */
module TrafficRule {
  import opened Common

  /** RAND_MAX of the C library the programs are built against (glibc). */
  const RandMax: int := 2147483647

  /** Initial occupancy of one cell: `(rand() / (double)RAND_MAX < density) ? 1 : 0`,
      with the draw of rand() given as a parameter. */
  function Occupancy(draw: int, density: real): (cell: int)
    ensures IsBit(cell)
    ensures cell == 1 <==> (draw as real) / (RandMax as real) < density
  {
    if (draw as real) / (RandMax as real) < density then 1 else 0
  }

  /** The road create_road builds from one rand() draw per cell. */
  function InitialRoad(draws: seq<int>, density: real): (road: seq<int>)
    ensures |road| == |draws| && AllBits(road)
  {
    seq(|draws|, i requires 0 <= i < |draws| => Occupancy(draws[i], density))
  }

  /** Right neighbour on a ring of n cells: `(i + 1) % N`. */
  function Succ(i: nat, n: nat): (r: nat)
    requires i < n
    ensures r < n
  {
    if i == n - 1 then 0 else i + 1
  }

  /** Succ is the C expression `(i + 1) % N`. */
  lemma SuccIsModulo(i: nat, n: nat)
    requires i < n
    ensures Succ(i, n) == (i + 1) % n
  {
  }

  /** Left neighbour on a ring of n cells. */
  function Pred(i: nat, n: nat): (r: nat)
    requires i < n
    ensures r < n && Succ(r, n) == i
  {
    if i == 0 then n - 1 else i - 1
  }

  /** The two neighbours undo each other: `left_rank` of `right_rank` is
      the rank itself, and so is `right_rank` of `left_rank`. */
  lemma RingNeighbours(i: nat, n: nat)
    requires i < n
    ensures Pred(Succ(i, n), n) == i && Succ(Pred(i, n), n) == i
  {
  }

  /** `move` of the C loop: the car in a cell with right neighbour `right` leaves. */
  function Moves(cell: int, right: int): (m: int)
    ensures IsBit(m) && (m == 1 <==> cell == 1 && right == 0)
  {
    if cell == 1 && right == 0 then 1 else 0
  }

  /** `road[i] & !move`: the car in a cell stays put. */
  function Stays(cell: int, right: int): (s: int)
    requires IsBit(cell) && IsBit(right)
    ensures IsBit(s) && (s == 1 <==> cell == 1 && right == 1)
  {
    BitAnd(cell, Not(Moves(cell, right)))
  }

  /** The synchronous rule for one cell, from its old left, own and right
      values: occupied next iff a car stays here or a car arrives from the left. */
  function Cell184(left: int, cell: int, right: int): (c: int)
    ensures IsBit(c)
  {
    if (cell == 1 && right == 1) || (left == 1 && cell == 0) then 1 else 0
  }

  /** The two writers of one destination cell never both fire, so OR-ing them
      is the same as adding them, and the OR equals the synchronous rule. */
  lemma WritersExclusive(left: int, cell: int, right: int)
    requires IsBit(left) && IsBit(cell) && IsBit(right)
    ensures Stays(cell, right) + Moves(left, cell) <= 1
    ensures Cell184(left, cell, right) == BitOr(Stays(cell, right), Moves(left, cell))
    ensures Cell184(left, cell, right) == Stays(cell, right) + Moves(left, cell)
  {
  }

  /** One step of the whole circular road, every cell from the old road. */
  function Rule184(road: seq<int>): (next: seq<int>)
    ensures |next| == |road|
    ensures AllBits(next)
  {
    var n := |road|;
    seq(n, j requires 0 <= j < n => Cell184(road[Pred(j, n)], road[j], road[Succ(j, n)]))
  }

  /** The road after t steps. */
  function Iterate(road: seq<int>, t: nat): (r: seq<int>)
    ensures |r| == |road|
    decreases t
  {
    if t == 0 then road else Rule184(Iterate(road, t - 1))
  }

  /** For every cell, whether its car stays (1) or not. */
  function StayBits(road: seq<int>): (s: seq<int>)
    requires AllBits(road)
    ensures |s| == |road|
  {
    var n := |road|;
    seq(n, j requires 0 <= j < n => Stays(road[j], road[Succ(j, n)]))
  }

  /** For every cell, whether its car moves (1) or not. */
  function MoveBits(road: seq<int>): (m: seq<int>)
    ensures |m| == |road|
  {
    var n := |road|;
    seq(n, j requires 0 <= j < n => Moves(road[j], road[Succ(j, n)]))
  }

  /** Number of cars that move in one step. */
  function Moved(road: seq<int>): int
  {
    Sum(MoveBits(road))
  }

  /** A cell holds a car exactly when that car either stays or moves. */
  lemma {:induction false} CarsStayOrMove(road: seq<int>)
    requires AllBits(road)
    ensures Sum(road) == Sum(StayBits(road)) + Moved(road)
  {
    SumPointwise(StayBits(road), MoveBits(road), road);
  }

  /** For every cell, whether a car arrives from its left neighbour (1) or not. */
  function ArriveBits(road: seq<int>): (a: seq<int>)
    ensures |a| == |road|
  {
    var n := |road|;
    seq(n, j requires 0 <= j < n => Moves(road[Pred(j, n)], road[j]))
  }

  /** Arrivals are the moves rotated one cell to the right. */
  lemma ArrivalsRotateMoves(road: seq<int>)
    requires |road| > 0
    ensures ArriveBits(road) == [MoveBits(road)[|road| - 1]] + MoveBits(road)[..|road| - 1]
  {
  }

  /** Each cell of the next road is its staying car plus its arriving car. */
  lemma StayPlusArrive(road: seq<int>)
    requires AllBits(road)
    ensures forall j :: 0 <= j < |road| ==>
      Rule184(road)[j] == StayBits(road)[j] + ArriveBits(road)[j]
  {
    var n := |road|;
    forall j | 0 <= j < n
      ensures Rule184(road)[j] == StayBits(road)[j] + ArriveBits(road)[j]
    {
      WritersExclusive(road[Pred(j, n)], road[j], road[Succ(j, n)]);
    }
  }

  /** Conservation: one step never creates or destroys a car. */
  lemma {:induction false} Rule184Conserves(road: seq<int>)
    requires AllBits(road)
    ensures Sum(Rule184(road)) == Sum(road)
  {
    if |road| > 0 {
      StayPlusArrive(road);
      SumPointwise(StayBits(road), ArriveBits(road), Rule184(road));
      ArrivalsRotateMoves(road);
      SumRotate(MoveBits(road));
      CarsStayOrMove(road);
    }
  }

  /** Conservation over any number of steps. */
  lemma {:induction false} IterateConserves(road: seq<int>, t: nat)
    requires AllBits(road)
    ensures AllBits(Iterate(road, t))
    ensures Sum(Iterate(road, t)) == Sum(road)
    decreases t
  {
    if t > 0 {
      IterateConserves(road, t - 1);
      Rule184Conserves(Iterate(road, t - 1));
    }
  }

  /** Periodic wrap: the car in the last cell moves to cell 0 exactly when
      cell 0 is empty. */
  lemma WrapAround(road: seq<int>)
    requires AllBits(road) && |road| >= 2
    ensures road[|road| - 1] == 1 ==>
      (Rule184(road)[0] == 1 && Rule184(road)[|road| - 1] == 0 <==> road[0] == 0)
  {
  }

  /** The worked example: four cars, three of which move. */
  lemma Example()
    ensures Rule184([1, 0, 1, 0, 0, 1, 0, 0, 0, 1]) == [0, 1, 0, 1, 0, 0, 1, 0, 0, 1]
    ensures Moved([1, 0, 1, 0, 0, 1, 0, 0, 0, 1]) == 3
    ensures Sum([1, 0, 1, 0, 0, 1, 0, 0, 0, 1]) == 4
  {
    var road := [1, 0, 1, 0, 0, 1, 0, 0, 0, 1];
    ExampleNext(road);
    ExampleMoves(road);
    ExampleCounts();
  }

  lemma ExampleCounts()
    ensures Sum([1, 0, 1, 0, 0, 1, 0, 0, 0, 1]) == 4
    ensures Sum([1, 0, 1, 0, 0, 1, 0, 0, 0, 0]) == 3
  {
  }

  lemma ExampleNext(road: seq<int>)
    requires road == [1, 0, 1, 0, 0, 1, 0, 0, 0, 1]
    ensures Rule184(road) == [0, 1, 0, 1, 0, 0, 1, 0, 0, 1]
  {
    var next := Rule184(road);
    assert next[0] == 0 && next[1] == 1 && next[2] == 0 && next[3] == 1 && next[4] == 0;
    assert next[5] == 0 && next[6] == 1 && next[7] == 0 && next[8] == 0 && next[9] == 1;
  }

  lemma ExampleMoves(road: seq<int>)
    requires road == [1, 0, 1, 0, 0, 1, 0, 0, 0, 1]
    ensures MoveBits(road) == [1, 0, 1, 0, 0, 1, 0, 0, 0, 0]
  {
    var move := MoveBits(road);
    assert move[0] == 1 && move[1] == 0 && move[2] == 1 && move[3] == 0 && move[4] == 0;
    assert move[5] == 1 && move[6] == 0 && move[7] == 0 && move[8] == 0 && move[9] == 0;
  }
}
