/** reto3/src/traffic_serial.c: the whole road lives in one array `road`, a
    second array `next` receives each new generation, and the two are swapped
    after every pass. Timing, rusage and the CSV report are not modelled. */
module TrafficSerial {
  import opened Common
  import opened TrafficRule

  /** create_road: N cells, cell i occupied iff its rand() draw falls below
      the density. The draws are a parameter. */
  method CreateRoad(n: nat, draws: seq<int>, density: real) returns (road: array<int>)
    requires |draws| == n
    ensures fresh(road) && road.Length == n
    ensures road[..] == InitialRoad(draws, density)
    ensures AllBits(road[..])
  {
    road := new int[n];
    var i := 0;
    while i < n
      invariant 0 <= i <= n
      invariant forall j :: 0 <= j < i ==> road[j] == Occupancy(draws[j], density)
    {
      road[i] := Occupancy(draws[i], density);
      i := i + 1;
    }
  }

  /** The `total_cars` loop of main: the number of occupied cells. */
  method TotalCars(road: array<int>) returns (total: int)
    ensures total == Sum(road[..])
  {
    total := 0;
    var i := 0;
    while i < road.Length
      invariant 0 <= i <= road.Length
      invariant total == Sum(road[..i])
    {
      assert road[..i + 1] == road[..i] + [road[i]];
      SumSnoc(road[..i], road[i]);
      total := total + road[i];
      i := i + 1;
    }
    assert road[..road.Length] == road[..];
  }

  /** The value of next[j] once the loop has handled cells 0..i-1: the staying
      car of cell j if j was handled, OR the car arriving from the left
      neighbour if that neighbour was handled. */
  ghost function Written(road: seq<int>, i: nat, j: nat): (v: int)
    requires AllBits(road) && i <= |road| && j < |road|
    ensures IsBit(v)
  {
    var n := |road|;
    BitOr(if j < i then Stays(road[j], road[Succ(j, n)]) else 0,
          if Pred(j, n) < i then Moves(road[Pred(j, n)], road[j]) else 0)
  }

  /** The whole of `next` once the loop has handled cells 0..i-1. */
  ghost function WrittenRow(road: seq<int>, i: nat): (w: seq<int>)
    requires AllBits(road) && i <= |road|
    ensures |w| == |road|
  {
    seq(|road|, j requires 0 <= j < |road| => Written(road, i, j))
  }

  /** Before the loop nothing is written: the zeroed buffer. */
  lemma WrittenNone(road: seq<int>)
    requires AllBits(road)
    ensures WrittenRow(road, 0) == seq(|road|, _ => 0)
  {
  }

  /** Handling cell i ORs its staying car into cell i, then its moving car
      into cell Succ(i) (the same cell when the road has one cell); every
      other cell keeps its value. */
  lemma HandleCell(road: seq<int>, i: nat)
    requires AllBits(road) && i < |road|
    ensures var r := Succ(i, |road|);
      var w := WrittenRow(road, i);
      var w1 := w[i := BitOr(w[i], Stays(road[i], road[r]))];
      WrittenRow(road, i + 1) == w1[r := BitOr(w1[r], Moves(road[i], road[r]))]
  {
  }

  /** Once every cell is handled, `next` holds the synchronous rule. */
  lemma WrittenAll(road: seq<int>)
    requires AllBits(road)
    ensures WrittenRow(road, |road|) == Rule184(road)
  {
    var n := |road|;
    forall j | 0 <= j < n
      ensures WrittenRow(road, n)[j] == Rule184(road)[j]
    {
      WritersExclusive(road[Pred(j, n)], road[j], road[Succ(j, n)]);
    }
  }

  /** One generation, lines 50-58: zero `next`, then for every cell OR its
      staying car into next[i] and its moving car into next[(i + 1) % N].
      The result is the synchronous rule applied to the old road. */
  method Step(road: array<int>, next: array<int>)
    requires road != next && next.Length == road.Length
    requires AllBits(road[..])
    modifies next
    ensures next[..] == Rule184(road[..])
  {
    var n := road.Length;
    ghost var cells := road[..];
    // memset(next, 0, N * sizeof(int))
    forall j | 0 <= j < n {
      next[j] := 0;
    }
    WrittenNone(cells);
    var i := 0;
    while i < n
      invariant 0 <= i <= n
      invariant next[..] == WrittenRow(cells, i)
    {
      var right := (i + 1) % n;
      SuccIsModulo(i, n);
      HandleCell(cells, i);
      var move := if road[i] == 1 && road[right] == 0 then 1 else 0;
      assert move == Moves(cells[i], cells[right]);
      assert BitAnd(road[i], Not(move)) == Stays(cells[i], cells[right]);
      ghost var w := next[..];
      next[i] := BitOr(next[i], BitAnd(road[i], Not(move)));
      assert next[..] == w[i := BitOr(w[i], Stays(cells[i], cells[right]))];
      ghost var w1 := next[..];
      next[right] := BitOr(next[right], move);
      assert next[..] == w1[right := BitOr(w1[right], move)];
      i := i + 1;
    }
    WrittenAll(cells);
  }

  /** main without its timing and report: build the road, count its cars
      once, then run `steps` generations, swapping the buffers after each.
      The final road is the steps-fold rule of the initial one, and it still
      holds total_cars cars. */
  method Simulate(n: nat, draws: seq<int>, density: real, steps: int)
    returns (final: seq<int>, totalCars: int)
    requires |draws| == n
    ensures final == Iterate(InitialRoad(draws, density), if steps < 0 then 0 else steps)
    ensures totalCars == Sum(InitialRoad(draws, density))
    ensures Sum(final) == totalCars
  {
    var road := CreateRoad(n, draws, density);
    var next := new int[n];   // calloc(N, sizeof(int))
    totalCars := TotalCars(road);
    ghost var init := road[..];
    var t := 0;
    while t < steps
      invariant fresh(road) && fresh(next) && road != next
      invariant road.Length == n && next.Length == n
      invariant 0 <= t && (steps < 0 ==> t == 0) && (steps >= 0 ==> t <= steps)
      invariant road[..] == Iterate(init, t)
    {
      IterateConserves(init, t);
      Step(road, next);
      road, next := next, road;
      t := t + 1;
    }
    assert t == (if steps < 0 then 0 else steps);
    IterateConserves(init, t);
    final := road[..];
  }
}
