/** Small shared vocabulary: an optional value, integer sums, and the
    bit-valued integers that both traffic programs store in their cells. */
module Common {

  datatype Option<T> = None | Some(value: T)

  /** The sum of a sequence. */
  function Sum(s: seq<int>): int
    decreases |s|
  {
    if |s| == 0 then 0 else s[0] + Sum(s[1..])
  }

  lemma {:induction false} SumAppend(s: seq<int>, t: seq<int>)
    ensures Sum(s + t) == Sum(s) + Sum(t)
    decreases |s|
  {
    if s == [] {
      assert s + t == t;
    } else {
      assert (s + t)[1..] == s[1..] + t;
      SumAppend(s[1..], t);
    }
  }

  /** Adding one more element at the back, as an accumulating loop does. */
  lemma SumSnoc(s: seq<int>, x: int)
    ensures Sum(s + [x]) == Sum(s) + x
  {
    SumAppend(s, [x]);
    SumSingleton(x);
  }

  /** Splitting off the last element. */
  lemma SumLast(s: seq<int>)
    requires s != []
    ensures Sum(s) == Sum(s[..|s| - 1]) + s[|s| - 1]
  {
    var k := |s| - 1;
    assert s[..k] + [s[k]] == s;
    SumSnoc(s[..k], s[k]);
  }

  lemma SumSingleton(x: int)
    ensures Sum([x]) == x
  {
    assert [x][1..] == [];
  }

  /** Sum of a pointwise sum is the sum of the sums. */
  lemma {:induction false} SumPointwise(s: seq<int>, t: seq<int>, u: seq<int>)
    requires |s| == |t| == |u|
    requires forall i :: 0 <= i < |u| ==> u[i] == s[i] + t[i]
    ensures Sum(u) == Sum(s) + Sum(t)
    decreases |u|
  {
    if u != [] {
      SumPointwise(s[1..], t[1..], u[1..]);
    }
  }

  /** Rotating the last element to the front does not change the sum. */
  lemma SumRotate(s: seq<int>)
    requires s != []
    ensures Sum([s[|s| - 1]] + s[..|s| - 1]) == Sum(s)
  {
    var k := |s| - 1;
    SumAppend([s[k]], s[..k]);
    SumAppend(s[..k], [s[k]]);
    SumSingleton(s[k]);
    assert s[..k] + [s[k]] == s;
  }

  /** A sequence of bits sums to at most its length and at least zero. */
  lemma {:induction false} SumBitsBounds(s: seq<int>)
    requires AllBits(s)
    ensures 0 <= Sum(s) <= |s|
    decreases |s|
  {
    if s != [] {
      SumBitsBounds(s[1..]);
    }
  }

  /** A cell value of the traffic programs: 0 (empty) or 1 (occupied). */
  predicate IsBit(x: int)
  {
    x == 0 || x == 1
  }

  predicate AllBits(s: seq<int>)
  {
    forall i :: 0 <= i < |s| ==> IsBit(s[i])
  }

  /** C's `x | y` on two bits. */
  function BitOr(x: int, y: int): (r: int)
    requires IsBit(x) && IsBit(y)
    ensures IsBit(r) && (r == 1 <==> x == 1 || y == 1)
  {
    if x == 1 || y == 1 then 1 else 0
  }

  /** C's `x & y` on two bits. */
  function BitAnd(x: int, y: int): (r: int)
    requires IsBit(x) && IsBit(y)
    ensures IsBit(r) && (r == 1 <==> x == 1 && y == 1)
  {
    if x == 1 && y == 1 then 1 else 0
  }

  /** C's logical negation `!x` on any int. */
  function Not(x: int): (r: int)
    ensures IsBit(r) && (r == 1 <==> x == 0)
  {
    if x == 0 then 1 else 0
  }

  /** Multiplication by a natural number is monotone. */
  lemma MulLeRight(a: nat, b: nat, c: nat)
    requires a <= b
    ensures a * c <= b * c
  {
  }
}
