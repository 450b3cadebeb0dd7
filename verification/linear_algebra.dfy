/** `shifts_to_curve` (SimulationClient/LinearAlgebra.py): the curve the
    client optimises is described by the orthogonal shifts of its inner
    points away from the straight line between the end points. The curve is
    that line, sampled evenly at n + 2 points, with inner point i + 1 moved
    by the rotation of shift block i embedded after a zero first
    coordinate. Coordinates are exact reals. */
module LinearAlgebra {
  import opened Wrappers

  type Vector = seq<real>
  type Matrix = seq<seq<real>>

  function Add(a: Vector, b: Vector): (c: Vector)
    requires |a| == |b|
    ensures |c| == |a|
    ensures forall k :: 0 <= k < |c| ==> c[k] == a[k] + b[k]
  {
    seq(|a|, k requires 0 <= k < |a| => a[k] + b[k])
  }

  function Sub(a: Vector, b: Vector): (c: Vector)
    requires |a| == |b|
    ensures |c| == |a|
    ensures forall k :: 0 <= k < |c| ==> c[k] == a[k] - b[k]
  {
    seq(|a|, k requires 0 <= k < |a| => a[k] - b[k])
  }

  function Scale(x: real, a: Vector): (c: Vector)
    ensures |c| == |a|
    ensures forall k :: 0 <= k < |c| ==> c[k] == x * a[k]
  {
    seq(|a|, k requires 0 <= k < |a| => x * a[k])
  }

  /** Two one-dimensional numpy arrays broadcast together when their
      lengths agree or one of them has length 1. */
  predicate Broadcastable(m: nat, n: nat)
  {
    m == n || m == 1 || n == 1
  }

  /** The length of the broadcast result (a length-1 array against an
      empty one gives an empty result). */
  function BroadcastLength(m: nat, n: nat): (l: nat)
    requires Broadcastable(m, n)
    ensures l == m || l == n
    ensures (m == 1 || m == l) && (n == 1 || n == l)
  {
    if m == 1 then n else m
  }

  /** Entry k of an array as broadcasting reads it: an array of length 1
      stands for its one entry at every index. */
  function Entry(a: Vector, k: nat): real
    requires k < |a| || |a| == 1
  {
    if |a| == 1 then a[0] else a[k]
  }

  /** `a` broadcast to length n. */
  function Stretch(a: Vector, n: nat): (b: Vector)
    requires |a| == n || |a| == 1
    ensures |b| == n && forall k :: 0 <= k < n ==> b[k] == Entry(a, k)
  {
    seq(n, k requires 0 <= k < n => Entry(a, k))
  }

  /** Broadcasting an array to its own length leaves it as it is. */
  lemma {:induction false} StretchSame(a: Vector)
    ensures Stretch(a, |a|) == a
  {
    forall k | 0 <= k < |a|
      ensures Stretch(a, |a|)[k] == a[k]
    {
    }
  }

  /** `np.add(a, b)` on two one-dimensional arrays. */
  function BroadcastAdd(a: Vector, b: Vector): (r: Result<Vector>)
    ensures r.Success? <==> Broadcastable(|a|, |b|)
    ensures r.Failure? ==> r.error.ValueError?
    ensures r.Success? ==> |r.value| == BroadcastLength(|a|, |b|)
    ensures r.Success? ==> forall k :: 0 <= k < |r.value| ==> r.value[k] == Entry(a, k) + Entry(b, k)
  {
    if !Broadcastable(|a|, |b|) then Failure(ValueError("operands could not be broadcast together"))
    else
      var n := BroadcastLength(|a|, |b|);
      Success(Add(Stretch(a, n), Stretch(b, n)))
  }

  /** `np.subtract(a, b)` on two one-dimensional arrays. */
  function BroadcastSub(a: Vector, b: Vector): (r: Result<Vector>)
    ensures r.Success? <==> Broadcastable(|a|, |b|)
    ensures r.Failure? ==> r.error.ValueError?
    ensures r.Success? ==> |r.value| == BroadcastLength(|a|, |b|)
    ensures r.Success? ==> forall k :: 0 <= k < |r.value| ==> r.value[k] == Entry(a, k) - Entry(b, k)
  {
    if !Broadcastable(|a|, |b|) then Failure(ValueError("operands could not be broadcast together"))
    else
      var n := BroadcastLength(|a|, |b|);
      Success(Sub(Stretch(a, n), Stretch(b, n)))
  }

  /** On arrays of equal length broadcasting is the plain componentwise
      operation. */
  lemma {:induction false} BroadcastEqualLengths(a: Vector, b: Vector)
    requires |a| == |b|
    ensures BroadcastAdd(a, b) == Success(Add(a, b))
    ensures BroadcastSub(a, b) == Success(Sub(a, b))
  {
    StretchSame(a);
    StretchSame(b);
  }

  /** Adding a zero array broadcasts the other operand and changes none of
      its entries. */
  lemma {:induction false} BroadcastAddZero(a: Vector, z: Vector)
    requires Broadcastable(|a|, |z|) && IsZero(z)
    ensures BroadcastAdd(a, z) == Success(Stretch(a, BroadcastLength(|a|, |z|)))
  {
    var n := BroadcastLength(|a|, |z|);
    var r := BroadcastAdd(a, z).value;
    forall k | 0 <= k < n
      ensures r[k] == Stretch(a, n)[k]
    {
      assert Entry(z, k) == 0.0;
    }
    assert r == Stretch(a, n);
  }

  function Dot(a: Vector, b: Vector): real
    requires |a| == |b|
  {
    if |a| == 0 then 0.0 else a[0] * b[0] + Dot(a[1..], b[1..])
  }

  /** Whether every row of the matrix has `columns` entries. */
  predicate HasColumns(m: Matrix, columns: nat)
  {
    forall k :: 0 <= k < |m| ==> |m[k]| == columns
  }

  /** `m.dot(x)`: one inner product per row. */
  function MatVec(m: Matrix, x: Vector): (y: Vector)
    requires HasColumns(m, |x|)
    ensures |y| == |m|
    ensures forall k :: 0 <= k < |y| ==> y[k] == Dot(m[k], x)
  {
    seq(|m|, k requires 0 <= k < |m| => Dot(m[k], x))
  }

  function Zeros(n: nat): (z: Vector)
    ensures |z| == n && forall k :: 0 <= k < n ==> z[k] == 0.0
  {
    seq(n, _ => 0.0)
  }

  predicate IsZero(a: Vector)
  {
    forall k :: 0 <= k < |a| ==> a[k] == 0.0
  }

  lemma {:induction false} DotZero(a: Vector, b: Vector)
    requires |a| == |b| && IsZero(b)
    ensures Dot(a, b) == 0.0
    decreases |a|
  {
    if |a| > 0 {
      DotZero(a[1..], b[1..]);
    }
  }

  /** A matrix maps the zero vector to the zero vector. */
  lemma {:induction false} MatVecZero(m: Matrix, x: Vector)
    requires HasColumns(m, |x|) && IsZero(x)
    ensures MatVec(m, x) == Zeros(|m|)
  {
    forall k | 0 <= k < |m|
      ensures MatVec(m, x)[k] == 0.0
    {
      DotZero(m[k], x);
    }
  }

  /** The step between consecutive points of the initial line:
      (end - start) / (n + 1). */
  function Tangent(start: Vector, end: Vector, n: nat): (t: Vector)
    requires |start| == |end|
    ensures |t| == |start|
  {
    Scale(1.0 / (n + 1) as real, Sub(end, start))
  }

  /** Point i of the initial line: start + i * tangent. */
  function LinePoint(start: Vector, end: Vector, n: nat, i: nat): (p: Vector)
    requires |start| == |end|
    ensures |p| == |start|
  {
    Add(start, Scale(i as real, Tangent(start, end, n)))
  }

  /** The first loop of `shifts_to_curve`: the n + 2 evenly spaced points. */
  function InitialLine(start: Vector, end: Vector, n: nat): (points: seq<Vector>)
    requires |start| == |end|
    ensures |points| == n + 2
    ensures forall i :: 0 <= i < n + 2 ==> points[i] == LinePoint(start, end, n, i)
  {
    seq(n + 2, i requires 0 <= i < n + 2 => LinePoint(start, end, n, i))
  }

  /** The line starts at the start point, ends at the end point after
      n + 1 steps, and each point is one tangent step beyond the previous
      one. */
  lemma {:induction false} LineEnds(start: Vector, end: Vector, n: nat)
    requires |start| == |end|
    ensures LinePoint(start, end, n, 0) == start
    ensures LinePoint(start, end, n, n + 1) == end
  {
    var t := Tangent(start, end, n);
    var last := LinePoint(start, end, n, n + 1);
    forall k | 0 <= k < |start|
      ensures last[k] == end[k]
    {
      var steps := (n + 1) as real;
      assert t[k] == (1.0 / steps) * (end[k] - start[k]);
      assert steps * ((1.0 / steps) * (end[k] - start[k])) == end[k] - start[k];
    }
  }

  lemma {:induction false} EvenlySpaced(start: Vector, end: Vector, n: nat, i: nat)
    requires |start| == |end|
    ensures LinePoint(start, end, n, i + 1) == Add(LinePoint(start, end, n, i), Tangent(start, end, n))
  {
    var t := Tangent(start, end, n);
    forall k | 0 <= k < |start|
      ensures LinePoint(start, end, n, i + 1)[k] == LinePoint(start, end, n, i)[k] + t[k]
    {
      assert (i + 1) as real * t[k] == i as real * t[k] + t[k];
    }
  }

  /** `xrange(0, len(shift_points)/codimension)`: Python 2 integer division;
      for a negative codimension the quotient is not positive and the loop
      is empty. */
  function ShiftCount(len: nat, codimension: int): (count: nat)
    requires codimension != 0
    ensures codimension > 0 ==> count * codimension <= len < (count + 1) * codimension
    ensures codimension < 0 ==> count == 0
  {
    if codimension > 0 then len / codimension else 0
  }

  lemma {:induction false} BlockFits(len: nat, codimension: nat, i: nat)
    requires codimension > 0 && i < ShiftCount(len, codimension)
    ensures (i + 1) * codimension <= len
  {
    var count := ShiftCount(len, codimension);
    assert (i + 1) * codimension <= count * codimension;
  }

  /** `shift_points[i*codimension:(i+1)*codimension]`. */
  function Block(shift: Vector, codimension: nat, i: nat): (b: Vector)
    requires codimension > 0 && i < ShiftCount(|shift|, codimension)
    ensures |b| == codimension
  {
    BlockFits(|shift|, codimension, i);
    shift[i * codimension .. (i + 1) * codimension]
  }

  /** The rotated shift of point i + 1: R times the block embedded after a
      zero first coordinate. */
  function Displacement(rotation: Matrix, shift: Vector, codimension: nat, i: nat): (d: Vector)
    requires codimension > 0 && i < ShiftCount(|shift|, codimension)
    requires HasColumns(rotation, codimension + 1)
    ensures |d| == |rotation|
  {
    MatVec(rotation, [0.0] + Block(shift, codimension, i))
  }

  predicate AllOfLength(points: seq<Vector>, dimension: nat)
  {
    forall i :: 0 <= i < |points| ==> |points[i]| == dimension
  }

  /** `np.add(p, shift)` for the rotated shift of block i. */
  function Shifted(p: Vector, rotation: Matrix, shift: Vector, codimension: nat, i: nat): (q: Vector)
    requires codimension > 0 && i < ShiftCount(|shift|, codimension)
    requires HasColumns(rotation, codimension + 1) && Broadcastable(|p|, |rotation|)
    ensures |q| == BroadcastLength(|p|, |rotation|)
  {
    BroadcastAdd(p, Displacement(rotation, shift, codimension, i)).value
  }

  /** The second loop of `shifts_to_curve` from iteration i on: iteration j
      adds displacement j to point j + 1. */
  function ApplyShifts(points: seq<Vector>, rotation: Matrix, shift: Vector, codimension: nat, i: nat)
    : (r: seq<Vector>)
    requires codimension > 0
    requires i <= ShiftCount(|shift|, codimension) < |points|
    requires HasColumns(rotation, codimension + 1)
    requires forall k :: i < k <= ShiftCount(|shift|, codimension) ==> Broadcastable(|points[k]|, |rotation|)
    ensures |r| == |points|
    ensures forall k :: 0 <= k < |points| && i < k <= ShiftCount(|shift|, codimension) ==>
      r[k] == Shifted(points[k], rotation, shift, codimension, k - 1)
    ensures forall k :: 0 <= k < |points| && !(i < k <= ShiftCount(|shift|, codimension)) ==> r[k] == points[k]
    decreases ShiftCount(|shift|, codimension) - i
  {
    if i == ShiftCount(|shift|, codimension) then points
    else
      var moved := points[i + 1 := Shifted(points[i + 1], rotation, shift, codimension, i)];
      assert forall k :: i + 1 < k <= ShiftCount(|shift|, codimension) ==> moved[k] == points[k];
      ApplyShifts(moved, rotation, shift, codimension, i + 1)
  }

  /** The start and end points broadcast against each other, as the first
      loop of `shifts_to_curve` uses them. */
  function Ends(start: Vector, end: Vector): (e: (Vector, Vector))
    requires Broadcastable(|end|, |start|)
    ensures |e.0| == |e.1| == BroadcastLength(|end|, |start|)
  {
    var d := BroadcastLength(|end|, |start|);
    (Stretch(start, d), Stretch(end, d))
  }

  /** `shifts_to_curve(start, end, shift, n, R, tangent_direction,
      codimension)`; `tangent_direction` is not used. Start and end must
      broadcast together (numpy repeats an array of length 1); a zero
      codimension divides by zero; when the second loop runs, R must be a
      non-empty matrix of codimension + 1 columns whose image broadcasts
      against the points, and a shift vector with more than n + 1 blocks
      runs past the last point. */
  function ShiftsToCurve(start: Vector, end: Vector, shift: Vector, n: nat, rotation: Matrix, codimension: int)
    : (r: Result<seq<Vector>>)
    ensures !Broadcastable(|end|, |start|) ==> r.Failure? && r.error.ValueError?
    ensures Broadcastable(|end|, |start|) && codimension == 0 ==> r == Failure(ZeroDivisionError)
    ensures r.Success? <==>
      && Broadcastable(|end|, |start|) && codimension != 0
      && (ShiftCount(|shift|, codimension) > 0 ==>
            && |rotation| > 0 && HasColumns(rotation, codimension + 1)
            && Broadcastable(BroadcastLength(|end|, |start|), |rotation|))
      && ShiftCount(|shift|, codimension) <= n + 1
    ensures r.Success? ==> |r.value| == n + 2
    ensures r.Success? ==> r.value[0] == Ends(start, end).0
    ensures r.Success? ==> forall i :: 1 <= i <= ShiftCount(|shift|, codimension) ==>
      r.value[i] == Shifted(LinePoint(Ends(start, end).0, Ends(start, end).1, n, i), rotation, shift, codimension, i - 1)
    ensures r.Success? ==> forall i :: ShiftCount(|shift|, codimension) < i < n + 2 ==>
      r.value[i] == LinePoint(Ends(start, end).0, Ends(start, end).1, n, i)
  {
    if !Broadcastable(|end|, |start|) then Failure(ValueError("operands could not be broadcast together"))
    else if codimension == 0 then Failure(ZeroDivisionError)
    else
      var (s, e) := Ends(start, end);
      var count := ShiftCount(|shift|, codimension);
      var line := InitialLine(s, e, n);
      LineEnds(s, e, n);
      if count == 0 then Success(line)
      else if !(|rotation| > 0 && HasColumns(rotation, codimension + 1)) then
        Failure(ValueError("shapes not aligned"))
      else if !Broadcastable(|s|, |rotation|) then Failure(ValueError("operands could not be broadcast together"))
      else if count > n + 1 then Failure(IndexError)
      else Success(ApplyShifts(line, rotation, shift, codimension, 0))
  }

  /** The points of the first loop are the start point broadcast against
      i tangent steps: coordinate k of point i is
      start[k] + i * (end[k] - start[k]) / (n + 1), a length-1 end point
      standing for its entry in every coordinate. */
  lemma {:induction false} LineCoordinates(start: Vector, end: Vector, n: nat, i: nat, k: nat)
    requires Broadcastable(|end|, |start|) && k < BroadcastLength(|end|, |start|)
    ensures LinePoint(Ends(start, end).0, Ends(start, end).1, n, i)[k]
      == Entry(start, k) + i as real * ((1.0 / (n + 1) as real) * (Entry(end, k) - Entry(start, k)))
  {
  }

  /** With exactly n blocks of shifts the last point is never moved, so the
      curve ends at the end point (broadcast to the curve's dimension). */
  lemma {:induction false} CurveEndsAtEnd(start: Vector, end: Vector, shift: Vector, n: nat, rotation: Matrix, codimension: nat)
    requires codimension > 0 && |shift| == n * codimension
    requires ShiftsToCurve(start, end, shift, n, rotation, codimension).Success?
    ensures ShiftsToCurve(start, end, shift, n, rotation, codimension).value[n + 1] == Ends(start, end).1
    ensures |start| == |end| ==> ShiftsToCurve(start, end, shift, n, rotation, codimension).value[n + 1] == end
  {
    assert ShiftCount(|shift|, codimension) == n by {
      DivModUnique(|shift|, codimension, n, 0);
    }
    LineEnds(Ends(start, end).0, Ends(start, end).1, n);
    if |start| == |end| {
      StretchSame(end);
    }
  }

  lemma {:induction false} DivModUnique(x: int, d: int, q: int, m: int)
    requires d > 0 && x == d * q + m && 0 <= m < d
    ensures x / d == q
  {
    var k := q - x / d;
    assert d * k == x % d - m;
  }

  /** An all-zero shift vector gives the evenly spaced straight line, the
      initial guess of the optimisation, whenever the rotation's image has
      the points' dimension or length 1; when the points have a single
      coordinate and the image is longer, the shifted points repeat it. */
  lemma {:induction false} ZeroShiftIsLine(start: Vector, end: Vector, shift: Vector, n: nat, rotation: Matrix, codimension: int)
    requires IsZero(shift)
    requires ShiftsToCurve(start, end, shift, n, rotation, codimension).Success?
    ensures var line := InitialLine(Ends(start, end).0, Ends(start, end).1, n);
      var r := ShiftsToCurve(start, end, shift, n, rotation, codimension).value;
      forall i :: 1 <= i <= ShiftCount(|shift|, codimension) ==> r[i] == Stretch(line[i], BroadcastLength(|line[i]|, |rotation|))
    ensures |rotation| == 1 || |rotation| == BroadcastLength(|end|, |start|) ==>
      ShiftsToCurve(start, end, shift, n, rotation, codimension).value == InitialLine(Ends(start, end).0, Ends(start, end).1, n)
  {
    var r := ShiftsToCurve(start, end, shift, n, rotation, codimension).value;
    var (s, e) := Ends(start, end);
    var line := InitialLine(s, e, n);
    var count := ShiftCount(|shift|, codimension);
    forall i | 1 <= i <= count
      ensures r[i] == Stretch(line[i], BroadcastLength(|line[i]|, |rotation|))
    {
      ZeroShiftPoint(s, e, shift, n, rotation, codimension as nat, i);
    }
    if |rotation| == 1 || |rotation| == |s| {
      forall i | 1 <= i <= count
        ensures r[i] == line[i]
      {
        StretchSame(line[i]);
      }
    }
  }

  /** One point of a zero shift: the rotated block is zero, so the shifted
      point is the line's point broadcast to the result length. */
  lemma {:induction false} ZeroShiftPoint(s: Vector, e: Vector, shift: Vector, n: nat, rotation: Matrix, c: nat, i: nat)
    requires IsZero(shift) && |s| == |e|
    requires c > 0 && 1 <= i <= ShiftCount(|shift|, c)
    requires HasColumns(rotation, c + 1) && Broadcastable(|s|, |rotation|)
    ensures Shifted(LinePoint(s, e, n, i), rotation, shift, c, i - 1)
      == Stretch(LinePoint(s, e, n, i), BroadcastLength(|s|, |rotation|))
  {
    BlockFits(|shift|, c, i - 1);
    var b := [0.0] + Block(shift, c, i - 1);
    assert IsZero(b) by {
      forall k | 0 <= k < |b|
        ensures b[k] == 0.0
      {
        if k > 0 {
          assert b[k] == shift[(i - 1) * c + (k - 1)];
        }
      }
    }
    MatVecZero(rotation, b);
    BroadcastAddZero(LinePoint(s, e, n, i), Displacement(rotation, shift, c, i - 1));
  }
}
