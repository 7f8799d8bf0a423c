/** The two minute-deviation checks the reconciler relies on. */
module Deviation {
  import opened Ints

  datatype Option<T> = None | Some(value: T)

  /** Tolerated difference, in minutes, between two sources. */
  const Tolerance: int := 10

  /** (x, y, z) is a rearrangement of (a, b, c). */
  predicate Permutation3(x: u8, y: u8, z: u8, a: u8, b: u8, c: u8) {
    (x, y, z) == (a, b, c) || (x, y, z) == (a, c, b) || (x, y, z) == (b, a, c) ||
    (x, y, z) == (b, c, a) || (x, y, z) == (c, a, b) || (x, y, z) == (c, b, a)
  }

  /** The three values in ascending order. */
  function Sort3(a: u8, b: u8, c: u8): (r: (u8, u8, u8))
    ensures r.0 <= r.1 <= r.2
    ensures Permutation3(r.0, r.1, r.2, a, b, c)
  {
    if a <= b then
      if b <= c then (a, b, c) else if a <= c then (a, c, b) else (c, a, b)
    else
      if a <= c then (b, a, c) else if b <= c then (b, c, a) else (c, b, a)
  }

  /** Two ascending rearrangements of the same three values are the same triple. */
  lemma SortedUnique(x: (u8, u8, u8), y: (u8, u8, u8), a: u8, b: u8, c: u8)
    requires x.0 <= x.1 <= x.2 && Permutation3(x.0, x.1, x.2, a, b, c)
    requires y.0 <= y.1 <= y.2 && Permutation3(y.0, y.1, y.2, a, b, c)
    ensures x == y
  {}

  /** True when the sorted values have both gaps, smallest to middle and middle to
      largest, within the tolerance. The subtractions are taken after sorting, so
      neither goes below zero. */
  predicate SequentialLowDeviation(a: u8, b: u8, c: u8) {
    var (lo, mid, hi) := Sort3(a, b, c);
    (mid - lo) as int <= Tolerance && (hi - mid) as int <= Tolerance
  }

  /** Sort a three-element buffer in place (the standard library sort used by
      `check_sequential_low_deviation`, which for three elements amounts to three compare-exchanges). */
  method SortInPlace(v: array<u8>)
    requires v.Length == 3
    modifies v
    ensures v[0] <= v[1] <= v[2]
    ensures Permutation3(v[0], v[1], v[2], old(v[0]), old(v[1]), old(v[2]))
  {
    if v[0] > v[1] { v[0], v[1] := v[1], v[0]; }
    if v[1] > v[2] { v[1], v[2] := v[2], v[1]; }
    if v[0] > v[1] { v[0], v[1] := v[1], v[0]; }
  }

  /** `check_sequential_low_deviation`: collect the three values in a buffer, sort it, and test
      both neighbouring gaps of the sorted buffer. */
  method CheckSequentialLowDeviation(a: u8, b: u8, c: u8) returns (ok: bool)
    ensures ok == SequentialLowDeviation(a, b, c)
  {
    var numbers := new u8[3] [a, b, c];
    assert numbers[..] == [a, b, c];
    SortInPlace(numbers);
    SortedUnique((numbers[0], numbers[1], numbers[2]), Sort3(a, b, c), a, b, c);
    ok := (numbers[1] - numbers[0]) as int <= Tolerance && (numbers[2] - numbers[1]) as int <= Tolerance;
  }

  /** The check is decided by any ascending arrangement of the three values: both
      of its gaps must be within the tolerance. A gap of 10 passes, 11 fails. */
  lemma SequentialLowDeviationIff(a: u8, b: u8, c: u8, x: u8, y: u8, z: u8)
    requires x <= y <= z && Permutation3(x, y, z, a, b, c)
    ensures SequentialLowDeviation(a, b, c) <==> (y - x) as int <= Tolerance && (z - y) as int <= Tolerance
  {
    SortedUnique((x, y, z), Sort3(a, b, c), a, b, c);
  }

  /** The order in which the three values are passed does not matter. */
  lemma SequentialLowDeviationSymmetric(a: u8, b: u8, c: u8)
    ensures SequentialLowDeviation(a, b, c) == SequentialLowDeviation(b, a, c)
    ensures SequentialLowDeviation(a, b, c) == SequentialLowDeviation(a, c, b)
    ensures SequentialLowDeviation(a, b, c) == SequentialLowDeviation(c, b, a)
  {
    var s := Sort3(a, b, c);
    SequentialLowDeviationIff(b, a, c, s.0, s.1, s.2);
    SequentialLowDeviationIff(a, c, b, s.0, s.1, s.2);
    SequentialLowDeviationIff(c, b, a, s.0, s.1, s.2);
  }

  /** Gaps of exactly the tolerance are accepted; one more is rejected. */
  lemma SequentialLowDeviationBoundary()
    ensures SequentialLowDeviation(20, 0, 10)
    ensures !SequentialLowDeviation(20, 0, 9)
    ensures !SequentialLowDeviation(21, 0, 10)
  {}

  /** The absolute difference of two values, computed in i16 by
      `check_pair_deviation_and_average`; the i16 difference of two u8 values
      cannot overflow. */
  function Dist(x: u8, y: u8): (r: nat)
    ensures -0x8000 <= x as int - y as int < 0x8000
    ensures r <= Tolerance <==> x as int - Tolerance <= y as int <= x as int + Tolerance
    ensures r < 0x100
  {
    var d := x as int - y as int;
    if d < 0 then -d else d
  }

  /** The distance does not depend on the order of the pair. */
  lemma DistSymmetric(x: u8, y: u8)
    ensures Dist(x, y) == Dist(y, x)
  {}

  /** Two values are close when they differ by at most the tolerance. */
  predicate Close(x: u8, y: u8) {
    Dist(x, y) <= Tolerance
  }

  /** The mean of two values, rounded down, as `check_pair_deviation_and_average` computes it in u16 and
      narrows back to u8; it lies between the two values, so the narrowing is exact. */
  function Mean2(x: u8, y: u8): (r: u8)
    ensures (x <= r <= y) || (y <= r <= x)
    ensures 2 * r as int <= x as int + y as int < 2 * r as int + 2
  {
    ((x as int + y as int) / 2) as u8
  }

  /** `check_pair_deviation_and_average`: the pairs A-B, A-C and B-C are tried in that
      order, and the first close pair yields its mean. */
  function PairDeviationAndAverage(a: u8, b: u8, c: u8): (r: Option<u8>)
    ensures r.None? <==> !Close(a, b) && !Close(a, c) && !Close(b, c)
  {
    if Close(a, b) then Some(Mean2(a, b))
    else if Close(a, c) then Some(Mean2(a, c))
    else if Close(b, c) then Some(Mean2(b, c))
    else None
  }

  /** Reference formulation: the first pair of a list that is close. */
  function FirstClose(pairs: seq<(u8, u8)>): (r: Option<(u8, u8)>)
    ensures r.Some? ==> exists i | 0 <= i < |pairs| ::
              pairs[i] == r.value && Close(pairs[i].0, pairs[i].1) &&
              forall j | 0 <= j < i :: !Close(pairs[j].0, pairs[j].1)
    ensures r.None? <==> forall i | 0 <= i < |pairs| :: !Close(pairs[i].0, pairs[i].1)
  {
    if pairs == [] then None
    else if Close(pairs[0].0, pairs[0].1) then
      Some(pairs[0])
    else
      var r := FirstClose(pairs[1..]);
      if r.Some? then
        var i :| 0 <= i < |pairs[1..]| && pairs[1..][i] == r.value && Close(pairs[1..][i].0, pairs[1..][i].1) &&
                 forall j | 0 <= j < i :: !Close(pairs[1..][j].0, pairs[1..][j].1);
        assert pairs[i + 1] == r.value;
        assert forall j | 0 <= j < i + 1 :: !Close(pairs[j].0, pairs[j].1) by {
          forall j | 0 <= j < i + 1 ensures !Close(pairs[j].0, pairs[j].1) {
            if j > 0 { assert pairs[j] == pairs[1..][j - 1]; }
          }
        }
        r
      else r
  }

  /** The pairwise check averages the first close pair in the order A-B, A-C, B-C. */
  lemma {:induction false} PairIsFirstClosePair(a: u8, b: u8, c: u8)
    ensures var p := FirstClose([(a, b), (a, c), (b, c)]);
            PairDeviationAndAverage(a, b, c) == if p.None? then None else Some(Mean2(p.value.0, p.value.1))
  {
    var ps := [(a, b), (a, c), (b, c)];
    assert ps[1..] == [(a, c), (b, c)];
    assert ps[1..][1..] == [(b, c)];
    assert ps[1..][1..][1..] == [];
    assert FirstClose(ps) == if Close(a, b) then Some((a, b)) else FirstClose(ps[1..]);
    assert FirstClose(ps[1..]) == if Close(a, c) then Some((a, c)) else FirstClose(ps[1..][1..]);
    assert FirstClose(ps[1..][1..]) == if Close(b, c) then Some((b, c)) else FirstClose(ps[1..][1..][1..]);
  }

  /** A result of the pairwise check lies between the minutes of a close pair, and
      so between the smallest and largest of the three. */
  lemma PairAverageBetween(a: u8, b: u8, c: u8)
    requires PairDeviationAndAverage(a, b, c).Some?
    ensures var m := PairDeviationAndAverage(a, b, c).value;
            Sort3(a, b, c).0 <= m <= Sort3(a, b, c).2
  {
  }

  /** Examples: A-C wins over B-C when A-B is far apart; a difference of 10 is
      close and 11 is not. */
  lemma PairAverageExamples()
    ensures PairDeviationAndAverage(5, 50, 8) == Some(6)
    ensures PairDeviationAndAverage(0, 10, 40) == Some(5)
    ensures PairDeviationAndAverage(0, 11, 40) == None
  {}
}
