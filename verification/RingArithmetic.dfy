/** The hash circle and the two operations on it (src/util/util.cpp). */
module RingArithmetic {

  /** The number of fingers, which is also the number of hash bits.  It is left
      symbolic: every result of the project holds for each length from 1 to 30.
      The program is built with 16. */
  type TableLength = n: int | 1 <= n <= 30 witness 16
  const FINGER_TABLE_LENGTH: TableLength

  const TOTAL_HASH_POINTS: int := Pow2(FINGER_TABLE_LENGTH)

  type Point = p: int | 0 <= p < TOTAL_HASH_POINTS witness 0

  function Pow2(i: nat): (p: int)
    ensures 1 <= p
  {
    if i == 0 then 1 else 2 * Pow2(i - 1)
  }

  /** The integer part of the base-2 logarithm. */
  function Log2(d: int): (i: nat)
    requires 1 <= d
    ensures Pow2(i) <= d < Pow2(i + 1)
  {
    if d == 1 then 0 else 1 + Log2(d / 2)
  }

  /** Clockwise distance; a node is a whole circle away from itself. */
  function Distance(base: Point, target: Point): (d: int)
    ensures 1 <= d <= TOTAL_HASH_POINTS
  {
    var d := target - base;
    if d < 0 then d + TOTAL_HASH_POINTS
    else if d == 0 then TOTAL_HASH_POINTS
    else d
  }

  /** Addition on the circle, for a summand of absolute value below a full circle. */
  function HashAdd(hash: Point, num: int): (res: Point)
    requires -TOTAL_HASH_POINTS < num < TOTAL_HASH_POINTS
  {
    var res := hash + num;
    if res < 0 then res + TOTAL_HASH_POINTS
    else if TOTAL_HASH_POINTS <= res then res - TOTAL_HASH_POINTS
    else res
  }

  /** Clockwise steps from a key to a node that may sit on the key itself.  The
      program never computes this: it is the measure its answers are judged by. */
  function Gap(key: Point, node: Point): (g: int)
    ensures 0 <= g < TOTAL_HASH_POINTS
  {
    if key <= node then node - key else node - key + TOTAL_HASH_POINTS
  }

  lemma {:induction false} Pow2Monotonic(i: nat, j: nat)
    requires i < j
    ensures 2 * Pow2(i) <= Pow2(j)
  {
    if i < j - 1 {
      Pow2Monotonic(i, j - 1);
    }
  }

  lemma {:induction false} Pow2BelowCircle(i: nat)
    requires i < FINGER_TABLE_LENGTH
    ensures 2 * Pow2(i) <= TOTAL_HASH_POINTS
    ensures i == FINGER_TABLE_LENGTH - 1 ==> 2 * Pow2(i) == TOTAL_HASH_POINTS
  {
    Pow2Monotonic(i, FINGER_TABLE_LENGTH);
  }

  lemma {:induction false} Log2Below(d: int, i: nat)
    requires 1 <= d
    ensures d < Pow2(i) <==> Log2(d) < i
  {
    var l := Log2(d);
    if l + 1 < i {
      Pow2Monotonic(l + 1, i);
    } else if i < l {
      Pow2Monotonic(i, l);
    }
  }

  /** Seen from any base, distance numbers the circle's points 1..2^m without gaps or
      repeats, and HashAdd walks from the base to the point with a given number. */
  lemma DistanceNumbersThePoints(base: Point, d: int)
    requires 1 <= d <= TOTAL_HASH_POINTS
    ensures exists t: Point :: Distance(base, t) == d
    ensures forall x: Point, y: Point :: Distance(base, x) == Distance(base, y) ==> x == y
    ensures forall t: Point :: t != base ==> HashAdd(base, Distance(base, t)) == t
    ensures d < TOTAL_HASH_POINTS ==> Distance(base, HashAdd(base, d)) == d
    ensures d < TOTAL_HASH_POINTS ==> HashAdd(HashAdd(base, d), -d) == base
  {
    var t: Point := if d == TOTAL_HASH_POINTS then base else HashAdd(base, d);
    assert Distance(base, t) == d;
  }

  /** Distances add along a clockwise arc exactly when the middle point is met
      strictly before the end; otherwise they overshoot by one full circle. */
  lemma DistancesAddAlongArcs(a: Point, b: Point, c: Point)
    ensures Distance(a, b) < Distance(a, c) <==> Distance(a, b) + Distance(b, c) == Distance(a, c)
    ensures Distance(a, c) <= Distance(a, b)
            <==> Distance(a, b) + Distance(b, c) == Distance(a, c) + TOTAL_HASH_POINTS
  {
  }
}
