/** Python's `round(x, k)` on exact fixed-point values. */
module FixedPoint {

  function Abs(x: int): (r: nat)
    ensures r == x || r == -x
  {
    if x < 0 then -x else x
  }

  /** `n / d` rounded to the nearest integer, ties to the even neighbour,
      which is what Python's `round` does with an exact half. */
  function RoundDiv(n: int, d: int): (r: int)
    requires d != 0
    ensures 2 * Abs(n - r * d) <= Abs(d)
    ensures 2 * Abs(n - r * d) == Abs(d) ==> r % 2 == 0
  {
    if d < 0 then
      var r := RoundPos(-n, -d);
      Negated(r, d);
      r
    else
      RoundPos(n, d)
  }

  function RoundPos(n: int, d: int): (r: int)
    requires d > 0
    ensures 2 * Abs(n - r * d) <= d
    ensures 2 * Abs(n - r * d) == d ==> r % 2 == 0
  {
    var q, m := n / d, n % d;
    Step(q, d);
    if 2 * m < d || (2 * m == d && q % 2 == 0) then q else q + 1
  }

  lemma Step(q: int, d: int)
    ensures (q + 1) * d == q * d + d
  {
  }

  lemma Negated(r: int, d: int)
    ensures r * -d == -(r * d)
  {
  }

  /** Only one integer is strictly closer than half a step: the rounding of
      `n / d` is determined whenever the distance is below one half. */
  lemma {:induction false} RoundDivUnique(n: int, d: int, r: int)
    requires d != 0
    requires 2 * Abs(n - r * d) < Abs(d)
    ensures RoundDiv(n, d) == r
  {
    var s := RoundDiv(n, d);
    if s != r {
      var k := if s > r then s - r else r - s;
      Distance(n, d, r, s);
      assert Abs((n - r * d) - (n - s * d)) == k * Abs(d);
      AtLeastOnce(k, Abs(d));
    }
  }

  lemma Distance(n: int, d: int, r: int, s: int)
    ensures (n - r * d) - (n - s * d) == (s - r) * d
    ensures Abs((s - r) * d) == Abs(s - r) * Abs(d)
  {
  }

  lemma AtLeastOnce(k: int, a: nat)
    requires k >= 1
    ensures k * a >= a
  {
  }

  /** An exact value is left alone: `round(k, 2)` of a value that already
      has two decimals is itself. */
  lemma RoundDivExact(k: int, d: int)
    requires d != 0
    ensures RoundDiv(k * d, d) == k
  {
    assert k * d - k * d == 0;
    RoundDivUnique(k * d, d, k);
  }

  /** Rounding is monotone: a larger numerator never rounds lower. */
  lemma {:induction false} RoundDivMonotone(n1: int, n2: int, d: int)
    requires d > 0
    requires n1 <= n2
    ensures RoundDiv(n1, d) <= RoundDiv(n2, d)
  {
    var r1, r2 := RoundDiv(n1, d), RoundDiv(n2, d);
    if r1 > r2 {
      AtLeastOnce(r1 - r2, d);
      Distance(0, d, r2, r1);
    }
  }
}
