/** Amounts: the rounding to 8 decimals that every stored value goes through. */
module Money {
  const EPS := 0.00000001
  const UNIT := 100000000.0
  const HALF := 0.000000005

  function MinR(a: real, b: real): real {
    if a < b then a else b
  }

  function MaxR(a: real, b: real): real {
    if a < b then b else a
  }

  function Abs(a: real): real {
    if a < 0.0 then -a else a
  }

  /** `toFixed(8)`: to the nearest 8th decimal, halves away from zero. */
  function Dec(x: real): real {
    if x >= 0.0 then (x * UNIT + 0.5).Floor as real / UNIT
    else -((-x * UNIT + 0.5).Floor as real / UNIT)
  }

  lemma DecIsClose(x: real)
    ensures Abs(Dec(x) - x) <= HALF
    ensures x >= 0.0 ==> Dec(x) >= 0.0
    ensures Dec(0.0) == 0.0
  {
    var y := if x >= 0.0 then x * UNIT + 0.5 else -x * UNIT + 0.5;
    var n := y.Floor as real;
    assert y - 1.0 < n <= y;
    DivUnit(n, y);
    assert (0.0 * UNIT + 0.5).Floor == 0;
    if x >= 0.0 {
      assert y >= 0.5 && y.Floor >= 0;
    }
  }

  /** Rounding gives a whole number of units of the 8th decimal, the nearest one; halfway it goes away from zero,
      and it treats both signs alike. */
  lemma DecExactly(x: real, n: int)
    ensures Dec(x) == n as real / 100000000.0 <==>
              if x >= 0.0 then n as real - 0.5 <= x * 100000000.0 < n as real + 0.5
              else n as real - 0.5 < x * 100000000.0 <= n as real + 0.5
  {
    if x >= 0.0 {
      FloorExactly(x * UNIT + 0.5, n);
    } else {
      FloorExactly(-x * UNIT + 0.5, -n);
    }
  }

  lemma FloorExactly(y: real, n: int)
    ensures y.Floor == n <==> n as real <= y < n as real + 1.0
    ensures y.Floor as real / UNIT == n as real / UNIT <==> y.Floor == n
  {
  }

  lemma DecOfFraction(x: real)
    requires 0.0 <= x <= 1.0
    ensures 0.0 <= Dec(x) <= 1.0
  {
    var y := x * UNIT + 0.5;
    assert y <= UNIT + 0.5 && y.Floor <= 100_000_000;
  }

  lemma LessTimes(a: real, b: real, c: real)
    requires 0.0 <= a <= b && c > 0.0
    ensures 0.0 <= a * c <= b * c
  {
  }

  /** A product as one term, for proofs that only need its linear laws. */
  function Product(a: real, b: real): real { a * b }

  lemma ProductOfSum(a: real, b: real, s: real)
    ensures Product(a + b, s) == Product(a, s) + Product(b, s)
  {
  }

  lemma ProductGrows(a: real, b: real, s: real)
    requires 0.0 <= a <= b && s > 0.0
    ensures 0.0 <= Product(a, s) <= Product(b, s)
  {
    LessTimes(a, b, s);
  }

  lemma ProductOfMinus(a: real, s: real)
    ensures Product(-a, s) == -Product(a, s)
  {
  }

  lemma AddTimes(a: real, b: real, c: real)
    ensures (a + b) * c == a * c + b * c
  {
  }

  lemma DivUnit(n: real, y: real)
    requires y - 1.0 < n <= y
    ensures (y - 1.0) / UNIT < n / UNIT <= y / UNIT
  {
  }
}
