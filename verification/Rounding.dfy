/** The two rounding modes the program applies to decimals: `ROUND_HALF_UP`, which the money
    module asks for, and the decimal context's default `ROUND_HALF_EVEN`, which every plain
    `quantize` call gets. Decimals are exact reals here; only quantisation loses information. */
module Rounding {

  /** Nearest integer, ties away from zero. */
  function HalfUp(x: real): (n: int)
    ensures -0.5 <= n as real - x <= 0.5
    ensures n as real - x == 0.5 ==> x >= 0.0
    ensures n as real - x == -0.5 ==> x < 0.0
  {
    if x >= 0.0 then (x + 0.5).Floor else -((0.5 - x).Floor)
  }

  /** Nearest integer, ties to the even neighbour. */
  function HalfEven(x: real): (n: int)
    ensures -0.5 <= n as real - x <= 0.5
    ensures n as real - x == 0.5 || n as real - x == -0.5 ==> n % 2 == 0
  {
    var f := x.Floor;
    var rest := x - f as real;
    if rest < 0.5 then f
    else if rest > 0.5 then f + 1
    else if f % 2 == 0 then f
    else f + 1
  }

  function ToCents(x: real): real { HalfUp(x * 100.0) as real / 100.0 }

  function ToPerGb(x: real): real { HalfUp(x * 10000.0) as real / 10000.0 }

  function ToCentsEven(x: real): real { HalfEven(x * 100.0) as real / 100.0 }

  function ToPerGbEven(x: real): real { HalfEven(x * 10000.0) as real / 10000.0 }

  predicate IsInteger(x: real) { x.Floor as real == x }

  /** `x` lies on the grid of whole cents. */
  predicate WholeCents(x: real) { IsInteger(x * 100.0) }

  /** `x` lies on the grid of ten-thousandths. */
  predicate OnPerGbGrid(x: real) { IsInteger(x * 10000.0) }

  lemma Integral(x: real, n: int)
    requires x == n as real
    ensures IsInteger(x) && x.Floor == n && HalfUp(x) == n && HalfEven(x) == n
  {
  }

  lemma Monotone(x: real, y: real)
    requires x <= y
    ensures HalfUp(x) <= HalfUp(y)
    ensures HalfEven(x) <= HalfEven(y)
  {
    if x < y {
      assert HalfEven(x) as real - HalfEven(y) as real < 1.0;
    }
  }

  /** On non-negative amounts half-up never falls below half-even: the two only part on ties. */
  lemma EvenBelowUp(x: real)
    requires x >= 0.0
    ensures HalfEven(x) <= HalfUp(x) <= HalfEven(x) + 1
  {
  }

  /** An integer bound survives rounding: what is below it stays at or below it. */
  lemma IntegerBound(x: real, n: int)
    ensures x <= n as real ==> HalfUp(x) <= n && HalfEven(x) <= n
    ensures n as real <= x ==> n <= HalfUp(x) && n <= HalfEven(x)
  {
  }

  lemma CentsFixed(x: real)
    requires WholeCents(x)
    ensures ToCents(x) == x == ToCentsEven(x)
  {
    Integral(x * 100.0, (x * 100.0).Floor);
  }

  lemma PerGbFixed(x: real)
    requires OnPerGbGrid(x)
    ensures ToPerGb(x) == x
  {
    Integral(x * 10000.0, (x * 10000.0).Floor);
  }

  lemma ToCentsIsWhole(x: real)
    ensures WholeCents(ToCents(x))
  {
    Integral(ToCents(x) * 100.0, HalfUp(x * 100.0));
  }

  lemma WholeCentsSum(x: real, y: real)
    requires WholeCents(x) && WholeCents(y)
    ensures WholeCents(x + y) && WholeCents(x - y)
  {
    var p, q := x * 100.0, y * 100.0;
    assert (x + y) * 100.0 == p + q;
    assert (x - y) * 100.0 == p - q;
    Integral(p + q, p.Floor + q.Floor);
    Integral(p - q, p.Floor - q.Floor);
  }
}
