/** Currency values of the ledger.

    The program keeps its balance as a number rounded to two decimals after
    every write. Here a stored balance is a whole number of cents, and an
    amount typed by the user is an exact `real`. `RoundCents` is the rounding
    that `Number.prototype.toFixed(2)` followed by `parseFloat` performs on an
    exact value: to the nearest cent, with ties going away from zero, because
    `toFixed` rounds the magnitude and puts the sign back afterwards.
 */
module Money {

  /** The value in currency units of a whole number of cents. */
  function Dollars(cents: int): real {
    cents as real / 100.0
  }

  /** The nearest whole number of cents to `x`, ties away from zero.
      The two range clauses pin the result down uniquely. */
  function RoundCents(x: real): (c: int)
    ensures x >= 0.0 ==> c as real - 0.5 <= 100.0 * x < c as real + 0.5
    ensures x < 0.0 ==> c as real - 0.5 < 100.0 * x <= c as real + 0.5
    ensures x >= 0.0 ==> c >= 0
  {
    if x >= 0.0 then (100.0 * x + 0.5).Floor
    else -((-100.0 * x + 0.5).Floor)
  }

  /** Rounding a value that already has two-decimal precision changes nothing. */
  lemma RoundCentsOfCents(k: int)
    ensures RoundCents(Dollars(k)) == k
  {
    assert 100.0 * Dollars(k) == k as real;
  }

  /** Cent amounts add without rounding. */
  lemma DollarsAdd(a: int, b: int)
    ensures Dollars(a) + Dollars(b) == Dollars(a + b)
    ensures Dollars(a) - Dollars(b) == Dollars(a - b)
    ensures Dollars(a) <= Dollars(b) <==> a <= b
  {
  }
}
