/** The balance store (`DataProgram` in src/accounting/index.js).

    It holds the one balance of the ledger. Every write rounds to two
    decimals, so the stored value is always a whole number of cents; the
    model keeps it in that form.
 */
module DataStore {
  import opened Money

  /** The starting balance, 1000.00, in cents. */
  const InitialCents: int := 100000

  datatype Store = Store(cents: int)

  /** The store as the program starts it. */
  function Initial(): (s: Store)
    ensures Dollars(s.cents) == 1000.0
  {
    Store(InitialCents)
  }

  /** `read`: the stored value, rounded once more to two decimals. The
      second rounding never changes a stored value. */
  function Read(s: Store): (v: real)
    ensures 100.0 * v == s.cents as real
  {
    RoundCentsOfCents(s.cents);
    Dollars(RoundCents(Dollars(s.cents)))
  }

  /** `write`: the previous value is discarded and `v` is kept rounded to
      the nearest cent. */
  function Write(s: Store, v: real): (r: Store)
    ensures v >= 0.0 ==> r.cents as real - 0.5 <= 100.0 * v < r.cents as real + 0.5
    ensures v < 0.0 ==> r.cents as real - 0.5 < 100.0 * v <= r.cents as real + 0.5
  {
    Store(RoundCents(v))
  }

  /** `reset`: back to the starting balance whatever was stored. */
  function Reset(s: Store): (r: Store)
    ensures Read(r) == 1000.0
  {
    Initial()
  }

  /** Writing a value with two-decimal precision and reading it back
      returns that value. */
  lemma WriteThenRead(s: Store, k: int)
    ensures Read(Write(s, Dollars(k))) == Dollars(k)
  {
    RoundCentsOfCents(k);
  }

  /** Reading what was written gives the written value rounded to cents,
      and a second write of what was read changes nothing. */
  lemma WriteReadWrite(s: Store, v: real)
    ensures Read(Write(s, v)) == Dollars(RoundCents(v))
    ensures Write(s, Read(Write(s, v))) == Write(s, v)
  {
    RoundCentsOfCents(RoundCents(v));
  }

  /** The store's own checks: 1500.50, 1000.01 and 2500.75 survive a
      write/read round trip, and a reset after writing 2000 gives 1000.00. */
  lemma StoreExamples()
    ensures Read(Write(Initial(), 1500.50)) == 1500.50
    ensures Read(Write(Initial(), 1000.01)) == 1000.01
    ensures Read(Write(Initial(), 2500.75)) == 2500.75
    ensures Read(Reset(Write(Initial(), 2000.0))) == 1000.0
  {
    WriteThenRead(Initial(), 150050);
    WriteThenRead(Initial(), 100001);
    WriteThenRead(Initial(), 250075);
  }
}
