/** The account operations (`Operations` in src/accounting/index.js):
    view, credit and debit, each reading the store and possibly writing it.

    The amount is the number the user typed, already parsed. What the
    program prints is modelled as a `Message` carrying the value it shows;
    for credit and debit that is the sum or difference BEFORE the store
    rounds it, as in the source.
 */
module Operations {
  import opened Money
  import opened DataStore
  import Format

  datatype Message =
    | CurrentBalance(shown: real)
    | Credited(shown: real)
    | Debited(shown: real)
    | InsufficientFunds

  /** `viewBalance`: reports the stored balance and leaves the store alone. */
  function ViewBalance(s: Store): (r: (Store, Message))
    ensures r.0 == s
    ensures r.1 == CurrentBalance(Dollars(s.cents))
  {
    (s, CurrentBalance(Read(s)))
  }

  /** `creditAccount`: adds the amount, whatever its size or sign, and stores
      the sum rounded to the nearest cent. */
  function CreditAccount(s: Store, amount: real): (r: (Store, Message))
    ensures r.1 == Credited(Dollars(s.cents) + amount)
    ensures r.0.cents == RoundCents(Dollars(s.cents) + amount)
    ensures amount >= 0.0 ==> s.cents <= r.0.cents
    ensures
      var exact := s.cents as real + 100.0 * amount;
      r.0.cents as real - 0.5 <= exact <= r.0.cents as real + 0.5
  {
    var total := Read(s) + amount;
    (Write(s, total), Credited(total))
  }

  /** `debitAccount`: the overdraft rule. When the balance covers the amount,
      the difference is stored (and is never negative); otherwise the store
      is untouched and the debit is refused. */
  function DebitAccount(s: Store, amount: real): (r: (Store, Message))
    ensures Dollars(s.cents) >= amount ==>
      && r.1 == Debited(Dollars(s.cents) - amount)
      && r.0.cents == RoundCents(Dollars(s.cents) - amount)
      && 0 <= r.0.cents
      && (amount >= 0.0 ==> r.0.cents <= s.cents)
      && var exact := s.cents as real - 100.0 * amount;
         r.0.cents as real - 0.5 <= exact <= r.0.cents as real + 0.5
    ensures Dollars(s.cents) < amount ==> r == (s, InsufficientFunds)
  {
    var balance := Read(s);
    if balance >= amount then
      var rest := balance - amount;
      (Write(s, rest), Debited(rest))
    else
      (s, InsufficientFunds)
  }

  /** A credit of a whole number of cents adds exactly that many cents. */
  lemma CreditCents(s: Store, k: int)
    ensures CreditAccount(s, Dollars(k)).0 == Store(s.cents + k)
  {
    DollarsAdd(s.cents, k);
    RoundCentsOfCents(s.cents + k);
  }

  /** A debit of a whole number of cents succeeds exactly when the balance
      covers it, and then takes away exactly that many cents. */
  lemma DebitCents(s: Store, k: int)
    ensures k <= s.cents ==>
      DebitAccount(s, Dollars(k)) == (Store(s.cents - k), Debited(Dollars(s.cents - k)))
    ensures k > s.cents ==> DebitAccount(s, Dollars(k)) == (s, InsufficientFunds)
  {
    DollarsAdd(s.cents, k);
    RoundCentsOfCents(s.cents - k);
  }

  /** Successive credits accumulate: two credits of whole cents leave the
      same balance as one credit of their sum. */
  lemma CreditsAccumulate(s: Store, j: int, k: int)
    ensures CreditAccount(CreditAccount(s, Dollars(j)).0, Dollars(k)).0
         == CreditAccount(s, Dollars(j + k)).0
  {
    CreditCents(s, j);
    CreditCents(Store(s.cents + j), k);
    CreditCents(s, j + k);
  }

  /** On a non-negative balance a debit undoes a credit of the same amount. */
  lemma DebitUndoesCredit(s: Store, k: int)
    requires 0 <= s.cents
    ensures DebitAccount(CreditAccount(s, Dollars(k)).0, Dollars(k)).0 == s
  {
    CreditCents(s, k);
    DebitCents(Store(s.cents + k), k);
  }

  /** The ledger's worked cases, starting from 1000.00: credit 500 gives
      1500.00, then 250 more gives 1750.00; a zero credit changes nothing;
      a credit of 999999 gives 1000999.00; debit 500 gives 500.00; debiting
      the full balance gives 0.00; debits of 2000 and 9999999 are refused. */
  lemma OperationExamples()
    ensures CreditAccount(Initial(), 500.0).0 == Store(150000)
    ensures CreditAccount(Store(150000), 250.0).0 == Store(175000)
    ensures CreditAccount(Initial(), 0.0).0 == Initial()
    ensures CreditAccount(Initial(), 999999.0).0 == Store(100099900)
    ensures DebitAccount(Initial(), 500.0).0 == Store(50000)
    ensures DebitAccount(Initial(), 1000.0).0 == Store(0)
    ensures DebitAccount(Initial(), 2000.0) == (Initial(), InsufficientFunds)
    ensures DebitAccount(Initial(), 9999999.0) == (Initial(), InsufficientFunds)
  {
    CreditCents(Initial(), 50000);
    CreditCents(Store(150000), 25000);
    CreditCents(Initial(), 0);
    CreditCents(Initial(), 99999900);
    DebitCents(Initial(), 50000);
    DebitCents(Initial(), 100000);
  }

  /** The confirmation of a credit or a covered debit, rendered with the
      intended ledger picture, reads back as the balance now stored whenever
      that balance is not negative. */
  lemma ConfirmationShowsStored(s: Store, amount: real)
    ensures Dollars(s.cents) + amount >= 0.0 ==>
            var (t, msg) := CreditAccount(s, amount);
            Format.ParseBalance(Format.FormatReal(msg.shown)) == Format.Some(t.cents)
    ensures Dollars(s.cents) >= amount ==>
            var (t, msg) := DebitAccount(s, amount);
            Format.ParseBalance(Format.FormatReal(msg.shown)) == Format.Some(t.cents)
  {
    var total := Dollars(s.cents) + amount;
    if total >= 0.0 {
      var (t, msg) := CreditAccount(s, amount);
      assert msg.shown == total && t.cents == RoundCents(total);
      assert Format.ParseBalance(Format.FormatReal(total)) == Format.Some(RoundCents(total));
    }
    if Dollars(s.cents) >= amount {
      var rest := Dollars(s.cents) - amount;
      var (u, msg') := DebitAccount(s, amount);
      assert msg'.shown == rest && u.cents == RoundCents(rest);
      assert Format.ParseBalance(Format.FormatReal(rest)) == Format.Some(RoundCents(rest));
    }
  }

  /** As written, the program can confirm a balance it did not store:
      crediting 0.999 to 1000.00 stores 1001.00 but shows `001000.00`, and
      debiting 0.001 from 1000.00 stores 1000.00 but shows `000999.00`. */
  lemma ConfirmationCarryExample()
    ensures CreditAccount(Initial(), 0.999).0 == Store(100100)
    ensures CreditAccount(Initial(), 0.999).1 == Credited(1000.999)
    ensures Format.FormatRealAsWritten(1000.999) == "001000.00"
    ensures DebitAccount(Initial(), 0.001).0 == Store(100000)
    ensures DebitAccount(Initial(), 0.001).1 == Debited(999.999)
    ensures Format.ParseBalance(Format.FormatRealAsWritten(999.999)) == Format.Some(99900)
  {
    Format.CarryExample();
    assert (999.999).Floor == 999;
    assert Format.Fraction(999.999) == 100;
    Format.AsWrittenLosesCarry(999.999);
  }
}
