/** The menu loop (`MainProgram.run` in src/accounting/index.js).

    Each round the program reads a choice line, trims it and dispatches on
    it: `1` views the balance, `2` credits and `3` debits an amount read
    next, `4` leaves the loop, anything else is reported as an invalid
    choice. The machine has two modes, Running and Exited; console text is
    modelled by output tags.
 */
module Menu {
  import opened Money
  import opened DataStore
  import opened Operations
  import Format

  /** The characters `String.prototype.trim` removes: the ECMAScript
      WhiteSpace and LineTerminator code points (tab, line feed, vertical
      tab, form feed, carriage return, space, no-break space, the Unicode
      space separators, line and paragraph separators, and the byte order
      mark). */
  predicate IsTrimmable(c: char) {
    var n := c as int;
    if n < 0x80 then 9 <= n <= 13 || n == 32
    else
      || n == 0xA0 || n == 0x1680 || 0x2000 <= n <= 0x200A
      || n == 0x2028 || n == 0x2029 || n == 0x202F || n == 0x205F
      || n == 0x3000 || n == 0xFEFF
  }

  predicate AllTrimmable(s: string) {
    forall i :: 0 <= i < |s| ==> IsTrimmable(s[i])
  }

  /** Drops trimmable characters from the front: what is left is a suffix
      that starts with a kept character, and only trimmable ones went. */
  function TrimStart(s: string): (r: string)
    ensures |r| <= |s| && r == s[|s| - |r|..]
    ensures AllTrimmable(s[..|s| - |r|])
    ensures r == [] || !IsTrimmable(r[0])
    decreases |s|
  {
    if s != [] && IsTrimmable(s[0]) then TrimStart(s[1..]) else s
  }

  /** Drops trimmable characters from the back, symmetrically. */
  function TrimEnd(s: string): (r: string)
    ensures |r| <= |s| && r == s[..|r|]
    ensures AllTrimmable(s[|r|..])
    ensures r == [] || !IsTrimmable(r[|r| - 1])
    decreases |s|
  {
    if s != [] && IsTrimmable(s[|s| - 1]) then TrimEnd(s[..|s| - 1]) else s
  }

  /** `trim()`: the longest middle part that neither starts nor ends with a
      trimmable character. */
  function Trim(s: string): (r: string)
    ensures |r| <= |s|
    ensures r == [] || (!IsTrimmable(r[0]) && !IsTrimmable(r[|r| - 1]))
  {
    TrimEnd(TrimStart(s))
  }

  /** One round of keyboard input: the choice line, and the amount the
      program reads next when the choice is a credit or a debit. */
  datatype Entry = Entry(choice: string, amount: real)

  datatype Command = View | Credit(amount: real) | Debit(amount: real) | Exit | Invalid

  /** The `switch` on the trimmed choice. */
  function Decode(e: Entry): (c: Command)
    ensures c == View <==> Trim(e.choice) == "1"
    ensures c.Credit? <==> Trim(e.choice) == "2"
    ensures c.Debit? <==> Trim(e.choice) == "3"
    ensures c == Exit <==> Trim(e.choice) == "4"
    ensures c.Credit? || c.Debit? ==> c.amount == e.amount
  {
    var t := Trim(e.choice);
    if t == "1" then View
    else if t == "2" then Credit(e.amount)
    else if t == "3" then Debit(e.amount)
    else if t == "4" then Exit
    else Invalid
  }

  datatype Mode = Running | Exited

  datatype Machine = Machine(store: Store, mode: Mode)

  datatype Output = Report(message: Message) | InvalidChoice | Goodbye

  /** The program as it starts: 1000.00 and the loop running. */
  function Start(): (m: Machine)
    ensures m.mode == Running && Read(m.store) == 1000.0
  {
    Machine(Initial(), Running)
  }

  /** One round of the loop. Only `Exit` leaves the Running mode; view and
      an invalid choice leave the balance as it was. */
  function Step(m: Machine, c: Command): (r: (Machine, Output))
    requires m.mode == Running
    ensures r.0.mode == Exited <==> c == Exit
    ensures c.View? || c.Invalid? || c.Exit? ==> r.0.store == m.store
    ensures c.View? ==> r.1 == Report(CurrentBalance(Dollars(m.store.cents)))
    ensures c.Invalid? ==> r.1 == InvalidChoice
    ensures c.Exit? ==> r.1 == Goodbye
    ensures c.Credit? ==>
      && r.0.store.cents == RoundCents(Dollars(m.store.cents) + c.amount)
      && r.1 == Report(Credited(Dollars(m.store.cents) + c.amount))
    ensures c.Debit? && Dollars(m.store.cents) >= c.amount ==>
      && r.0.store.cents == RoundCents(Dollars(m.store.cents) - c.amount)
      && r.1 == Report(Debited(Dollars(m.store.cents) - c.amount))
      && 0 <= r.0.store.cents
    ensures c.Debit? && Dollars(m.store.cents) < c.amount ==>
      r.0.store == m.store && r.1 == Report(InsufficientFunds)
  {
    match c
    case View =>
      var (s, msg) := ViewBalance(m.store);
      (Machine(s, Running), Report(msg))
    case Credit(amount) =>
      var (s, msg) := CreditAccount(m.store, amount);
      (Machine(s, Running), Report(msg))
    case Debit(amount) =>
      var (s, msg) := DebitAccount(m.store, amount);
      (Machine(s, Running), Report(msg))
    case Exit =>
      (Machine(m.store, Exited), Goodbye)
    case Invalid =>
      (m, InvalidChoice)
  }

  /** The commands the choice lines of `es` select, round by round. */
  function DecodeAll(es: seq<Entry>): (cs: seq<Command>)
    ensures |cs| == |es|
    ensures forall i :: 0 <= i < |es| ==> cs[i] == Decode(es[i])
  {
    seq(|es|, i requires 0 <= i < |es| => Decode(es[i]))
  }

  /** The loop over a sequence of rounds: it stops at the first exit, or
      when the input runs out, and yields one output per round played. */
  function Session(m: Machine, cs: seq<Command>): (r: (Machine, seq<Output>))
    ensures |r.1| <= |cs|
    ensures m.mode == Exited || cs == [] ==> r == (m, [])
    ensures m.mode == Running && cs != [] ==> 1 <= |r.1| && r.1[0] == Step(m, cs[0]).1
    decreases |cs|
  {
    if m.mode == Exited || cs == [] then (m, [])
    else
      var (m', o) := Step(m, cs[0]);
      var (f, os) := Session(m', cs[1..]);
      (f, [o] + os)
  }

  /** One round of the loop followed by the rest of the session. */
  lemma SessionStep(m: Machine, cs: seq<Command>)
    requires m.mode == Running && cs != []
    ensures var (m', o) := Step(m, cs[0]);
            Session(m, cs) == (Session(m', cs[1..]).0, [o] + Session(m', cs[1..]).1)
  {
  }

  /** Playing round `i` moves its output from the rest of the session to
      the outputs already produced. */
  lemma SessionAdvance(m: Machine, cs: seq<Command>, i: nat, outputs: seq<Output>)
    requires m.mode == Running && i < |cs|
    ensures var next := Step(m, cs[i]);
            && Session(m, cs[i..]).0 == Session(next.0, cs[i + 1..]).0
            && outputs + Session(m, cs[i..]).1
               == (outputs + [next.1]) + Session(next.0, cs[i + 1..]).1
  {
    var rest, next := cs[i..], Step(m, cs[i]);
    assert rest[0] == cs[i] && rest[1..] == cs[i + 1..];
    SessionStep(m, rest);
    var tail := Session(next.0, cs[i + 1..]).1;
    assert Session(m, rest).1 == [next.1] + tail;
    assert outputs + ([next.1] + tail) == (outputs + [next.1]) + tail;
  }

  /** `run`: the `while (continueFlag)` loop, from a running machine over the
      given store, reading one entry per round. It plays exactly the rounds
      `Session` describes for the decoded choices. */
  method Run(s: Store, es: seq<Entry>) returns (final: Machine, outputs: seq<Output>)
    ensures (final, outputs) == Session(Machine(s, Running), DecodeAll(es))
  {
    var cs := DecodeAll(es);
    var m := Machine(s, Running);
    var i := 0;
    outputs := [];
    assert cs[0..] == cs;
    assert outputs + Session(m, cs).1 == Session(m, cs).1;
    while m.mode == Running && i < |es|
      invariant 0 <= i <= |es|
      invariant Session(Machine(s, Running), cs)
             == (Session(m, cs[i..]).0, outputs + Session(m, cs[i..]).1)
      decreases |es| - i
    {
      var next := Step(m, Decode(es[i]));
      SessionAdvance(m, cs, i, outputs);
      m := next.0;
      outputs := outputs + [next.1];
      i := i + 1;
    }
    assert outputs + Session(m, cs[i..]).1 == outputs;
    final := m;
  }

  /** Leading trimmable characters never survive `TrimStart`. */
  lemma {:induction false} TrimStartSkips(a: string, x: string)
    requires AllTrimmable(a)
    ensures TrimStart(a + x) == TrimStart(x)
    decreases |a|
  {
    if a != [] {
      assert (a + x)[1..] == a[1..] + x;
      TrimStartSkips(a[1..], x);
    } else {
      assert a + x == x;
    }
  }

  /** Trailing trimmable characters never survive `TrimEnd`. */
  lemma {:induction false} TrimEndSkips(x: string, b: string)
    requires AllTrimmable(b)
    ensures TrimEnd(x + b) == TrimEnd(x)
    decreases |b|
  {
    if b != [] {
      assert (x + b)[..|x + b| - 1] == x + b[..|b| - 1];
      TrimEndSkips(x, b[..|b| - 1]);
    } else {
      assert x + b == x;
    }
  }

  /** Once the front is trimmed, what follows is carried along unchanged. */
  lemma {:induction false} TrimStartKeeps(s: string, b: string)
    requires TrimStart(s) != []
    ensures TrimStart(s + b) == TrimStart(s) + b
    decreases |s|
  {
    if IsTrimmable(s[0]) {
      assert (s + b)[1..] == s[1..] + b;
      TrimStartKeeps(s[1..], b);
    }
  }

  /** A string `TrimStart` empties is all trimmable characters. */
  lemma TrimStartEmpty(s: string)
    requires TrimStart(s) == []
    ensures AllTrimmable(s)
  {
    assert s[..|s|] == s;
  }

  /** Conversely, `TrimStart` empties a string of trimmable characters. */
  lemma {:induction false} TrimStartAll(s: string)
    requires AllTrimmable(s)
    ensures TrimStart(s) == []
    decreases |s|
  {
    if s != [] {
      assert IsTrimmable(s[0]);
      assert AllTrimmable(s[1..]) by {
        forall i | 0 <= i < |s[1..]|
          ensures IsTrimmable(s[1..][i])
        {
          assert s[1..][i] == s[i + 1];
        }
      }
      TrimStartAll(s[1..]);
    }
  }

  /** Surrounding whitespace does not change what `trim()` keeps. */
  lemma TrimIgnoresPadding(a: string, s: string, b: string)
    requires AllTrimmable(a) && AllTrimmable(b)
    ensures Trim(a + s + b) == Trim(s)
  {
    assert TrimStart(a + s + b) == TrimStart(s + b) by {
      assert a + s + b == a + (s + b);
      TrimStartSkips(a, s + b);
    }
    var t := TrimStart(s);
    if t == [] {
      assert TrimStart(s + b) == [] by {
        TrimStartEmpty(s);
        TrimStartSkips(s, b);
        TrimStartAll(b);
      }
    } else {
      assert TrimStart(s + b) == t + b by {
        TrimStartKeeps(s, b);
      }
      TrimEndSkips(t, b);
    }
  }

  /** A string that neither starts nor ends with a trimmable character is
      its own trim. */
  lemma TrimUnpadded(s: string)
    requires s == [] || (!IsTrimmable(s[0]) && !IsTrimmable(s[|s| - 1]))
    ensures Trim(s) == s
  {
    assert TrimStart(s) == s;
    assert TrimEnd(s) == s;
  }

  /** `trim()` is idempotent. */
  lemma TrimIdempotent(s: string)
    ensures Trim(Trim(s)) == Trim(s)
  {
    TrimUnpadded(Trim(s));
  }

  /** The dispatch looks only at the trimmed choice. */
  lemma DecodeIgnoresPadding(a: string, s: string, b: string, amount: real)
    requires AllTrimmable(a) && AllTrimmable(b)
    ensures Decode(Entry(a + s + b, amount)) == Decode(Entry(s, amount))
  {
    TrimIgnoresPadding(a, s, b);
  }

  /** The loop ends in the Exited mode exactly when some round chose `4`. */
  lemma {:induction false} SessionExits(m: Machine, cs: seq<Command>)
    requires m.mode == Running
    ensures Session(m, cs).0.mode == Exited <==> Exit in cs
    decreases |cs|
  {
    if cs != [] {
      SessionStep(m, cs);
      assert cs == [cs[0]] + cs[1..];
      if cs[0] != Exit {
        SessionExits(Step(m, cs[0]).0, cs[1..]);
      }
    }
  }

  /** Nothing typed after the exit is read: the session is decided by the
      rounds up to and including the exit. */
  lemma {:induction false} SessionStopsAtExit(m: Machine, cs: seq<Command>, rest: seq<Command>)
    requires Session(m, cs).0.mode == Exited
    ensures Session(m, cs + rest) == Session(m, cs)
    decreases |cs|
  {
    if m.mode == Running {
      assert cs != [];
      SessionStep(m, cs);
      SessionStep(m, cs + rest);
      assert (cs + rest)[1..] == cs[1..] + rest;
      SessionStopsAtExit(Step(m, cs[0]).0, cs[1..], rest);
    }
  }

  /** No credit of a negative amount among the rounds. */
  predicate NoNegativeCredit(cs: seq<Command>) {
    forall c :: c in cs && c.Credit? ==> c.amount >= 0.0
  }

  /** The overdraft rule keeps a non-negative balance non-negative through
      any session; only a negative credit, which the program accepts, can
      drive it below zero. */
  lemma {:induction false} SessionKeepsNonNegative(m: Machine, cs: seq<Command>)
    requires 0 <= m.store.cents && NoNegativeCredit(cs)
    ensures 0 <= Session(m, cs).0.store.cents
    decreases |cs|
  {
    if m.mode == Running && cs != [] {
      SessionStep(m, cs);
      var next := Step(m, cs[0]);
      assert cs[0] in cs;
      assert forall c :: c in cs[1..] ==> c in cs;
      SessionKeepsNonNegative(next.0, cs[1..]);
    }
  }

  /** Viewing is read-only: any number of views leaves the machine as it
      was and reports the same balance every time. */
  lemma {:induction false} ViewsAreIdempotent(m: Machine, cs: seq<Command>)
    requires m.mode == Running
    requires forall c :: c in cs ==> c == View
    ensures Session(m, cs).0 == m && |Session(m, cs).1| == |cs|
    ensures forall o :: o in Session(m, cs).1 ==> o == Report(CurrentBalance(Dollars(m.store.cents)))
    decreases |cs|
  {
    if cs != [] {
      SessionStep(m, cs);
      assert cs[0] in cs;
      assert forall c :: c in cs[1..] ==> c in cs;
      ViewsAreIdempotent(m, cs[1..]);
    }
  }

  /** An invalid choice reports itself and changes nothing else. */
  lemma InvalidChoiceKeepsRunning(m: Machine, e: Entry)
    requires m.mode == Running
    requires Trim(e.choice) != "1" && Trim(e.choice) != "2"
    requires Trim(e.choice) != "3" && Trim(e.choice) != "4"
    ensures Session(m, [Decode(e)]) == (m, [InvalidChoice])
  {
    var cs := [Decode(e)];
    assert cs[0] == Invalid;
    SessionStep(m, cs);
    assert cs[1..] == [];
    assert Step(m, Invalid) == (m, InvalidChoice);
    assert Session(m, []) == (m, []);
    assert [InvalidChoice] + [] == [InvalidChoice];
  }

  /** Choices the program treats as invalid: `0`, `5` and `-1`. */
  lemma InvalidChoiceExamples(amount: real)
    ensures Decode(Entry("0", amount)) == Invalid
    ensures Decode(Entry("5", amount)) == Invalid
    ensures Decode(Entry("-1", amount)) == Invalid
  {
    UnpaddedChoice("0", amount);
    UnpaddedChoice("5", amount);
    UnpaddedChoice("-1", amount);
  }

  /** A choice without surrounding whitespace is dispatched as typed. */
  lemma UnpaddedChoice(s: string, amount: real)
    requires s != [] && !IsTrimmable(s[0]) && !IsTrimmable(s[|s| - 1])
    ensures Trim(s) == s
    ensures s != "1" && s != "2" && s != "3" && s != "4" ==> Decode(Entry(s, amount)) == Invalid
  {
    TrimUnpadded(s);
  }

  /** The exit choice is recognised through surrounding whitespace. */
  lemma PaddedExitExample(amount: real)
    ensures Decode(Entry(" 4\n", amount)) == Exit
  {
    TrimUnpadded("4");
    DecodeIgnoresPadding(" ", "4", "\n", amount);
    assert " " + "4" + "\n" == " 4\n";
  }

  /** A whole session from the start: credit 500, view, a refused debit of
      2000, a debit of the full 1500, exit; the view typed after the exit is
      never read. */
  lemma SessionExample()
    ensures Session(Start(), [Credit(500.0), View, Debit(2000.0), Debit(1500.0), Exit, View])
         == (Machine(Store(0), Exited),
             [Report(Credited(1500.0)), Report(CurrentBalance(1500.0)),
              Report(InsufficientFunds), Report(Debited(0.0)), Goodbye])
  {
    var m0 := Start();
    var m1 := Machine(Store(150000), Running);
    var m2 := Machine(Store(0), Running);
    var m3 := Machine(Store(0), Exited);
    var c4: seq<Command> := [Exit, View];
    var c3: seq<Command> := [Debit(1500.0)] + c4;
    var c2: seq<Command> := [Debit(2000.0)] + c3;
    var c1: seq<Command> := [View] + c2;
    var c0: seq<Command> := [Credit(500.0)] + c1;
    assert Session(m2, c4) == (m3, [Goodbye]) by {
      SessionStep(m2, c4);
      assert c4[1..] == [View];
      assert Step(m2, Exit) == (m3, Goodbye);
      assert [Goodbye] + [] == [Goodbye];
    }
    assert Session(m1, c3) == (m3, [Report(Debited(0.0)), Goodbye]) by {
      DebitCents(m1.store, 150000);
      SessionStep(m1, c3);
      assert c3[1..] == c4;
      assert Step(m1, Debit(1500.0)) == (m2, Report(Debited(0.0)));
      assert [Report(Debited(0.0))] + [Goodbye] == [Report(Debited(0.0)), Goodbye];
    }
    assert Session(m1, c2) == (m3, [Report(InsufficientFunds), Report(Debited(0.0)), Goodbye]) by {
      DebitCents(m1.store, 200000);
      SessionStep(m1, c2);
      assert c2[1..] == c3;
      assert Step(m1, Debit(2000.0)) == (m1, Report(InsufficientFunds));
      assert [Report(InsufficientFunds)] + [Report(Debited(0.0)), Goodbye]
          == [Report(InsufficientFunds), Report(Debited(0.0)), Goodbye];
    }
    assert Session(m1, c1) == (m3, [Report(CurrentBalance(1500.0)), Report(InsufficientFunds),
                                   Report(Debited(0.0)), Goodbye]) by {
      SessionStep(m1, c1);
      assert c1[1..] == c2;
      assert [Report(CurrentBalance(1500.0))] + [Report(InsufficientFunds), Report(Debited(0.0)), Goodbye]
          == [Report(CurrentBalance(1500.0)), Report(InsufficientFunds), Report(Debited(0.0)), Goodbye];
    }
    CreditCents(m0.store, 50000);
    SessionStep(m0, c0);
    assert c0[1..] == c1;
    assert c0 == [Credit(500.0), View, Debit(2000.0), Debit(1500.0), Exit, View];
    assert [Report(Credited(1500.0))] + [Report(CurrentBalance(1500.0)), Report(InsufficientFunds),
                                         Report(Debited(0.0)), Goodbye]
        == [Report(Credited(1500.0)), Report(CurrentBalance(1500.0)), Report(InsufficientFunds),
            Report(Debited(0.0)), Goodbye];
  }

  /** Viewing at start-up reports 1000.00, which the ledger picture shows as
      `001000.00`. */
  lemma StartViewExample()
    ensures Step(Start(), View) == (Start(), Report(CurrentBalance(1000.0)))
    ensures Format.FormatBalance(Start().store.cents) == "001000.00"
  {
    Format.FormatExamples();
  }
}
