# Account management ledger, modelled in Dafny

This project models the single-account ledger of `src/accounting/index.js`. It is a Node.js port of a
COBOL account program. The program keeps one balance in memory, starting at 1000.00. A text menu lets
the user view it, credit it, debit it (refused when the balance does not cover the amount) or exit.
The balance is displayed through the COBOL picture `9(6)V99`, that is six integer digits, a point and
two fraction digits (`001000.00`).

The model is functional. There are five modules, one per component:

- `Money` (money.dfy) fixes the representation. A stored balance is a whole number of cents. An amount
  typed by the user is an exact `real`. `RoundCents` is the rounding that `toFixed(2)` followed by
  `parseFloat` performs: to the nearest cent, with ties going away from zero.
- `DataStore` (data_store.dfy) is `DataProgram`: `Read`, `Write`, `Reset` and the initial value.
- `Operations` (operations.dfy) is `viewBalance`, `creditAccount` and `debitAccount`. Each returns the
  new store together with a `Message` tag that stands for the line the program prints.
- `Format` (format.dfy) is `formatBalance`, built from models of `String(n)`, `padStart` and
  `toFixed(2)`. `ParseBalance` reads a picture back. `FormatBalance` renders a whole number of cents.
  `FormatRealAsWritten` renders any non-negative value exactly as the program's expression does, and
  `FormatReal` is the corrected rendering (see the Findings section below).
- `Menu` (menu.dfy) is the loop of `MainProgram.run`. It covers `trim()`, the `switch` on the choice, a
  two-mode machine (Running/Exited), a pure `Step` and `Session`, and a `Run` method with the source's
  `while` loop.

Three details of the code that are easy to misread:

- The choice is not one character. The whole input line is trimmed and then compared with `"1"` to
  `"4"`. So `" 4\n"` exits and `"11"` is invalid.
- Credit accepts any amount, negative ones included. Only the debit rule stops the balance going below
  zero. `SessionKeepsNonNegative` states exactly this.
- The credit and debit confirmations print the sum or difference BEFORE the store rounds it.
  `Credited`/`Debited` therefore carry the unrounded value.

## Model

| member | source | states |
|---|---|---|
| Money.RoundCents | src/accounting/index.js:39-41 | the stored value is the unique whole number of cents nearest to 100·v, ties away from zero, and a non-negative value never rounds below zero |
| Money.RoundCentsOfCents | src/accounting/index.js:31-33 | rounding a value that already has two decimals returns it unchanged, so the second rounding in `read` is harmless |
| DataStore.Initial | src/accounting/index.js:24 | the store starts at 1000.00 |
| DataStore.Read | src/accounting/index.js:31-33 | `read` returns exactly the stored amount of cents, at two-decimal precision |
| DataStore.Write | src/accounting/index.js:39-41 | `write` keeps the nearest cent to the given value, whatever was stored before |
| DataStore.Reset | src/accounting/index.js:46-48 | after `reset`, `read` gives 1000.00 whatever the prior state |
| DataStore.WriteThenRead | src/accounting/index.test.js:353-361 | a value with two decimals that is written and then read comes back unchanged |
| DataStore.WriteReadWrite | src/accounting/index.js:31-41 | reading after a write gives the written value rounded to cents, and writing back what was read changes nothing |
| DataStore.StoreExamples | src/accounting/index.test.js:352-382 | 1500.50, 1000.01 and 2500.75 survive a write/read round trip, and a reset after writing 2000 gives 1000.00 |
| Operations.ViewBalance | src/accounting/index.js:62-65 | viewing leaves the store untouched and reports its exact balance |
| Operations.CreditAccount | src/accounting/index.js:75-84 | a credit stores `RoundCents(balance + amount)`, the nearest cent with ties away from zero, with no bound and no sign check; a non-negative credit never lowers the balance; the confirmation shows the unrounded sum |
| Operations.DebitAccount | src/accounting/index.js:96-112 | when balance ≥ amount `RoundCents(balance − amount)` (nearest cent, ties away from zero) is stored, it is never negative, and the confirmation shows the difference; otherwise the store is unchanged and the debit is refused |
| Operations.CreditCents | src/accounting/index.js:79-81 | crediting a whole number of cents adds exactly that many cents |
| Operations.DebitCents | src/accounting/index.js:100-111 | a debit of whole cents succeeds exactly when it does not exceed the balance, and then subtracts exactly; otherwise nothing changes and insufficient funds is reported |
| Operations.CreditsAccumulate | src/accounting/index.test.js:121-137 | two credits of whole cents leave the same balance as one credit of their sum |
| Operations.DebitUndoesCredit | src/accounting/index.js:75-112 | on a non-negative balance, a debit of the whole-cent amount just credited restores the balance |
| Operations.OperationExamples | src/accounting/index.test.js:86-279 | from 1000.00: credit 500 gives 1500.00, then 250 more gives 1750.00, a zero credit changes nothing, 999999 gives 1000999.00, debit 500 gives 500.00, debiting everything gives 0.00, debits of 2000 and 9999999 are refused |
| Operations.ConfirmationShowsStored | src/accounting/index.js:79-107 | with the corrected picture, the confirmation of a credit whose sum is not negative, and of every covered debit, reads back as the balance now stored |
| Operations.ConfirmationCarryExample | src/accounting/index.js:79-83 | as written, crediting 0.999 to 1000.00 stores 1001.00 but shows `001000.00`; debiting 0.001 stores 1000.00 but shows 999.00 |
| Format.DecimalString | src/accounting/index.js:142 | `String(n)` is a non-empty digit string with no leading zero, except for 0 itself |
| Format.DecimalValue | src/accounting/index.js:142 | the digits of `String(n)` denote n |
| Format.PadStart | src/accounting/index.js:142 | padding fills on the left up to the width, keeps the string as a suffix and never shortens it |
| Format.FixedTwo | src/accounting/index.js:143 | a fraction of f hundredths renders as `0.` followed by the two digits of f |
| Format.FormatBalance | src/accounting/index.js:141-144 | the picture is at least nine characters long with the point three characters from the end (its digits and value are pinned by `FormatRoundTrip` and `PictureUnique`) |
| Format.DecimalLength | src/accounting/index.js:142 | the integer part has at most k digits exactly when it is below 10^k |
| Format.FormatWidth | src/accounting/index.js:141-144 | the picture is exactly nine characters wide iff the balance is at most 999999.99 cents-wise; above that it grows and is never cut |
| Format.IntegerPictureValue | src/accounting/index.js:142 | the zero-padded integer part is a digit string denoting n, exactly six characters wide iff n < 1000000 |
| Format.CentsAsWritten | src/accounting/index.js:141-144 | on every whole number of cents the program's expression gives exactly the ledger picture `FormatBalance` |
| Format.FormatRoundTrip | src/accounting/index.js:141-144 | every picture reads back as the balance it was made from |
| Format.PictureUnique | src/accounting/index.js:141-144 | every nine-character `dddddd.dd` string is the picture of the value it reads as, so the format is a bijection on 0..99999999 cents |
| Format.FormatExamples | src/accounting/index.test.js:333-349 | 1000.00, 0.00 and 999999.99 render as `001000.00`, `000000.00` and `999999.99` |
| Format.FixedFraction | src/accounting/index.js:143 | `toFixed(2)` of a fraction that rounds to h hundredths is `0.` and two digits, or `1.00` when h reaches 100 |
| Format.Fraction | src/accounting/index.js:143 | `(x % 1).toFixed(2)` rounds the fraction of a non-negative x to the nearest hundredth, at most 100 |
| Format.FormatRealAsWritten | src/accounting/index.js:141-144 | the program's picture of a non-negative value is the padded floor, a point and the hundredths its fraction rounds to, modulo 100: a fraction rounded up to 100 shows `00` and the floor is not raised |
| Format.FormatReal | src/accounting/index.js:141-144 | the corrected picture reads back as the value rounded to the nearest cent, and is nine characters wide iff that is at most 99999999 cents |
| Format.RoundSplit | src/accounting/index.js:142-143 | the nearest cent of a non-negative value is 100 times its floor plus the hundredths its fraction rounds to |
| Format.AsWrittenWithoutCarry | src/accounting/index.js:141-144 | when the fraction does not round up to a whole unit the program's picture is the corrected one |
| Format.AsWrittenLosesCarry | src/accounting/index.js:141-144 | when the fraction rounds up to a whole unit the program's picture reads back as one unit less than the rounded value, so it differs from the corrected one |
| Format.CarryExample | src/accounting/index.js:141-144 | 1000.999 is shown as `001000.00`, while its nearest cent is 1001.00 |
| Menu.Trim | src/accounting/index.js:176 | the trimmed choice neither starts nor ends with an ECMAScript whitespace or line terminator |
| Menu.TrimIgnoresPadding | src/accounting/index.js:176 | whitespace around a choice does not change its trim |
| Menu.TrimUnpadded | src/accounting/index.js:176 | a string without surrounding whitespace is its own trim |
| Menu.TrimIdempotent | src/accounting/index.js:176 | trimming twice is trimming once |
| Menu.Decode | src/accounting/index.js:179-199 | the trimmed choice `1`, `2`, `3`, `4` selects view, credit, debit, exit respectively (each an iff), anything else is invalid; credit and debit carry the amount entered |
| Menu.DecodeIgnoresPadding | src/accounting/index.js:176-179 | the dispatch depends only on the trimmed choice |
| Menu.Start | src/accounting/index.js:170-171 | the program starts Running with 1000.00 |
| Menu.Step | src/accounting/index.js:179-199 | one round: only exit leaves Running; view, exit and an invalid choice keep the balance; view reports the balance; credit stores `RoundCents(balance + amount)` and reports balance + amount; a covered debit stores `RoundCents(balance − amount)`, which is non-negative, and reports balance − amount; an uncovered debit keeps the balance and reports insufficient funds, an invalid choice and exit report themselves |
| Menu.Session | src/accounting/index.js:173-200 | a session yields at most one output per round; an exited machine or an empty input plays no round; from a running machine the first output is that of the first round |
| Menu.Run | src/accounting/index.js:170-205 | the `while (continueFlag)` loop plays exactly the rounds of `Session` over the decoded choices |
| Menu.SessionExits | src/accounting/index.js:171-200 | a session ends Exited exactly when some round chose exit; it is the only way out |
| Menu.SessionStopsAtExit | src/accounting/index.js:192-204 | input after the exit round is never read |
| Menu.SessionKeepsNonNegative | src/accounting/index.js:102-111 | without negative credits, a non-negative balance stays non-negative through any session |
| Menu.ViewsAreIdempotent | src/accounting/index.test.js:66-80 | any number of views leaves the machine unchanged and reports the same balance each time |
| Menu.InvalidChoiceKeepsRunning | src/accounting/index.js:196-198 | an invalid choice reports itself, keeps the balance and stays Running |
| Menu.InvalidChoiceExamples | src/accounting/index.test.js:286-316 | `0`, `5` and `-1` are invalid choices |
| Menu.PaddedExitExample | src/accounting/index.js:176 | ` 4` followed by a newline exits |
| Menu.SessionExample | src/accounting/index.js:170-205 | credit 500, view, debit 2000 (refused), debit 1500, exit ends at 0.00 with the matching outputs; a view typed after exit is ignored |
| Menu.StartViewExample | src/accounting/index.test.js:49-59 | viewing at start-up reports 1000.00, shown as `001000.00` |

## Findings

| source | as written | input that shows it | evidently intended | confidence | as-written member | corrected member |
|---|---|---|---|---|---|---|
| src/accounting/index.js:141-144 | the integer part is `Math.floor(balance)` and the fraction is `(balance % 1).toFixed(2).substring(1)`; a fraction of 0.995 or more rounds to `1.00`, whose `1` is dropped without raising the integer part | crediting 0.999 to 1000.00 stores 1001.00 but prints `001000.00` (index.js:80-83); debiting 0.001 prints `000999.00` while 1000.00 stays stored | the picture of the value rounded to the nearest cent, i.e. of what the store keeps | high; not executed | Format.FormatRealAsWritten, Format.AsWrittenLosesCarry, Operations.ConfirmationCarryExample | Format.FormatReal, Operations.ConfirmationShowsStored |

## Left out

- Console text is left out. `console.log`, `displayMenu` and the prompt strings become output tags (`Message`, `Output`). `prompt-sync` becomes the `Entry` sequence given to `Run`.
- `process.exit(0)` is modelled only as reaching the Exited mode with a `Goodbye` output.
- Input that runs out ends the model's session. The program would block waiting for input instead.
- Non-numeric amounts are left out. `parseFloat` can yield NaN, but here an amount is an already-parsed exact `real`.
- IEEE floating point is left out. Binary representation error, and artefacts of `toFixed`, `%` and `Math.floor` on inexact values, are not modelled; values are exact reals and integer cents.
- Format.FormatBalance: takes a non-negative number of cents. For a negative balance the source output is not a ledger picture at all (`Math.floor` and `padStart` on `"-1"`), so negative balances are not rendered.
- The credit and debit confirmations carry the unrounded value they print. It is rendered on exact reals (`FormatRealAsWritten`, `FormatReal`); only floating-point artefacts of that rendering are left out.
- Format.FormatRealAsWritten: takes a non-negative value. A negative confirmation value (possible after a negative credit) does not render as a ledger picture, as for negative balances.
- Format.FormatReal: takes a non-negative value, for the same reason.
- Format.DecimalString: `String(n)` switches to exponent form from 10^21 on (`String(1e21)` is the five characters `1e+21`, so `formatBalance(1e21)` is `01e+21.00`). The model keeps writing plain digits; that range lies beyond exact IEEE integers anyway.
- The second copy of `formatBalance` inside `Operations` (src/accounting/index.js:120-123) is identical to the exported one and is modelled once.
- The module-closure encoding, the `require.main` entry point and `module.exports` are plumbing and are not modelled.
